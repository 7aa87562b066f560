/** The state of the buffer pool as a value, its invariant, and what each step of
  `src/storage/buffer_pool.cpp` does to it.

  The first fields are those of the source: frames, the file on disk (a growable
  array of pages), page table, free list, and the two sets the replacer keeps.
  The last three hold what a client sees:

    - `pages`    the contents of every page, as if there were no cache;
    - `pins`     the pin count of every pinned page;
    - `written`  pages changed through a pinned frame by a writer that has not
                 yet called `UnpinPage(.., true)`.

  The invariant ties the two together, so the steps can be stated as what an
  uncached array of pages with pin counts would do.
 */
module PoolState {
  import opened Page

  datatype Frame = Frame(pageId: int, pin: nat, dirty: bool, data: PageData)

  const EMPTY_FRAME := Frame(INVALID_PAGE_ID, 0, false, Zeroed)

  datatype Pool = Pool(
    frames: seq<Frame>,
    disk: seq<PageData>,
    table: map<nat, nat>,
    free: seq<nat>,
    known: set<nat>,
    evictable: set<nat>,
    pages: seq<PageData>,
    pins: map<nat, nat>,
    written: set<nat>)
  {
    /** The frame of a resident page. */
    function FrameOf(p: nat): (r: Frame)
      requires p in table && table[p] < |frames|
    {
      frames[table[p]]
    }
  }

  predicate Resident(c: Pool, p: nat) {
    p in c.table && c.table[p] < |c.frames| && p < |c.disk| == |c.pages|
  }

  // ---------------------------------------------------------------- invariant

  /** Every frame other than `hole` (-1 for none) is either free or mapped by one page. */
  ghost predicate Inv(c: Pool, hole: int) {
    && |c.pages| == |c.disk|
    && ListsOk(c)
    && (forall f: nat :: f < |c.frames| ==> FrameOk(c, f, hole))
    && (forall p: nat :: PageOk(c, p, hole))
  }

  ghost predicate ListsOk(c: Pool) {
    && (forall i, j :: 0 <= i < j < |c.free| ==> c.free[i] != c.free[j])
    && (forall f :: f in c.free ==> f < |c.frames|)
    && (forall f :: f in c.known ==> f < |c.frames|)
    && c.evictable <= c.known
  }

  /** An unmapped frame is free; a mapped one belongs to one page, and is evictable
      exactly when that page is not pinned. */
  ghost predicate FrameOk(c: Pool, f: nat, hole: int)
    requires f < |c.frames|
  {
    var fr := c.frames[f];
    if fr.pageId == INVALID_PAGE_ID then
      f !in c.known && fr.pin == 0 && !fr.dirty && (f in c.free <==> f != hole)
    else
      && f !in c.free && f in c.known && f != hole
      && (f in c.evictable <==> fr.pin == 0)
      && fr.pageId in c.table && c.table[fr.pageId] == f
  }

  /** A client sees the frame of a resident page, else the disk; a clean frame with no
      outstanding writer equals the disk. Writers hold a pin. */
  ghost predicate PageOk(c: Pool, p: nat, hole: int)
    requires |c.pages| == |c.disk|
  {
    if p in c.table then
      && p < |c.pages| && c.table[p] < |c.frames| && c.table[p] != hole
      && c.FrameOf(p).pageId == p
      && c.pages[p] == c.FrameOf(p).data
      && (!c.FrameOf(p).dirty && p !in c.written ==> c.pages[p] == c.disk[p])
      && (if p in c.pins then 0 < c.pins[p] == c.FrameOf(p).pin
          else c.FrameOf(p).pin == 0 && p !in c.written)
    else
      p !in c.pins && p !in c.written && (p < |c.pages| ==> c.pages[p] == c.disk[p])
  }

  // ------------------------------------------------------- counting the frames

  /** The frames numbered below `n`. */
  function Range(n: nat): (r: set<nat>)
    ensures forall f: nat :: f in r <==> f < n
  {
    if n == 0 then {} else Range(n - 1) + {n - 1}
  }

  lemma {:induction false} RangeSize(n: nat)
    ensures |Range(n)| == n
  {
    if n > 0 {
      RangeSize(n - 1);
    }
  }

  /** The frames of a set of resident pages. */
  function FramesFor(pages: set<nat>, table: map<nat, nat>): (r: set<nat>) {
    set p | p in pages && p in table :: table[p]
  }

  /** Pages in distinct frames use as many frames as there are pages. */
  lemma {:induction false} FramesForSize(pages: set<nat>, table: map<nat, nat>)
    requires pages <= table.Keys
    requires forall p, q :: p in pages && q in pages && table[p] == table[q] ==> p == q
    ensures |FramesFor(pages, table)| == |pages|
    decreases |pages|
  {
    if pages == {} {
    } else {
      var p :| p in pages;
      assert FramesFor(pages, table) == FramesFor(pages - {p}, table) + {table[p]};
      FramesForSize(pages - {p}, table);
    }
  }

  lemma SubsetSize<T>(a: set<T>, b: set<T>)
    requires a <= b
    ensures |a| <= |b|
    ensures |a| == |b| ==> a == b
  {
    assert b == a + (b - a);
  }

  /** A frame holds a pinned page exactly when it is neither free nor evictable. */
  lemma PinnedFrame(c: Pool, f: nat)
    requires Inv(c, -1) && f < |c.frames|
    ensures f in FramesFor(c.pins.Keys, c.table) <==> f !in c.free && f !in c.evictable
  {
    assert FrameOk(c, f, -1);
    if f in FramesFor(c.pins.Keys, c.table) {
      var p :| p in c.pins && p in c.table && c.table[p] == f;
      assert PageOk(c, p, -1);
    } else if f !in c.free {
      assert PageOk(c, c.frames[f].pageId, -1);
    }
  }

  /** There are as many pinned pages as frames exactly when no frame is free or evictable. */
  lemma FullPool(c: Pool)
    requires Inv(c, -1)
    ensures |c.pins| <= |c.frames|
    ensures |c.pins| == |c.frames| <==> c.free == [] && c.evictable == {}
  {
    forall p | p in c.pins.Keys ensures p in c.table && c.table[p] < |c.frames| && c.FrameOf(p).pageId == p {
      assert PageOk(c, p, -1);
    }
    var used := FramesFor(c.pins.Keys, c.table);
    FramesForSize(c.pins.Keys, c.table);
    forall f: nat | f < |c.frames|
      ensures f in used <==> f !in c.free && f !in c.evictable
    {
      PinnedFrame(c, f);
    }
    AllUsed(|c.frames|, used, c.free, c.evictable);
  }

  lemma AllUsed(n: nat, used: set<nat>, free: seq<nat>, evictable: set<nat>)
    requires forall f :: f in used ==> f < n
    requires forall f :: f in free ==> f < n
    requires forall f :: f in evictable ==> f < n
    requires forall f: nat :: f < n ==> (f in used <==> f !in free && f !in evictable)
    ensures |used| <= n
    ensures |used| == n <==> free == [] && evictable == {}
  {
    RangeSize(n);
    SubsetSize(used, Range(n));
    if free != [] {
      assert free[0] in free && free[0] in Range(n);
    } else if evictable == {} {
      assert used == Range(n);
    }
  }

  // -------------------------------------------------------------------- steps

  /** An empty pool of `n` frames over a file. */
  function Fresh(n: nat, file: seq<PageData>): Pool {
    Pool(seq(n, _ => EMPTY_FRAME), file, map[], seq(n, i => i), {}, {}, file, map[], {})
  }

  lemma FreshInv(n: nat, file: seq<PageData>)
    ensures Inv(Fresh(n, file), -1)
  {
    var c := Fresh(n, file);
    forall f: nat | f < |c.frames| ensures FrameOk(c, f, -1) {
      assert c.free[f] == f;
    }
  }

  /** Takes the first frame of the free list. */
  function TakeFree(c: Pool): Pool
    requires c.free != []
  {
    c.(free := c.free[1..])
  }

  lemma TakeFreeKeeps(c: Pool)
    requires Inv(c, -1) && c.free != []
    ensures c.free[0] < |c.frames|
    ensures Inv(TakeFree(c), c.free[0])
  {
    var c', h := TakeFree(c), c.free[0];
    assert h in c.free;
    assert FrameOk(c, h, -1);
    assert forall f :: f in c.free <==> f == h || f in c'.free;
    forall f: nat | f < |c'.frames| ensures FrameOk(c', f, h) {
      assert FrameOk(c, f, -1);
    }
    forall q: nat ensures PageOk(c', q, h) {
      assert PageOk(c, q, -1);
    }
  }

  /** Takes the frame of an unpinned page, writing the page back if it is dirty. */
  function Evicted(c: Pool, f: nat): Pool
    requires f < |c.frames| && 0 <= c.frames[f].pageId < |c.disk|
  {
    var fr := c.frames[f];
    c.(frames := c.frames[f := fr.(pageId := INVALID_PAGE_ID, dirty := false)],
       disk := if fr.dirty then c.disk[fr.pageId := fr.data] else c.disk,
       table := c.table - {fr.pageId},
       known := c.known - {f},
       evictable := c.evictable - {f})
  }

  lemma EvictedKeeps(c: Pool, f: nat)
    requires Inv(c, -1) && f in c.evictable
    ensures f < |c.frames| && 0 <= c.frames[f].pageId < |c.disk|
    ensures Inv(Evicted(c, f), f)
  {
    assert f in c.known;
    assert FrameOk(c, f, -1);
    assert PageOk(c, c.frames[f].pageId, -1);
    var c' := Evicted(c, f);
    forall g: nat | g < |c'.frames| ensures FrameOk(c', g, f) {
      assert FrameOk(c, g, -1);
    }
    forall q: nat ensures PageOk(c', q, f) {
      assert PageOk(c, q, -1);
    }
  }

  /** Whichever frame is taken, pinned pages stay resident in their frames, and no page
      becomes resident. */
  lemma EvictedFrame(c: Pool, f: nat)
    requires Inv(c, -1) && f in c.evictable
    requires f < |c.frames| && 0 <= c.frames[f].pageId < |c.disk|
    ensures c.frames[f].pageId !in c.pins && Evicted(c, f).table.Keys <= c.table.Keys
    ensures SameFrames(c, Evicted(c, f))
  {
    assert f in c.known;
    assert FrameOk(c, f, -1);
    assert PageOk(c, c.frames[f].pageId, -1);
    PinnedResident(c);
  }

  /** A pinned page keeps its frame, so a `Page*` to it stays good. */
  ghost predicate SameFrames(c: Pool, c': Pool) {
    forall p :: p in c.pins ==> p in c.table && p in c'.table && c'.table[p] == c.table[p]
  }

  lemma PinnedResident(c: Pool)
    requires Inv(c, -1)
    ensures SameFrames(c, c)
  {
    forall p | p in c.pins ensures p in c.table {
      assert PageOk(c, p, -1);
    }
  }

  /** A page can be pinned when it is pinned already or resident or some frame is not. */
  lemma FetchFacts(c: Pool, p: nat)
    requires Inv(c, -1)
    ensures SameFrames(c, c)
    ensures |c.pins| <= |c.frames| && (p in c.table && p !in c.pins ==> |c.pins| < |c.frames|)
    ensures p in c.table ==> Resident(c, p)
    ensures p in c.table ==> c.FrameOf(p).pin == if p in c.pins then c.pins[p] else 0
    ensures p in c.pins || p in c.written ==> p in c.table && p in c.pins
  {
    FullPool(c);
    PinnedResident(c);
    assert PageOk(c, p, -1);
    if p in c.table { assert FrameOk(c, c.table[p], -1); }
  }

  /** Extends the file by one zero page. */
  function Allocated(c: Pool): Pool {
    c.(disk := c.disk + [Zeroed], pages := c.pages + [Zeroed])
  }

  lemma AllocatedKeeps(c: Pool, hole: int)
    requires Inv(c, hole)
    ensures Inv(Allocated(c), hole)
  {
    var c' := Allocated(c);
    forall g: nat | g < |c'.frames| ensures FrameOk(c', g, hole) {
      assert FrameOk(c, g, hole);
    }
    forall q: nat ensures PageOk(c', q, hole) {
      assert PageOk(c, q, hole);
    }
  }

  /** The next page of the file is not known to the pool yet. */
  lemma NotYetUsed(c: Pool, hole: int)
    requires Inv(c, hole)
    ensures |c.disk| !in c.table && |c.disk| !in c.pins && |c.disk| !in c.written
  {
    assert PageOk(c, |c.disk|, hole);
  }

  /** Reads page `p` from disk into frame `f` and pins it once. */
  function Installed(c: Pool, f: nat, p: nat): Pool
    requires f < |c.frames| && p < |c.disk|
  {
    c.(frames := c.frames[f := Frame(p, 1, false, c.disk[p])],
       table := c.table[p := f],
       known := c.known + {f},
       pins := c.pins[p := 1])
  }

  /** Pinned pages stay in their frames when a new page is allocated and installed. */
  lemma FramesKept(c0: Pool, c: Pool, f: nat, p: nat)
    requires SameFrames(c0, c) && p !in c.table && f < |c.frames| && p < |Allocated(c).disk|
    ensures SameFrames(c0, Installed(Allocated(c), f, p))
  {
  }

  lemma InstalledFacts(c0: Pool, c: Pool, f: nat, p: nat)
    requires SameFrames(c0, c) && p !in c.table && f < |c.frames| && p < |c.disk|
    ensures SameFrames(c0, Installed(c, f, p)) && p in Installed(c, f, p).table && Installed(c, f, p).table[p] == f
  {
  }

  lemma InstalledKeeps(c: Pool, f: nat, p: nat)
    requires f < |c.frames| && p < |c.disk|
    requires Inv(c, f) && p !in c.table
    ensures Inv(Installed(c, f, p), -1)
  {
    assert FrameOk(c, f, f);
    var c' := Installed(c, f, p);
    forall g: nat | g < |c'.frames| ensures FrameOk(c', g, -1) {
      assert FrameOk(c, g, f);
    }
    forall q: nat ensures PageOk(c', q, -1) {
      assert PageOk(c, q, f);
    }
  }

  /** Pins a resident page once more. */
  function Repinned(c: Pool, p: nat): Pool
    requires Resident(c, p)
  {
    var f := c.table[p];
    var fr := c.frames[f];
    c.(frames := c.frames[f := fr.(pin := fr.pin + 1)],
       evictable := c.evictable - {f},
       pins := c.pins[p := fr.pin + 1])
  }

  lemma RepinnedKeeps(c: Pool, p: nat)
    requires Inv(c, -1) && p in c.table
    ensures Resident(c, p)
    ensures Inv(Repinned(c, p), -1)
  {
    assert PageOk(c, p, -1);
    var c' := Repinned(c, p);
    forall g: nat | g < |c'.frames| ensures FrameOk(c', g, -1) {
      assert FrameOk(c, g, -1);
    }
    forall q: nat ensures PageOk(c', q, -1) {
      assert PageOk(c, q, -1);
    }
  }

  /** Drops one pin of a pinned page. */
  function Released(c: Pool, p: nat, dirty: bool): Pool
    requires Resident(c, p) && c.FrameOf(p).pin > 0
  {
    var f := c.table[p];
    var fr := c.frames[f];
    c.(frames := c.frames[f := fr.(pin := fr.pin - 1, dirty := fr.dirty || dirty)],
       evictable := if fr.pin == 1 then c.evictable + {f} else c.evictable,
       pins := if fr.pin == 1 then c.pins - {p} else c.pins[p := fr.pin - 1],
       written := if dirty then c.written - {p} else c.written)
  }

  /** The client protocol: the last pin of a changed page is dropped with the dirty flag. */
  ghost predicate Declared(c: Pool, p: nat, dirty: bool) {
    dirty || p !in c.written || (p in c.pins && c.pins[p] > 1)
  }

  lemma ReleasedKeeps(c: Pool, p: nat, dirty: bool)
    requires Inv(c, -1) && p in c.pins && Declared(c, p, dirty)
    ensures Resident(c, p) && c.FrameOf(p).pin > 0
    ensures Inv(Released(c, p, dirty), -1)
  {
    assert PageOk(c, p, -1);
    var c' := Released(c, p, dirty);
    assert FrameOk(c, c.table[p], -1);
    forall g: nat | g < |c'.frames| ensures FrameOk(c', g, -1) {
      assert FrameOk(c, g, -1);
    }
    forall q: nat ensures PageOk(c', q, -1) {
      assert PageOk(c, q, -1);
    }
  }

  /** A holder of the pinned page stores `d` through its `Page*`. */
  function Poked(c: Pool, p: nat, d: PageData): Pool
    requires Resident(c, p)
  {
    var f := c.table[p];
    c.(frames := c.frames[f := c.frames[f].(data := d)],
       pages := c.pages[p := d],
       written := c.written + {p})
  }

  lemma PokedKeeps(c: Pool, p: nat, d: PageData)
    requires Inv(c, -1) && p in c.pins
    ensures Resident(c, p)
    ensures Inv(Poked(c, p, d), -1)
  {
    assert PageOk(c, p, -1);
    var c' := Poked(c, p, d);
    forall g: nat | g < |c'.frames| ensures FrameOk(c', g, -1) {
      assert FrameOk(c, g, -1);
    }
    forall q: nat ensures PageOk(c', q, -1) {
      assert PageOk(c, q, -1);
    }
  }

  /** Writes a resident page to disk. */
  function Flushed(c: Pool, p: nat): Pool
    requires Resident(c, p)
  {
    var f := c.table[p];
    c.(frames := c.frames[f := c.frames[f].(dirty := false)],
       disk := c.disk[p := c.frames[f].data])
  }

  lemma FlushedKeeps(c: Pool, p: nat)
    requires Inv(c, -1) && p in c.table
    ensures Resident(c, p)
    ensures Inv(Flushed(c, p), -1)
  {
    assert PageOk(c, p, -1);
    var c' := Flushed(c, p);
    forall g: nat | g < |c'.frames| ensures FrameOk(c', g, -1) {
      assert FrameOk(c, g, -1);
    }
    forall q: nat ensures PageOk(c', q, -1) {
      assert PageOk(c, q, -1);
    }
  }

  /** Every resident page outside `todo` has been flushed if it was dirty; nothing else has
      changed. */
  ghost predicate FlushedBut(c0: Pool, c: Pool, todo: set<nat>) {
    && c == c0.(frames := c.frames, disk := c.disk) && |c.frames| == |c0.frames| && |c.disk| == |c0.disk|
    && (forall p: nat :: p < |c.disk| && p !in c0.table ==> c.disk[p] == c0.disk[p])
    && (forall p :: p in c0.table ==> Resident(c0, p) && FlushedIf(c0, c, p, todo))
  }

  ghost predicate FlushedIf(c0: Pool, c: Pool, p: nat, todo: set<nat>)
    requires Resident(c0, p) && c.table == c0.table && |c.frames| == |c0.frames| && |c.disk| == |c0.disk|
  {
    var fr := c0.FrameOf(p);
    if p !in todo then c.FrameOf(p) == fr.(dirty := false) && c.disk[p] == (if fr.dirty then fr.data else c0.disk[p])
    else c.FrameOf(p) == fr && c.disk[p] == c0.disk[p]
  }

  lemma FlushStart(c: Pool)
    requires Inv(c, -1)
    ensures FlushedBut(c, c, c.table.Keys)
  {
    forall p | p in c.table ensures Resident(c, p) {
      assert PageOk(c, p, -1);
    }
  }

  lemma FlushOne(c0: Pool, c: Pool, todo: set<nat>, p: nat)
    requires Inv(c0, -1) && FlushedBut(c0, c, todo) && p in todo && p in c0.table
    ensures Resident(c, p)
    ensures FlushedBut(c0, if c.FrameOf(p).dirty then Flushed(c, p) else c, todo - {p})
  {
    assert Resident(c0, p) && FlushedIf(c0, c, p, todo);
    var c' := if c.FrameOf(p).dirty then Flushed(c, p) else c;
    forall q | q in c0.table ensures Resident(c0, q) && FlushedIf(c0, c', q, todo - {p}) {
      assert PageOk(c0, q, -1) && PageOk(c0, p, -1);
      assert Resident(c0, q) && FlushedIf(c0, c, q, todo);
    }
  }

  /** Drops an unpinned resident page without writing it back. */
  function Dropped(c: Pool, p: nat): Pool
    requires Resident(c, p)
  {
    var f := c.table[p];
    c.(frames := c.frames[f := EMPTY_FRAME.(pin := c.frames[f].pin)],
       table := c.table - {p},
       free := c.free + [f],
       known := c.known - {f},
       evictable := c.evictable - {f},
       pages := c.pages[p := c.disk[p]])
  }

  lemma DroppedKeeps(c: Pool, p: nat)
    requires Inv(c, -1) && p in c.table && p !in c.pins
    ensures Resident(c, p)
    ensures Inv(Dropped(c, p), -1)
  {
    assert PageOk(c, p, -1);
    var c' := Dropped(c, p);
    var f := c.table[p];
    assert FrameOk(c, f, -1);
    assert forall g :: g in c'.free <==> g == f || g in c.free;
    forall g: nat | g < |c'.frames| ensures FrameOk(c', g, -1) {
      assert FrameOk(c, g, -1);
    }
    forall q: nat ensures PageOk(c', q, -1) {
      assert PageOk(c, q, -1);
    }
  }

  // ------------------------------------------------------------- the dirty flag

  /** After the last unpin and an eviction the disk has the contents of the page if and only if
      the flag was given, the frame was dirty already, or the disk had them before. */
  lemma EvictionKeepsIff(c: Pool, p: nat, dirty: bool)
    requires Inv(c, -1) && p in c.pins && c.pins[p] == 1
    ensures Resident(c, p) && c.FrameOf(p).pin == 1 && c.FrameOf(p).pageId == p
    ensures Evicted(Released(c, p, dirty), c.table[p]).disk[p] == c.pages[p]
            <==> dirty || c.FrameOf(p).dirty || c.disk[p] == c.pages[p]
  {
    assert PageOk(c, p, -1);
    assert FrameOk(c, c.table[p], -1);
  }

  /** A step of the pool that does not bring page `p` in. */
  ghost predicate Aside(c: Pool, c': Pool, p: nat) {
    || (c.free != [] && c' == TakeFree(c))
    || (exists f: nat :: f < |c.frames| && 0 <= c.frames[f].pageId < |c.disk| && c.frames[f].pageId != p && c' == Evicted(c, f))
    || c' == Allocated(c)
    || (exists f: nat, q: nat :: f < |c.frames| && q < |c.disk| && q != p && c' == Installed(c, f, q))
    || (exists q: nat :: q != p && Resident(c, q) && OtherPage(c, c', q))
  }

  /** A step on the resident page `q`. */
  ghost predicate OtherPage(c: Pool, c': Pool, q: nat)
    requires Resident(c, q)
  {
    || c' == Repinned(c, q)
    || (c.FrameOf(q).pin > 0 && (c' == Released(c, q, false) || c' == Released(c, q, true)))
    || (exists d :: c' == Poked(c, q, d))
    || c' == Flushed(c, q)
    || c' == Dropped(c, q)
  }

  lemma AsideKeeps(c: Pool, c': Pool, p: nat)
    requires Aside(c, c', p) && p < |c.disk| && p !in c.table
    ensures p < |c'.disk| && c'.disk[p] == c.disk[p] && p !in c'.table
  {
  }

  /** While a page is out, its place on the disk stays as its eviction left it. */
  lemma {:induction false} OutStays(cs: seq<Pool>, p: nat)
    requires cs != [] && p < |cs[0].disk| && p !in cs[0].table
    requires forall i :: 0 <= i < |cs| - 1 ==> Aside(cs[i], cs[i + 1], p)
    ensures var c := cs[|cs| - 1]; p < |c.disk| && c.disk[p] == cs[0].disk[p] && p !in c.table
  {
    if |cs| > 1 {
      var init := cs[..|cs| - 1];
      forall i | 0 <= i < |init| - 1 ensures Aside(init[i], init[i + 1], p) {
        assert Aside(cs[i], cs[i + 1], p);
      }
      OutStays(init, p);
      assert Aside(cs[|cs| - 2], cs[|cs| - 1], p);
      AsideKeeps(cs[|cs| - 2], cs[|cs| - 1], p);
    }
  }

  /** After the last unpin of a page and its eviction, and whatever happens to other pages in
      the meantime, the next fetch shows what the page held if and only if the unpin carried the
      dirty flag, the frame was dirty already, or the disk had those contents before. */
  lemma NextFetchIff(c: Pool, p: nat, dirty: bool, cs: seq<Pool>, f: nat)
    requires Inv(c, -1) && p in c.pins && c.pins[p] == 1 && Resident(c, p) && c.FrameOf(p).pin == 1 && c.FrameOf(p).pageId == p
    requires cs != [] && cs[0] == Evicted(Released(c, p, dirty), c.table[p])
    requires forall i :: 0 <= i < |cs| - 1 ==> Aside(cs[i], cs[i + 1], p)
    requires f < |cs[|cs| - 1].frames| && p < |cs[|cs| - 1].disk|
    ensures Installed(cs[|cs| - 1], f, p).FrameOf(p).data == c.pages[p]
            <==> dirty || c.FrameOf(p).dirty || c.disk[p] == c.pages[p]
  {
    EvictionKeepsIff(c, p, dirty);
    OutStays(cs, p);
  }

  /** A write that is lost: one frame, one page; fetch, store, unpin without the flag, evict,
      fetch again. The page shows its old contents. */
  lemma LostWrite(was: PageData, wrote: PageData)
    ensures var c := Poked(Installed(TakeFree(Fresh(1, [was])), 0, 0), 0, wrote);
            && Inv(c, -1) && c.pages[0] == wrote && c.pins == map[0 := 1] && !Declared(c, 0, false)
            && Installed(Evicted(Released(c, 0, false), 0), 0, 0).FrameOf(0).data == was
  {
    var c0 := Fresh(1, [was]);
    FreshInv(1, [was]);
    TakeFreeKeeps(c0);
    InstalledKeeps(TakeFree(c0), 0, 0);
    var c1 := Installed(TakeFree(c0), 0, 0);
    PokedKeeps(c1, 0, wrote);
    assert c1.pins == map[0 := 1];
  }

  /** Two states that clients cannot tell apart by contents and pins, with a page resident in
      one and evicted in the other: only `FlushPage`, which reports residency, differs. */
  lemma ResidencyVaries(a: PageData, b: PageData)
    ensures var resident := Released(Installed(TakeFree(Fresh(1, [a, b])), 0, 0), 0, false);
            var evicted := Released(Installed(Evicted(resident, 0), 0, 1), 1, false);
            && Inv(resident, -1) && Inv(evicted, -1) && 0 in resident.table && 0 !in evicted.table
            && resident.pages == evicted.pages && resident.pins == evicted.pins && resident.written == evicted.written
  {
    var c0 := Fresh(1, [a, b]);
    FreshInv(1, [a, b]);
    TakeFreeKeeps(c0);
    InstalledKeeps(TakeFree(c0), 0, 0);
    var c1 := Installed(TakeFree(c0), 0, 0);
    ReleasedKeeps(c1, 0, false);
    var resident := Released(c1, 0, false);
    assert resident.pins == map[] && 0 in resident.evictable;
    EvictedKeeps(resident, 0);
    InstalledKeeps(Evicted(resident, 0), 0, 1);
    var c2 := Installed(Evicted(resident, 0), 0, 1);
    ReleasedKeeps(c2, 1, false);
    assert Released(c2, 1, false).pins == map[];
  }
}
