/** The buffer pool manager: `src/storage/buffer_pool.cpp`.

  The fields are those of the source. Every method is proved to do to the pool what
  the steps of module PoolState do, and its contract restates the outcome in terms
  of `pages`, `pins` and `written` alone: but for the answer of `FlushPage`, a client cannot
  tell the pool from an uncached array of pages with pin counts and `poolSize` frames.
 */
module BufferPool {
  import opened Page
  import opened PoolState
  import opened LruReplacer
  import opened Recency

  /** Pin counts after one more pin on `p`. */
  function Pinned(pins: map<nat, nat>, p: nat): map<nat, nat> {
    pins[p := (if p in pins then pins[p] else 0) + 1]
  }

  /** Pin counts after one pin on `p` is dropped. */
  function Unpinned(pins: map<nat, nat>, p: nat): map<nat, nat>
    requires p in pins && pins[p] > 0
  {
    if pins[p] == 1 then pins - {p} else pins[p := pins[p] - 1]
  }

  lemma PinUnpin(pins: map<nat, nat>, p: nat)
    requires p in pins ==> pins[p] > 0
    ensures Unpinned(Pinned(pins, p), p) == pins
  {
  }

  /** What clients of the pool see: contents, pin counts, pages written but not declared dirty. */
  datatype Memory = Memory(pages: seq<PageData>, pins: map<nat, nat>, written: set<nat>)

  function Most(a: int, b: int): int {
    if a < b then b else a
  }

  /** `more` pins were taken, one after the other, and kept. */
  predicate Counted(held: int, peak: int, held': int, peak': int, more: nat) {
    held' == held + more && peak' == if more == 0 then peak else Most(peak, held + more)
  }

  /** At no time were there more than two pins above the first count; one of them is kept at
      most, and only if `keeps`. */
  predicate AtMostTwo(held: int, peak: int, held': int, peak': int, keeps: bool) {
    held <= held' <= held + (if keeps then 1 else 0) && peak' <= Most(peak, held + 2)
  }

  class BufferPoolManager {
    const poolSize: nat
    const frames: array<Frame>
    const replacer: LRUReplacer
    var disk: seq<PageData>
    var pageTable: map<nat, nat>
    var freeList: seq<nat>
    ghost var pages: seq<PageData>
    ghost var pins: map<nat, nat>
    ghost var written: set<nat>
    ghost var held: int
    ghost var peak: int

    ghost function Core(): Pool
      reads this`disk, this`pageTable, this`freeList, this`pages, this`pins, this`written, frames, replacer
    {
      Pool(frames[..], disk, pageTable, freeList, replacer.lruMap, replacer.evictable,
           pages, pins, written)
    }

    ghost function View(): Memory
      reads this`pages, this`pins, this`written
    {
      Memory(pages, pins, written)
    }

    /** When each resident page was last fetched or created. */
    ghost function Use(): Usage
      reads this`pageTable, replacer`stamp, replacer`clock
    {
      Usage(LastUses(pageTable, replacer.stamp), replacer.clock)
    }

    /** The class invariant. The quantifier holds its parts back from clients: only code
        that mentions `Sound(-1)` gets to see them. */
    ghost predicate Valid()
      reads this`disk, this`pageTable, this`freeList, this`pages, this`pins, this`written, frames, replacer
    {
      frames.Length == poolSize && forall hole {:trigger Sound(hole)} :: hole == -1 ==> Sound(hole)
    }

    /** The invariant while frame `hole` (if not -1) is taken but not yet mapped. */
    ghost predicate Sound(hole: int)
      reads this`disk, this`pageTable, this`freeList, this`pages, this`pins, this`written, frames, replacer
    {
      replacer.Valid() && Inv(Core(), hole)
    }

    /** What clients may conclude about pins. */
    lemma PinFacts(p: nat)
      requires Valid()
      ensures |pins| <= poolSize
      ensures p in pins ==> pins[p] > 0
      ensures p in written ==> p in pins
    {
      assert Sound(-1);
      FullPool(Core());
      assert PageOk(Core(), p, -1);
    }

    /** Frame `f` is where the pinned page `p` lives. */
    ghost predicate Holds(f: nat, p: nat)
      reads this`pageTable, this`pages, this`pins, frames
    {
      && f < frames.Length && p in pins && p < |pages|
      && p in pageTable && pageTable[p] == f
      && frames[f].pageId == p && frames[f].data == pages[p]
    }

    /** A page can be fetched when it is pinned already or some frame is not pinned. */
    ghost predicate CanFetch(p: nat)
      reads this`pins
    {
      p in pins || |pins| < poolSize
    }

    constructor (size: nat, file: seq<PageData>)
      ensures Valid() && fresh(frames) && fresh(replacer)
      ensures poolSize == size && disk == file
      ensures pages == file && pins == map[] && written == {} && pageTable == map[] && Use() == Usage(map[], 0)
    {
      poolSize := size;
      frames := new Frame[size](_ => EMPTY_FRAME);
      replacer := new LRUReplacer();
      disk, pageTable := file, map[];
      freeList := seq(size, i => i);
      pages, pins, written := file, map[], {};
      held, peak := 0, 0;
      new;
      FreshInv(size, file);
      assert frames[..] == Fresh(size, file).frames;
    }

    /** A free frame, or else the frame of the least recently used unpinned page, after
        writing that page back. Fails exactly when all frames are pinned. */
    method GetFreeFrame() returns (r: Option<nat>)
      requires Valid()
      modifies this`disk, this`pageTable, this`freeList, frames, replacer
      ensures r.None? <==> |pins| == poolSize
      ensures r.None? ==> Valid() && Core() == old(Core())
      ensures r.Some? ==> r.value < poolSize && Sound(r.value)
      ensures r.Some? && old(freeList) != [] ==>
                r.value == old(freeList)[0] && Core() == TakeFree(old(Core()))
      ensures r.Some? && old(freeList) == [] ==>
                && r.value in old(replacer.evictable)
                && Oldest(old(replacer.stamp), old(replacer.evictable), r.value)
                && 0 <= old(frames[r.value]).pageId < |old(disk)|
                && Core() == Evicted(old(Core()), r.value)
      ensures SameFrames(old(Core()), Core()) && pageTable.Keys <= old(pageTable.Keys) && |disk| == |old(disk)|
      ensures if r.Some? then Room(old(Use()), Use(), pins, poolSize) else Use() == old(Use())
    {
      assert Sound(-1);
      FullPool(Core());
      PinnedResident(Core());
      if freeList != [] {
        TakenRoom(Core(), replacer.stamp, replacer.clock);
        r := Some(freeList[0]);
        TakeFreeKeeps(Core());
        freeList := freeList[1..];
        return;
      }
      ghost var c, stamp := Core(), replacer.stamp;
      r := replacer.Evict();
      if r.Some? {
        EvictedKeeps(c, r.value);
        EvictedFrame(c, r.value);
        EvictedRoom(c, stamp, replacer.clock, r.value);
        Vacate(r.value, c);
      } else {
        assert c.known !! c.evictable && c.evictable <= c.known;
        assert c.evictable == {};
      }
    }

    /** The second half of GetFreeFrame: writes the victim back and unmaps its page. */
    method Vacate(f: nat, ghost c: Pool)
      requires frames.Length == poolSize
      requires f < |c.frames| && 0 <= c.frames[f].pageId < |c.disk|
      requires Core() == c.(known := c.known - {f}, evictable := c.evictable - {f})
      modifies this`disk, this`pageTable, frames
      ensures Core() == Evicted(c, f)
    {
      var page := frames[f];
      if page.dirty {
        disk := disk[page.pageId := page.data];
        frames[f] := page.(dirty := false);
      }
      pageTable := pageTable - {page.pageId};
      frames[f] := frames[f].(pageId := INVALID_PAGE_ID);
      assert frames[..] == Evicted(c, f).frames;
    }

    /** A page that is in some client's hands is where the invariant says it is. */
    lemma HoldsPinned(p: nat)
      requires Valid() && p in pins
      ensures p in pageTable && Holds(pageTable[p], p)
    {
      assert Sound(-1);
      assert PageOk(Core(), p, -1);
    }

    /** The new page is the next one of the file, zeroed and pinned once. */
    method NewPage() returns (r: Option<(nat, nat)>)
      requires Valid()
      modifies this`disk, this`pageTable, this`freeList, this`pages, this`pins, this`held, this`peak, frames, replacer
      ensures Valid() && Counted(old(held), old(peak), held, peak, if r.Some? then 1 else 0)
      ensures r.Some? <==> |old(pins)| != poolSize
      ensures r.None? ==> Core() == old(Core())
      ensures r.Some? ==>
                && r.value.0 == |old(pages)| && pages == old(pages) + [Zeroed]
                && r.value.0 !in old(pins) && r.value.0 !in written
                && pins == old(pins)[r.value.0 := 1] && Holds(r.value.1, r.value.0)
      ensures SameFrames(old(Core()), Core())
      ensures if r.Some? then Used(old(Use()), Use(), old(pins), poolSize, r.value.0) else Use() == old(Use())
    {
      ghost var c, u := Core(), Use();
      NotYetResident();
      var fid := GetFreeFrame();
      if fid.None? { return None; }
      ghost var u1 := Use();
      var p := PlaceNew(fid.value, c);
      r := Some((p, fid.value));
      RoomUsed(u, u1, Use(), old(pins), poolSize, p);
    }

    lemma NotYetResident()
      requires Valid()
      ensures |pages| !in pageTable && |pages| !in Use().last
    {
      assert Sound(-1);
      NotYetUsed(Core(), -1);
    }

    /** The times of use are those of the resident pages; they are all in the past and differ. */
    lemma UseFacts(p: nat, q: nat)
      requires Valid()
      ensures Use().last.Keys == pageTable.Keys && |pageTable| <= poolSize
      ensures p in pageTable ==> Use().last[p] < Use().now
      ensures p in pageTable && q in pageTable && p != q ==> Use().last[p] != Use().last[q]
    {
      assert Sound(-1);
      UsesKeys(Core(), -1, replacer.stamp);
      FreeIff(Core());
      if p in pageTable && q in pageTable {
        FrameFacts(Core(), -1, p, q);
        FrameFacts(Core(), -1, q, p);
        replacer.StampFacts(pageTable[p], pageTable[q]);
      }
    }

    lemma AllPast()
      requires Valid()
      ensures forall p :: p in Use().last ==> Use().last[p] < Use().now
    {
      forall p | p in Use().last ensures Use().last[p] < Use().now {
        UseFacts(p, p);
      }
    }

    /** The second half of NewPage: allocates a page and puts it into frame `f`. */
    method PlaceNew(f: nat, ghost c: Pool) returns (p: nat)
      requires frames.Length == poolSize && f < poolSize && Sound(f) && SameFrames(c, Core())
      modifies this`disk, this`pageTable, this`pages, this`pins, this`held, this`peak, frames, replacer
      ensures Valid() && Counted(old(held), old(peak), held, peak, 1)
      ensures p == |old(pages)| && pages == old(pages) + [Zeroed] && p !in old(pins) && p !in written
      ensures pins == old(pins)[p := 1] && Holds(f, p) && SameFrames(c, Core())
      ensures Use() == Usage(old(Use()).last[p := old(Use()).now], old(Use()).now + 1)
    {
      ghost var c1 := Core();
      NotYetUsed(c1, f);
      p := Allocate(f);
      Occupy(f, p);
      FramesKept(c, c1, f, p);
      HoldsPinned(p);
    }

    /** The disk manager appends a zeroed page. */
    method Allocate(ghost hole: nat) returns (p: nat)
      requires frames.Length == poolSize && Sound(hole)
      modifies this`disk, this`pages
      ensures p == |old(disk)| && Core() == Allocated(old(Core())) && Sound(hole)
    {
      AllocatedKeeps(Core(), hole);
      p := |disk|;
      disk := disk + [Zeroed];
      pages := pages + [Zeroed];
    }

    /** Pins a page, bringing it in from disk when it is not resident. */
    method FetchPage(p: nat) returns (r: Option<nat>)
      requires Valid() && p < |pages|
      modifies this`disk, this`pageTable, this`freeList, this`pins, this`held, this`peak, frames, replacer
      ensures Valid() && Counted(old(held), old(peak), held, peak, if r.Some? then 1 else 0)
      ensures r.Some? <==> old(CanFetch(p))
      ensures r.None? ==> Core() == old(Core())
      ensures r.Some? ==> pins == Pinned(old(pins), p) && Holds(r.value, p)
      ensures p in written ==> p in old(pins)
      ensures SameFrames(old(Core()), Core())
      ensures if r.Some? then Used(old(Use()), Use(), old(pins), poolSize, p) else Use() == old(Use())
    {
      assert Sound(-1);
      ghost var c := Core();
      FetchFacts(c, p);
      if p in pageTable {
        r := Some(pageTable[p]);
        Hit(p);
      } else {
        r := Miss(p);
        if r.None? { return; }
      }
      HoldsPinned(p);
    }

    /** The other case of FetchPage: the page is read into a frame. */
    method Miss(p: nat) returns (r: Option<nat>)
      requires Valid() && p < |pages| && p !in pageTable
      modifies this`disk, this`pageTable, this`freeList, this`pins, this`held, this`peak, frames, replacer
      ensures Valid() && Counted(old(held), old(peak), held, peak, if r.Some? then 1 else 0)
      ensures r.Some? <==> |old(pins)| != poolSize
      ensures r.None? ==> Core() == old(Core())
      ensures r.Some? ==> p in pageTable && r.value == pageTable[p] && pins == old(pins)[p := 1] && SameFrames(old(Core()), Core())
      ensures if r.Some? then Used(old(Use()), Use(), old(pins), poolSize, p) else Use() == old(Use())
    {
      ghost var c, u := Core(), Use();
      DiskSize();
      r := GetFreeFrame();
      if r.None? { return; }
      ghost var u1 := Use();
      PlaceOld(r.value, p, c);
      RoomUsed(u, u1, Use(), old(pins), poolSize, p);
    }

    /** Reads page `p` into frame `f`. */
    method PlaceOld(f: nat, p: nat, ghost c: Pool)
      requires frames.Length == poolSize && f < poolSize && Sound(f) && SameFrames(c, Core())
      requires p < |disk| && p !in pageTable
      modifies this`pageTable, this`pins, this`held, this`peak, frames, replacer
      ensures Valid() && Counted(old(held), old(peak), held, peak, 1)
      ensures p in pageTable && pageTable[p] == f && pins == old(pins)[p := 1] && SameFrames(c, Core())
      ensures Use() == Usage(old(Use()).last[p := old(Use()).now], old(Use()).now + 1)
    {
      ghost var c1 := Core();
      Occupy(f, p);
      InstalledFacts(c, c1, f, p);
    }

    lemma DiskSize()
      requires Valid()
      ensures |disk| == |pages|
    {
      assert Sound(-1);
    }

    /** The resident case of FetchPage. */
    method Hit(p: nat)
      requires Valid() && Resident(Core(), p)
      modifies this`pins, this`held, this`peak, frames, replacer
      ensures Valid() && Counted(old(held), old(peak), held, peak, 1)
      ensures Core() == Repinned(old(Core()), p)
      ensures Used(old(Use()), Use(), old(pins), poolSize, p)
    {
      HitFacts(p);
      held := held + 1;
      peak := Most(peak, held);
      assert Sound(-1);
      ghost var c := Core();
      var f := pageTable[p];
      RepinnedKeeps(c, p);
      assert PageOk(c, p, -1) && FrameOk(c, f, -1);
      frames[f] := frames[f].(pin := frames[f].pin + 1);
      pins := pins[p := frames[f].pin];
      assert frames[..] == Repinned(c, p).frames;
      Touch(f);
      assert c.known + {f} == c.known;
    }

    lemma HitFacts(p: nat)
      requires Valid() && p in pageTable
      ensures p in Use().last
      ensures LastUses(pageTable, replacer.stamp[pageTable[p] := replacer.clock]) == Use().last[p := Use().now]
    {
      UseFacts(p, p);
      assert Sound(-1);
      HitUse(Core(), replacer.stamp, p, replacer.clock);
    }

    /** Frame `f` is accessed and may not be evicted. */
    method Touch(f: nat)
      requires replacer.Valid()
      modifies replacer
      ensures replacer.Valid()
      ensures Core() == old(Core()).(known := old(Core()).known + {f}, evictable := old(Core()).evictable - {f})
      ensures replacer.stamp == old(replacer.stamp)[f := old(replacer.clock)] && replacer.clock == old(replacer.clock) + 1
    {
      replacer.RecordAccess(f);
      replacer.SetEvictable(f, false);
    }

    /** The common end of NewPage and FetchPage: frame `f` now holds page `p`, pinned. */
    method Occupy(f: nat, p: nat)
      requires frames.Length == poolSize
      requires f < poolSize && p < |disk| && p !in pageTable && Sound(f)
      modifies this`pageTable, this`pins, this`held, this`peak, frames, replacer
      ensures Valid() && Counted(old(held), old(peak), held, peak, 1)
      ensures Core() == Installed(old(Core()), f, p)
      ensures Use() == Usage(old(Use()).last[p := old(Use()).now], old(Use()).now + 1)
    {
      InstallUse(Core(), replacer.stamp, f, p, replacer.clock);
      held := held + 1;
      peak := Most(peak, held);
      ghost var c := Core();
      InstalledKeeps(c, f, p);
      assert FrameOk(c, f, f);
      frames[f] := Frame(p, 1, false, disk[p]);
      pageTable := pageTable[p := f];
      pins := pins[p := 1];
      Touch(f);
      assert frames[..] == Installed(c, f, p).frames;
      assert Core() == Installed(c, f, p);
    }

    /** A store through the `Page*` of a pinned page. */
    method Write(f: nat, ghost p: nat, d: PageData)
      requires Valid() && Holds(f, p)
      modifies this`pages, this`written, frames
      ensures Valid() && Holds(f, p)
      ensures pages == old(pages)[p := d] && written == old(written) + {p}
    {
      assert Sound(-1);
      ghost var c := Core();
      PokedKeeps(c, p, d);
      frames[f] := frames[f].(data := d);
      pages := pages[p := d];
      written := written + {p};
      assert frames[..] == Poked(c, p, d).frames;
    }

    /** Drops one pin; the last one makes the frame evictable. This does not count as an access:
        of the replacer only the evictable set may change. */
    method UnpinPage(p: nat, dirty: bool) returns (ok: bool)
      requires Valid() && Declared(Core(), p, dirty)
      modifies this`pins, this`written, this`held, frames, replacer`evictable
      ensures Valid() && held == old(held) - if ok then 1 else 0
      ensures ok <==> p in old(pins)
      ensures !ok ==> Core() == old(Core())
      ensures ok ==> old(pins)[p] > 0 && pins == Unpinned(old(pins), p)
      ensures ok ==> written == if dirty then old(written) - {p} else old(written)
    {
      assert Sound(-1);
      ghost var c := Core();
      FetchFacts(c, p);
      if p !in pageTable { return false; }
      var f := pageTable[p];
      assert PageOk(c, p, -1);
      if frames[f].pin == 0 { return false; }
      Release(p, dirty);
      held := held - 1;
      ok := true;
    }

    /** The rest of UnpinPage: the page is pinned. */
    method Release(p: nat, dirty: bool)
      requires Valid() && Declared(Core(), p, dirty) && p in pins
      modifies this`pins, this`written, frames, replacer`evictable
      ensures Valid() && old(pins)[p] > 0 && pins == Unpinned(old(pins), p)
      ensures written == if dirty then old(written) - {p} else old(written)
      ensures Resident(old(Core()), p) && old(Core()).FrameOf(p).pin > 0 && Core() == Released(old(Core()), p, dirty)
    {
      assert Sound(-1);
      ghost var c := Core();
      assert PageOk(c, p, -1);
      var f := pageTable[p];
      assert FrameOk(c, f, -1);
      ReleasedKeeps(c, p, dirty);
      frames[f] := frames[f].(dirty := frames[f].dirty || dirty, pin := frames[f].pin - 1);
      pins := Unpinned(pins, p);
      written := if dirty then written - {p} else written;
      if frames[f].pin == 0 { replacer.SetEvictable(f, true); }
      assert frames[..] == Released(c, p, dirty).frames;
      assert Core() == Released(c, p, dirty);
    }

    /** Writes a resident page to disk. */
    method FlushPage(p: nat) returns (ok: bool)
      requires Valid()
      modifies this`disk, frames
      ensures Valid()
      ensures ok <==> p in pageTable
      ensures !ok ==> Core() == old(Core())
      ensures ok ==> p < |pages| == |old(disk)| && disk == old(disk)[p := pages[p]]
    {
      assert Sound(-1);
      if p !in pageTable { return false; }
      assert PageOk(Core(), p, -1);
      Flush(p);
      ok := true;
    }

    /** `WritePage` and clearing the dirty flag. */
    method Flush(p: nat)
      requires Valid() && Resident(Core(), p)
      modifies this`disk, frames
      ensures Valid()
      ensures disk == old(disk)[p := pages[p]]
      ensures Core() == Flushed(old(Core()), p)
    {
      assert Sound(-1);
      ghost var c := Core();
      assert PageOk(c, p, -1);
      FlushedKeeps(c, p);
      var f := pageTable[p];
      disk := disk[p := frames[f].data];
      frames[f] := frames[f].(dirty := false);
      assert frames[..] == Flushed(c, p).frames;
    }

    /** Exactly the dirty frames are written and become clean. Afterwards the disk equals what
        clients see, except where a writer is still at work. */
    method FlushAllPages()
      requires Valid()
      modifies this`disk, frames
      ensures Valid()
      ensures |disk| == |old(disk)| == |pages|
      ensures forall p: nat :: p < |pages| && p !in written ==> disk[p] == pages[p]
      ensures FlushedBut(old(Core()), Core(), {})
    {
      ghost var c := Core();
      assert Sound(-1);
      FlushStart(c);
      var todo := pageTable.Keys;
      while todo != {}
        invariant Valid() && todo <= pageTable.Keys && FlushedBut(c, Core(), todo)
        decreases |todo|
      {
        var p :| p in todo;
        FlushOne(c, Core(), todo, p);
        todo := todo - {p};
        if frames[pageTable[p]].dirty {
          Flush(p);
        }
      }
      assert Sound(-1);
      forall p: nat | p < |pages| && p !in written ensures disk[p] == pages[p] {
        assert PageOk(Core(), p, -1);
        assert p in pageTable ==> FlushedIf(c, Core(), p, {});
      }
    }

    /** Refuses a pinned page; forgets an unpinned resident one without writing it back. */
    method DeletePage(p: nat) returns (ok: bool)
      requires Valid()
      modifies this`pageTable, this`freeList, this`pages, frames, replacer
      ensures Valid()
      ensures ok <==> p !in pins
      ensures p in pins || p !in old(pageTable) ==> Core() == old(Core())
      ensures p !in pins && p in old(pageTable) ==>
                && Resident(old(Core()), p)
                && Core() == Dropped(old(Core()), p)
      ensures Use() == Usage(if p in pins then old(Use()).last else old(Use()).last - {p}, old(Use()).now)
    {
      assert Sound(-1);
      UseFacts(p, p);
      FetchFacts(Core(), p);
      assert PageOk(Core(), p, -1);
      if p !in pageTable { return true; }
      if frames[pageTable[p]].pin > 0 { return false; }
      Drop(p);
      ok := true;
    }

    /** The rest of DeletePage: the page is resident and not pinned. */
    method Drop(p: nat)
      requires Valid() && Resident(Core(), p) && p !in pins
      modifies this`pageTable, this`freeList, this`pages, frames, replacer
      ensures Valid() && Core() == Dropped(old(Core()), p)
      ensures Use() == Usage(old(Use()).last - {p}, old(Use()).now)
    {
      assert Sound(-1);
      ghost var c := Core();
      ForgetUse(c, replacer.stamp, p);
      var f := pageTable[p];
      assert PageOk(c, p, -1) && FrameOk(c, f, -1);
      DroppedKeeps(c, p);
      pageTable := pageTable - {p};
      replacer.Remove(f);
      freeList := freeList + [f];
      frames[f] := Frame(INVALID_PAGE_ID, frames[f].pin, false, Zeroed);
      pages := pages[p := disk[p]];
      assert frames[..] == Dropped(c, p).frames;
      assert Core() == Dropped(c, p);
    }
  }
}
