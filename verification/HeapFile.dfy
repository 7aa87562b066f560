/** Heap files over the buffer pool: `src/storage/heap_file.cpp`.

  A heap file is a chain of pages filled in insertion order. The ghost field `chain` lists
  its pages; `Rows()` is what a full scan visits.
 */
module HeapFiles {
  import opened Basics
  import opened Page
  import opened BufferPool
  import opened PageAccess

  const HEAP_HEADER_SIZE := 8

  /** A visited tuple and where it is. */
  datatype Row = Row(rid: RID, tuple: Tuple)

  /** The rows of one page. */
  function PageRows(pid: nat, tuples: seq<Tuple>): (r: seq<Row>)
    ensures |r| == |tuples|
    ensures forall i :: 0 <= i < |r| ==> r[i] == Row(RID(pid, i), tuples[i])
  {
    seq(|tuples|, i requires 0 <= i < |tuples| => Row(RID(pid, i), tuples[i]))
  }

  function TuplesAt(pages: seq<PageData>, pid: nat): seq<Tuple> {
    if pid < |pages| && pages[pid].HeapPage? then pages[pid].tuples else []
  }

  /** The rows of a chain of pages, in order. */
  function ChainRows(pages: seq<PageData>, chain: seq<nat>): seq<Row> {
    if chain == [] then []
    else ChainRows(pages, chain[..|chain| - 1])
         + PageRows(chain[|chain| - 1], TuplesAt(pages, chain[|chain| - 1]))
  }

  /** The pages form a list: each points to the next, the last to none; no page twice, so
      the list has no cycle. Every page holds at most `max` tuples. */
  ghost predicate Linked(pages: seq<PageData>, chain: seq<nat>, max: nat) {
    && (forall i: nat :: i < |chain| ==> LinkOk(pages, chain, i, max))
    && (forall i, j :: 0 <= i < j < |chain| ==> chain[i] != chain[j])
  }

  ghost predicate LinkOk(pages: seq<PageData>, chain: seq<nat>, i: nat, max: nat)
    requires i < |chain|
  {
    && chain[i] < |pages| && pages[chain[i]].HeapPage? && |pages[chain[i]].tuples| <= max
    && pages[chain[i]].next == if i + 1 < |chain| then chain[i + 1] else INVALID_PAGE_ID
  }

  /** Rows depend only on the pages of the chain. */
  lemma {:induction false} RowsFrame(pages: seq<PageData>, pages': seq<PageData>, chain: seq<nat>)
    requires forall i :: 0 <= i < |chain| ==> TuplesAt(pages', chain[i]) == TuplesAt(pages, chain[i])
    ensures ChainRows(pages', chain) == ChainRows(pages, chain)
  {
    if chain != [] {
      RowsFrame(pages, pages', chain[..|chain| - 1]);
    }
  }

  /** Storing one more tuple in the last page appends one row. */
  lemma {:induction false} AppendTuple(pages: seq<PageData>, chain: seq<nat>, max: nat, t: Tuple)
    requires chain != [] && Linked(pages, chain, max) && chain[|chain| - 1] < |pages|
    requires |TuplesAt(pages, chain[|chain| - 1])| < max
    ensures var last := chain[|chain| - 1];
            var ts := TuplesAt(pages, last);
            var pages' := pages[last := HeapPage(ts + [t], INVALID_PAGE_ID)];
            && Linked(pages', chain, max)
            && ChainRows(pages', chain) == ChainRows(pages, chain) + [Row(RID(last, |ts|), t)]
  {
    var n := |chain| - 1;
    var last := chain[n];
    assert LinkOk(pages, chain, n, max);
    var ts := TuplesAt(pages, last);
    var pages' := pages[last := HeapPage(ts + [t], INVALID_PAGE_ID)];
    forall i: nat | i < |chain| ensures LinkOk(pages', chain, i, max) {
      assert LinkOk(pages, chain, i, max);
    }
    RowsFrame(pages, pages', chain[..n]);
    PageRowsSnoc(last, ts, t);
    Assoc(ChainRows(pages, chain[..n]), PageRows(last, ts), [Row(RID(last, |ts|), t)]);
  }

  lemma PageRowsSnoc(pid: nat, ts: seq<Tuple>, t: Tuple)
    ensures PageRows(pid, ts + [t]) == PageRows(pid, ts) + [Row(RID(pid, |ts|), t)]
  {
  }

  /** Linking an empty page behind the last one changes no row. */
  lemma {:induction false} ExtendChain(pages: seq<PageData>, chain: seq<nat>, max: nat)
    requires chain != [] && Linked(pages, chain, max) && chain[|chain| - 1] < |pages|
    ensures var last, new_ := chain[|chain| - 1], |pages|;
            var pages' := (pages + [HeapPage([], INVALID_PAGE_ID)])[last := HeapPage(TuplesAt(pages, last), new_)];
            && Linked(pages', chain + [new_], max)
            && ChainRows(pages', chain + [new_]) == ChainRows(pages, chain)
  {
    var n, p := |chain| - 1, |pages|;
    var last := chain[n];
    assert LinkOk(pages, chain, n, max);
    var pages' := (pages + [HeapPage([], INVALID_PAGE_ID)])[last := HeapPage(TuplesAt(pages, last), p)];
    var chain' := chain + [p];
    forall i: nat | i < |chain'| ensures LinkOk(pages', chain', i, max) {
      if i < |chain| { assert LinkOk(pages, chain, i, max); }
    }
    forall i | 0 <= i < |chain| ensures TuplesAt(pages', chain[i]) == TuplesAt(pages, chain[i]) && chain[i] != p {
      assert LinkOk(pages, chain, i, max);
    }
    RowsFrame(pages, pages', chain);
    assert chain'[..|chain|] == chain;
    assert PageRows(p, []) == [];
  }

  ghost predicate RidsDistinct(rows: seq<Row>) {
    forall i, j :: 0 <= i < j < |rows| ==> rows[i].rid != rows[j].rid
  }

  ghost predicate RidsIn(rows: seq<Row>, chain: seq<nat>) {
    forall i :: 0 <= i < |rows| ==> exists k :: 0 <= k < |chain| && rows[i].rid.pageId == chain[k]
  }

  /** Record ids of a chain are pairwise distinct. */
  lemma {:induction false} RowsDistinct(pages: seq<PageData>, chain: seq<nat>)
    requires forall i, j :: 0 <= i < j < |chain| ==> chain[i] != chain[j]
    ensures RidsDistinct(ChainRows(pages, chain)) && RidsIn(ChainRows(pages, chain), chain)
  {
    if chain != [] {
      var n := |chain| - 1;
      RowsDistinct(pages, chain[..n]);
      var a, b := ChainRows(pages, chain[..n]), PageRows(chain[n], TuplesAt(pages, chain[n]));
      forall i | 0 <= i < |a|
        ensures a[i].rid.pageId != chain[n]
        ensures exists k :: 0 <= k < |chain| && a[i].rid.pageId == chain[k]
      {
        var k :| 0 <= k < |chain[..n]| && a[i].rid.pageId == chain[..n][k];
        assert chain[k] == chain[..n][k];
      }
      assert ChainRows(pages, chain) == a + b;
    }
  }

  /** The rows a scan hands to its callback: up to the first one it refuses. */
  function Visited(rows: seq<Row>, accept: Row -> bool): seq<Row> {
    if rows == [] then []
    else if accept(rows[0]) then [rows[0]] + Visited(rows[1..], accept)
    else [rows[0]]
  }

  /** The rows visited are the first so many, all but the last of them accepted; it stops there
      because that one is refused, or because there are no more. */
  lemma {:induction false} VisitedMeans(rows: seq<Row>, accept: Row -> bool)
    ensures var n := |Visited(rows, accept)|;
            && n <= |rows| && Visited(rows, accept) == rows[..n]
            && (forall i :: 0 <= i < n - 1 ==> accept(rows[i]))
            && (n < |rows| ==> n > 0 && !accept(rows[n - 1]))
  {
    if rows != [] && accept(rows[0]) {
      VisitedMeans(rows[1..], accept);
      var n := |Visited(rows[1..], accept)|;
      assert rows[..n + 1] == [rows[0]] + rows[1..][..n];
      forall i | 0 <= i < n ensures accept(rows[i]) {
        if i > 0 { assert rows[i] == rows[1..][i - 1]; }
      }
    }
  }

  /** All rows were accepted. */
  ghost predicate AllAccepted(rows: seq<Row>, accept: Row -> bool) {
    forall i :: 0 <= i < |rows| ==> accept(rows[i])
  }

  lemma {:induction false} VisitedConcat(a: seq<Row>, b: seq<Row>, accept: Row -> bool)
    ensures AllAccepted(a, accept) ==> Visited(a + b, accept) == a + Visited(b, accept)
    ensures !AllAccepted(a, accept) ==> Visited(a + b, accept) == Visited(a, accept)
  {
    if a == [] {
      assert a + b == b;
    } else {
      assert (a + b)[1..] == a[1..] + b && (a + b)[0] == a[0];
      VisitedConcat(a[1..], b, accept);
      if AllAccepted(a[1..], accept) && accept(a[0]) {
        assert AllAccepted(a, accept) by {
          forall i | 0 <= i < |a| ensures accept(a[i]) { if i > 0 { assert a[i] == a[1..][i - 1]; } }
        }
      }
      if AllAccepted(a, accept) {
        assert forall i :: 0 <= i < |a[1..]| ==> a[1..][i] == a[i + 1];
      }
    }
  }

  /** How many pages, from the front, can be fetched. */
  ghost function Reach(pins: map<nat, nat>, frames: nat, pids: seq<nat>): (n: nat)
    ensures n <= |pids|
    ensures forall i :: 0 <= i < n ==> pids[i] in pins || |pins| < frames
    ensures n < |pids| ==> pids[n] !in pins && |pins| >= frames
  {
    if pids == [] || (pids[0] !in pins && |pins| >= frames) then 0 else 1 + Reach(pins, frames, pids[1..])
  }

  lemma ReachAll(pins: map<nat, nat>, frames: nat, pids: seq<nat>)
    ensures |pins| < frames ==> Reach(pins, frames, pids) == |pids|
  {
  }

  /** The page ids that the parallel scan gets: up to and with the first that cannot be fetched. */
  ghost function Listed(pins: map<nat, nat>, frames: nat, pids: seq<nat>): seq<nat> {
    var reach := Reach(pins, frames, pids);
    if reach < |pids| then pids[..reach + 1] else pids
  }

  /** That is: a prefix of the chain, in which every page but the last can be fetched, and the last
      cannot unless the chain ends there. */
  lemma ListedMeans(pins: map<nat, nat>, frames: nat, pids: seq<nat>)
    requires pids != []
    ensures var ids := Listed(pins, frames, pids);
            && ids != [] && ids <= pids
            && (forall i :: 0 <= i < |ids| - 1 ==> ids[i] in pins || |pins| < frames)
            && (ids == pids || (ids[|ids| - 1] !in pins && |pins| >= frames))
  {
  }

  class HeapFile {
    const pool: BufferPoolManager
    const tupleSize: nat
    const firstPageId: nat
    var lastPageId: nat
    ghost var chain: seq<nat>

    /** `1 <= tuple_size <= PAGE_SIZE - 8`: at least one tuple fits in a page. */
    ghost predicate SizeFits() {
      1 <= tupleSize <= PAGE_SIZE - HEAP_HEADER_SIZE
    }

    ghost predicate Valid()
      reads this, pool, pool.frames, pool.replacer
    {
      && SizeFits() && pool.Valid()
      && chain != [] && chain[0] == firstPageId && chain[|chain| - 1] == lastPageId
      && Linked(pool.pages, chain, MaxTuplesPerPage())
      && lastPageId < |pool.pages|
    }

    /** What a full scan visits. */
    ghost function Rows(): seq<Row>
      reads this, pool
    {
      ChainRows(pool.pages, chain)
    }

    function MaxTuplesPerPage(): (n: nat)
      requires SizeFits()
      ensures n >= 1 && HEAP_HEADER_SIZE + n * tupleSize <= PAGE_SIZE
      ensures HEAP_HEADER_SIZE + (n + 1) * tupleSize > PAGE_SIZE
    {
      DivFits(PAGE_SIZE - HEAP_HEADER_SIZE, tupleSize);
      (PAGE_SIZE - HEAP_HEADER_SIZE) / tupleSize
    }

    /** A new heap file: one empty page. `null` is the exception of the source, which comes
        exactly when every frame is pinned; nothing has changed then. */
    static method Create(bpm: BufferPoolManager, size: nat) returns (file: HeapFile?)
      requires bpm.Valid() && 1 <= size <= PAGE_SIZE - HEAP_HEADER_SIZE
      modifies bpm, bpm.frames, bpm.replacer
      ensures bpm.Valid() && bpm.pins == old(bpm.pins)
      ensures file == null <==> |old(bpm.pins)| == bpm.poolSize
      ensures file == null ==> bpm.View() == old(bpm.View())
      ensures file != null ==>
                && fresh(file) && file.Valid() && file.pool == bpm && file.tupleSize == size && file.Rows() == []
                && bpm.pages == old(bpm.pages) + [HeapPage([], INVALID_PAGE_ID)]
    {
      var pid := StoreNew(bpm, HeapPage([], INVALID_PAGE_ID));
      if pid.None? { return null; }
      file := new HeapFile.At(bpm, size, pid.value);
    }

    /** The file that consists of one empty page. */
    constructor At(bpm: BufferPoolManager, size: nat, pid: nat)
      requires bpm.Valid() && 1 <= size <= PAGE_SIZE - HEAP_HEADER_SIZE
      requires pid < |bpm.pages| && bpm.pages[pid] == HeapPage([], INVALID_PAGE_ID)
      ensures Valid() && pool == bpm && tupleSize == size && Rows() == []
    {
      pool, tupleSize := bpm, size;
      firstPageId, lastPageId := pid, pid;
      chain := [pid];
      new;
      assert LinkOk(pool.pages, chain, 0, MaxTuplesPerPage());
      assert TuplesAt(pool.pages, firstPageId) == [] && PageRows(firstPageId, []) == [];
      assert chain[..0] == [] && ChainRows(pool.pages, []) == [];
    }

    /** Opens an existing heap file; its last page is at the end of the chain. The source uses the
        pages it fetches without looking; `null` is the null pointer it then follows, which comes
        exactly when a page of the chain cannot be fetched. */
    static method Open(bpm: BufferPoolManager, size: nat, first: nat, ghost pids: seq<nat>) returns (file: HeapFile?)
      requires bpm.Valid() && 1 <= size <= PAGE_SIZE - HEAP_HEADER_SIZE
      requires pids != [] && pids[0] == first && Linked(bpm.pages, pids, (PAGE_SIZE - HEAP_HEADER_SIZE) / size)
      modifies bpm, bpm.frames, bpm.replacer
      ensures bpm.Valid() && bpm.pages == old(bpm.pages) && bpm.pins == old(bpm.pins)
      ensures file != null <==> Reach(bpm.pins, bpm.poolSize, pids) == |pids|
      ensures file != null ==> fresh(file) && file.Valid() && file.pool == bpm && file.tupleSize == size && file.chain == pids
    {
      var last := FindLast(bpm, first, pids, (PAGE_SIZE - HEAP_HEADER_SIZE) / size);
      if last.None? { return null; }
      file := new HeapFile.Between(bpm, size, first, last.value, pids);
    }

    /** The file from page `first` to page `last`. */
    constructor Between(bpm: BufferPoolManager, size: nat, first: nat, last: nat, ghost pids: seq<nat>)
      requires bpm.Valid() && 1 <= size <= PAGE_SIZE - HEAP_HEADER_SIZE
      requires pids != [] && pids[0] == first && pids[|pids| - 1] == last < |bpm.pages|
      requires Linked(bpm.pages, pids, (PAGE_SIZE - HEAP_HEADER_SIZE) / size)
      ensures Valid() && pool == bpm && tupleSize == size && chain == pids
    {
      pool, tupleSize, firstPageId, lastPageId, chain := bpm, size, first, last, pids;
    }

    static method FindLast(bpm: BufferPoolManager, first: nat, ghost pids: seq<nat>, ghost max: nat) returns (last: Option<nat>)
      requires bpm.Valid() && pids != [] && pids[0] == first && Linked(bpm.pages, pids, max)
      modifies bpm, bpm.frames, bpm.replacer
      ensures bpm.Valid() && bpm.pages == old(bpm.pages) && bpm.pins == old(bpm.pins)
      ensures last.Some? <==> Reach(bpm.pins, bpm.poolSize, pids) == |pids|
      ensures last.Some? ==> last.value == pids[|pids| - 1] && last.value < |bpm.pages|
    {
      var cur := first;
      ghost var i, reach := 0, Reach(bpm.pins, bpm.poolSize, pids);
      while true
        invariant bpm.Valid() && bpm.pages == old(bpm.pages) && bpm.pins == old(bpm.pins)
        invariant i < |pids| && i <= reach && cur == pids[i]
        decreases |pids| - i
      {
        assert LinkOk(bpm.pages, pids, i, max);
        var page := ReadPage(bpm, cur);
        if page.None? { return None; }
        if page.value.next == INVALID_PAGE_ID { return Some(cur); }
        cur := page.value.next;
        i := i + 1;
      }
    }

    /** Appends a tuple. It is refused exactly when the last page cannot be fetched, or is full
        while every frame is pinned; then nothing a scan sees has changed. */
    method InsertTuple(tuple: Tuple) returns (ok: bool, rid: RID)
      requires Valid() && |tuple| == tupleSize
      modifies this, pool, pool.frames, pool.replacer
      ensures Valid() && pool.pins == old(pool.pins) && pool.written <= old(pool.written)
      ensures ok <==>
                && old(pool.CanFetch(lastPageId))
                && (|TuplesAt(old(pool.pages), old(lastPageId))| < MaxTuplesPerPage() || |old(pool.pins)| < pool.poolSize)
      ensures Rows() == if ok then old(Rows()) + [Row(rid, tuple)] else old(Rows())
      ensures ok ==> rid.pageId == lastPageId
      ensures |old(pool.pages)| <= |pool.pages|
      ensures forall p: nat :: p < |old(pool.pages)| && p !in old(chain) ==> pool.pages[p] == old(pool.pages)[p]
    {
      rid := RID(INVALID_PAGE_ID, 0);
      ghost var pins0 := pool.pins;
      pool.PinFacts(lastPageId);
      var f := FetchRoom();
      if f.None? { return false, rid; }
      rid := Append(f.value, tuple, pins0);
      ok := true;
    }

    /** Fetches the last page, or a new last page if it is full. */
    method FetchRoom() returns (f: Option<nat>)
      requires Valid()
      modifies this, pool, pool.frames, pool.replacer
      ensures Valid() && pool.written <= old(pool.written) && Rows() == old(Rows())
      ensures f.Some? <==>
                && old(pool.CanFetch(lastPageId))
                && (|TuplesAt(old(pool.pages), old(lastPageId))| < MaxTuplesPerPage() || |old(pool.pins)| < pool.poolSize)
      ensures f.None? ==> pool.pins == old(pool.pins)
      ensures f.Some? ==>
                && pool.pins == Pinned(old(pool.pins), lastPageId) && pool.Holds(f.value, lastPageId)
                && (lastPageId in old(pool.pins) ==> old(pool.pins)[lastPageId] > 0)
                && |TuplesAt(pool.pages, lastPageId)| < MaxTuplesPerPage()
                && (lastPageId in old(chain) || lastPageId == |old(pool.pages)|)
      ensures |old(pool.pages)| <= |pool.pages|
      ensures forall p: nat :: p < |old(pool.pages)| && p !in old(chain) ==> pool.pages[p] == old(pool.pages)[p]
    {
      ghost var pins0 := pool.pins;
      pool.PinFacts(lastPageId);
      assert LinkOk(pool.pages, chain, |chain| - 1, MaxTuplesPerPage());
      f := pool.FetchPage(lastPageId);
      if f.None? { return; }
      if |pool.frames[f.value].data.tuples| >= MaxTuplesPerPage() {
        var _ := pool.UnpinPage(lastPageId, false);
        PinUnpin(pins0, lastPageId);
        f := FetchNext();
      }
    }

    /** Fetches a new last page. */
    method FetchNext() returns (f: Option<nat>)
      requires Valid() && pool.CanFetch(lastPageId)
      modifies this, pool, pool.frames, pool.replacer
      ensures Valid() && pool.written <= old(pool.written) && Rows() == old(Rows())
      ensures f.Some? <==> |old(pool.pins)| < pool.poolSize
      ensures f.None? ==> pool.pins == old(pool.pins)
      ensures f.Some? ==>
                && pool.pins == Pinned(old(pool.pins), lastPageId) && pool.Holds(f.value, lastPageId)
                && (lastPageId in old(pool.pins) ==> old(pool.pins)[lastPageId] > 0)
                && TuplesAt(pool.pages, lastPageId) == [] && lastPageId == |old(pool.pages)|
      ensures |old(pool.pages)| <= |pool.pages|
      ensures forall p: nat :: p < |old(pool.pages)| && p !in old(chain) ==> pool.pages[p] == old(pool.pages)[p]
    {
      var ok := Extend();
      if !ok { return None; }
      pool.PinFacts(lastPageId);
      f := pool.FetchPage(lastPageId);
    }

    /** Puts a new, empty page behind a last page without room. */
    method Extend() returns (ok: bool)
      requires Valid() && pool.CanFetch(lastPageId)
      modifies this, pool, pool.frames, pool.replacer
      ensures Valid() && pool.pins == old(pool.pins) && pool.written <= old(pool.written)
      ensures ok <==> |old(pool.pins)| < pool.poolSize
      ensures Rows() == old(Rows())
      ensures !ok ==> pool.pages == old(pool.pages) && chain == old(chain)
      ensures ok ==> TuplesAt(pool.pages, lastPageId) == [] && chain == old(chain) + [|old(pool.pages)|]
      ensures |old(pool.pages)| <= |pool.pages|
      ensures forall p: nat :: p < |old(pool.pages)| && p !in old(chain) ==> pool.pages[p] == old(pool.pages)[p]
    {
      assert LinkOk(pool.pages, chain, |chain| - 1, MaxTuplesPerPage());
      ExtendChain(pool.pages, chain, MaxTuplesPerPage());
      var newPid := AllocateAndLink();
      if newPid.None? { return false; }
      chain := chain + [newPid.value];
      lastPageId := newPid.value;
      ok := true;
    }

    /** AllocateHeapPage, then `next_page_id` of the old last page. */
    method AllocateAndLink() returns (newPid: Option<nat>)
      requires pool.Valid() && lastPageId < |pool.pages| && pool.pages[lastPageId].HeapPage?
      modifies pool, pool.frames, pool.replacer
      ensures pool.Valid() && pool.pins == old(pool.pins) && pool.written <= old(pool.written)
      ensures newPid.Some? <==> |old(pool.pins)| < pool.poolSize
      ensures newPid.None? ==> pool.pages == old(pool.pages)
      ensures newPid.Some? ==>
                && newPid.value == |old(pool.pages)|
                && pool.pages == (old(pool.pages) + [HeapPage([], INVALID_PAGE_ID)])
                                 [lastPageId := HeapPage(TuplesAt(old(pool.pages), lastPageId), |old(pool.pages)|)]
    {
      ghost var pins0 := pool.pins;
      pool.PinFacts(lastPageId);
      newPid := StoreNew(pool, HeapPage([], INVALID_PAGE_ID));
      if newPid.None? { return; }
      var f := pool.FetchPage(lastPageId);
      PutBack(pool, f.value, lastPageId, HeapPage(pool.frames[f.value].data.tuples, newPid.value), pins0);
    }

    /** Stores the tuple in the first free slot of the last page and unpins it. */
    method Append(f: nat, tuple: Tuple, ghost pins0: map<nat, nat>) returns (rid: RID)
      requires Valid() && pool.Holds(f, lastPageId) && pool.pins == Pinned(pins0, lastPageId)
      requires lastPageId in pins0 ==> pins0[lastPageId] > 0
      requires |TuplesAt(pool.pages, lastPageId)| < MaxTuplesPerPage()
      modifies pool, pool.frames, pool.replacer
      ensures Valid() && pool.pins == pins0 && pool.written <= old(pool.written)
      ensures Rows() == old(Rows()) + [Row(rid, tuple)]
      ensures rid == RID(lastPageId, |TuplesAt(old(pool.pages), lastPageId)|)
      ensures |old(pool.pages)| == |pool.pages|
      ensures forall p: nat :: p < |old(pool.pages)| && p != lastPageId ==> pool.pages[p] == old(pool.pages)[p]
    {
      assert LinkOk(pool.pages, chain, |chain| - 1, MaxTuplesPerPage());
      AppendTuple(pool.pages, chain, MaxTuplesPerPage(), tuple);
      var page := pool.frames[f].data;
      rid := RID(lastPageId, |page.tuples|);
      PutBack(pool, f, lastPageId, HeapPage(page.tuples + [tuple], page.next), pins0);
    }

    // -------------------------------------------------------------------- scan

    /** Hands the rows to the callback in order until it refuses one. The first page that cannot
        be fetched ends the scan without notice. */
    method Scan(accept: Row -> bool) returns (visited: seq<Row>)
      requires Valid()
      modifies pool, pool.frames, pool.replacer
      ensures Valid() && pool.pages == old(pool.pages) && pool.pins == old(pool.pins)
      ensures visited == Visited(ChainRows(pool.pages, chain[..Reach(pool.pins, pool.poolSize, chain)]), accept)
      ensures visited <= Visited(Rows(), accept)
      ensures |pool.pins| < pool.poolSize ==> visited == Visited(Rows(), accept)
    {
      VisitedPart(pool.pages, chain, Reach(pool.pins, pool.poolSize, chain), accept);
      ReachAll(pool.pins, pool.poolSize, chain);
      assert chain[..|chain|] == chain;
      visited := ScanChain(firstPageId, chain, MaxTuplesPerPage(), accept);
    }

    /** The loop of `Scan` over the pages of a chain. */
    method ScanChain(first: nat, ghost pids: seq<nat>, ghost max: nat, accept: Row -> bool) returns (visited: seq<Row>)
      requires pool.Valid() && pids != [] && pids[0] == first && Linked(pool.pages, pids, max)
      modifies pool, pool.frames, pool.replacer
      ensures pool.Valid() && pool.pages == old(pool.pages) && pool.pins == old(pool.pins)
      ensures visited == Visited(ChainRows(pool.pages, pids[..Reach(pool.pins, pool.poolSize, pids)]), accept)
    {
      ghost var pages, reach := pool.pages, Reach(pool.pins, pool.poolSize, pids);
      ghost var part := pids[..reach];
      var cur: int := first;
      ghost var i := 0;
      visited := [];
      while cur != INVALID_PAGE_ID
        invariant pool.Valid() && pool.pages == pages && pool.pins == old(pool.pins)
        invariant i <= reach && cur == if i < |pids| then pids[i] else INVALID_PAGE_ID
        invariant visited == ChainRows(pages, part[..i]) && AllAccepted(visited, accept)
        decreases |pids| - i
      {
        assert LinkOk(pages, pids, i, max);
        var page := ReadPage(pool, cur);
        if page.None? { break; }
        ScanStep(pages, part, i, visited, accept);
        var stop;
        visited, stop := VisitPage(cur, page.value.tuples, accept, visited);
        if stop { return; }
        cur := page.value.next;
        i := i + 1;
      }
      assert part[..reach] == part;
      AllVisited(visited, accept);
    }

    /** For parallel scan: the page ids of the chain, up to and with the first page that cannot
        be fetched. */
    method GetPageIds() returns (ids: seq<nat>)
      requires Valid()
      modifies pool, pool.frames, pool.replacer
      ensures Valid() && pool.pages == old(pool.pages) && pool.pins == old(pool.pins)
      ensures ids == Listed(pool.pins, pool.poolSize, chain)
      ensures |pool.pins| < pool.poolSize ==> ids == chain
    {
      ReachAll(pool.pins, pool.poolSize, chain);
      ghost var reach := Reach(pool.pins, pool.poolSize, chain);
      var cur: int := firstPageId;
      ids := [];
      while cur != INVALID_PAGE_ID
        invariant pool.Valid() && pool.pages == old(pool.pages) && pool.pins == old(pool.pins)
        invariant |ids| <= reach && ids == chain[..|ids|]
        invariant cur == if |ids| < |chain| then chain[|ids|] else INVALID_PAGE_ID
        decreases |chain| - |ids|
      {
        assert LinkOk(pool.pages, chain, |ids|, MaxTuplesPerPage());
        ids := ids + [cur];
        var page := ReadPage(pool, cur);
        if page.None? { return; }
        cur := page.value.next;
      }
    }

    /** The rows of one page; none if the page cannot be fetched. */
    method ScanPage(pid: nat) returns (rows: seq<Row>)
      requires Valid() && pid in chain
      modifies pool, pool.frames, pool.replacer
      ensures Valid() && pool.pages == old(pool.pages) && pool.pins == old(pool.pins)
      ensures rows == if old(pool.CanFetch(pid)) then PageRows(pid, TuplesAt(pool.pages, pid)) else []
    {
      ghost var i :| 0 <= i < |chain| && chain[i] == pid;
      assert LinkOk(pool.pages, chain, i, MaxTuplesPerPage());
      var page := ReadPage(pool, pid);
      if page.None? { return []; }
      var stop;
      var all := (_: Row) => true;
      rows, stop := VisitPage(pid, page.value.tuples, all, []);
      AllVisited(PageRows(pid, page.value.tuples), all);
    }
  }

  /** The inner loop of a scan over the slots of one page. */
  method VisitPage(pid: nat, tuples: seq<Tuple>, accept: Row -> bool, before: seq<Row>)
    returns (visited: seq<Row>, stop: bool)
    ensures visited == before + Visited(PageRows(pid, tuples), accept)
    ensures stop <==> !AllAccepted(PageRows(pid, tuples), accept)
  {
    ghost var rows := PageRows(pid, tuples);
    visited, stop := before, false;
    for slot := 0 to |tuples|
      invariant visited == before + rows[..slot]
      invariant AllAccepted(rows[..slot], accept)
    {
      var row := Row(RID(pid, slot), tuples[slot]);
      visited := visited + [row];
      assert rows[..slot + 1] == rows[..slot] + [row];
      if !accept(row) {
        assert rows == rows[..slot] + rows[slot..];
        VisitedConcat(rows[..slot], rows[slot..], accept);
        return visited, true;
      }
    }
    assert rows[..|rows|] == rows;
    AllVisited(rows, accept);
  }

  lemma {:induction false} AllVisited(rows: seq<Row>, accept: Row -> bool)
    requires AllAccepted(rows, accept)
    ensures Visited(rows, accept) == rows
  {
    assert rows + [] == rows;
    VisitedConcat(rows, [], accept);
  }

  /** The rows of a chain around page `i`. */
  lemma {:induction false} RowsSplit(pages: seq<PageData>, chain: seq<nat>, i: nat)
    requires i < |chain|
    ensures ChainRows(pages, chain[..i + 1]) == ChainRows(pages, chain[..i]) + PageRows(chain[i], TuplesAt(pages, chain[i]))
  {
    assert chain[..i + 1][..i] == chain[..i];
  }

  lemma {:induction false} RowsPrefix(pages: seq<PageData>, chain: seq<nat>, i: nat) returns (rest: seq<Row>)
    requires i <= |chain|
    ensures ChainRows(pages, chain) == ChainRows(pages, chain[..i]) + rest
    decreases |chain|
  {
    if i == |chain| {
      assert chain[..i] == chain;
      rest := [];
    } else {
      var n := |chain| - 1;
      var shorter := RowsPrefix(pages, chain[..n], i);
      assert chain[..n][..i] == chain[..i];
      rest := shorter + PageRows(chain[n], TuplesAt(pages, chain[n]));
      Assoc(ChainRows(pages, chain[..i]), shorter, PageRows(chain[n], TuplesAt(pages, chain[n])));
    }
  }

  /** What a scan of the first `i` pages visits begins what a full scan visits. */
  lemma VisitedPart(pages: seq<PageData>, chain: seq<nat>, i: nat, accept: Row -> bool)
    requires i <= |chain|
    ensures Visited(ChainRows(pages, chain[..i]), accept) <= Visited(ChainRows(pages, chain), accept)
  {
    var before := ChainRows(pages, chain[..i]);
    var rest := RowsPrefix(pages, chain, i);
    VisitedConcat(before, rest, accept);
    if AllAccepted(before, accept) { AllVisited(before, accept); }
  }

  /** A page in which the callback refuses a row ends the scan. */
  lemma {:induction false} ScanStep(pages: seq<PageData>, chain: seq<nat>, i: nat, before: seq<Row>, accept: Row -> bool)
    requires i < |chain| && before == ChainRows(pages, chain[..i]) && AllAccepted(before, accept)
    ensures var rows := PageRows(chain[i], TuplesAt(pages, chain[i]));
            if AllAccepted(rows, accept) then
              before + Visited(rows, accept) == ChainRows(pages, chain[..i + 1]) && AllAccepted(ChainRows(pages, chain[..i + 1]), accept)
            else
              Visited(ChainRows(pages, chain), accept) == before + Visited(rows, accept)
  {
    RowsSplit(pages, chain, i);
    var rows := PageRows(chain[i], TuplesAt(pages, chain[i]));
    var rest := RowsAround(pages, chain, i);
    VisitedMiddle(before, rows, rest, accept);
  }

  lemma RowsAround(pages: seq<PageData>, chain: seq<nat>, i: nat) returns (rest: seq<Row>)
    requires i < |chain|
    ensures ChainRows(pages, chain) == ChainRows(pages, chain[..i]) + (PageRows(chain[i], TuplesAt(pages, chain[i])) + rest)
  {
    RowsSplit(pages, chain, i);
    rest := RowsPrefix(pages, chain, i + 1);
    Assoc(ChainRows(pages, chain[..i]), PageRows(chain[i], TuplesAt(pages, chain[i])), rest);
  }

  lemma {:induction false} VisitedMiddle(before: seq<Row>, rows: seq<Row>, rest: seq<Row>, accept: Row -> bool)
    requires AllAccepted(before, accept)
    ensures if AllAccepted(rows, accept) then
              Visited(rows, accept) == rows && AllAccepted(before + rows, accept)
            else
              Visited(before + (rows + rest), accept) == before + Visited(rows, accept)
  {
    VisitedConcat(before, rows + rest, accept);
    VisitedConcat(rows, rest, accept);
    if AllAccepted(rows, accept) { AllVisited(rows, accept); }
  }

  lemma DivFits(a: nat, b: nat)
    requires 1 <= b <= a
    ensures a / b >= 1 && (a / b) * b <= a < (a / b + 1) * b
  {
    assert a == (a / b) * b + a % b;
  }
}
