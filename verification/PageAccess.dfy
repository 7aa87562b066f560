/** How the storage layer uses the buffer pool: the fetch / work / unpin idioms of
  `src/storage/bplus_tree.cpp` and `src/storage/heap_file.cpp`. Each gives back every pin it
  takes.
 */
module PageAccess {
  import opened Page
  import opened BufferPool

  lemma PinnedSize(pins: map<nat, nat>, p: nat)
    ensures |Pinned(pins, p)| == |pins.Keys + {p}|
  {
    assert Pinned(pins, p).Keys == pins.Keys + {p};
  }

  /** FetchPage, a look at the contents, UnpinPage(.., false). */
  method ReadPage(pool: BufferPoolManager, pid: nat) returns (r: Option<PageData>)
    requires pool.Valid() && pid < |pool.pages|
    modifies pool, pool.frames, pool.replacer
    ensures pool.Valid() && pool.pages == old(pool.pages)
    ensures pool.pins == old(pool.pins) && pool.written == old(pool.written)
    ensures pool.held == old(pool.held) && pool.peak <= Most(old(pool.peak), old(pool.held) + 1)
    ensures r == if old(pool.CanFetch(pid)) then Some(pool.pages[pid]) else None
  {
    ghost var pins0 := pool.pins;
    pool.PinFacts(pid);
    var f := pool.FetchPage(pid);
    if f.None? { return None; }
    r := Some(pool.frames[f.value].data);
    var _ := pool.UnpinPage(pid, false);
    PinUnpin(pins0, pid);
  }

  /** Stores new contents and drops the pin with the dirty flag. */
  method PutBack(pool: BufferPoolManager, f: nat, pid: nat, d: PageData, ghost pins0: map<nat, nat>)
    requires pool.Valid() && pool.Holds(f, pid) && pool.pins == Pinned(pins0, pid)
    requires pid in pins0 ==> pins0[pid] > 0
    modifies pool, pool.frames, pool.replacer
    ensures pool.Valid() && pool.pages == old(pool.pages)[pid := d]
    ensures pool.pins == pins0 && pool.written == old(pool.written) - {pid}
    ensures pool.held == old(pool.held) - 1 && pool.peak == old(pool.peak)
  {
    pool.Write(f, pid, d);
    var _ := pool.UnpinPage(pid, true);
    PinUnpin(pins0, pid);
  }

  /** The end of a split: both pages are stored, then unpinned, the new one first. */
  method PutBackBoth(pool: BufferPoolManager, f: nat, pid: nat, d: PageData, newF: nat, newPid: nat, newD: PageData, ghost pins0: map<nat, nat>)
    requires pool.Valid() && pool.Holds(f, pid) && pool.Holds(newF, newPid)
    requires pool.pins == Pinned(pins0, pid)[newPid := 1] && newPid !in pins0 && newPid != pid
    requires pid in pins0 ==> pins0[pid] > 0
    modifies pool, pool.frames, pool.replacer
    ensures pool.Valid() && pool.pages == old(pool.pages)[newPid := newD][pid := d]
    ensures pool.pins == pins0 && pool.written == old(pool.written) - {newPid, pid}
    ensures pool.held == old(pool.held) - 2 && pool.peak == old(pool.peak)
  {
    pool.Write(newF, newPid, newD);
    pool.HoldsPinned(pid);
    pool.Write(f, pid, d);
    var _ := pool.UnpinPage(newPid, true);
    assert pool.pins == Pinned(pins0, pid);
    var _ := pool.UnpinPage(pid, true);
    PinUnpin(pins0, pid);
  }

  /** Allocates a page and fills it: a first leaf or a new root. */
  method StoreNew(pool: BufferPoolManager, d: PageData) returns (r: Option<nat>)
    requires pool.Valid()
    modifies pool, pool.frames, pool.replacer
    ensures pool.Valid()
    ensures pool.held == old(pool.held) && pool.peak <= Most(old(pool.peak), old(pool.held) + 1)
    ensures r.Some? <==> |old(pool.pins)| != pool.poolSize
    ensures r.None? ==> pool.View() == old(pool.View())
    ensures r.Some? ==>
              && r.value == |old(pool.pages)| && pool.pages == old(pool.pages) + [d]
              && pool.pins == old(pool.pins) && pool.written <= old(pool.written)
  {
    ghost var pins0 := pool.pins;
    var page := pool.NewPage();
    if page.None? { return None; }
    var pid, f := page.value.0, page.value.1;
    pool.Write(f, pid, d);
    var _ := pool.UnpinPage(pid, true);
    assert pins0[pid := 1] - {pid} == pins0;
    r := Some(pid);
  }
}
