/** The steps of a B+ tree insert as relations between what the pool shows before and after:
  written leaves, written nodes and whole subtrees, whether or not the frames suffice
  (`src/storage/bplus_tree.cpp`).
 */
module TreeSteps {
  import opened Page
  import opened BufferPool
  import opened TreeEntries
  import opened TreeModel
  import opened TreeLinks
  import opened NodePages
  import opened StoredTree
  import opened TreeFrames
  import opened TreeShape
  import opened TreeIndex

  datatype SplitResult = SplitResult(key: int, rightPid: nat)

  /** The outcome of an insert; `PoolFull` is the exception of the source. */
  datatype Inserting = Inserted(split: Option<SplitResult>) | PoolFull

  /** The split a caller is told about is the one that happened. */
  ghost predicate Reports(r: Inserting, o: Outcome) {
    && r.Inserted?
    && r.split == (if o.split.None? then None
                   else Some(SplitResult(o.split.value.key, o.split.value.tree.pid)))
  }

  /** Writing a page, appending one and writing both. */
  lemma SplitPages(pages: seq<PageData>, p: nat, x: PageData, a: PageData, b: PageData)
    requires p < |pages|
    ensures (pages[p := x] + [Zeroed])[|pages| := b][p := a] == pages[p := a] + [b]
  {
  }

  /** The entries of an internal page with one more separator. */
  function WithSeparator(es: seq<InternalEntry>, key: int, rightPid: int): seq<InternalEntry>
    requires 1 <= |es|
  {
    NodePages.Inserted(es, EntryPos(es, key, 1), InternalEntry(key, rightPid))
  }

  /** Pins after an insert that keeps a pin on page `p`, if any. */
  function Leaked(pins: map<nat, nat>, p: Option<nat>): map<nat, nat> {
    if p.None? then pins else Pinned(pins, p.value)
  }

  /** The insert below `t` went in: the specified outcome is stored and all pins are back. */
  ghost predicate WentIn(r: Inserting, t: Tree, key: int, rid: RID, lim: Limits, m: Memory, m': Memory) {
    var o := InsertTree(t, key, rid, lim, |m.pages|);
    Reports(r, o) && Applied(m.pages, m'.pages, t, o) && m'.pins == m.pins && m'.written <= m.written
  }

  /** The insert threw: what it did until then is stored, and the page that was to split is
      still pinned and not declared dirty. */
  ghost predicate Threw(r: Inserting, t: Tree, key: int, rid: RID, lim: Limits, m: Memory, m': Memory, frames: nat) {
    var o := Stopped(t, key, rid, lim, |m.pages|, m.pins.Keys, frames);
    var stuck := Stuck(t, key, rid, lim, |m.pages|, m.pins.Keys, frames);
    && r.PoolFull? && Applied(m.pages, m'.pages, t, o) && m'.pins == Leaked(m.pins, stuck)
    && m'.written <= m.written + (if stuck.None? then {} else {stuck.value})
    && (stuck.Some? ==> stuck.value in m'.written)
  }

  /** An insert goes in exactly when it gets its frames. */
  ghost predicate InsertDone(r: Inserting, t: Tree, key: int, rid: RID, lim: Limits, m: Memory, m': Memory, frames: nat) {
    if Fits(t, key, rid, lim, |m.pages|, m.pins.Keys, frames) then WentIn(r, t, key, rid, lim, m, m')
    else Threw(r, t, key, rid, lim, m, m', frames)
  }

  // -------------------------------------------------------------------- leaves

  /** The entries `es` were stored in leaf `pid`, in `pid` and a new page if too many, or in
      `pid` alone, which stays pinned, if there was no frame for a new page. */
  ghost predicate LeafWritten(r: Inserting, m: Memory, m': Memory, pid: nat, es: seq<LeafEntry>, next: int, leafMax: nat, frames: nat)
    requires pid < |m.pages|
  {
    var mid, n := |es| / 2, |m.pages|;
    if |es| < leafMax then
      && r == Inserted(None) && m'.pins == m.pins && m'.written <= m.written
      && m'.pages == m.pages[pid := LeafPage(es, next)]
    else if RoomBeside(m.pins.Keys, frames, pid) then
      && mid < |es| && r == Inserted(Some(SplitResult(es[mid].key, n))) && m'.pins == m.pins && m'.written <= m.written
      && m'.pages == m.pages[pid := LeafPage(es[..mid], n)] + [LeafPage(es[mid..], next)]
    else
      && r == PoolFull && m'.pins == Pinned(m.pins, pid) && pid in m'.written && m'.written <= m.written + {pid}
      && m'.pages == m.pages[pid := LeafPage(es, next)]
  }

  lemma LeafDone(r: Inserting, t: Tree, key: int, rid: RID, lim: Limits, m: Memory, m': Memory, frames: nat)
    requires t.Leaf? && t.pid < |m.pages| && CanPin(m.pins.Keys, frames, t.pid)
    requires LeafWritten(r, m, m', t.pid, Upsert(t.entries, key, rid), t.next, lim.leafMax, frames)
    ensures InsertDone(r, t, key, rid, lim, m, m', frames)
  {
    if r.PoolFull? {
      LeafApplied(m.pages, m'.pages, t, Stopped(t, key, rid, lim, |m.pages|, m.pins.Keys, frames));
    } else {
      LeafApplied(m.pages, m'.pages, t, InsertTree(t, key, rid, lim, |m.pages|));
    }
  }

  // --------------------------------------------------------------------- nodes

  /** The same for the entries of an internal page. */
  ghost predicate NodeWritten(r: Inserting, m: Memory, m': Memory, pid: nat, es: seq<InternalEntry>, internalMax: nat, frames: nat)
    requires pid < |m.pages|
  {
    var mid := |es| / 2;
    if |es| <= internalMax then
      && r == Inserted(None) && m'.pins == m.pins && m'.written <= m.written
      && m'.pages == m.pages[pid := InternalPage(es)]
    else if RoomBeside(m.pins.Keys, frames, pid) then
      && mid < |es| && r == Inserted(Some(SplitResult(es[mid].key, |m.pages|))) && m'.pins == m.pins && m'.written <= m.written
      && m'.pages == m.pages[pid := InternalPage(es[..mid])] + [InternalPage([InternalEntry(0, es[mid].child)] + es[mid + 1..])]
    else
      && r == PoolFull && m'.pins == Pinned(m.pins, pid) && pid in m'.written && m'.written <= m.written + {pid}
      && m'.pages == m.pages[pid := InternalPage(es)]
  }

  /** What the pages say after a node was written is what `SplitNode` says, with the limit
      raised by one if there was no frame to split it. */
  lemma {:induction false} WrittenIsSplit(r: Inserting, m: Memory, m': Memory, pid: nat, kids: seq<Kid>, lim: Limits, frames: nat, lim': Limits)
    requires LimitsOk(lim) && pid < |m.pages| && 1 <= |kids| <= lim.internalMax + 1
    requires NodeWritten(r, m, m', pid, Slots(kids), lim.internalMax, frames)
    requires lim' == if r.PoolFull? then lim.(internalMax := lim.internalMax + 1) else lim
    ensures var o := SplitNode(pid, kids, lim', |m.pages|);
            && (!r.PoolFull? ==> Reports(r, o)) && |m'.pages| == o.avail && m'.pages[pid] == PageOf(o.tree)
            && (o.split.Some? ==> m'.pages[|m.pages|] == PageOf(o.split.value.tree))
            && forall p: nat :: p < |m.pages| && p != pid ==> m'.pages[p] == m.pages[p]
  {
    SplitSlots(pid, kids, lim', |m.pages|);
  }

  /** A node on the way of the key, and the child the key belongs to. */
  ghost predicate OnTheWay(t: Tree, i: nat, key: int, h: nat, lo: int, hi: int, lim: Limits, root: bool, m: Memory) {
    && LimitsOk(lim) && t.Node? && WF(t, h, lo, hi, lim, root) && lo <= key < hi
    && Stored(m.pages, t) && Distinct(t) && |t.kids| > 0 && i == ChildIndex(t.kids, key)
  }

  lemma FitsStep(t: Tree, i: nat, key: int, rid: RID, lim: Limits, avail: nat, pins: set<nat>, frames: nat)
    requires t.Node? && t.kids != [] && i == ChildIndex(t.kids, key) && CanPin(pins, frames, t.pid)
    ensures Fits(t, key, rid, lim, avail, pins, frames)
            <==> Fits(t.kids[i].tree, key, rid, lim, avail, pins, frames)
                 && (InsertTree(t, key, rid, lim, avail).split.Some? ==> RoomBeside(pins, frames, t.pid))
  {
  }

  /** The child threw, and so does the node. */
  lemma {:induction false} NodeThrows(t: Tree, i: nat, key: int, rid: RID, h: nat, lo: int, hi: int, lim: Limits, root: bool, m: Memory, m': Memory, frames: nat)
    requires OnTheWay(t, i, key, h, lo, hi, lim, root, m) && CanPin(m.pins.Keys, frames, t.pid)
    requires !Fits(t.kids[i].tree, key, rid, lim, |m.pages|, m.pins.Keys, frames)
    requires Threw(PoolFull, t.kids[i].tree, key, rid, lim, m, m', frames)
    ensures InsertDone(PoolFull, t, key, rid, lim, m, m', frames)
  {
    FitsStep(t, i, key, rid, lim, |m.pages|, m.pins.Keys, frames);
    var o := Stopped(t.kids[i].tree, key, rid, lim, |m.pages|, m.pins.Keys, frames);
    StoppedShape(t.kids[i].tree, key, rid, lim, |m.pages|, m.pins.Keys, frames);
    KidReplaced(m.pages, m'.pages, t, i, o);
  }

  /** The child did not split: the node's page stays as it is. */
  lemma {:induction false} NodeQuiet(r: Inserting, t: Tree, i: nat, key: int, rid: RID, h: nat, lo: int, hi: int, lim: Limits, root: bool, m: Memory, m': Memory, frames: nat)
    requires OnTheWay(t, i, key, h, lo, hi, lim, root, m) && CanPin(m.pins.Keys, frames, t.pid)
    requires Fits(t.kids[i].tree, key, rid, lim, |m.pages|, m.pins.Keys, frames)
    requires WentIn(r, t.kids[i].tree, key, rid, lim, m, m') && r == Inserted(None)
    ensures InsertDone(r, t, key, rid, lim, m, m', frames)
  {
    NodeUnchanged(m.pages, m'.pages, t, i, InsertTree(t.kids[i].tree, key, rid, lim, |m.pages|), key, rid, h, lo, hi, lim, root);
    FitsStep(t, i, key, rid, lim, |m.pages|, m.pins.Keys, frames);
  }

  /** The child split and its separator was stored in the node, which split in turn, or could
      not for want of a frame. */
  lemma {:induction false} NodeDone(r: Inserting, t: Tree, i: nat, o: Outcome, key: int, rid: RID, h: nat, lo: int, hi: int, lim: Limits, root: bool,
                                    m: Memory, mid: Memory, m': Memory, frames: nat)
    requires OnTheWay(t, i, key, h, lo, hi, lim, root, m) && CanPin(m.pins.Keys, frames, t.pid)
    requires Fits(t.kids[i].tree, key, rid, lim, |m.pages|, m.pins.Keys, frames)
    requires o == InsertTree(t.kids[i].tree, key, rid, lim, |m.pages|) && o.split.Some?
    requires Applied(m.pages, mid.pages, t.kids[i].tree, o) && mid.pins == m.pins && mid.written <= m.written && t.pid < |mid.pages|
    requires NodeWritten(r, mid, m', t.pid, WithSeparator(Slots(t.kids), o.split.value.key, o.split.value.tree.pid), lim.internalMax, frames)
    ensures InsertDone(r, t, key, rid, lim, m, m', frames)
  {
    var lim' := if r.PoolFull? then lim.(internalMax := lim.internalMax + 1) else lim;
    NodeApplied(r, t, i, o, key, rid, h, lo, hi, lim, root, m, mid, m', frames, lim');
    NodeVerdict(r, t, i, o, key, rid, lim, m, mid, m', frames);
  }

  /** On the pages it is insertion into the node, under the limit in force. */
  lemma {:induction false} NodeApplied(r: Inserting, t: Tree, i: nat, o: Outcome, key: int, rid: RID, h: nat, lo: int, hi: int, lim: Limits, root: bool,
                                       m: Memory, mid: Memory, m': Memory, frames: nat, lim': Limits)
    requires OnTheWay(t, i, key, h, lo, hi, lim, root, m)
    requires o == InsertTree(t.kids[i].tree, key, rid, lim, |m.pages|) && o.split.Some?
    requires Applied(m.pages, mid.pages, t.kids[i].tree, o) && t.pid < |mid.pages|
    requires NodeWritten(r, mid, m', t.pid, WithSeparator(Slots(t.kids), o.split.value.key, o.split.value.tree.pid), lim.internalMax, frames)
    requires lim' == if r.PoolFull? then lim.(internalMax := lim.internalMax + 1) else lim
    ensures var node := SplitNode(t.pid, AddKid(t.kids, i, o), lim', o.avail);
            Applied(m.pages, m'.pages, t, node) && (!r.PoolFull? ==> Reports(r, node))
    ensures InsertTree(t, key, rid, lim, |m.pages|) == SplitNode(t.pid, AddKid(t.kids, i, o), lim, o.avail)
    ensures |AddKid(t.kids, i, o)| == |t.kids| + 1 <= lim.internalMax + 1
  {
    NodeShape(t, i, o, key, rid, h, lo, hi, lim, root, |m.pages|);
    SlotsAddKid(t.kids, i, o);
    KidPidsOut(t, m.pages, i, key, rid, h, lo, hi, lim, root);
    var kids1 := AddKid(t.kids, i, o);
    WrittenIsSplit(r, mid, m', t.pid, kids1, lim, frames, lim');
    NodeStored(m.pages, mid.pages, m'.pages, t, i, o, SplitNode(t.pid, kids1, lim', o.avail), kids1, lim');
  }

  lemma NodeVerdict(r: Inserting, t: Tree, i: nat, o: Outcome, key: int, rid: RID, lim: Limits, m: Memory, mid: Memory, m': Memory, frames: nat)
    requires t.Node? && t.kids != [] && i == ChildIndex(t.kids, key) && CanPin(m.pins.Keys, frames, t.pid)
    requires Fits(t.kids[i].tree, key, rid, lim, |m.pages|, m.pins.Keys, frames)
    requires o == InsertTree(t.kids[i].tree, key, rid, lim, |m.pages|)
    requires InsertTree(t, key, rid, lim, |m.pages|) == SplitNode(t.pid, AddKid(t.kids, i, o), lim, o.avail)
    requires |AddKid(t.kids, i, o)| <= lim.internalMax + 1
    requires var node := SplitNode(t.pid, AddKid(t.kids, i, o), if r.PoolFull? then lim.(internalMax := lim.internalMax + 1) else lim, o.avail);
             Applied(m.pages, m'.pages, t, node) && (!r.PoolFull? ==> Reports(r, node))
    requires mid.pins == m.pins && mid.written <= m.written
    requires r.PoolFull? <==> |AddKid(t.kids, i, o)| > lim.internalMax && !RoomBeside(m.pins.Keys, frames, t.pid)
    requires m'.pins == (if r.PoolFull? then Pinned(mid.pins, t.pid) else mid.pins)
    requires m'.written <= mid.written + (if r.PoolFull? then {t.pid} else {}) && (r.PoolFull? ==> t.pid in m'.written)
    ensures InsertDone(r, t, key, rid, lim, m, m', frames)
  {
    FitsStep(t, i, key, rid, lim, |m.pages|, m.pins.Keys, frames);
  }

  // ------------------------------------------------------------------- descent

  /** On the way down to leaf `target` of the list: subtree `c` has its leaves from `j` on, and
      `gets` says whether all pages of the way can be fetched. */
  ghost predicate Heading(pages: seq<PageData>, ls: seq<Tree>, j: nat, c: Place, low: int, lim: Limits, pins: set<nat>, frames: nat, target: nat, gets: bool) {
    && PlaceOk(pages, c, low, lim) && (Readable(c.t, low, pins, frames) <==> gets)
    && Inside(ls, j, c.t, low) && j + LeafAt(c.t, low) == target
  }

  lemma {:induction false} HeadOn(pages: seq<PageData>, ls: seq<Tree>, j: nat, c: Place, low: int, lim: Limits, pins: set<nat>, frames: nat, target: nat, gets: bool, i: nat)
    returns (j': nat, d: Place)
    requires Heading(pages, ls, j, c, low, lim, pins, frames, target, gets) && CanPin(pins, frames, c.t.pid)
    requires c.t.Node? && IsChildIndex(Slots(c.t.kids), low, i)
    ensures Heading(pages, ls, j', d, low, lim, pins, frames, target, gets)
    ensures d.t.pid == Slots(c.t.kids)[i].child && d.t < c.t
  {
    j', d := DownTo(pages, ls, j, c, low, i, lim);
    assert c.t.kids != [];
  }

  /** What the way down sees at its page. */
  lemma HeadPage(pages: seq<PageData>, ls: seq<Tree>, j: nat, c: Place, low: int, lim: Limits, pins: set<nat>, frames: nat, target: nat, gets: bool)
    returns (page: PageData)
    requires Heading(pages, ls, j, c, low, lim, pins, frames, target, gets)
    ensures c.t.pid < |pages| && pages[c.t.pid] == page && (page.LeafPage? <==> c.t.Leaf?)
    ensures !CanPin(pins, frames, c.t.pid) ==> !gets
    ensures c.t.Node? ==> page == InternalPage(Slots(c.t.kids)) && |page.node| >= 1
    ensures c.t.Node? ==> forall i, j :: 1 <= i < j < |page.node| ==> page.node[i].key < page.node[j].key
  {
    PlacePage(pages, c, low, lim);
    page := pages[c.t.pid];
  }

  lemma Arrived(pages: seq<PageData>, ls: seq<Tree>, j: nat, c: Place, low: int, lim: Limits, pins: set<nat>, frames: nat, target: nat, gets: bool)
    requires Heading(pages, ls, j, c, low, lim, pins, frames, target, gets) && c.t.Leaf? && CanPin(pins, frames, c.t.pid)
    ensures gets && target < |ls| && ls[target].pid == c.t.pid && AllBelow(LeafEntries(ls[..target]), low)
  {
    InsideLeaf(ls, j, c.t, low);
  }

  /** A search is at subtree `c`: what it will find there, and whether it gets there, is what it
      will find in the whole tree. */
  ghost predicate Seeking(pages: seq<PageData>, c: Place, key: int, lim: Limits, pins: set<nat>, frames: nat, found: Option<RID>, gets: bool) {
    && PlaceOk(pages, c, key, lim) && Get(AsMap(Entries(c.t)), key) == found
    && (Readable(c.t, key, pins, frames) <==> gets)
  }

  lemma {:induction false} SeekOn(pages: seq<PageData>, c: Place, key: int, lim: Limits, pins: set<nat>, frames: nat, found: Option<RID>, gets: bool, i: nat)
    returns (d: Place)
    requires Seeking(pages, c, key, lim, pins, frames, found, gets) && CanPin(pins, frames, c.t.pid)
    requires c.t.Node? && IsChildIndex(Slots(c.t.kids), key, i)
    ensures Seeking(pages, d, key, lim, pins, frames, found, gets)
    ensures d.t.pid == Slots(c.t.kids)[i].child && d.t < c.t
  {
    d := Down(pages, c, key, i, lim);
    assert c.t.kids != [];
  }

  /** What the search sees at its page: that it may not have it, or a leaf with the answer, or a
      node with separators in order. */
  lemma SeekPage(pages: seq<PageData>, c: Place, key: int, lim: Limits, pins: set<nat>, frames: nat, found: Option<RID>, gets: bool)
    returns (page: PageData)
    requires Seeking(pages, c, key, lim, pins, frames, found, gets)
    ensures c.t.pid < |pages| && pages[c.t.pid] == page && (page.LeafPage? <==> c.t.Leaf?)
    ensures !CanPin(pins, frames, c.t.pid) ==> !gets
    ensures c.t.Leaf? ==> Sorted(page.leaf) && (CanPin(pins, frames, c.t.pid) ==> gets && found == Get(AsMap(page.leaf), key))
    ensures c.t.Node? ==> page == InternalPage(Slots(c.t.kids)) && |page.node| >= 1
    ensures c.t.Node? ==> forall i, j :: 1 <= i < j < |page.node| ==> page.node[i].key < page.node[j].key
  {
    PlacePage(pages, c, key, lim);
    page := pages[c.t.pid];
  }

  // ---------------------------------------------------------------- leaf chain

  /** A range scan is at leaf `j`, with the records of the leaves before it in hand; `gets` says
      whether it will get to its end. */
  ghost predicate Walking(pages: seq<PageData>, ls: seq<Tree>, j: nat, pid: int, out: seq<RID>, results: seq<RID>, low: int, high: int, pins: set<nat>, frames: nat, gets: bool) {
    && LeavesStored(pages, ls) && Linked(ls, INVALID_PAGE_ID) && Sorted(LeafEntries(ls))
    && j <= |ls| && pid == (if j < |ls| then ls[j].pid else INVALID_PAGE_ID)
    && (ChainReadable(ls, j, high, pins, frames) <==> gets)
    && out == results + Slice(LeafEntries(ls[..j]), low, high)
  }

  lemma WalkPage(pages: seq<PageData>, ls: seq<Tree>, j: nat, pid: int, out: seq<RID>, results: seq<RID>, low: int, high: int, pins: set<nat>, frames: nat, gets: bool)
    requires Walking(pages, ls, j, pid, out, results, low, high, pins, frames, gets) && pid != INVALID_PAGE_ID
    ensures j < |ls| && ls[j].Leaf? && pid == ls[j].pid < |pages| && pages[pid] == LeafPage(ls[j].entries, ls[j].next)
    ensures Sorted(ls[j].entries) && (!CanPin(pins, frames, ls[j].pid) ==> !gets)
  {
    assert LeafStored(pages, ls, j);
    LeafSorted(ls, j);
  }

  lemma WalkNext(pages: seq<PageData>, ls: seq<Tree>, j: nat, out: seq<RID>, out': seq<RID>, results: seq<RID>, low: int, high: int, pins: set<nat>, frames: nat, gets: bool)
    requires j < |ls| && ls[j].Leaf? && Walking(pages, ls, j, ls[j].pid, out, results, low, high, pins, frames, gets)
    requires CanPin(pins, frames, ls[j].pid) && out' == out + Slice(ls[j].entries, low, high)
    ensures EndsScan(ls[j], high) ==> gets && out' == results + Slice(LeafEntries(ls), low, high)
    ensures !EndsScan(ls[j], high) ==> Walking(pages, ls, j + 1, ls[j].next, out', results, low, high, pins, frames, gets)
  {
    WalkOn(ls, j, low, high, results);
    assert LinkAt(ls, j, INVALID_PAGE_ID);
  }

  lemma WalkEnd(pages: seq<PageData>, ls: seq<Tree>, j: nat, out: seq<RID>, results: seq<RID>, low: int, high: int, pins: set<nat>, frames: nat, gets: bool)
    requires Walking(pages, ls, j, INVALID_PAGE_ID, out, results, low, high, pins, frames, gets)
    ensures gets && out == results + Slice(LeafEntries(ls), low, high)
  {
    assert j == |ls| && ls[..|ls|] == ls;
  }

  lemma WalkStart(pages: seq<PageData>, ls: seq<Tree>, j: nat, results: seq<RID>, low: int, high: int, pins: set<nat>, frames: nat)
    requires LeavesStored(pages, ls) && Linked(ls, INVALID_PAGE_ID) && Sorted(LeafEntries(ls))
    requires j < |ls| && AllBelow(LeafEntries(ls[..j]), low)
    ensures Walking(pages, ls, j, ls[j].pid, results, results, low, high, pins, frames, ChainReadable(ls, j, high, pins, frames))
  {
    SliceEmpty(LeafEntries(ls[..j]), low, high);
  }
}
