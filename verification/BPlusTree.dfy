/** The B+ tree index over the buffer pool: `src/storage/bplus_tree.cpp`.

  The pages of the pool hold the tree `root`, a ghost value; every method is proved to do
  to the pages what module TreeIndex does to that value, to leave all other pages alone,
  never to hold more than two pins of its own, and to give them back. An insert that the pool
  refuses a frame keeps one pin; module TreeFrames says when that happens and what it leaves.
 */
module BPlusTrees {
  import opened Page
  import opened BufferPool
  import opened PageAccess
  import opened TreeEntries
  import opened TreeModel
  import opened TreeLinks
  import opened TreeIndex
  import opened TreeShape
  import opened NodePages
  import opened StoredTree
  import opened TreeFrames
  import opened TreeSteps

  /** What one insert does to the index as a value. */
  lemma {:induction false} RootInserted(x: Index, key: int, rid: RID, lim: Limits)
    requires LimitsOk(lim) && IndexOk(x, lim) && KEY_MIN <= key < KEY_END
    ensures IndexOk(TreeIndex.Insert(x, key, rid, lim), lim)
    ensures AsMap(RootEntries(TreeIndex.Insert(x, key, rid, lim).root)) == AsMap(RootEntries(x.root))[key := rid]
    ensures From(RootPids(TreeIndex.Insert(x, key, rid, lim).root), RootPids(x.root), x.avail, TreeIndex.Insert(x, key, rid, lim).avail)
  {
    InsertOk(x, key, rid, lim);
    InsertRootPids(x, key, rid, lim);
    AsMapUpsert(RootEntries(x.root), key, rid);
  }

  /** The pages now hold the index after the insert, with its root at `pid`. */
  ghost predicate Became(pages: seq<PageData>, pages': seq<PageData>, x: Index, key: int, rid: RID, lim: Limits, pid: nat) {
    var x' := TreeIndex.Insert(x, key, rid, lim);
    && |pages| <= |pages'| == x'.avail && x'.root.Some? && x'.root.value.pid == pid
    && Stored(pages', x'.root.value)
    && forall p: nat :: p < |pages| && p !in RootPids(x.root) ==> pages'[p] == pages[p]
  }

  lemma RootBelow(x: Index, pages: seq<PageData>, lim: Limits)
    requires RootOk(x.root, x.height, lim) && x.avail == |pages|
    requires x.root.Some? ==> Stored(pages, x.root.value)
    ensures IndexOk(x, lim)
  {
    if x.root.Some? {
      StoredBelow(pages, x.root.value);
    }
  }

  class BPlusTree {
    const pool: BufferPoolManager
    const leafMax: nat
    const internalMax: nat
    var rootPageId: int
    ghost var root: Option<Tree>
    ghost var height: nat

    ghost function Lim(): Limits {
      Limits(leafMax, internalMax)
    }

    ghost predicate LimitsFit() {
      2 <= leafMax <= LEAF_CAPACITY && 3 <= internalMax < INTERNAL_CAPACITY
    }

    ghost predicate Valid()
      reads this, pool, pool.frames, pool.replacer
    {
      && LimitsFit() && pool.Valid()
      && RootOk(root, height, Lim())
      && (root.None? ==> rootPageId == INVALID_PAGE_ID)
      && (root.Some? ==> rootPageId == root.value.pid && Stored(pool.pages, root.value))
    }

    /** The map the index stands for. */
    ghost function Map(): map<int, RID>
      reads this
    {
      AsMap(RootEntries(root))
    }

    /** Pages that are not the tree's. */
    ghost predicate Foreign(p: nat)
      reads this
    {
      p !in RootPids(root)
    }

    constructor (bpm: BufferPoolManager, leafMaxSize: nat, internalMaxSize: nat)
      requires bpm.Valid()
      requires leafMaxSize > 0 ==> 2 <= leafMaxSize <= LEAF_CAPACITY
      requires 3 <= internalMaxSize < INTERNAL_CAPACITY
      ensures Valid() && pool == bpm && root == None
      ensures leafMax == (if leafMaxSize > 0 then leafMaxSize else LEAF_CAPACITY)
      ensures internalMax == internalMaxSize
    {
      pool := bpm;
      leafMax := if leafMaxSize > 0 then leafMaxSize else LEAF_CAPACITY;
      internalMax := internalMaxSize;
      rootPageId := INVALID_PAGE_ID;
      root, height := None, 0;
    }

    // ------------------------------------------------------------------ insert

    method InsertInLeaf(pid: nat, key: int, rid: RID, ghost t: Tree, ghost lo: int, ghost hi: int, ghost isRoot: bool)
      returns (r: Inserting)
      requires pool.Valid() && LimitsFit() && Stored(pool.pages, t) && t.Leaf? && t.pid == pid
      requires WF(t, 0, lo, hi, Lim(), isRoot) && lo <= key < hi && pool.CanFetch(pid)
      modifies pool, pool.frames, pool.replacer
      ensures pool.Valid() && AtMostTwo(old(pool.held), old(pool.peak), pool.held, pool.peak, r.PoolFull?)
      ensures InsertDone(r, t, key, rid, Lim(), old(pool.View()), pool.View(), pool.poolSize)
      ensures r.PoolFull? ==>
                && pid < |pool.pages| && pool.pages[pid] == LeafPage(Upsert(t.entries, key, rid), t.next)
                && |Upsert(t.entries, key, rid)| == leafMax && pid in pool.written
    {
      ghost var m := pool.View();
      pool.PinFacts(pid);
      LeafFacts(t, key, rid, lo, hi, isRoot);
      var f := pool.FetchPage(pid);
      var page := pool.frames[f.value].data;
      var es := UpdateLeaf(page.leaf, page.next, key, rid);
      if |es| < leafMax {
        PutBack(pool, f.value, pid, LeafPage(es, page.next), m.pins);
        r := Inserted(None);
      } else {
        r := SplitLeaf(pid, f.value, es, page.next, m);
      }
      LeafDone(r, t, key, rid, Lim(), m, pool.View(), pool.poolSize);
    }

    lemma LeafFacts(t: Tree, key: int, rid: RID, lo: int, hi: int, isRoot: bool)
      requires LimitsFit() && t.Leaf? && WF(t, 0, lo, hi, Lim(), isRoot) && lo <= key < hi
      ensures Sorted(t.entries) && |t.entries| < LEAF_CAPACITY
      ensures 0 < |Upsert(t.entries, key, rid)| <= leafMax
    {
      UpsertSorted(t.entries, key, rid, lo, hi);
    }

    /** The leaf split at the end of InsertInLeaf. */
    method SplitLeaf(pid: nat, f: nat, es: seq<LeafEntry>, next: int, ghost m: Memory)
      returns (r: Inserting)
      requires pool.Valid() && pool.Holds(f, pid) && pool.View() == m.(pins := Pinned(m.pins, pid))
      requires pid in m.pins ==> m.pins[pid] > 0
      requires pid < |m.pages| && 2 <= |es| <= LEAF_CAPACITY && leafMax <= |es|
      modifies pool, pool.frames, pool.replacer
      ensures pool.Valid() && SplitCount(r, old(pool.held), old(pool.peak))
      ensures LeafWritten(r, m, pool.View(), pid, es, next, leafMax, pool.poolSize)
    {
      var page := NewBeside(pid, f, LeafPage(es, next), m);
      if page.None? {
        return PoolFull;
      }
      var newPid, newF := page.value.0, page.value.1;
      var d, newD, separator := HalveLeaf(es, next, newPid);
      PutBackBoth(pool, f, pid, d, newF, newPid, newD, m.pins);
      r := Inserted(Some(SplitResult(separator, newPid)));
      SplitPages(m.pages, pid, LeafPage(es, next), d, newD);
    }

    /** Stores the overfull page and asks for a new one. */
    method NewBeside(pid: nat, f: nat, d: PageData, ghost m: Memory) returns (page: Option<(nat, nat)>)
      requires pool.Valid() && pool.Holds(f, pid) && pool.View() == m.(pins := Pinned(m.pins, pid)) && pid < |m.pages|
      modifies pool, pool.frames, pool.replacer
      ensures pool.Valid() && Counted(old(pool.held), old(pool.peak), pool.held, pool.peak, if page.Some? then 1 else 0)
      ensures page.Some? <==> RoomBeside(m.pins.Keys, pool.poolSize, pid)
      ensures pool.written == m.written + {pid}
      ensures page.None? ==> pool.pages == m.pages[pid := d] && pool.pins == Pinned(m.pins, pid)
      ensures page.Some? ==>
                && page.value.0 == |m.pages| && pool.pages == m.pages[pid := d] + [Zeroed]
                && page.value.0 !in m.pins && pool.pins == Pinned(m.pins, pid)[page.value.0 := 1]
                && pool.Holds(f, pid) && pool.Holds(page.value.1, page.value.0)
    {
      PinnedSize(m.pins, pid);
      pool.PinFacts(pid);
      pool.Write(f, pid, d);
      page := pool.NewPage();
      if page.Some? { pool.HoldsPinned(pid); }
    }

    /** A split asks for a second pin; both are given back, or the first is kept. */
    ghost predicate SplitCount(r: Inserting, held: int, peak: int)
      reads pool`held, pool`peak
    {
      pool.held == held - (if r.PoolFull? then 0 else 1) && pool.peak <= Most(peak, held + 1)
    }

    /** The internal split at the end of InsertInInternal. */
    method SplitInternal(pid: nat, f: nat, es: seq<InternalEntry>, ghost m: Memory)
      returns (r: Inserting)
      requires pool.Valid() && pool.Holds(f, pid) && pool.View() == m.(pins := Pinned(m.pins, pid))
      requires pid in m.pins ==> m.pins[pid] > 0
      requires pid < |m.pages| && 2 <= |es| <= INTERNAL_CAPACITY && internalMax < |es|
      modifies pool, pool.frames, pool.replacer
      ensures pool.Valid() && SplitCount(r, old(pool.held), old(pool.peak))
      ensures NodeWritten(r, m, pool.View(), pid, es, internalMax, pool.poolSize)
    {
      var page := NewBeside(pid, f, InternalPage(es), m);
      if page.None? {
        return PoolFull;
      }
      var newPid, newF := page.value.0, page.value.1;
      var d, newD, pushUp := HalveNode(es);
      PutBackBoth(pool, f, pid, d, newF, newPid, newD, m.pins);
      r := Inserted(Some(SplitResult(pushUp, newPid)));
      SplitPages(m.pages, pid, InternalPage(es), d, newD);
    }

    method InsertInInternal(pid: nat, key: int, rid: RID, ghost t: Tree, ghost h: nat, ghost lo: int, ghost hi: int, ghost isRoot: bool)
      returns (r: Inserting)
      requires pool.Valid() && LimitsFit() && Stored(pool.pages, t) && Distinct(t) && t.Node? && t.pid == pid
      requires WF(t, h, lo, hi, Lim(), isRoot) && lo <= key < hi && pool.CanFetch(pid)
      modifies pool, pool.frames, pool.replacer
      decreases t, 1
      ensures pool.Valid() && AtMostTwo(old(pool.held), old(pool.peak), pool.held, pool.peak, r.PoolFull?)
      ensures InsertDone(r, t, key, rid, Lim(), old(pool.View()), pool.View(), pool.poolSize)
    {
      ghost var m := pool.View();
      ghost var i;
      r, i := InsertInChild(pid, key, rid, t, h, lo, hi, isRoot);
      if r.PoolFull? {
        NodeThrows(t, i, key, rid, h, lo, hi, Lim(), isRoot, m, pool.View(), pool.poolSize);
      } else if r.split.None? {
        NodeQuiet(r, t, i, key, rid, h, lo, hi, Lim(), isRoot, m, pool.View(), pool.poolSize);
      } else {
        r := GrowNode(pid, r.split.value, t, i, key, rid, h, lo, hi, isRoot, m);
      }
    }

    /** The first half of InsertInInternal: down to the child for the key. */
    method InsertInChild(pid: nat, key: int, rid: RID, ghost t: Tree, ghost h: nat, ghost lo: int, ghost hi: int, ghost isRoot: bool)
      returns (r: Inserting, ghost i: nat)
      requires pool.Valid() && LimitsFit() && Stored(pool.pages, t) && Distinct(t) && t.Node? && t.pid == pid
      requires WF(t, h, lo, hi, Lim(), isRoot) && lo <= key < hi && pool.CanFetch(pid)
      modifies pool, pool.frames, pool.replacer
      decreases t, 0
      ensures pool.Valid() && AtMostTwo(old(pool.held), old(pool.peak), pool.held, pool.peak, r.PoolFull?)
      ensures OnTheWay(t, i, key, h, lo, hi, Lim(), isRoot, old(pool.View()))
      ensures InsertDone(r, t.kids[i].tree, key, rid, Lim(), old(pool.View()), pool.View(), pool.poolSize)
    {
      ghost var pages := pool.pages;
      var child;
      child, i := ChildFor(pid, key, t, h, lo, hi, isRoot);
      ghost var kid := ChildFacts(t, pages, key, i, h, lo, hi, Lim(), isRoot);
      r := InsertInPage(child, key, rid, kid, h - 1, LoAt(t.kids, i, lo), HiAt(t.kids, i, hi), false);
    }

    /** The child has split: its separator goes into the node, which may split in turn. */
    method GrowNode(pid: nat, split: SplitResult, ghost t: Tree, ghost i: nat, ghost key: int, ghost rid: RID,
                    ghost h: nat, ghost lo: int, ghost hi: int, ghost isRoot: bool, ghost m: Memory)
      returns (r: Inserting)
      requires pool.Valid() && LimitsFit() && t.pid == pid && OnTheWay(t, i, key, h, lo, hi, Lim(), isRoot, m)
      requires CanPin(m.pins.Keys, pool.poolSize, pid) && Fits(t.kids[i].tree, key, rid, Lim(), |m.pages|, m.pins.Keys, pool.poolSize)
      requires WentIn(Inserted(Some(split)), t.kids[i].tree, key, rid, Lim(), m, pool.View())
      modifies pool, pool.frames, pool.replacer
      ensures pool.Valid() && AtMostTwo(old(pool.held), old(pool.peak), pool.held, pool.peak, r.PoolFull?)
      ensures InsertDone(r, t, key, rid, Lim(), m, pool.View(), pool.poolSize)
    {
      ghost var o, mid := InsertTree(t.kids[i].tree, key, rid, Lim(), |m.pages|), pool.View();
      NodePageKept(t, m.pages, mid.pages, i, o);
      r := AddSeparator(pid, split, Slots(t.kids));
      NodeDone(r, t, i, o, key, rid, h, lo, hi, Lim(), isRoot, m, mid, pool.View(), pool.poolSize);
    }

    /** Reads the page and looks up the child for the key. */
    method ChildFor(pid: nat, key: int, ghost t: Tree, ghost h: nat, ghost lo: int, ghost hi: int, ghost isRoot: bool)
      returns (child: int, ghost i: nat)
      requires pool.Valid() && Stored(pool.pages, t) && t.Node? && t.pid == pid
      requires WF(t, h, lo, hi, Lim(), isRoot) && pool.CanFetch(pid)
      modifies pool, pool.frames, pool.replacer
      ensures pool.Valid() && pool.View() == old(pool.View())
      ensures AtMostTwo(old(pool.held), old(pool.peak), pool.held, pool.peak, false)
      ensures IsChildIndex(Slots(t.kids), key, i) && child == Slots(t.kids)[i].child
    {
      var page := ReadPage(pool, pid);
      SlotsSorted(t.kids, h - 1, lo, hi, Lim());
      child, i := Lookup(page.value.node, key);
    }

    /** The second half of InsertInInternal: the child has split. */
    method AddSeparator(pid: nat, split: SplitResult, ghost es0: seq<InternalEntry>)
      returns (r: Inserting)
      requires pool.Valid() && LimitsFit() && pool.CanFetch(pid)
      requires pid < |pool.pages| && pool.pages[pid] == InternalPage(es0) && 1 <= |es0| <= internalMax
      modifies pool, pool.frames, pool.replacer
      ensures pool.Valid() && AtMostTwo(old(pool.held), old(pool.peak), pool.held, pool.peak, r.PoolFull?)
      ensures NodeWritten(r, old(pool.View()), pool.View(), pid, WithSeparator(es0, split.key, split.rightPid), internalMax, pool.poolSize)
    {
      ghost var m := pool.View();
      pool.PinFacts(pid);
      var f := pool.FetchPage(pid);
      var es := UpdateNode(pool.frames[f.value].data.node, split.key, split.rightPid);
      if |es| <= internalMax {
        PutBack(pool, f.value, pid, InternalPage(es), m.pins);
        r := Inserted(None);
      } else {
        r := SplitInternal(pid, f.value, es, m);
      }
    }

    method InsertInPage(pid: nat, key: int, rid: RID, ghost t: Tree, ghost h: nat, ghost lo: int, ghost hi: int, ghost isRoot: bool)
      returns (r: Inserting)
      requires pool.Valid() && LimitsFit() && Stored(pool.pages, t) && Distinct(t) && t.pid == pid
      requires WF(t, h, lo, hi, Lim(), isRoot) && lo <= key < hi
      modifies pool, pool.frames, pool.replacer
      decreases t, 2
      ensures pool.Valid() && AtMostTwo(old(pool.held), old(pool.peak), pool.held, pool.peak, r.PoolFull?)
      ensures InsertDone(r, t, key, rid, Lim(), old(pool.View()), pool.View(), pool.poolSize)
    {
      var page := ReadPage(pool, pid);
      if page.None? { return PoolFull; }
      if page.value.LeafPage? {
        r := InsertInLeaf(pid, key, rid, t, lo, hi, isRoot);
      } else {
        r := InsertInInternal(pid, key, rid, t, h, lo, hi, isRoot);
      }
    }

    /** Binds the key. `false` is the "buffer pool full" exception. It comes exactly when a page
        on the way cannot be fetched or one that splits has no frame beside it; in the first
        case nothing has changed, in the second the key is bound, and the page that was to
        split is left one entry too full, pinned and not declared dirty. */
    method Insert(key: int, rid: RID) returns (ok: bool)
      requires Valid() && KEY_MIN <= key < KEY_END
      modifies this, pool, pool.frames, pool.replacer
      ensures pool.Valid() && AtMostTwo(old(pool.held), old(pool.peak), pool.held, pool.peak, !ok)
      ensures ok <==> InsertFits(old(Index(root, height, |pool.pages|)), key, rid, Lim(), old(pool.pins).Keys, pool.poolSize)
      ensures |old(pool.pins)| + 2 <= pool.poolSize ==> ok
      ensures old(RootPids(root)) !! old(pool.pins).Keys ==>
                (ok <==> || |old(pool.pins)| + 2 <= pool.poolSize
                         || (|old(pool.pins)| + 1 == pool.poolSize
                             && (old(root).None? || TreeIndex.Insert(old(Index(root, height, |pool.pages|)), key, rid, Lim()).avail == |old(pool.pages)|)))
      ensures ok ==>
                && Valid() && pool.pins == old(pool.pins) && pool.written <= old(pool.written)
                && Map() == old(Map())[key := rid]
                && Index(root, height, |pool.pages|)
                   == TreeIndex.Insert(old(Index(root, height, |pool.pages|)), key, rid, Lim())
                && (forall p: nat :: p < |old(pool.pages)| && old(Foreign(p)) ==>
                      p < |pool.pages| && pool.pages[p] == old(pool.pages)[p] && Foreign(p))
      ensures !ok ==> rootPageId == old(rootPageId) && root == old(root) && Broken(key, rid, old(pool.View()))
    {
      ghost var pages := pool.pages;
      RootBelow(Index(root, height, |pages|), pages, Lim());
      FramesNeeded(key, rid);
      var pid: Option<nat>;
      if rootPageId == INVALID_PAGE_ID {
        pid := FirstLeaf(key, rid);
      } else {
        pid := InsertBelow(key, rid);
      }
      if pid.None? { return false; }
      Adopt(pid.value, key, rid, pages);
      ok := true;
    }

    lemma FramesNeeded(key: int, rid: RID)
      requires pool.Valid()
      ensures var x, pins := Index(root, height, |pool.pages|), pool.pins.Keys;
              && (|pins| + 2 <= pool.poolSize ==> InsertFits(x, key, rid, Lim(), pins, pool.poolSize))
              && (RootPids(root) !! pins ==>
                    (InsertFits(x, key, rid, Lim(), pins, pool.poolSize)
                     <==> || |pins| + 2 <= pool.poolSize
                          || (|pins| + 1 == pool.poolSize && (root.None? || TreeIndex.Insert(x, key, rid, Lim()).avail == x.avail))))
    {
      var x, pins := Index(root, height, |pool.pages|), pool.pins.Keys;
      pool.PinFacts(0);
      if |pins| + 2 <= pool.poolSize { TwoFramesInsert(x, key, rid, Lim(), pins, pool.poolSize); }
      if RootPids(root) !! pins { InsertFitsIff(x, key, rid, Lim(), pins, pool.poolSize); }
    }

    /** The pages hold the index after the insert; its root is at `pid` now. */
    method Adopt(pid: nat, ghost key: int, ghost rid: RID, ghost pages: seq<PageData>)
      requires pool.Valid() && LimitsFit() && KEY_MIN <= key < KEY_END
      requires IndexOk(Index(root, height, |pages|), Lim())
      requires Became(pages, pool.pages, Index(root, height, |pages|), key, rid, Lim(), pid)
      modifies this`rootPageId, this`root, this`height
      ensures Valid() && Map() == old(Map())[key := rid]
      ensures Index(root, height, |pool.pages|) == TreeIndex.Insert(old(Index(root, height, |pages|)), key, rid, Lim())
      ensures forall p: nat :: p < |pages| && old(Foreign(p)) ==>
                p < |pool.pages| && pool.pages[p] == pages[p] && Foreign(p)
    {
      ghost var x0 := Index(root, height, |pages|);
      ghost var x1 := TreeIndex.Insert(x0, key, rid, Lim());
      RootInserted(x0, key, rid, Lim());
      rootPageId := pid;
      root, height := x1.root, x1.height;
    }

    /** What a failed insert leaves: the tree as it was, or one in which the key is bound and
        everything is in order but that the stuck page holds one entry too many, is pinned and
        has been written without being declared dirty. */
    ghost predicate Broken(key: int, rid: RID, m: Memory)
      reads this, pool, pool.frames, pool.replacer
    {
      if root.None? then Valid() && pool.View() == m
      else
        var o := Stopped(root.value, key, rid, Lim(), |m.pages|, m.pins.Keys, pool.poolSize);
        var stuck := Stuck(root.value, key, rid, Lim(), |m.pages|, m.pins.Keys, pool.poolSize);
        && Threw(PoolFull, root.value, key, rid, Lim(), m, pool.View(), pool.poolSize)
        && AsMap(Entries(o.tree)) == (if stuck.None? then Map() else Map()[key := rid])
        && (stuck.None? ==> Valid() && pool.pins == m.pins)
        && (stuck.Some? ==> OneTooFull(o.tree, stuck.value, height, KEY_MIN, KEY_END, Lim(), true))
    }

    /** The first insert makes a leaf. */
    method FirstLeaf(key: int, rid: RID) returns (pid: Option<nat>)
      requires Valid() && root.None?
      modifies pool, pool.frames, pool.replacer
      ensures pool.Valid() && AtMostTwo(old(pool.held), old(pool.peak), pool.held, pool.peak, false)
      ensures pid.Some? <==> |old(pool.pins).Keys| < pool.poolSize
      ensures pid.None? ==> pool.View() == old(pool.View())
      ensures pid.Some? ==>
                && pool.pins == old(pool.pins) && pool.written <= old(pool.written)
                && Became(old(pool.pages), pool.pages, Index(root, height, |old(pool.pages)|), key, rid, Lim(), pid.value)
    {
      pool.PinFacts(0);
      var es := UpdateLeaf([], INVALID_PAGE_ID, key, rid);
      pid := StoreNew(pool, LeafPage(es, INVALID_PAGE_ID));
    }

    /** Inserts below the root and puts a new root on top if the old one split. */
    method InsertBelow(key: int, rid: RID) returns (pid: Option<nat>)
      requires Valid() && root.Some? && KEY_MIN <= key < KEY_END
      modifies pool, pool.frames, pool.replacer
      ensures pool.Valid() && AtMostTwo(old(pool.held), old(pool.peak), pool.held, pool.peak, pid.None?)
      ensures pid.Some? <==> Fits(root.value, key, rid, Lim(), |old(pool.pages)|, old(pool.pins).Keys, pool.poolSize)
      ensures pid.None? ==> Broken(key, rid, old(pool.View()))
      ensures pid.Some? ==>
                && pool.pins == old(pool.pins) && pool.written <= old(pool.written)
                && Became(old(pool.pages), pool.pages, Index(root, height, |old(pool.pages)|), key, rid, Lim(), pid.value)
    {
      ghost var t, m := root.value, pool.View();
      var r := InsertInPage(rootPageId, key, rid, t, height, KEY_MIN, KEY_END, true);
      if r.PoolFull? {
        BrokenTree(key, rid, m);
        return None;
      }
      var top := RootAfter(r.split, key, rid, m);
      pid := Some(top);
    }

    /** The root after an insert below it: the old one, or a new one if that has split. */
    method RootAfter(split: Option<SplitResult>, ghost key: int, ghost rid: RID, ghost m: Memory) returns (pid: nat)
      requires pool.Valid() && root.Some? && rootPageId == root.value.pid
      requires Fits(root.value, key, rid, Lim(), |m.pages|, m.pins.Keys, pool.poolSize)
      requires WentIn(Inserted(split), root.value, key, rid, Lim(), m, pool.View())
      modifies pool, pool.frames, pool.replacer
      ensures pool.Valid() && AtMostTwo(old(pool.held), old(pool.peak), pool.held, pool.peak, false)
      ensures pool.pins == m.pins && pool.written <= m.written
      ensures Became(m.pages, pool.pages, Index(root, height, |m.pages|), key, rid, Lim(), pid)
    {
      if split.None? { return rootPageId; }
      ghost var t := root.value;
      NewRootFits(t, key, rid, Lim(), |m.pages|, m.pins.Keys, pool.poolSize);
      pid := AddRoot(rootPageId, split.value, t, InsertTree(t, key, rid, Lim(), |m.pages|), m.pages);
    }

    lemma BrokenTree(key: int, rid: RID, m: Memory)
      requires LimitsFit() && pool.Valid() && root.Some? && RootOk(root, height, Lim()) && rootPageId == root.value.pid
      requires KEY_MIN <= key < KEY_END && Stored(m.pages, root.value)
      requires !Fits(root.value, key, rid, Lim(), |m.pages|, m.pins.Keys, pool.poolSize)
      requires Threw(PoolFull, root.value, key, rid, Lim(), m, pool.View(), pool.poolSize)
      ensures Broken(key, rid, m)
    {
      StoppedEntries(root.value, key, rid, Lim(), |m.pages|, height, KEY_MIN, KEY_END, true, m.pins.Keys, pool.poolSize);
      StoppedShape(root.value, key, rid, Lim(), |m.pages|, m.pins.Keys, pool.poolSize);
      if Stuck(root.value, key, rid, Lim(), |m.pages|, m.pins.Keys, pool.poolSize).Some? {
        StuckTooFull(root.value, key, rid, Lim(), |m.pages|, height, KEY_MIN, KEY_END, true, m.pins.Keys, pool.poolSize);
      }
      AsMapUpsert(Entries(root.value), key, rid);
    }

    /** A new root above the two halves of the old one. */
    method AddRoot(left: nat, split: SplitResult, ghost t: Tree, ghost o: Outcome, ghost pages0: seq<PageData>) returns (pid: nat)
      requires pool.Valid() && |pool.pins| < pool.poolSize && o.split.Some? && o.tree.pid == left
      requires split == SplitResult(o.split.value.key, o.split.value.tree.pid) && Applied(pages0, pool.pages, t, o)
      modifies pool, pool.frames, pool.replacer
      ensures pool.Valid() && pool.pins == old(pool.pins) && pool.written <= old(pool.written)
      ensures AtMostTwo(old(pool.held), old(pool.peak), pool.held, pool.peak, false)
      ensures pid == o.avail && |pool.pages| == pid + 1
      ensures Stored(pool.pages, Node(o.avail, [Kid(0, o.tree), o.split.value]))
      ensures forall p: nat :: p < |pages0| && p !in Pids(t) ==> pool.pages[p] == pages0[p]
    {
      var es := UpdateNode([InternalEntry(0, left)], split.key, split.rightPid);
      assert es == [InternalEntry(0, left), InternalEntry(split.key, split.rightPid)];
      ghost var mid := pool.pages;
      var page := StoreNew(pool, InternalPage(es));
      pid := page.value;
      NewRootStored(pages0, mid, pool.pages, t, o);
    }

    // ------------------------------------------------------------------ search

    /** The record bound to the key. The source gives up (false) if a page on the way cannot be
        fetched, so with every frame pinned a present key may be reported absent. */
    method Search(key: int) returns (r: Option<RID>)
      requires Valid() && KEY_MIN <= key < KEY_END
      modifies pool, pool.frames, pool.replacer
      ensures Valid() && pool.View() == old(pool.View())
      ensures AtMostTwo(old(pool.held), old(pool.peak), pool.held, pool.peak, false)
      ensures r == if root.Some? && Readable(root.value, key, pool.pins.Keys, pool.poolSize) then Get(Map(), key) else None
      ensures |pool.pins| < pool.poolSize ==> r == Get(Map(), key)
      ensures RootPids(root) !! pool.pins.Keys ==> (r == Get(Map(), key) <==> |pool.pins| < pool.poolSize || key !in Map())
    {
      if rootPageId == INVALID_PAGE_ID { return None; }
      ReadableIff(root.value, key, pool.pins.Keys, pool.poolSize);
      r := SearchDown(key);
    }

    /** The descent of `Search`. */
    method SearchDown(key: int) returns (r: Option<RID>)
      requires Valid() && root.Some? && KEY_MIN <= key < KEY_END
      modifies pool, pool.frames, pool.replacer
      ensures pool.Valid() && pool.View() == old(pool.View())
      ensures AtMostTwo(old(pool.held), old(pool.peak), pool.held, pool.peak, false)
      ensures r == if Readable(root.value, key, pool.pins.Keys, pool.poolSize) then Get(Map(), key) else None
    {
      ghost var m, found := pool.View(), Get(Map(), key);
      ghost var gets := Readable(root.value, key, m.pins.Keys, pool.poolSize);
      var pid: nat := rootPageId;
      ghost var c := Place(root.value, height, KEY_MIN, KEY_END, true);
      while true
        invariant pool.Valid() && pool.View() == m
        invariant AtMostTwo(old(pool.held), old(pool.peak), pool.held, pool.peak, false)
        invariant Seeking(m.pages, c, key, Lim(), m.pins.Keys, pool.poolSize, found, gets) && c.t.pid == pid
        decreases c.t
      {
        var done;
        done, r, pid, c := SearchPage(pid, key, c, found, gets);
        if done { return; }
      }
    }

    /** One page of the descent: the answer, or the page to go on with. */
    method SearchPage(pid: nat, key: int, ghost c: Place, ghost found: Option<RID>, ghost gets: bool)
      returns (done: bool, r: Option<RID>, next: nat, ghost d: Place)
      requires pool.Valid() && Seeking(pool.pages, c, key, Lim(), pool.pins.Keys, pool.poolSize, found, gets) && c.t.pid == pid
      modifies pool, pool.frames, pool.replacer
      ensures pool.Valid() && pool.View() == old(pool.View())
      ensures AtMostTwo(old(pool.held), old(pool.peak), pool.held, pool.peak, false)
      ensures done ==> r == if gets then found else None
      ensures !done ==> Seeking(pool.pages, d, key, Lim(), pool.pins.Keys, pool.poolSize, found, gets) && d.t.pid == next && d.t < c.t
    {
      ghost var m := pool.View();
      next, d := pid, c;
      ghost var shown := SeekPage(m.pages, c, key, Lim(), m.pins.Keys, pool.poolSize, found, gets);
      var page := ReadPage(pool, pid);
      if page.None? { return true, None, next, d; }
      if page.value.LeafPage? {
        r := LeafSearch(page.value.leaf, key);
        return true, r, next, d;
      }
      var child, i := Lookup(page.value.node, key);
      d := SeekOn(m.pages, c, key, Lim(), m.pins.Keys, pool.poolSize, found, gets, i);
      return false, None, child, d;
    }

    // -------------------------------------------------------------- range scan

    /** Appends the records of the stored keys in [low, high], in key order. The source uses the
        pages it fetches without looking; `None` is the null pointer it then follows, which comes
        exactly when a page that the scan visits cannot be fetched. */
    method RangeScan(low: int, high: int, results: seq<RID>) returns (out: Option<seq<RID>>)
      requires Valid() && KEY_MIN <= low < KEY_END
      modifies pool, pool.frames, pool.replacer
      ensures Valid() && pool.View() == old(pool.View())
      ensures AtMostTwo(old(pool.held), old(pool.peak), pool.held, pool.peak, false)
      ensures out.Some? <==> ScanReadable(root, low, high, pool.pins.Keys, pool.poolSize)
      ensures |pool.pins| < pool.poolSize ==> out.Some?
      ensures out.Some? ==> out.value == results + Slice(RootEntries(root), low, high)
    {
      if |pool.pins.Keys| < pool.poolSize { OneFrameScans(root, low, high, pool.pins.Keys, pool.poolSize); }
      if rootPageId == INVALID_PAGE_ID { return Some(results); }
      ghost var ls := Leaves(root.value);
      LeavesHaveEntries(root.value);
      EntriesSorted(root.value, height, KEY_MIN, KEY_END, Lim(), true);
      ChainIsLeaves(root.value, INVALID_PAGE_ID);
      StoredLeaves(pool.pages, root.value);
      var start := LeafFor(low);
      if start.None? { return None; }
      out := WalkChain(start.value, LeafAt(root.value, low), ls, low, high, results);
    }

    /** Down to the first leaf of the range. */
    method LeafFor(low: int) returns (leaf: Option<nat>)
      requires Valid() && root.Some? && KEY_MIN <= low < KEY_END
      modifies pool, pool.frames, pool.replacer
      ensures pool.Valid() && pool.View() == old(pool.View())
      ensures AtMostTwo(old(pool.held), old(pool.peak), pool.held, pool.peak, false)
      ensures leaf.Some? <==> Readable(root.value, low, pool.pins.Keys, pool.poolSize)
      ensures leaf.Some? ==>
                var ls, j := Leaves(root.value), LeafAt(root.value, low);
                j < |ls| && ls[j].pid == leaf.value && AllBelow(LeafEntries(ls[..j]), low)
    {
      ghost var m, ls, target := pool.View(), Leaves(root.value), LeafAt(root.value, low);
      ghost var gets := Readable(root.value, low, m.pins.Keys, pool.poolSize);
      ghost var j: nat := 0;
      var pid: nat := rootPageId;
      ghost var c := Place(root.value, height, KEY_MIN, KEY_END, true);
      assert ls[0..0 + |ls|] == ls;
      while true
        invariant pool.Valid() && pool.View() == m
        invariant AtMostTwo(old(pool.held), old(pool.peak), pool.held, pool.peak, false)
        invariant Heading(m.pages, ls, j, c, low, Lim(), m.pins.Keys, pool.poolSize, target, gets) && c.t.pid == pid
        decreases c.t
      {
        var done;
        done, leaf, pid, j, c := DownOnce(pid, low, ls, j, c, target, gets);
        if done { return; }
      }
    }

    /** One page of that way: the leaf, or the page to go on with. */
    method DownOnce(pid: nat, low: int, ghost ls: seq<Tree>, ghost j: nat, ghost c: Place, ghost target: nat, ghost gets: bool)
      returns (done: bool, leaf: Option<nat>, next: nat, ghost j': nat, ghost d: Place)
      requires pool.Valid() && Heading(pool.pages, ls, j, c, low, Lim(), pool.pins.Keys, pool.poolSize, target, gets) && c.t.pid == pid
      modifies pool, pool.frames, pool.replacer
      ensures pool.Valid() && pool.View() == old(pool.View())
      ensures AtMostTwo(old(pool.held), old(pool.peak), pool.held, pool.peak, false)
      ensures done ==> (leaf.Some? <==> gets)
      ensures done && leaf.Some? ==> target < |ls| && ls[target].pid == leaf.value && AllBelow(LeafEntries(ls[..target]), low)
      ensures !done ==>
                && Heading(pool.pages, ls, j', d, low, Lim(), pool.pins.Keys, pool.poolSize, target, gets)
                && d.t.pid == next && d.t < c.t
    {
      ghost var m := pool.View();
      leaf, next, j', d := None, pid, j, c;
      ghost var shown := HeadPage(m.pages, ls, j, c, low, Lim(), m.pins.Keys, pool.poolSize, target, gets);
      var page := ReadPage(pool, pid);
      if page.None? { return true, None, next, j', d; }
      if page.value.LeafPage? {
        Arrived(m.pages, ls, j, c, low, Lim(), m.pins.Keys, pool.poolSize, target, gets);
        return true, Some(pid), next, j', d;
      }
      var child, i := Lookup(page.value.node, low);
      j', d := HeadOn(m.pages, ls, j, c, low, Lim(), m.pins.Keys, pool.poolSize, target, gets, i);
      return false, None, child, j', d;
    }

    /** Along `next_page_id` from leaf `start` until a key above `high` or the end. */
    method WalkChain(start: nat, ghost from: nat, ghost ls: seq<Tree>, low: int, high: int, results: seq<RID>)
      returns (out: Option<seq<RID>>)
      requires pool.Valid()
      requires LeavesStored(pool.pages, ls) && Linked(ls, INVALID_PAGE_ID) && Sorted(LeafEntries(ls))
      requires from < |ls| && ls[from].pid == start && AllBelow(LeafEntries(ls[..from]), low)
      modifies pool, pool.frames, pool.replacer
      ensures pool.Valid() && pool.View() == old(pool.View())
      ensures AtMostTwo(old(pool.held), old(pool.peak), pool.held, pool.peak, false)
      ensures out.Some? <==> ChainReadable(ls, from, high, pool.pins.Keys, pool.poolSize)
      ensures out.Some? ==> out.value == results + Slice(LeafEntries(ls), low, high)
    {
      var pid: int := start;
      ghost var j, m := from, pool.View();
      ghost var gets := ChainReadable(ls, from, high, m.pins.Keys, pool.poolSize);
      var rids := results;
      WalkStart(m.pages, ls, j, results, low, high, m.pins.Keys, pool.poolSize);
      while pid != INVALID_PAGE_ID
        invariant pool.Valid() && pool.View() == m
        invariant AtMostTwo(old(pool.held), old(pool.peak), pool.held, pool.peak, false)
        invariant Walking(m.pages, ls, j, pid, rids, results, low, high, m.pins.Keys, pool.poolSize, gets)
        decreases |ls| - j
      {
        WalkPage(m.pages, ls, j, pid, rids, results, low, high, m.pins.Keys, pool.poolSize, gets);
        var one := ScanOne(pid, ls[j], low, high, rids);
        if one.None? { return None; }
        var (more, next, done) := one.value;
        WalkNext(m.pages, ls, j, rids, more, results, low, high, m.pins.Keys, pool.poolSize, gets);
        rids := more;
        if done { return Some(rids); }
        pid := next;
        j := j + 1;
      }
      WalkEnd(m.pages, ls, j, rids, results, low, high, m.pins.Keys, pool.poolSize, gets);
      out := Some(rids);
    }

    /** The records of one leaf page, the next page, and whether the scan is over. */
    method ScanOne(pid: nat, ghost leaf: Tree, low: int, high: int, out: seq<RID>)
      returns (r: Option<(seq<RID>, int, bool)>)
      requires pool.Valid() && pid < |pool.pages|
      requires leaf.Leaf? && pool.pages[pid] == LeafPage(leaf.entries, leaf.next) && Sorted(leaf.entries)
      modifies pool, pool.frames, pool.replacer
      ensures pool.Valid() && pool.View() == old(pool.View())
      ensures AtMostTwo(old(pool.held), old(pool.peak), pool.held, pool.peak, false)
      ensures r.Some? <==> old(pool.CanFetch(pid))
      ensures r.Some? ==> r.value.0 == out + Slice(leaf.entries, low, high) && r.value.1 == leaf.next && (r.value.2 <==> EndsScan(leaf, high))
    {
      var page := ReadPage(pool, pid);
      if page.None? { return None; }
      var out', done := ScanLeaf(page.value.leaf, low, high, out);
      r := Some((out', page.value.next, done));
    }
  }
}
