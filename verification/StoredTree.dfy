/** A B+ tree stored in pages (`src/storage/bplus_tree.cpp`): which pages hold it, what they
  contain, and why work on one subtree leaves the rest of the file alone.
 */
module StoredTree {
  import opened Basics
  import opened Page
  import opened TreeEntries
  import opened TreeModel
  import opened TreeLinks
  import opened TreeIndex
  import opened NodePages
  import opened TreeShape

  /** The entries of an internal page. */
  function Slots(kids: seq<Kid>): (r: seq<InternalEntry>)
    ensures |r| == |kids|
    ensures forall i :: 0 <= i < |kids| ==> r[i] == InternalEntry(kids[i].key, kids[i].tree.pid)
  {
    if kids == [] then [] else [InternalEntry(kids[0].key, kids[0].tree.pid)] + Slots(kids[1..])
  }

  function PageOf(t: Tree): PageData {
    match t
    case Leaf(_, es, next) => LeafPage(es, next)
    case Node(_, kids) => InternalPage(Slots(kids))
  }

  ghost predicate Stored(pages: seq<PageData>, t: Tree)
    decreases t, 1
  {
    && t.pid < |pages| && pages[t.pid] == PageOf(t)
    && (t.Node? ==> StoredKids(pages, t.kids))
  }

  ghost predicate StoredKids(pages: seq<PageData>, kids: seq<Kid>)
    decreases kids, 0
  {
    if kids == [] then true
    else
      assert kids[0].tree < kids[0];
      Stored(pages, kids[0].tree) && StoredKids(pages, kids[1..])
  }

  lemma {:induction false} StoredConcat(pages: seq<PageData>, a: seq<Kid>, b: seq<Kid>)
    ensures StoredKids(pages, a + b) <==> StoredKids(pages, a) && StoredKids(pages, b)
  {
    if a == [] {
      assert a + b == b;
    } else {
      assert (a + b)[1..] == a[1..] + b && (a + b)[0] == a[0];
      StoredConcat(pages, a[1..], b);
    }
  }

  lemma StoredOne(pages: seq<PageData>, k: Kid)
    ensures StoredKids(pages, [k]) <==> Stored(pages, k.tree)
  {
    assert [k][1..] == [];
  }

  lemma StoredAt(pages: seq<PageData>, kids: seq<Kid>, i: nat)
    requires StoredKids(pages, kids) && i < |kids|
    ensures Stored(pages, kids[i].tree) && StoredKids(pages, kids[..i]) && StoredKids(pages, kids[i + 1..])
  {
    Around(kids, i);
    StoredConcat(pages, kids[..i], [kids[i]] + kids[i + 1..]);
    StoredConcat(pages, [kids[i]], kids[i + 1..]);
    StoredOne(pages, kids[i]);
  }

  /** The two page arrays agree on `pids`, and no page went away. */
  ghost predicate Agree(pages: seq<PageData>, pages': seq<PageData>, pids: set<nat>) {
    |pages| <= |pages'| && forall p :: p in pids && p < |pages| ==> pages'[p] == pages[p]
  }

  /** A stored tree depends on its own pages only. */
  lemma {:induction false} StoredFrame(pages: seq<PageData>, pages': seq<PageData>, t: Tree)
    requires Stored(pages, t) && Agree(pages, pages', Pids(t))
    ensures Stored(pages', t)
    decreases t, 1
  {
    if t.Node? {
      StoredKidsFrame(pages, pages', t.kids);
    }
  }

  lemma {:induction false} StoredKidsFrame(pages: seq<PageData>, pages': seq<PageData>, kids: seq<Kid>)
    requires StoredKids(pages, kids) && Agree(pages, pages', PidsOf(kids))
    ensures StoredKids(pages', kids)
    decreases kids, 0
  {
    if kids != [] {
      assert kids[0].tree < kids[0];
      StoredFrame(pages, pages', kids[0].tree);
      StoredKidsFrame(pages, pages', kids[1..]);
    }
  }

  lemma {:induction false} StoredBelow(pages: seq<PageData>, t: Tree)
    requires Stored(pages, t)
    ensures Below(Pids(t), |pages|)
    decreases t, 1
  {
    if t.Node? {
      StoredKidsBelow(pages, t.kids);
    }
  }

  lemma {:induction false} StoredKidsBelow(pages: seq<PageData>, kids: seq<Kid>)
    requires StoredKids(pages, kids)
    ensures Below(PidsOf(kids), |pages|)
    decreases kids, 0
  {
    if kids != [] {
      assert kids[0].tree < kids[0];
      StoredBelow(pages, kids[0].tree);
      StoredKidsBelow(pages, kids[1..]);
    }
  }

  /** What inserting below `t` did to the pages: the outcome is stored, everything else is
      as it was. */
  ghost predicate Applied(pages: seq<PageData>, pages': seq<PageData>, t: Tree, o: Outcome) {
    && |pages| <= |pages'| == o.avail
    && o.tree.pid == t.pid
    && Stored(pages', o.tree)
    && (o.split.Some? ==> Stored(pages', o.split.value.tree))
    && (forall p: nat :: p < |pages| && p !in Pids(t) ==> pages'[p] == pages[p])
  }

  /** After work below child `i`, the children are stored as they should be. */
  lemma GrownStored(pages: seq<PageData>, pages': seq<PageData>, kids: seq<Kid>, i: nat, o: Outcome)
    requires i < |kids| && StoredKids(pages, kids) && DistinctKids(kids)
    requires Applied(pages, pages', kids[i].tree, o)
    ensures StoredKids(pages', kids[..i] + Grown(kids, i, o) + kids[i + 1..])
  {
    var a, g, b := kids[..i], Grown(kids, i, o), kids[i + 1..];
    PidsAt(kids, i);
    StoredAt(pages, kids, i);
    StoredKidsFrame(pages, pages', a);
    StoredKidsFrame(pages, pages', b);
    StoredOne(pages', g[0]);
    if o.split.Some? {
      assert g == [g[0]] + [g[1]];
      StoredConcat(pages', [g[0]], [g[1]]);
      StoredOne(pages', g[1]);
    }
    StoredConcat(pages', a + g, b);
    StoredConcat(pages', a, g);
  }

  lemma LeafApplied(pages: seq<PageData>, pages': seq<PageData>, t: Tree, o: Outcome)
    requires t.Leaf? && t.pid < |pages| && o.tree.Leaf? && o.tree.pid == t.pid
    requires o.split.Some? ==> o.split.value.tree.Leaf? && o.split.value.tree.pid == |pages|
    requires o.avail == |pages| + if o.split.None? then 0 else 1
    requires pages' == pages[t.pid := PageOf(o.tree)]
                       + if o.split.None? then [] else [PageOf(o.split.value.tree)]
    ensures Applied(pages, pages', t, o)
  {
  }

  /** Storing the grown (and perhaps split) node in its own page and a new one. */
  lemma NodeStored(pages: seq<PageData>, mid: seq<PageData>, pages': seq<PageData>, t: Tree, i: nat, o: Outcome, r: Outcome, kids1: seq<Kid>, lim: Limits)
    requires t.Node? && i < |t.kids| && Stored(pages, t) && Distinct(t) && LimitsOk(lim)
    requires Applied(pages, mid, t.kids[i].tree, o) && PidsOut(o, Pids(t.kids[i].tree), |pages|)
    requires kids1 == t.kids[..i] + Grown(t.kids, i, o) + t.kids[i + 1..]
    requires r == SplitNode(t.pid, kids1, lim, o.avail)
    requires |pages'| == r.avail
    requires pages'[t.pid] == PageOf(r.tree)
    requires r.split.Some? ==> pages'[|mid|] == PageOf(r.split.value.tree)
    requires forall p: nat :: p < |mid| && p != t.pid ==> pages'[p] == mid[p]
    ensures Applied(pages, pages', t, r)
  {
    GrownStored(pages, mid, t.kids, i, o);
    StoredBelow(pages, t);
    GrownPids(t.kids, i, o, |pages|);
    StoredKidsBelow(mid, kids1);
    KidInPids(t.kids, i);
    assert Agree(mid, pages', PidsOf(kids1));
    StoredKidsFrame(mid, pages', kids1);
    if r.split.Some? { HalvesStored(pages', kids1, |kids1| / 2); }
  }

  lemma HalvesStored(pages: seq<PageData>, kids: seq<Kid>, m: nat)
    requires StoredKids(pages, kids) && m < |kids|
    ensures StoredKids(pages, kids[..m]) && StoredKids(pages, [Kid(0, kids[m].tree)] + kids[m + 1..])
  {
    StoredAt(pages, kids, m);
    StoredOne(pages, Kid(0, kids[m].tree));
    StoredConcat(pages, [Kid(0, kids[m].tree)], kids[m + 1..]);
  }

  lemma {:induction false} PosOfSlots(kids: seq<Kid>, key: int, i: nat)
    requires i <= |kids|
    ensures EntryPos(Slots(kids), key, i) == InsertPos(kids, key, i)
    decreases |kids| - i
  {
    if i < |kids| && kids[i].key <= key {
      PosOfSlots(kids, key, i + 1);
    }
  }

  /** Inserting the separator into the page is inserting it into the node. */
  lemma {:induction false} SlotsAddKid(kids: seq<Kid>, i: nat, o: Outcome)
    requires i < |kids| && o.split.Some? && o.tree.pid == kids[i].tree.pid
    ensures Slots(AddKid(kids, i, o)) ==
            Inserted(Slots(kids), EntryPos(Slots(kids), o.split.value.key, 1),
                     InternalEntry(o.split.value.key, o.split.value.tree.pid))
  {
    var kids1 := kids[i := Kid(kids[i].key, o.tree)];
    assert Slots(kids1) == Slots(kids);
    var k := o.split.value;
    var pos := InsertPos(kids1, k.key, 1);
    PosOfSlots(kids1, k.key, 1);
    SlotsConcat(kids1[..pos] + [k], kids1[pos..]);
    SlotsConcat(kids1[..pos], [k]);
    SlotsSlice(kids1, pos);
  }

  lemma {:induction false} SlotsConcat(a: seq<Kid>, b: seq<Kid>)
    ensures Slots(a + b) == Slots(a) + Slots(b)
  {
  }

  lemma {:induction false} SlotsSlice(kids: seq<Kid>, m: nat)
    requires m <= |kids|
    ensures Slots(kids[..m]) == Slots(kids)[..m] && Slots(kids[m..]) == Slots(kids)[m..]
  {
  }

  /** Separators of a well-formed node increase, so the child index is determined. */
  lemma SlotsSorted(kids: seq<Kid>, h: nat, lo: int, hi: int, lim: Limits)
    requires KidsWF(kids, h, lo, hi, lim)
    ensures forall i, j :: 1 <= i < j < |kids| ==> Slots(kids)[i].key < Slots(kids)[j].key
  {
    forall i: nat, j: nat | 1 <= i < j < |kids| ensures Slots(kids)[i].key < Slots(kids)[j].key {
      KeysIncrease(kids, i, j, h, lo, hi, lim);
    }
  }

  lemma {:induction false} ChildIndexIs(kids: seq<Kid>, key: int, i: nat, h: nat, lo: int, hi: int, lim: Limits)
    requires KidsWF(kids, h, lo, hi, lim) && IsChildIndex(Slots(kids), key, i)
    ensures i == ChildIndex(kids, key)
  {
    var c := ChildIndex(kids, key);
    if i < c {
      KeysIncrease(kids, i + 1, c, h, lo, hi, lim);
    } else if c < i {
      KeysIncrease(kids, c + 1, i, h, lo, hi, lim);
    }
  }

  /** The new root above a split. */
  lemma {:induction false} NewRootStored(pages: seq<PageData>, mid: seq<PageData>, pages': seq<PageData>, t: Tree, o: Outcome)
    requires Applied(pages, mid, t, o) && o.split.Some?
    requires pages' == mid + [InternalPage([InternalEntry(0, o.tree.pid),
                                            InternalEntry(o.split.value.key, o.split.value.tree.pid)])]
    ensures Stored(pages', Node(o.avail, [Kid(0, o.tree), o.split.value]))
    ensures forall p: nat :: p < |pages| && p !in Pids(t) ==> pages'[p] == pages[p]
  {
    var kids := [Kid(0, o.tree), o.split.value];
    assert kids == [kids[0]] + [kids[1]];
    StoredFrame(mid, pages', o.tree);
    StoredFrame(mid, pages', o.split.value.tree);
    StoredConcat(pages', [kids[0]], [kids[1]]);
    StoredOne(pages', kids[0]);
    StoredOne(pages', kids[1]);
    assert Slots(kids) == [InternalEntry(0, o.tree.pid), InternalEntry(o.split.value.key, o.split.value.tree.pid)];
  }

  // ------------------------------------------- facts used while inserting below a node

  /** The child the lookup of a key leads to. */
  lemma {:induction false} ChildFacts(t: Tree, pages: seq<PageData>, key: int, i: nat, h: nat, lo: int, hi: int, lim: Limits, root: bool) returns (kid: Tree)
    requires t.Node? && WF(t, h, lo, hi, lim, root) && Stored(pages, t) && Distinct(t)
    requires IsChildIndex(Slots(t.kids), key, i)
    ensures i == ChildIndex(t.kids, key) && kid == t.kids[i].tree && kid < t
    ensures WF(kid, h - 1, LoAt(t.kids, i, lo), HiAt(t.kids, i, hi), lim, false)
    ensures Stored(pages, kid) && Distinct(kid)
  {
    ChildIndexIs(t.kids, key, i, h - 1, lo, hi, lim);
    kid := t.kids[i].tree;
    assert kid < t.kids[i];
    KidFacts(t, pages, i, h, lo, hi, lim, root);
  }

  /** A child of a stored, well-formed node is stored and well formed. */
  lemma KidFacts(t: Tree, pages: seq<PageData>, i: nat, h: nat, lo: int, hi: int, lim: Limits, root: bool)
    requires t.Node? && WF(t, h, lo, hi, lim, root) && Stored(pages, t) && Distinct(t) && i < |t.kids|
    ensures WF(t.kids[i].tree, h - 1, LoAt(t.kids, i, lo), HiAt(t.kids, i, hi), lim, false)
    ensures Stored(pages, t.kids[i].tree) && Distinct(t.kids[i].tree)
  {
    assert KidWF(t.kids, i, h - 1, lo, hi, lim);
    StoredAt(pages, t.kids, i);
    PidsAt(t.kids, i);
  }

  /** The node's children after the insert below child `i`. */
  lemma {:induction false} NodeShape(t: Tree, i: nat, o: Outcome, key: int, rid: RID, h: nat, lo: int, hi: int, lim: Limits, root: bool, avail: nat)
    requires LimitsOk(lim) && t.Node? && WF(t, h, lo, hi, lim, root) && lo <= key < hi
    requires i == ChildIndex(t.kids, key) && o == InsertTree(t.kids[i].tree, key, rid, lim, avail)
    ensures AddKid(t.kids, i, o) == t.kids[..i] + Grown(t.kids, i, o) + t.kids[i + 1..]
    ensures |AddKid(t.kids, i, o)| == |t.kids| + if o.split.None? then 0 else 1
    ensures InsertTree(t, key, rid, lim, avail) == SplitNode(t.pid, AddKid(t.kids, i, o), lim, o.avail)
  {
    assert KidWF(t.kids, i, h - 1, lo, hi, lim);
    InsertGood(t.kids[i].tree, key, rid, lim, avail, h - 1, LoAt(t.kids, i, lo), HiAt(t.kids, i, hi), false);
    GrownKids(t.kids, i, o, lim, h - 1, lo, hi);
  }

  /** When the child did not split, the node's own page need not change. */
  lemma {:induction false} NodeUnchanged(pages: seq<PageData>, pages': seq<PageData>, t: Tree, i: nat, o: Outcome, key: int, rid: RID, h: nat, lo: int, hi: int, lim: Limits, root: bool)
    requires LimitsOk(lim) && t.Node? && WF(t, h, lo, hi, lim, root) && lo <= key < hi
    requires Stored(pages, t) && Distinct(t)
    requires i == ChildIndex(t.kids, key) && o == InsertTree(t.kids[i].tree, key, rid, lim, |pages|)
    requires o.split.None? && Applied(pages, pages', t.kids[i].tree, o)
    ensures InsertTree(t, key, rid, lim, |pages|).split.None?
    ensures Applied(pages, pages', t, InsertTree(t, key, rid, lim, |pages|))
  {
    NodeShape(t, i, o, key, rid, h, lo, hi, lim, root, |pages|);
    KidReplaced(pages, pages', t, i, o);
  }

  /** A child replaced in place, without a split, leaves the node's own page as it is. */
  lemma {:induction false} KidReplaced(pages: seq<PageData>, pages': seq<PageData>, t: Tree, i: nat, o: Outcome)
    requires t.Node? && Stored(pages, t) && Distinct(t) && i < |t.kids|
    requires o.split.None? && Applied(pages, pages', t.kids[i].tree, o)
    ensures Applied(pages, pages', t, Outcome(Node(t.pid, AddKid(t.kids, i, o)), None, o.avail))
  {
    var kids1 := AddKid(t.kids, i, o);
    assert kids1 == t.kids[..i] + Grown(t.kids, i, o) + t.kids[i + 1..];
    GrownStored(pages, pages', t.kids, i, o);
    KidInPids(t.kids, i);
    assert Slots(kids1) == Slots(t.kids);
  }

  lemma {:induction false} KidPidsOut(t: Tree, pages: seq<PageData>, i: nat, key: int, rid: RID, h: nat, lo: int, hi: int, lim: Limits, root: bool)
    requires LimitsOk(lim) && t.Node? && WF(t, h, lo, hi, lim, root) && lo <= key < hi
    requires Stored(pages, t) && Distinct(t) && i == ChildIndex(t.kids, key)
    ensures PidsOut(InsertTree(t.kids[i].tree, key, rid, lim, |pages|), Pids(t.kids[i].tree), |pages|)
  {
    KidFacts(t, pages, i, h, lo, hi, lim, root);
    KidBounds(t, i, key, h, lo, hi, lim, root);
    StoredPidsOut(t.kids[i].tree, pages, key, rid, h - 1, LoAt(t.kids, i, lo), HiAt(t.kids, i, hi), lim);
  }

  lemma KidBounds(t: Tree, i: nat, key: int, h: nat, lo: int, hi: int, lim: Limits, root: bool)
    requires t.Node? && |t.kids| > 0 && WF(t, h, lo, hi, lim, root) && lo <= key < hi && i == ChildIndex(t.kids, key)
    ensures i < |t.kids| && LoAt(t.kids, i, lo) <= key < HiAt(t.kids, i, hi)
  {
  }

  lemma StoredPidsOut(t: Tree, pages: seq<PageData>, key: int, rid: RID, h: nat, lo: int, hi: int, lim: Limits)
    requires LimitsOk(lim) && WF(t, h, lo, hi, lim, false) && lo <= key < hi && Stored(pages, t) && Distinct(t)
    ensures PidsOut(InsertTree(t, key, rid, lim, |pages|), Pids(t), |pages|)
  {
    StoredBelow(pages, t);
    InsertPids(t, key, rid, lim, |pages|, h, lo, hi, false);
  }

  /** The node's own page was not touched by the work below it. */
  lemma {:induction false} NodePageKept(t: Tree, pages: seq<PageData>, mid: seq<PageData>, i: nat, o: Outcome)
    requires t.Node? && Stored(pages, t) && Distinct(t) && i < |t.kids|
    requires Applied(pages, mid, t.kids[i].tree, o)
    ensures t.pid < |mid| && mid[t.pid] == InternalPage(Slots(t.kids))
  {
    KidInPids(t.kids, i);
  }

  /** The pages of a split node hold the two halves of its entries. */
  lemma {:induction false} SplitSlots(pid: nat, kids: seq<Kid>, lim: Limits, avail: nat)
    requires LimitsOk(lim)
    ensures var o, es, m := SplitNode(pid, kids, lim, avail), Slots(kids), |kids| / 2;
            if |kids| <= lim.internalMax then o.split.None? && PageOf(o.tree) == InternalPage(es)
            else
              && PageOf(o.tree) == InternalPage(es[..m])
              && o.split.Some? && o.split.value.key == es[m].key && o.split.value.tree.pid == avail
              && PageOf(o.split.value.tree) == InternalPage([InternalEntry(0, es[m].child)] + es[m + 1..])
  {
    if |kids| > lim.internalMax {
      var m := |kids| / 2;
      SlotsSlice(kids, m);
      SlotsSlice(kids, m + 1);
      SlotsConcat([Kid(0, kids[m].tree)], kids[m + 1..]);
    }
  }

  // ---------------------------------------------------------------------- descent

  /** A subtree met on the way down, with its height and key bounds. */
  datatype Place = Place(t: Tree, h: nat, lo: int, hi: int, root: bool)

  ghost predicate PlaceOk(pages: seq<PageData>, c: Place, key: int, lim: Limits) {
    && Stored(pages, c.t) && Distinct(c.t) && WF(c.t, c.h, c.lo, c.hi, lim, c.root)
    && c.lo <= key < c.hi
  }

  /** At a leaf or an internal page, the page says so and is in order. */
  lemma {:induction false} PlacePage(pages: seq<PageData>, c: Place, key: int, lim: Limits)
    requires PlaceOk(pages, c, key, lim)
    ensures c.t.pid < |pages| && pages[c.t.pid] == PageOf(c.t)
    ensures c.t.Leaf? ==> Sorted(c.t.entries)
    ensures c.t.Node? ==> |c.t.kids| >= 1
    ensures c.t.Node? ==>
              forall i, j :: 1 <= i < j < |c.t.kids| ==> Slots(c.t.kids)[i].key < Slots(c.t.kids)[j].key
  {
    if c.t.Node? {
      SlotsSorted(c.t.kids, c.h - 1, c.lo, c.hi, lim);
    }
  }

  /** The child a lookup leads to is the place of the key one level down. */
  lemma {:induction false} Down(pages: seq<PageData>, c: Place, key: int, i: nat, lim: Limits) returns (d: Place)
    requires PlaceOk(pages, c, key, lim) && c.t.Node? && IsChildIndex(Slots(c.t.kids), key, i)
    ensures PlaceOk(pages, d, key, lim) && d.t.pid == Slots(c.t.kids)[i].child && d.t < c.t
    ensures i == ChildIndex(c.t.kids, key) && d.t == c.t.kids[i].tree
    ensures Get(AsMap(Entries(d.t)), key) == Get(AsMap(Entries(c.t)), key)
  {
    var kid := ChildFacts(c.t, pages, key, i, c.h, c.lo, c.hi, lim, c.root);
    ChildHasKey(c.t.kids, key, c.h - 1, c.lo, c.hi, lim);
    KidBounds(c.t, i, key, c.h, c.lo, c.hi, lim, c.root);
    d := Place(kid, c.h - 1, LoAt(c.t.kids, i, c.lo), HiAt(c.t.kids, i, c.hi), false);
  }

  // ------------------------------------------------------------------- leaf chain

  /** Every leaf of the list is stored in its page. */
  ghost predicate LeavesStored(pages: seq<PageData>, ls: seq<Tree>) {
    forall i: nat :: i < |ls| ==> LeafStored(pages, ls, i)
  }

  ghost predicate LeafStored(pages: seq<PageData>, ls: seq<Tree>, i: nat)
    requires i < |ls|
  {
    ls[i].Leaf? && ls[i].pid < |pages| && pages[ls[i].pid] == LeafPage(ls[i].entries, ls[i].next)
  }

  lemma LeavesStoredConcat(pages: seq<PageData>, a: seq<Tree>, b: seq<Tree>)
    requires LeavesStored(pages, a) && LeavesStored(pages, b)
    ensures LeavesStored(pages, a + b)
  {
    var ls := a + b;
    forall i: nat | i < |ls| ensures LeafStored(pages, ls, i) {
      if i < |a| { assert LeafStored(pages, a, i); } else { assert LeafStored(pages, b, i - |a|); }
    }
  }

  lemma {:induction false} StoredLeaves(pages: seq<PageData>, t: Tree)
    requires Stored(pages, t)
    ensures LeavesStored(pages, Leaves(t))
    decreases t, 1
  {
    if t.Node? {
      StoredLeavesOf(pages, t.kids);
    }
  }

  lemma {:induction false} StoredLeavesOf(pages: seq<PageData>, kids: seq<Kid>)
    requires StoredKids(pages, kids)
    ensures LeavesStored(pages, LeavesOf(kids))
    decreases kids, 0
  {
    if kids != [] {
      assert kids[0].tree < kids[0];
      StoredLeaves(pages, kids[0].tree);
      StoredLeavesOf(pages, kids[1..]);
      LeavesStoredConcat(pages, Leaves(kids[0].tree), LeavesOf(kids[1..]));
    }
  }

  /** The leaves of a subtree start at position `at` of the list, and everything before has
      keys below `low`. */
  ghost predicate Inside(ls: seq<Tree>, at: nat, t: Tree, low: int) {
    var n := |Leaves(t)|;
    && at + n <= |ls| && ls[at..at + n] == Leaves(t)
    && AllBelow(LeafEntries(ls[..at]), low)
  }

  ghost predicate AllBelow(es: seq<LeafEntry>, low: int) {
    forall k :: 0 <= k < |es| ==> es[k].key < low
  }

  /** One step down keeps the place within the list of leaves. */
  lemma {:induction false} DownInside(ls: seq<Tree>, at: nat, c: Place, low: int, lim: Limits) returns (at': nat)
    requires c.t.Node? && WF(c.t, c.h, c.lo, c.hi, lim, c.root) && c.lo <= low
    requires Inside(ls, at, c.t, low)
    ensures |c.t.kids| > 0 && at' == at + |LeavesOf(c.t.kids[..ChildIndex(c.t.kids, low)])|
    ensures Inside(ls, at', c.t.kids[ChildIndex(c.t.kids, low)].tree, low)
  {
    var kids := c.t.kids;
    var i := ChildIndex(kids, low);
    LeavesAt(kids, i);
    var a, b := LeavesOf(kids[..i]), Leaves(kids[i].tree);
    at' := at + |a|;
    DescendLeft(kids, low, c.h - 1, c.lo, c.hi, lim);
    SubSlice(ls, at, a, b, LeavesOf(kids[i + 1..]));
    LeafEntriesConcat(ls[..at], a);
  }

  lemma SubSlice(ls: seq<Tree>, at: nat, a: seq<Tree>, b: seq<Tree>, c: seq<Tree>)
    requires at + |a + b + c| <= |ls| && ls[at..at + |a + b + c|] == a + b + c
    ensures ls[..at + |a|] == ls[..at] + a && ls[at + |a|..at + |a| + |b|] == b
  {
    var all := ls[at..at + |a + b + c|];
    assert forall k :: 0 <= k < |a| ==> ls[at + k] == all[k] == a[k];
    assert forall k :: 0 <= k < |b| ==> ls[at + |a| + k] == all[|a| + k] == b[k];
  }

  /** Entries of later leaves lie above the last entry of an earlier one. */
  lemma {:induction false} RestAbove(ls: seq<Tree>, j: nat, low: int, high: int)
    requires j < |ls| && ls[j].Leaf? && Sorted(LeafEntries(ls))
    requires ls[j].entries != [] && ls[j].entries[|ls[j].entries| - 1].key > high
    ensures Slice(LeafEntries(ls), low, high) == Slice(LeafEntries(ls[..j + 1]), low, high)
  {
    var a, b := LeafEntries(ls[..j + 1]), LeafEntries(ls[j + 1..]);
    assert ls == ls[..j + 1] + ls[j + 1..];
    LeafEntriesConcat(ls[..j + 1], ls[j + 1..]);
    EntriesSnoc(ls, j);
    assert a[|a| - 1].key > high;
    forall k | 0 <= k < |b| ensures b[k].key > high {
      assert (a + b)[|a| - 1] == a[|a| - 1] && (a + b)[|a| + k] == b[k];
    }
    SliceConcat(a, b, low, high);
    SliceEmpty(b, low, high);
  }

  lemma {:induction false} LeafSorted(ls: seq<Tree>, j: nat)
    requires j < |ls| && ls[j].Leaf? && Sorted(LeafEntries(ls))
    ensures Sorted(ls[j].entries)
  {
    var a, es := LeafEntries(ls[..j]), ls[j].entries;
    assert ls == ls[..j + 1] + ls[j + 1..];
    LeafEntriesConcat(ls[..j + 1], ls[j + 1..]);
    EntriesSnoc(ls, j);
    assert forall k :: 0 <= k < |es| ==> es[k] == LeafEntries(ls)[|a| + k];
  }

  lemma {:induction false} EntriesSnoc(ls: seq<Tree>, j: nat)
    requires j < |ls| && ls[j].Leaf?
    ensures LeafEntries(ls[..j + 1]) == LeafEntries(ls[..j]) + ls[j].entries
  {
    assert ls[..j + 1] == ls[..j] + [ls[j]];
    LeafEntriesConcat(ls[..j], [ls[j]]);
    assert [ls[j]][1..] == [];
    assert LeafEntries([ls[j]]) == ls[j].entries + [];
  }

  /** One leaf of the walk. */
  lemma {:induction false} WalkStep(ls: seq<Tree>, j: nat, low: int, high: int)
    requires j < |ls| && ls[j].Leaf? && Sorted(LeafEntries(ls))
    ensures Sorted(ls[j].entries)
    ensures Slice(LeafEntries(ls[..j + 1]), low, high) == Slice(LeafEntries(ls[..j]), low, high) + Slice(ls[j].entries, low, high)
    ensures ls[j].entries != [] && ls[j].entries[|ls[j].entries| - 1].key > high ==>
              Slice(LeafEntries(ls), low, high) == Slice(LeafEntries(ls[..j + 1]), low, high)
  {
    EntriesSnoc(ls, j);
    LeafSorted(ls, j);
    SliceConcat(LeafEntries(ls[..j]), ls[j].entries, low, high);
    if ls[j].entries != [] && ls[j].entries[|ls[j].entries| - 1].key > high {
      RestAbove(ls, j, low, high);
    }
  }

  /** One leaf of the walk, behind what was there before. */
  lemma WalkOn(ls: seq<Tree>, j: nat, low: int, high: int, results: seq<RID>)
    requires j < |ls| && ls[j].Leaf? && Sorted(LeafEntries(ls))
    ensures Sorted(ls[j].entries)
    ensures results + Slice(LeafEntries(ls[..j]), low, high) + Slice(ls[j].entries, low, high)
            == results + Slice(LeafEntries(ls[..j + 1]), low, high)
    ensures ls[j].entries != [] && ls[j].entries[|ls[j].entries| - 1].key > high ==>
              Slice(LeafEntries(ls[..j + 1]), low, high) == Slice(LeafEntries(ls), low, high)
  {
    WalkStep(ls, j, low, high);
    Assoc(results, Slice(LeafEntries(ls[..j]), low, high), Slice(ls[j].entries, low, high));
  }

  /** One step of the way down, and where it ends. */
  lemma {:induction false} DownTo(pages: seq<PageData>, ls: seq<Tree>, at: nat, c: Place, low: int, i: nat, lim: Limits) returns (at': nat, d: Place)
    requires PlaceOk(pages, c, low, lim) && Inside(ls, at, c.t, low)
    requires c.t.Node? && IsChildIndex(Slots(c.t.kids), low, i)
    ensures PlaceOk(pages, d, low, lim) && Inside(ls, at', d.t, low)
    ensures d.t.pid == Slots(c.t.kids)[i].child && d.t < c.t
    ensures i == ChildIndex(c.t.kids, low) && d.t == c.t.kids[i].tree && at' == at + |LeavesOf(c.t.kids[..i])|
  {
    at' := DownInside(ls, at, c, low, lim);
    d := Down(pages, c, low, i, lim);
  }

  lemma {:induction false} InsideLeaf(ls: seq<Tree>, at: nat, t: Tree, low: int)
    requires Inside(ls, at, t, low) && t.Leaf?
    ensures at < |ls| && ls[at] == t && AllBelow(LeafEntries(ls[..at]), low)
  {
    assert ls[at..at + 1][0] == ls[at];
  }
}
