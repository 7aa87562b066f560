/** Whole B+ trees and whole runs of inserts (`src/storage/bplus_tree.cpp`): what a search
  and a range scan see, how full the tree is, and how large a node gets on the way.
 */
module TreeIndex {
  import opened Page
  import opened TreeEntries
  import opened TreeModel
  import opened TreeLinks

  const KEY_MIN := -0x8000_0000
  const KEY_END := 0x8000_0000

  /** `CAPACITY` of the two page layouts. */
  const LEAF_CAPACITY := (PAGE_SIZE - 16) / 12
  const INTERNAL_CAPACITY := (PAGE_SIZE - 12) / 8

  /** A tree, its height, and the next page the file will hand out. */
  datatype Index = Index(root: Option<Tree>, height: nat, avail: nat)

  function RootEntries(root: Option<Tree>): seq<LeafEntry> {
    if root.None? then [] else Entries(root.value)
  }

  ghost predicate RootOk(root: Option<Tree>, h: nat, lim: Limits) {
    match root
    case None => h == 0
    case Some(t) => WF(t, h, KEY_MIN, KEY_END, lim, true) && Chain(t, INVALID_PAGE_ID) && Distinct(t)
  }

  ghost predicate IndexOk(x: Index, lim: Limits) {
    RootOk(x.root, x.height, lim) && (x.root.Some? ==> Below(Pids(x.root.value), x.avail))
  }

  /** `BPlusTree::Insert`: the first insert makes a leaf, a split root gets a new root. */
  function Insert(x: Index, key: int, rid: RID, lim: Limits): Index {
    if x.root.None? then
      Index(Some(Leaf(x.avail, [LeafEntry(key, rid)], INVALID_PAGE_ID)), 0, x.avail + 1)
    else
      var o := InsertTree(x.root.value, key, rid, lim, x.avail);
      if o.split.None? then Index(Some(o.tree), x.height, o.avail)
      else Index(Some(Node(o.avail, [Kid(0, o.tree), o.split.value])), x.height + 1, o.avail + 1)
  }

  /** An insert keeps every invariant and binds the key. */
  lemma InsertOk(x: Index, key: int, rid: RID, lim: Limits)
    requires LimitsOk(lim) && IndexOk(x, lim) && KEY_MIN <= key < KEY_END
    ensures IndexOk(Insert(x, key, rid, lim), lim)
    ensures RootEntries(Insert(x, key, rid, lim).root) == Upsert(RootEntries(x.root), key, rid)
  {
    if x.root.Some? {
      var t := x.root.value;
      InsertGood(t, key, rid, lim, x.avail, x.height, KEY_MIN, KEY_END, true);
      InsertChain(t, key, rid, lim, x.avail, x.height, KEY_MIN, KEY_END, true, INVALID_PAGE_ID);
      InsertPids(t, key, rid, lim, x.avail, x.height, KEY_MIN, KEY_END, true);
      var o := InsertTree(t, key, rid, lim, x.avail);
      if o.split.Some? {
        NewRootWF(o, x.height, lim, Upsert(Entries(t), key, rid));
        NewRootLinks(o, lim, Pids(t), x.avail, FirstPid(t));
      }
    }
  }

  lemma NewRootWF(o: Outcome, h: nat, lim: Limits, es: seq<LeafEntry>)
    requires LimitsOk(lim) && o.split.Some? && Good(o, es, h, KEY_MIN, KEY_END, lim, true)
    ensures WF(Node(o.avail, [Kid(0, o.tree), o.split.value]), h + 1, KEY_MIN, KEY_END, lim, true)
    ensures Flat([Kid(0, o.tree), o.split.value]) == es
  {
    var kids := [Kid(0, o.tree), o.split.value];
    forall i: nat | i < |kids| ensures KidWF(kids, i, h, KEY_MIN, KEY_END, lim) {
    }
    assert KidsWF(kids, h, KEY_MIN, KEY_END, lim);
    assert kids == [kids[0]] + [kids[1]];
    FlatConcat([kids[0]], [kids[1]]);
    FlatOne(kids[0]);
    FlatOne(kids[1]);
  }

  lemma NewRootLinks(o: Outcome, lim: Limits, pids: set<nat>, avail: nat, first: int)
    requires o.split.Some? && ChainOut(o, first, INVALID_PAGE_ID)
    requires PidsOut(o, pids, avail) && Below(pids, avail)
    ensures var t := Node(o.avail, [Kid(0, o.tree), o.split.value]);
            Chain(t, INVALID_PAGE_ID) && Distinct(t) && Below(Pids(t), o.avail + 1)
  {
    var kids := [Kid(0, o.tree), o.split.value];
    assert kids == [kids[0]] + [kids[1]];
    ChainConcat([kids[0]], [kids[1]], INVALID_PAGE_ID);
    ChainOne(kids[0], FirstPid(kids[1].tree));
    ChainOne(kids[1], INVALID_PAGE_ID);
    PidsConcat([kids[0]], [kids[1]]);
    PidsOne(kids[0]);
    PidsOne(kids[1]);
  }

  /** The pages of the tree. */
  ghost function RootPids(root: Option<Tree>): set<nat> {
    if root.None? then {} else Pids(root.value)
  }

  /** An insert uses the old pages and newly allocated ones. */
  lemma InsertRootPids(x: Index, key: int, rid: RID, lim: Limits)
    requires LimitsOk(lim) && IndexOk(x, lim) && KEY_MIN <= key < KEY_END
    ensures From(RootPids(Insert(x, key, rid, lim).root), RootPids(x.root), x.avail, Insert(x, key, rid, lim).avail)
  {
    if x.root.Some? {
      var t := x.root.value;
      InsertPids(t, key, rid, lim, x.avail, x.height, KEY_MIN, KEY_END, true);
      var o := InsertTree(t, key, rid, lim, x.avail);
      if o.split.Some? {
        var kids := [Kid(0, o.tree), o.split.value];
        assert kids == [kids[0]] + [kids[1]];
        PidsConcat([kids[0]], [kids[1]]);
        PidsOne(kids[0]);
        PidsOne(kids[1]);
      }
    }
  }

  // ---------------------------------------------------------------------- runs

  /** One insert; other users of the file allocated `others` pages just before it. */
  datatype Op = Op(key: int, rid: RID, others: nat)

  ghost predicate Keys32(ops: seq<Op>) {
    forall i :: 0 <= i < |ops| ==> KEY_MIN <= ops[i].key < KEY_END
  }

  /** The tree after a run of inserts. */
  function Build(ops: seq<Op>, lim: Limits): Index {
    if ops == [] then Index(None, 0, 0)
    else
      Do(Build(ops[..|ops| - 1], lim), ops[|ops| - 1], lim)
  }

  function Do(x: Index, op: Op, lim: Limits): Index {
    Insert(x.(avail := x.avail + op.others), op.key, op.rid, lim)
  }

  lemma DoOk(x: Index, op: Op, lim: Limits)
    requires LimitsOk(lim) && IndexOk(x, lim) && KEY_MIN <= op.key < KEY_END
    ensures IndexOk(Do(x, op, lim), lim)
    ensures RootEntries(Do(x, op, lim).root) == Upsert(RootEntries(x.root), op.key, op.rid)
  {
    InsertLater(x, x.(avail := x.avail + op.others), op.key, op.rid, lim, Do(x, op, lim));
  }

  lemma InsertLater(x: Index, x1: Index, key: int, rid: RID, lim: Limits, y: Index)
    requires LimitsOk(lim) && IndexOk(x, lim) && KEY_MIN <= key < KEY_END
    requires x1.root == x.root && x1.height == x.height && x.avail <= x1.avail && y == Insert(x1, key, rid, lim)
    ensures IndexOk(y, lim) && RootEntries(y.root) == Upsert(RootEntries(x.root), key, rid)
  {
    Later(x, x1, lim);
    InsertOk(x1, key, rid, lim);
  }

  lemma Later(x: Index, x1: Index, lim: Limits)
    requires IndexOk(x, lim) && x1.root == x.root && x1.height == x.height && x.avail <= x1.avail
    ensures IndexOk(x1, lim)
  {
  }

  /** The map after a run of inserts: later ones win. */
  function Bound(ops: seq<Op>): map<int, RID> {
    if ops == [] then map[] else Bound(ops[..|ops| - 1])[ops[|ops| - 1].key := ops[|ops| - 1].rid]
  }

  /** After any run of inserts the tree is well formed and stands for the map. */
  lemma {:induction false} BuildOk(ops: seq<Op>, lim: Limits)
    requires LimitsOk(lim) && Keys32(ops)
    ensures IndexOk(Build(ops, lim), lim)
    ensures AsMap(RootEntries(Build(ops, lim).root)) == Bound(ops)
  {
    if ops != [] {
      BuildOk(ops[..|ops| - 1], lim);
      var x, op := Build(ops[..|ops| - 1], lim), ops[|ops| - 1];
      DoOk(x, op, lim);
      AsMapUpsert(RootEntries(x.root), op.key, op.rid);
    }
  }

  // -------------------------------------------------------------------- search

  function Get(m: map<int, RID>, k: int): Option<RID> {
    if k in m then Some(m[k]) else None
  }

  /** `Search`: down to the leaf the key belongs to. */
  function Find(t: Tree, key: int): Option<RID>
    decreases t
  {
    match t
    case Leaf(_, es, _) => Get(AsMap(es), key)
    case Node(_, kids) =>
      if kids == [] then None
      else
        assert kids[ChildIndex(kids, key)].tree < kids[ChildIndex(kids, key)];
        Find(kids[ChildIndex(kids, key)].tree, key)
  }

  /** A key between two bounds is looked up in the middle part alone. */
  lemma GetBetween(a: seq<LeafEntry>, b: seq<LeafEntry>, c: seq<LeafEntry>, key: int)
    requires Sorted(a + b + c)
    requires forall i :: 0 <= i < |a| ==> a[i].key < key
    requires forall i :: 0 <= i < |c| ==> key < c[i].key
    ensures Get(AsMap(a + b + c), key) == Get(AsMap(b), key)
  {
    var es := a + b + c;
    assert forall i :: 0 <= i < |b| ==> b[i] == es[|a| + i];
    AsMapKeys(es, key);
    AsMapKeys(b, key);
    if i :| 0 <= i < |es| && es[i].key == key {
      assert i >= |a| && i < |a| + |b|;
      AsMapGet(es, i);
      AsMapGet(b, i - |a|);
    }
  }

  /** Child `ChildIndex` has all entries of the node that can carry the key. */
  lemma ChildHasKey(kids: seq<Kid>, key: int, h: nat, lo: int, hi: int, lim: Limits)
    requires KidsWF(kids, h, lo, hi, lim) && lo <= key < hi
    ensures Get(AsMap(Flat(kids)), key) == Get(AsMap(Entries(kids[ChildIndex(kids, key)].tree)), key)
  {
    var i := ChildIndex(kids, key);
    FlatAt(kids, i);
    FlatSorted(kids, h, lo, hi, lim);
    SidesOfKid(kids, i, h, lo, hi, lim);
    GetBetween(Flat(kids[..i]), Entries(kids[i].tree), Flat(kids[i + 1..]), key);
  }

  lemma {:induction false} FindIsGet(t: Tree, key: int, h: nat, lo: int, hi: int, lim: Limits, root: bool)
    requires WF(t, h, lo, hi, lim, root) && lo <= key < hi
    ensures Find(t, key) == Get(AsMap(Entries(t)), key)
    decreases t
  {
    if t.Node? {
      var i := ChildIndex(t.kids, key);
      assert KidWF(t.kids, i, h - 1, lo, hi, lim) && t.kids[i].tree < t.kids[i];
      FindIsGet(t.kids[i].tree, key, h - 1, LoAt(t.kids, i, lo), HiAt(t.kids, i, hi), lim, false);
      ChildHasKey(t.kids, key, h - 1, lo, hi, lim);
    }
  }

  /** The record of the last insert of `k` in the run, if any. */
  function LastInserted(ops: seq<Op>, k: int): Option<RID> {
    if ops == [] then None
    else if ops[|ops| - 1].key == k then Some(ops[|ops| - 1].rid)
    else LastInserted(ops[..|ops| - 1], k)
  }

  lemma {:induction false} BoundIsLast(ops: seq<Op>, k: int)
    ensures Get(Bound(ops), k) == LastInserted(ops, k)
  {
    if ops != [] {
      BoundIsLast(ops[..|ops| - 1], k);
    }
  }

  /** After any run of inserts, a search finds exactly the record last inserted for the key. */
  lemma SearchAfterInserts(ops: seq<Op>, lim: Limits, k: int)
    requires LimitsOk(lim) && Keys32(ops) && KEY_MIN <= k < KEY_END
    ensures var root := Build(ops, lim).root;
            (if root.None? then None else Find(root.value, k)) == LastInserted(ops, k)
  {
    BuildOk(ops, lim);
    BoundIsLast(ops, k);
    var x := Build(ops, lim);
    if x.root.Some? {
      FindIsGet(x.root.value, k, x.height, KEY_MIN, KEY_END, lim, true);
    }
  }
}
