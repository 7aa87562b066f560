/** The shape of a B+ tree (`src/storage/bplus_tree.cpp`): its leaves as a linked list, how
  many keys a tree of a given height must hold, and how many entries an internal node
  holds at its worst while an insert is under way.
 */
module TreeShape {
  import opened Basics
  import opened Page
  import opened TreeEntries
  import opened TreeModel
  import opened TreeLinks
  import opened TreeIndex

  // -------------------------------------------------------------------- leaves

  /** The leaves from left to right. */
  function Leaves(t: Tree): seq<Tree>
    decreases t, 1
  {
    match t
    case Leaf(_, _, _) => [t]
    case Node(_, kids) => LeavesOf(kids)
  }

  function LeavesOf(kids: seq<Kid>): seq<Tree>
    decreases kids, 0
  {
    if kids == [] then []
    else
      assert kids[0].tree < kids[0];
      Leaves(kids[0].tree) + LeavesOf(kids[1..])
  }

  /** The entries of a list of leaves. */
  function LeafEntries(ls: seq<Tree>): seq<LeafEntry> {
    if ls == [] then [] else (if ls[0].Leaf? then ls[0].entries else []) + LeafEntries(ls[1..])
  }

  lemma {:induction false} LeafEntriesConcat(a: seq<Tree>, b: seq<Tree>)
    ensures LeafEntries(a + b) == LeafEntries(a) + LeafEntries(b)
  {
    if a == [] {
      assert a + b == b;
    } else {
      assert (a + b)[1..] == a[1..] + b && (a + b)[0] == a[0];
      LeafEntriesConcat(a[1..], b);
    }
  }

  lemma {:induction false} LeavesConcat(a: seq<Kid>, b: seq<Kid>)
    ensures LeavesOf(a + b) == LeavesOf(a) + LeavesOf(b)
  {
    if a == [] {
      assert a + b == b;
    } else {
      assert (a + b)[1..] == a[1..] + b && (a + b)[0] == a[0];
      LeavesConcat(a[1..], b);
    }
  }

  lemma LeavesAt(kids: seq<Kid>, i: nat)
    requires i < |kids|
    ensures LeavesOf(kids) == LeavesOf(kids[..i]) + Leaves(kids[i].tree) + LeavesOf(kids[i + 1..])
  {
    var a, b := kids[..i], kids[i + 1..];
    Around(kids, i);
    LeavesConcat(a, [kids[i]] + b);
    LeavesConcat([kids[i]], b);
    LeavesOne(kids[i]);
    Assoc(LeavesOf(a), Leaves(kids[i].tree), LeavesOf(b));
  }

  lemma LeavesOne(k: Kid)
    ensures LeavesOf([k]) == Leaves(k.tree)
  {
    assert [k][1..] == [];
  }

  /** The leaves carry all entries. */
  lemma {:induction false} LeavesHaveEntries(t: Tree)
    ensures LeafEntries(Leaves(t)) == Entries(t)
    decreases t, 1
  {
    if t.Node? {
      LeavesHaveFlat(t.kids);
    } else {
      assert [t][1..] == [];
    }
  }

  lemma {:induction false} LeavesHaveFlat(kids: seq<Kid>)
    ensures LeafEntries(LeavesOf(kids)) == Flat(kids)
    decreases kids, 0
  {
    if kids != [] {
      assert kids[0].tree < kids[0];
      LeavesHaveEntries(kids[0].tree);
      LeavesHaveFlat(kids[1..]);
      LeafEntriesConcat(Leaves(kids[0].tree), LeavesOf(kids[1..]));
    }
  }

  /** A linked list of leaf pages ending in `after`. */
  ghost predicate Linked(ls: seq<Tree>, after: int) {
    forall i: nat :: i < |ls| ==> LinkAt(ls, i, after)
  }

  ghost predicate LinkAt(ls: seq<Tree>, i: nat, after: int)
    requires i < |ls|
  {
    ls[i].Leaf? && ls[i].next == (if i + 1 < |ls| then ls[i + 1].pid else after)
  }

  ghost function HeadPid(ls: seq<Tree>, after: int): int {
    if ls == [] then after else ls[0].pid
  }

  lemma LinkedConcat(a: seq<Tree>, b: seq<Tree>, after: int)
    requires Linked(a, HeadPid(b, after)) && Linked(b, after)
    ensures Linked(a + b, after)
  {
    var ls := a + b;
    forall i: nat | i < |ls| ensures LinkAt(ls, i, after) {
      if i < |a| {
        assert LinkAt(a, i, HeadPid(b, after));
      } else {
        assert LinkAt(b, i - |a|, after);
      }
    }
  }

  /** The `next_page_id` chain is the in-order sequence of the leaves. */
  lemma {:induction false} ChainIsLeaves(t: Tree, after: int)
    requires Chain(t, after)
    ensures Leaves(t) != [] && Linked(Leaves(t), after) && HeadPid(Leaves(t), after) == FirstPid(t)
    decreases t, 1
  {
    if t.Node? {
      ChainIsLeavesOf(t.kids, after);
    }
  }

  lemma {:induction false} ChainIsLeavesOf(kids: seq<Kid>, after: int)
    requires ChainKids(kids, after)
    ensures Linked(LeavesOf(kids), after) && HeadPid(LeavesOf(kids), after) == FirstOf(kids, after)
    ensures kids != [] ==> LeavesOf(kids) != []
    decreases kids, 0
  {
    if kids != [] {
      assert kids[0].tree < kids[0];
      ChainIsLeaves(kids[0].tree, FirstOf(kids[1..], after));
      ChainIsLeavesOf(kids[1..], after);
      LinkedConcat(Leaves(kids[0].tree), LeavesOf(kids[1..]), after);
    }
  }

  /** Descending to the child for `low` leaves only smaller keys to the left. */
  lemma DescendLeft(kids: seq<Kid>, low: int, h: nat, lo: int, hi: int, lim: Limits)
    requires KidsWF(kids, h, lo, hi, lim) && lo <= low
    ensures var left := LeafEntries(LeavesOf(kids[..ChildIndex(kids, low)]));
            forall k :: 0 <= k < |left| ==> left[k].key < low
  {
    var i := ChildIndex(kids, low);
    LeavesHaveFlat(kids[..i]);
    SidesOfKid(kids, i, h, lo, hi, lim);
  }

  // ----------------------------------------------------------------- occupancy

  function Pow(b: nat, e: nat): nat {
    if e == 0 then 1 else b * Pow(b, e - 1)
  }

  lemma {:induction false} FlatAtLeast(kids: seq<Kid>, m: nat)
    requires forall i :: 0 <= i < |kids| ==> |Entries(kids[i].tree)| >= m
    ensures |Flat(kids)| >= |kids| * m
  {
    if kids != [] {
      FlatAtLeast(kids[1..], m);
      assert |kids| * m == m + (|kids| - 1) * m;
    }
  }

  lemma {:induction false} FlatAtMost(kids: seq<Kid>, m: nat)
    requires forall i :: 0 <= i < |kids| ==> |Entries(kids[i].tree)| <= m
    ensures |Flat(kids)| <= |kids| * m
  {
    if kids != [] {
      FlatAtMost(kids[1..], m);
      assert |kids| * m == m + (|kids| - 1) * m;
    }
  }

  /** A subtree of height `h` holds at least ((I+1)/2)^h * (L/2) keys. */
  lemma {:induction false} SubtreeAtLeast(t: Tree, h: nat, lo: int, hi: int, lim: Limits)
    requires WF(t, h, lo, hi, lim, false)
    ensures |Entries(t)| >= Pow((lim.internalMax + 1) / 2, h) * (lim.leafMax / 2)
    decreases t
  {
    if t.Node? {
      var b, m := (lim.internalMax + 1) / 2, Pow((lim.internalMax + 1) / 2, h - 1) * (lim.leafMax / 2);
      KidsAtLeast(t.kids, h - 1, lo, hi, lim, t);
      FlatAtLeast(t.kids, m);
      MulMono(b, |t.kids|, m);
      PowStep(b, h, lim.leafMax / 2);
    }
  }

  lemma PowStep(b: nat, h: nat, x: nat)
    requires h > 0
    ensures Pow(b, h) * x == b * (Pow(b, h - 1) * x)
  {
  }

  lemma {:induction false} KidsAtLeast(kids: seq<Kid>, h: nat, lo: int, hi: int, lim: Limits, t: Tree)
    requires KidsWF(kids, h, lo, hi, lim) && t.Node? && t.kids == kids
    ensures forall i :: 0 <= i < |kids| ==>
              |Entries(kids[i].tree)| >= Pow((lim.internalMax + 1) / 2, h) * (lim.leafMax / 2)
    decreases t, 0
  {
    forall i: nat | i < |kids|
      ensures |Entries(kids[i].tree)| >= Pow((lim.internalMax + 1) / 2, h) * (lim.leafMax / 2)
    {
      assert KidWF(kids, i, h, lo, hi, lim) && kids[i].tree < kids[i];
      SubtreeAtLeast(kids[i].tree, h, LoAt(kids, i, lo), HiAt(kids, i, hi), lim);
    }
  }

  /** A tree with h >= 1 internal levels holds at least 2 * ((I+1)/2)^(h-1) * (L/2) keys. */
  lemma TreeAtLeast(t: Tree, h: nat, lim: Limits)
    requires WF(t, h, KEY_MIN, KEY_END, lim, true) && h >= 1
    ensures |Entries(t)| >= 2 * (Pow((lim.internalMax + 1) / 2, h - 1) * (lim.leafMax / 2))
  {
    var m := Pow((lim.internalMax + 1) / 2, h - 1) * (lim.leafMax / 2);
    KidsAtLeast(t.kids, h - 1, KEY_MIN, KEY_END, lim, t);
    FlatAtLeast(t.kids, m);
    MulMono(2, |t.kids|, m);
  }

  // ------------------------------------------------------- transient node size

  function Max(a: nat, b: nat): nat {
    if a > b then a else b
  }

  /** The largest number of entries an internal page holds while a key is inserted below
      `t`: `InsertEntry` runs before the size is compared with the limit. */
  function PeakKids(t: Tree, key: int, rid: RID, lim: Limits, avail: nat): nat
    decreases t
  {
    if t.Leaf? || t.kids == [] then 0
    else
      var i := ChildIndex(t.kids, key);
      assert t.kids[i].tree < t.kids[i];
      Max(PeakKids(t.kids[i].tree, key, rid, lim, avail),
          |AddKid(t.kids, i, InsertTree(t.kids[i].tree, key, rid, lim, avail))|)
  }

  lemma {:induction false} PeakBound(t: Tree, key: int, rid: RID, lim: Limits, avail: nat, h: nat, lo: int, hi: int, root: bool)
    requires LimitsOk(lim) && WF(t, h, lo, hi, lim, root) && lo <= key < hi
    ensures PeakKids(t, key, rid, lim, avail) <= lim.internalMax + 1
    ensures t.Node? && InsertTree(t, key, rid, lim, avail).split.Some? ==>
              PeakKids(t, key, rid, lim, avail) == lim.internalMax + 1
    decreases t
  {
    if t.Node? {
      var i := ChildIndex(t.kids, key);
      assert KidWF(t.kids, i, h - 1, lo, hi, lim) && t.kids[i].tree < t.kids[i];
      var o := InsertTree(t.kids[i].tree, key, rid, lim, avail);
      PeakBound(t.kids[i].tree, key, rid, lim, avail, h - 1, LoAt(t.kids, i, lo), HiAt(t.kids, i, hi), false);
      GrownSize(t, i, o, key, rid, lim, avail, h, lo, hi, root);
    }
  }

  /** A node gets at most one child more. */
  lemma GrownSize(t: Tree, i: nat, o: Outcome, key: int, rid: RID, lim: Limits, avail: nat, h: nat, lo: int, hi: int, root: bool)
    requires LimitsOk(lim) && t.Node? && WF(t, h, lo, hi, lim, root) && lo <= key < hi
    requires |t.kids| > 0 && i == ChildIndex(t.kids, key) && o == InsertTree(t.kids[i].tree, key, rid, lim, avail)
    ensures |AddKid(t.kids, i, o)| == |t.kids| + (if o.split.None? then 0 else 1) <= lim.internalMax + 1
  {
    assert KidWF(t.kids, i, h - 1, lo, hi, lim);
    InsertGood(t.kids[i].tree, key, rid, lim, avail, h - 1, LoAt(t.kids, i, lo), HiAt(t.kids, i, hi), false);
    KidsGood(t.kids, i, o, key, rid, lim, h - 1, lo, hi);
  }

  /** Where pages are split: a leaf of L entries keeps L/2 of them, a node of I+1 children keeps
      (I+1)/2, and the rest moves to the new page on the right. */
  lemma SplitSizes(t: Tree, key: int, rid: RID, lim: Limits, avail: nat, h: nat, lo: int, hi: int, root: bool)
    requires LimitsOk(lim) && WF(t, h, lo, hi, lim, root) && lo <= key < hi && InsertTree(t, key, rid, lim, avail).split.Some?
    ensures var o := InsertTree(t, key, rid, lim, avail);
            HalvesAre(o.tree, o.split.value.tree, if t.Leaf? then lim.leafMax else lim.internalMax + 1) && (t.Leaf? <==> o.tree.Leaf?)
  {
    if t.Leaf? {
      LeafSizes(t, key, rid, lim, avail, lo, hi, root);
    } else {
      NodeAbove(t, h, lo, hi, lim, root);
      var i := ChildIndex(t.kids, key);
      var o := InsertTree(t.kids[i].tree, key, rid, lim, avail);
      GrownSize(t, i, o, key, rid, lim, avail, h, lo, hi, root);
      NodeSizes(t.pid, AddKid(t.kids, i, o), lim, o.avail);
    }
  }

  /** Two pages of one kind hold `n` entries together, the left one half of them, rounded down. */
  predicate HalvesAre(left: Tree, right: Tree, n: nat) {
    match left
    case Leaf(_, es, _) => right.Leaf? && |es| == n / 2 && |right.entries| == n - n / 2
    case Node(_, kids) => right.Node? && |kids| == n / 2 && |right.kids| == n - n / 2
  }

  lemma LeafSizes(t: Tree, key: int, rid: RID, lim: Limits, avail: nat, lo: int, hi: int, root: bool)
    requires LimitsOk(lim) && t.Leaf? && WF(t, 0, lo, hi, lim, root) && lo <= key < hi && InsertLeaf(t, key, rid, lim, avail).split.Some?
    ensures var o := InsertLeaf(t, key, rid, lim, avail); o.tree.Leaf? && HalvesAre(o.tree, o.split.value.tree, lim.leafMax)
  {
    UpsertSorted(t.entries, key, rid, lo, hi);
  }

  lemma NodeSizes(pid: nat, kids: seq<Kid>, lim: Limits, avail: nat)
    requires |kids| <= lim.internalMax + 1 && SplitNode(pid, kids, lim, avail).split.Some?
    ensures var o := SplitNode(pid, kids, lim, avail); o.tree.Node? && HalvesAre(o.tree, o.split.value.tree, lim.internalMax + 1)
  {
  }

  /** The largest number of entries an internal page holds in the course of a run of inserts. */
  function RunPeak(ops: seq<Op>, lim: Limits): nat {
    if ops == [] then 0
    else
      var x, op := Build(ops[..|ops| - 1], lim), ops[|ops| - 1];
      Max(RunPeak(ops[..|ops| - 1], lim), OpPeak(x, op, lim))
  }

  /** No page ever holds more than one entry above the limit, and a tree with two internal
      levels has been there. */
  lemma {:induction false} RunPeakBound(ops: seq<Op>, lim: Limits)
    requires LimitsOk(lim) && Keys32(ops)
    ensures RunPeak(ops, lim) <= lim.internalMax + 1
    ensures Build(ops, lim).height >= 2 ==> RunPeak(ops, lim) == lim.internalMax + 1
  {
    if ops != [] {
      RunPeakBound(ops[..|ops| - 1], lim);
      BuildOk(ops[..|ops| - 1], lim);
      var x, op := Build(ops[..|ops| - 1], lim), ops[|ops| - 1];
      if x.root.Some? {
        StepPeak(x, op, lim, x.root.value, x.avail + op.others);
      }
    }
  }

  function OpPeak(x: Index, op: Op, lim: Limits): nat {
    if x.root.None? then 0 else PeakKids(x.root.value, op.key, op.rid, lim, x.avail + op.others)
  }

  lemma StepPeak(x: Index, op: Op, lim: Limits, t: Tree, avail: nat)
    requires LimitsOk(lim) && KEY_MIN <= op.key < KEY_END && x.root == Some(t) && avail == x.avail + op.others
    requires WF(t, x.height, KEY_MIN, KEY_END, lim, true)
    ensures OpPeak(x, op, lim) <= lim.internalMax + 1
    ensures Do(x, op, lim).height >= 2 && x.height < 2 ==> OpPeak(x, op, lim) == lim.internalMax + 1
  {
    OpPeakIs(x, op, lim, t, avail);
    PeakAtRoot(t, op.key, op.rid, lim, avail, x.height);
    RootGrows(x, op, lim, t, avail);
  }

  lemma OpPeakIs(x: Index, op: Op, lim: Limits, t: Tree, avail: nat)
    requires x.root == Some(t) && avail == x.avail + op.others
    ensures OpPeak(x, op, lim) == PeakKids(t, op.key, op.rid, lim, avail)
  {
  }

  lemma PeakAtRoot(t: Tree, key: int, rid: RID, lim: Limits, avail: nat, h: nat)
    requires LimitsOk(lim) && WF(t, h, KEY_MIN, KEY_END, lim, true) && KEY_MIN <= key < KEY_END
    ensures PeakKids(t, key, rid, lim, avail) <= lim.internalMax + 1
    ensures h >= 1 && InsertTree(t, key, rid, lim, avail).split.Some? ==> PeakKids(t, key, rid, lim, avail) == lim.internalMax + 1
  {
    PeakBound(t, key, rid, lim, avail, h, KEY_MIN, KEY_END, true);
    NodeAbove(t, h, KEY_MIN, KEY_END, lim, true);
  }

  lemma NodeAbove(t: Tree, h: nat, lo: int, hi: int, lim: Limits, root: bool)
    requires WF(t, h, lo, hi, lim, root)
    ensures t.Node? <==> h >= 1
  {
  }

  lemma RootGrows(x: Index, op: Op, lim: Limits, t: Tree, avail: nat)
    requires x.root == Some(t) && avail == x.avail + op.others
    ensures Do(x, op, lim).height == x.height + if InsertTree(t, op.key, op.rid, lim, avail).split.Some? then 1 else 0
  {
  }

  lemma {:induction false} AsMapSize(es: seq<LeafEntry>)
    requires Sorted(es)
    ensures |AsMap(es)| == |es|
  {
    if es != [] {
      AsMapSize(es[1..]);
      AsMapKeys(es[1..], es[0].key);
    }
  }

  lemma LeafAtZero(t: Tree, lo: int, hi: int, lim: Limits)
    requires WF(t, 0, lo, hi, lim, false)
    ensures t.Leaf? && |Entries(t)| < lim.leafMax
  {
  }

  /** A tree with at most one internal level has at most I * (L-1) entries. */
  lemma LowTreeAtMost(x: Index, lim: Limits)
    requires LimitsOk(lim) && IndexOk(x, lim) && x.height <= 1
    ensures |RootEntries(x.root)| <= lim.internalMax * (lim.leafMax - 1)
  {
    MulMono(1, lim.internalMax, lim.leafMax - 1);
    if x.root.Some? && x.root.value.Node? {
      LeavesAtMost(x.root.value, lim);
      MulMono(|x.root.value.kids|, lim.internalMax, lim.leafMax - 1);
    }
  }

  /** A root above n leaves has at most n * (L-1) entries. */
  lemma LeavesAtMost(t: Tree, lim: Limits)
    requires LimitsOk(lim) && WF(t, 1, KEY_MIN, KEY_END, lim, true)
    ensures |Entries(t)| <= |t.kids| * (lim.leafMax - 1)
  {
    forall i: nat | i < |t.kids| ensures |Entries(t.kids[i].tree)| <= lim.leafMax - 1 {
      assert KidWF(t.kids, i, 0, KEY_MIN, KEY_END, lim);
      LeafAtZero(t.kids[i].tree, LoAt(t.kids, i, KEY_MIN), HiAt(t.kids, i, KEY_END), lim);
    }
    FlatAtMost(t.kids, lim.leafMax - 1);
  }

  /** A root that has got more than its first two children has held them all. */
  lemma {:induction false} RootPeak(ops: seq<Op>, lim: Limits)
    requires LimitsOk(lim) && Keys32(ops)
    ensures var x := Build(ops, lim);
            x.height == 1 && x.root.Some? && x.root.value.Node? && |x.root.value.kids| > 2 ==> RunPeak(ops, lim) >= |x.root.value.kids|
  {
    if ops != [] {
      RootPeak(ops[..|ops| - 1], lim);
      BuildOk(ops[..|ops| - 1], lim);
      var x, op := Build(ops[..|ops| - 1], lim), ops[|ops| - 1];
      if x.root.Some? && Do(x, op, lim).height == 1 {
        RootKept(x, op, lim, x.root.value, x.avail + op.others);
      }
    }
  }

  lemma RootKept(x: Index, op: Op, lim: Limits, t: Tree, avail: nat)
    requires LimitsOk(lim) && KEY_MIN <= op.key < KEY_END && x.root == Some(t) && avail == x.avail + op.others
    requires WF(t, x.height, KEY_MIN, KEY_END, lim, true) && Do(x, op, lim).height == 1
    ensures var r := Do(x, op, lim).root; r.Some? && r.value.Node? ==> |r.value.kids| <= Max(2, OpPeak(x, op, lim))
  {
    OpPeakIs(x, op, lim, t, avail);
    NodeAbove(t, x.height, KEY_MIN, KEY_END, lim, true);
    NewRoot(x, op, lim, t, avail);
    if t.Node? && InsertTree(t, op.key, op.rid, lim, avail).split.None? {
      assert t.kids != [];
      PeakKept(t, op.key, op.rid, lim, avail);
    }
  }

  lemma NewRoot(x: Index, op: Op, lim: Limits, t: Tree, avail: nat)
    requires x.root == Some(t) && avail == x.avail + op.others
    ensures var o, y := InsertTree(t, op.key, op.rid, lim, avail), Do(x, op, lim);
            if o.split.None? then y.root == Some(o.tree) && y.height == x.height
            else y.root.Some? && y.root.value.Node? && |y.root.value.kids| == 2
  {
    RootOf(x.(avail := avail), op.key, op.rid, lim, t, InsertTree(t, op.key, op.rid, lim, avail));
  }

  lemma RootOf(x: Index, key: int, rid: RID, lim: Limits, t: Tree, o: Outcome)
    requires x.root == Some(t) && o == InsertTree(t, key, rid, lim, x.avail)
    ensures var y := Insert(x, key, rid, lim);
            if o.split.None? then y.root == Some(o.tree) && y.height == x.height
            else y.root.Some? && y.root.value.Node? && |y.root.value.kids| == 2
  {
  }

  lemma PeakKept(t: Tree, key: int, rid: RID, lim: Limits, avail: nat)
    requires t.Node? && t.kids != [] && InsertTree(t, key, rid, lim, avail).split.None?
    ensures var r := InsertTree(t, key, rid, lim, avail).tree; r.Node? && |r.kids| <= PeakKids(t, key, rid, lim, avail)
  {
  }

  /** Inserting 0, 1, ..., n-1. */
  function Ascending(n: nat): seq<Op> {
    seq(n, i => Op(i, RID(0, 0), 0))
  }

  lemma {:induction false} AscendingBound(n: nat)
    ensures |Bound(Ascending(n))| == n
    ensures forall k :: k in Bound(Ascending(n)) ==> k < n
  {
    if n > 0 {
      AscendingBound(n - 1);
      assert Ascending(n)[..n - 1] == Ascending(n - 1);
    }
  }

  /** Internal pages stay within their `CAPACITY` entries over every run exactly when the
      limit is below the capacity; the default limit equals it. */
  lemma InternalFitsIff(lim: Limits)
    requires 2 <= lim.leafMax <= LEAF_CAPACITY && 3 <= lim.internalMax
    ensures (forall ops :: Keys32(ops) ==> RunPeak(ops, lim) <= INTERNAL_CAPACITY)
            <==> lim.internalMax < INTERNAL_CAPACITY
  {
    if lim.internalMax < INTERNAL_CAPACITY {
      forall ops | Keys32(ops) ensures RunPeak(ops, lim) <= INTERNAL_CAPACITY {
        RunPeakBound(ops, lim);
      }
    } else {
      var n := INTERNAL_CAPACITY * (lim.leafMax - 1) + 1;
      Overflows(n, lim);
      assert Keys32(Ascending(n));
    }
  }

  /** Under any larger limit, that many keys are too many for some internal page. */
  lemma Overflows(n: nat, lim: Limits)
    requires 2 <= lim.leafMax && INTERNAL_CAPACITY <= lim.internalMax && INTERNAL_CAPACITY * (lim.leafMax - 1) < n <= KEY_END
    ensures RunPeak(Ascending(n), lim) > INTERNAL_CAPACITY
  {
    var ops := Ascending(n);
    var x := AscendingTree(n, lim);
    RunPeakBound(ops, lim);
    if x.height <= 1 {
      ManyKids(x, lim);
      RootPeak(ops, lim);
    }
  }

  lemma ManyKids(x: Index, lim: Limits)
    requires LimitsOk(lim) && IndexOk(x, lim) && x.root.Some? && x.height <= 1
    requires |RootEntries(x.root)| > INTERNAL_CAPACITY * (lim.leafMax - 1)
    ensures x.height == 1 && x.root.value.Node? && |x.root.value.kids| > INTERNAL_CAPACITY
  {
    var t := x.root.value;
    NodeAbove(t, x.height, KEY_MIN, KEY_END, lim, true);
    MulMono(1, INTERNAL_CAPACITY, lim.leafMax - 1);
    if t.Node? {
      LeavesAtMost(t, lim);
      if |t.kids| <= INTERNAL_CAPACITY { MulMono(|t.kids|, INTERNAL_CAPACITY, lim.leafMax - 1); }
    }
  }

  lemma AscendingTree(n: nat, lim: Limits) returns (x: Index)
    requires LimitsOk(lim) && 0 < n <= KEY_END
    ensures Keys32(Ascending(n)) && x == Build(Ascending(n), lim) && IndexOk(x, lim) && x.root.Some? && |RootEntries(x.root)| == n
  {
    var ops := Ascending(n);
    BuildOk(ops, lim);
    AscendingBound(n);
    x := Build(ops, lim);
    if x.root.Some? {
      EntriesSorted(x.root.value, x.height, KEY_MIN, KEY_END, lim, true);
    }
    AsMapSize(RootEntries(x.root));
  }

  /** Enough distinct keys drive some internal page to one entry above the limit. */
  lemma FullRunPeaks(n: nat, lim: Limits)
    requires LimitsOk(lim) && n > lim.internalMax * (lim.leafMax - 1) && n <= KEY_END
    ensures RunPeak(Ascending(n), lim) == lim.internalMax + 1
  {
    var x := AscendingTree(n, lim);
    if x.height <= 1 {
      LowTreeAtMost(x, lim);
    }
    RunPeakBound(Ascending(n), lim);
  }
}
