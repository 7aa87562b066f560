/** The B+ tree of `src/storage/bplus_tree.cpp` as a value: every node carries the page it
  is stored in, and `Insert` makes the choices the code makes, splits included.
 */
module TreeModel {
  import opened Basics
  import opened Page
  import opened TreeEntries

  datatype Tree =
    | Leaf(pid: nat, entries: seq<LeafEntry>, next: int)
    | Node(pid: nat, kids: seq<Kid>)

  /** A child and the separator on its left; the separator of the first child is unused. */
  datatype Kid = Kid(key: int, tree: Tree)

  /** `leaf_max_size_` and `internal_max_size_`. */
  datatype Limits = Limits(leafMax: nat, internalMax: nat)

  ghost predicate LimitsOk(lim: Limits) {
    lim.leafMax >= 2 && lim.internalMax >= 3
  }

  // ------------------------------------------------------------------ contents

  /** The entries of the leaves, from left to right. */
  function Entries(t: Tree): seq<LeafEntry>
    decreases t, 1
  {
    match t
    case Leaf(_, es, _) => es
    case Node(_, kids) => Flat(kids)
  }

  function Flat(kids: seq<Kid>): seq<LeafEntry>
    decreases kids, 0
  {
    if kids == [] then []
    else
      assert kids[0].tree < kids[0];
      Entries(kids[0].tree) + Flat(kids[1..])
  }

  lemma {:induction false} FlatConcat(a: seq<Kid>, b: seq<Kid>)
    ensures Flat(a + b) == Flat(a) + Flat(b)
  {
    if a == [] {
      assert a + b == b;
    } else {
      assert (a + b)[1..] == a[1..] + b && (a + b)[0] == a[0];
      FlatConcat(a[1..], b);
    }
  }

  lemma FlatOne(k: Kid)
    ensures Flat([k]) == Entries(k.tree)
  {
    assert [k][1..] == [];
  }

  /** The entries around child `i`. */
  lemma FlatAt(kids: seq<Kid>, i: nat)
    requires i < |kids|
    ensures Flat(kids) == Flat(kids[..i]) + Entries(kids[i].tree) + Flat(kids[i + 1..])
  {
    var a, b := kids[..i], kids[i + 1..];
    Around(kids, i);
    FlatConcat(a, [kids[i]] + b);
    FlatConcat([kids[i]], b);
    FlatOne(kids[i]);
    Assoc(Flat(a), Entries(kids[i].tree), Flat(b));
  }

  // ---------------------------------------------------------------- invariants

  function LoAt(kids: seq<Kid>, i: nat, lo: int): int
    requires i < |kids|
  {
    if i == 0 then lo else kids[i].key
  }

  function HiAt(kids: seq<Kid>, i: nat, hi: int): int
    requires i < |kids|
  {
    if i + 1 == |kids| then hi else kids[i + 1].key
  }

  /** A subtree of height `h` with keys in [lo, hi): leaves are sorted and at one depth,
      child `i` has keys in [key i, key i+1), separators increase strictly, and every
      node but the root is at least half full. */
  ghost predicate WF(t: Tree, h: nat, lo: int, hi: int, lim: Limits, root: bool)
    decreases t, 1
  {
    match t
    case Leaf(_, es, _) =>
      && h == 0 && Sorted(es) && InRange(es, lo, hi)
      && (if root then 1 else lim.leafMax / 2) <= |es| < lim.leafMax
    case Node(_, kids) =>
      && h > 0 && KidsWF(kids, h - 1, lo, hi, lim)
      && (if root then 2 else (lim.internalMax + 1) / 2) <= |kids| <= lim.internalMax
  }

  ghost predicate KidsWF(kids: seq<Kid>, h: nat, lo: int, hi: int, lim: Limits)
    decreases kids, 1
  {
    |kids| > 0 && forall i: nat :: i < |kids| ==> KidWF(kids, i, h, lo, hi, lim)
  }

  ghost predicate KidWF(kids: seq<Kid>, i: nat, h: nat, lo: int, hi: int, lim: Limits)
    requires i < |kids|
    decreases kids, 0
  {
    assert kids[i].tree < kids[i];
    && LoAt(kids, i, lo) < HiAt(kids, i, hi)
    && WF(kids[i].tree, h, LoAt(kids, i, lo), HiAt(kids, i, hi), lim, false)
  }

  /** Separators increase strictly, between the bounds. */
  lemma {:induction false} KeysIncrease(kids: seq<Kid>, i: nat, j: nat, h: nat, lo: int, hi: int, lim: Limits)
    requires KidsWF(kids, h, lo, hi, lim) && i <= j < |kids|
    ensures LoAt(kids, i, lo) <= LoAt(kids, j, lo) < HiAt(kids, j, hi)
    ensures i < j ==> LoAt(kids, i, lo) < kids[j].key
    decreases j
  {
    assert KidWF(kids, j, h, lo, hi, lim);
    if i < j {
      KeysIncrease(kids, i, j - 1, h, lo, hi, lim);
      assert KidWF(kids, j - 1, h, lo, hi, lim);
    }
  }

  lemma {:induction false} KeysBelow(kids: seq<Kid>, i: nat, h: nat, lo: int, hi: int, lim: Limits)
    requires KidsWF(kids, h, lo, hi, lim) && i < |kids|
    ensures LoAt(kids, i, lo) < HiAt(kids, i, hi) <= hi
    decreases |kids| - i
  {
    assert KidWF(kids, i, h, lo, hi, lim);
    if i + 1 < |kids| {
      KeysBelow(kids, i + 1, h, lo, hi, lim);
    }
  }

  /** The first `m` children form a run of children up to separator `m`. */
  lemma KidsPrefix(kids: seq<Kid>, m: nat, h: nat, lo: int, hi: int, lim: Limits)
    requires KidsWF(kids, h, lo, hi, lim) && 0 < m <= |kids|
    ensures KidsWF(kids[..m], h, lo, if m == |kids| then hi else kids[m].key, lim)
  {
    var r, hi' := kids[..m], if m == |kids| then hi else kids[m].key;
    forall i: nat | i < |r| ensures KidWF(r, i, h, lo, hi', lim) {
      assert KidWF(kids, i, h, lo, hi, lim);
    }
    assert KidsWF(r, h, lo, hi', lim);
  }

  /** The children from `m` on, with the separator of the first one dropped. */
  lemma KidsSuffix(kids: seq<Kid>, m: nat, key: int, h: nat, lo: int, hi: int, lim: Limits)
    requires KidsWF(kids, h, lo, hi, lim) && m < |kids|
    ensures KidsWF([Kid(key, kids[m].tree)] + kids[m + 1..], h, LoAt(kids, m, lo), hi, lim)
  {
    var r := [Kid(key, kids[m].tree)] + kids[m + 1..];
    forall i: nat | i < |r| ensures KidWF(r, i, h, LoAt(kids, m, lo), hi, lim) {
      assert KidWF(kids, m + i, h, lo, hi, lim);
    }
    assert KidsWF(r, h, LoAt(kids, m, lo), hi, lim);
  }

  /** The entries of a well-formed subtree are sorted and within its bounds. */
  lemma {:induction false} EntriesSorted(t: Tree, h: nat, lo: int, hi: int, lim: Limits, root: bool)
    requires WF(t, h, lo, hi, lim, root)
    ensures Sorted(Entries(t)) && InRange(Entries(t), lo, hi)
    decreases t, 1
  {
    if t.Node? {
      FlatSorted(t.kids, h - 1, lo, hi, lim);
    }
  }

  lemma {:induction false} FlatSorted(kids: seq<Kid>, h: nat, lo: int, hi: int, lim: Limits)
    requires KidsWF(kids, h, lo, hi, lim)
    ensures Sorted(Flat(kids)) && InRange(Flat(kids), lo, hi)
    decreases kids, 0
  {
    assert KidWF(kids, 0, h, lo, hi, lim) && kids[0].tree < kids[0];
    EntriesSorted(kids[0].tree, h, lo, HiAt(kids, 0, hi), lim, false);
    if |kids| == 1 {
      assert kids == [kids[0]];
      FlatOne(kids[0]);
    } else {
      KidsSuffix(kids, 1, kids[1].key, h, lo, hi, lim);
      assert [Kid(kids[1].key, kids[1].tree)] + kids[2..] == kids[1..];
      KeysBelow(kids, 0, h, lo, hi, lim);
      FlatSorted(kids[1..], h, kids[1].key, hi, lim);
      SortedConcat(Entries(kids[0].tree), Flat(kids[1..]), lo, kids[1].key, hi);
    }
  }

  // -------------------------------------------------------------------- insert

  /** The child the key belongs to: the last one whose separator is not above it. */
  function ChildIndex(kids: seq<Kid>, key: int): (i: nat)
    requires |kids| > 0
    ensures i < |kids|
    ensures i > 0 ==> kids[i].key <= key
    ensures i + 1 < |kids| ==> key < kids[i + 1].key
  {
    if |kids| == 1 || kids[|kids| - 1].key <= key then |kids| - 1
    else ChildIndex(kids[..|kids| - 1], key)
  }

  /** The position before the first separator above `key`, from `i` on. */
  function InsertPos(kids: seq<Kid>, key: int, i: nat): (pos: nat)
    requires i <= |kids|
    ensures i <= pos <= |kids|
    decreases |kids| - i
  {
    if i == |kids| || kids[i].key > key then i else InsertPos(kids, key, i + 1)
  }

  /** What inserting into a subtree leaves: the subtree, the separator and tree split off
      to its right if any, and the next page to be allocated. */
  datatype Outcome = Outcome(tree: Tree, split: Option<Kid>, avail: nat)

  function InsertLeaf(t: Tree, key: int, rid: RID, lim: Limits, avail: nat): Outcome
    requires t.Leaf?
  {
    var es := Upsert(t.entries, key, rid);
    if |es| < lim.leafMax then Outcome(Leaf(t.pid, es, t.next), None, avail)
    else
      var mid := |es| / 2;
      Outcome(Leaf(t.pid, es[..mid], avail),
              Some(Kid(es[mid].key, Leaf(avail, es[mid..], t.next))), avail + 1)
  }

  /** Replaces child `i` by the outcome of inserting below it, without splitting. */
  function AddKid(kids: seq<Kid>, i: nat, o: Outcome): seq<Kid>
    requires 0 < |kids| && i < |kids|
  {
    var kids1 := kids[i := Kid(kids[i].key, o.tree)];
    if o.split.None? then kids1
    else
      var pos := InsertPos(kids1, o.split.value.key, 1);
      kids1[..pos] + [o.split.value] + kids1[pos..]
  }

  /** Splits a node that has grown too large; the middle separator moves up. */
  function SplitNode(pid: nat, kids: seq<Kid>, lim: Limits, avail: nat): Outcome {
    if |kids| <= lim.internalMax then Outcome(Node(pid, kids), None, avail)
    else
      var mid := |kids| / 2;
      Outcome(Node(pid, kids[..mid]),
              Some(Kid(kids[mid].key, Node(avail, [Kid(0, kids[mid].tree)] + kids[mid + 1..]))), avail + 1)
  }

  function InsertTree(t: Tree, key: int, rid: RID, lim: Limits, avail: nat): Outcome
    decreases t
  {
    if t.Leaf? then InsertLeaf(t, key, rid, lim, avail)
    else if t.kids == [] then Outcome(t, None, avail)
    else
      var i := ChildIndex(t.kids, key);
      assert t.kids[i].tree < t.kids[i];
      var o := InsertTree(t.kids[i].tree, key, rid, lim, avail);
      SplitNode(t.pid, AddKid(t.kids, i, o), lim, o.avail)
  }

  /** The outcome of inserting into a subtree is well formed and holds the old entries
      with the key bound to the record. */
  ghost predicate Good(o: Outcome, es: seq<LeafEntry>, h: nat, lo: int, hi: int, lim: Limits, root: bool) {
    match o.split
    case None => WF(o.tree, h, lo, hi, lim, root) && Entries(o.tree) == es
    case Some(Kid(k, right)) =>
      && lo < k < hi
      && WF(o.tree, h, lo, k, lim, false) && WF(right, h, k, hi, lim, false)
      && Entries(o.tree) + Entries(right) == es
  }

  lemma LeafGood(t: Tree, key: int, rid: RID, lim: Limits, avail: nat, lo: int, hi: int, root: bool)
    requires LimitsOk(lim) && t.Leaf? && WF(t, 0, lo, hi, lim, root) && lo <= key < hi
    ensures Good(InsertLeaf(t, key, rid, lim, avail), Upsert(Entries(t), key, rid), 0, lo, hi, lim, root)
  {
    var es := Upsert(t.entries, key, rid);
    UpsertSorted(t.entries, key, rid, lo, hi);
    if |es| >= lim.leafMax { HalvesSorted(es, |es| / 2, lo, hi); }
  }

  /** The halves of a sorted list, cut before position `mid`. */
  lemma HalvesSorted(es: seq<LeafEntry>, mid: nat, lo: int, hi: int)
    requires Sorted(es) && InRange(es, lo, hi) && 0 < mid < |es|
    ensures Sorted(es[..mid]) && Sorted(es[mid..]) && es == es[..mid] + es[mid..]
    ensures InRange(es[..mid], lo, es[mid].key) && InRange(es[mid..], es[mid].key, hi)
    ensures lo < es[mid].key < hi
  {
    assert lo <= es[0].key < es[mid].key;
  }

  /** What lies left and right of child `i` is on the other side of its separators. */
  lemma SidesOfKid(kids: seq<Kid>, i: nat, h: nat, lo: int, hi: int, lim: Limits)
    requires KidsWF(kids, h, lo, hi, lim) && i < |kids|
    ensures i > 0 ==> InRange(Flat(kids[..i]), lo, kids[i].key)
    ensures i + 1 < |kids| ==> InRange(Flat(kids[i + 1..]), kids[i + 1].key, hi)
  {
    if i > 0 {
      KidsPrefix(kids, i, h, lo, hi, lim);
      FlatSorted(kids[..i], h, lo, kids[i].key, lim);
    }
    if i + 1 < |kids| {
      KidsSuffix(kids, i + 1, kids[i + 1].key, h, lo, hi, lim);
      assert [Kid(kids[i + 1].key, kids[i + 1].tree)] + kids[i + 2..] == kids[i + 1..];
      FlatSorted(kids[i + 1..], h, kids[i + 1].key, hi, lim);
    }
  }

  /** A run of children that grew at child `i`: still well formed, with the new entries. */
  lemma KidsGood(kids: seq<Kid>, i: nat, o: Outcome, key: int, rid: RID, lim: Limits, h: nat, lo: int, hi: int)
    requires KidsWF(kids, h, lo, hi, lim) && i == ChildIndex(kids, key) && lo <= key < hi
    requires Good(o, Upsert(Entries(kids[i].tree), key, rid), h, LoAt(kids, i, lo), HiAt(kids, i, hi), lim, false)
    ensures var r := AddKid(kids, i, o);
            && KidsWF(r, h, lo, hi, lim) && Flat(r) == Upsert(Flat(kids), key, rid)
            && |r| == |kids| + (if o.split.None? then 0 else 1)
  {
    GrownKids(kids, i, o, lim, h, lo, hi);
    GrownWF(kids, i, o, lim, h, lo, hi, Upsert(Entries(kids[i].tree), key, rid));
    GrownFlat(kids, i, o);
    FlatAt(kids, i);
    SidesOfKid(kids, i, h, lo, hi, lim);
    UpsertBetween(Flat(kids[..i]), Entries(kids[i].tree), Flat(kids[i + 1..]), key, rid);
  }

  /** The children that child `i` became. */
  function Grown(kids: seq<Kid>, i: nat, o: Outcome): seq<Kid>
    requires i < |kids|
  {
    [Kid(kids[i].key, o.tree)] + (if o.split.None? then [] else [o.split.value])
  }

  /** The split-off tree lands right behind the child it came from. */
  lemma GrownKids(kids: seq<Kid>, i: nat, o: Outcome, lim: Limits, h: nat, lo: int, hi: int)
    requires KidsWF(kids, h, lo, hi, lim) && i < |kids|
    requires o.split.Some? ==> LoAt(kids, i, lo) < o.split.value.key < HiAt(kids, i, hi)
    ensures AddKid(kids, i, o) == kids[..i] + Grown(kids, i, o) + kids[i + 1..]
  {
    if o.split.Some? {
      var kids1 := kids[i := Kid(kids[i].key, o.tree)];
      PosIs(kids, kids1, i, 1, o.split.value.key, lim, h, lo, hi);
      assert kids1[..i + 1] == kids[..i] + [Kid(kids[i].key, o.tree)];
      assert kids1[i + 1..] == kids[i + 1..];
    }
  }

  lemma {:induction false} PosIs(kids: seq<Kid>, kids1: seq<Kid>, i: nat, from: nat, k: int, lim: Limits, h: nat, lo: int, hi: int)
    requires KidsWF(kids, h, lo, hi, lim) && i < |kids| && 1 <= from <= i + 1
    requires |kids1| == |kids| && forall j :: 0 <= j < |kids| ==> kids1[j].key == kids[j].key
    requires LoAt(kids, i, lo) < k < HiAt(kids, i, hi)
    ensures InsertPos(kids1, k, from) == i + 1
    decreases |kids| - from
  {
    if from <= i {
      KeysIncrease(kids, from, i, h, lo, hi, lim);
      PosIs(kids, kids1, i, from + 1, k, lim, h, lo, hi);
    }
  }

  lemma GrownWF(kids: seq<Kid>, i: nat, o: Outcome, lim: Limits, h: nat, lo: int, hi: int, es: seq<LeafEntry>)
    requires KidsWF(kids, h, lo, hi, lim) && i < |kids|
    requires Good(o, es, h, LoAt(kids, i, lo), HiAt(kids, i, hi), lim, false)
    ensures KidsWF(kids[..i] + Grown(kids, i, o) + kids[i + 1..], h, lo, hi, lim)
  {
    var g := Grown(kids, i, o);
    var r := kids[..i] + g + kids[i + 1..];
    forall j: nat | j < |r| ensures KidWF(r, j, h, lo, hi, lim) {
      assert KidWF(kids, if j <= i then j else j + 1 - |g|, h, lo, hi, lim);
    }
    assert KidsWF(r, h, lo, hi, lim);
  }

  lemma GrownFlat(kids: seq<Kid>, i: nat, o: Outcome)
    requires i < |kids|
    ensures Flat(kids[..i] + Grown(kids, i, o) + kids[i + 1..]) ==
            Flat(kids[..i])
            + (Entries(o.tree) + (if o.split.None? then [] else Entries(o.split.value.tree)))
            + Flat(kids[i + 1..])
  {
    var g := Grown(kids, i, o);
    FlatConcat(kids[..i] + g, kids[i + 1..]);
    FlatConcat(kids[..i], g);
    FlatOne(Kid(kids[i].key, o.tree));
    if o.split.Some? {
      FlatConcat([Kid(kids[i].key, o.tree)], [o.split.value]);
      FlatOne(o.split.value);
    }
  }

  lemma SplitGood(pid: nat, kids: seq<Kid>, lim: Limits, avail: nat, h: nat, lo: int, hi: int, root: bool)
    requires LimitsOk(lim) && KidsWF(kids, h, lo, hi, lim)
    requires (if root then 2 else (lim.internalMax + 1) / 2) <= |kids| <= lim.internalMax + 1
    ensures Good(SplitNode(pid, kids, lim, avail), Flat(kids), h + 1, lo, hi, lim, root)
  {
    if |kids| > lim.internalMax {
      var mid := |kids| / 2;
      KidsPrefix(kids, mid, h, lo, hi, lim);
      KidsSuffix(kids, mid, 0, h, lo, hi, lim);
      KeysIncrease(kids, 0, mid, h, lo, hi, lim);
      KeysBelow(kids, mid, h, lo, hi, lim);
      assert kids == kids[..mid] + kids[mid..];
      FlatConcat(kids[..mid], kids[mid..]);
      assert kids[mid..][1..] == kids[mid + 1..];
      assert ([Kid(0, kids[mid].tree)] + kids[mid + 1..])[1..] == kids[mid + 1..];
    }
  }

  /** Insertion keeps the tree invariant and binds the key, through any split. */
  lemma {:induction false} InsertGood(t: Tree, key: int, rid: RID, lim: Limits, avail: nat, h: nat, lo: int, hi: int, root: bool)
    requires LimitsOk(lim) && WF(t, h, lo, hi, lim, root) && lo <= key < hi
    ensures Good(InsertTree(t, key, rid, lim, avail), Upsert(Entries(t), key, rid), h, lo, hi, lim, root)
    decreases t
  {
    if t.Leaf? {
      LeafGood(t, key, rid, lim, avail, lo, hi, root);
    } else {
      var i := ChildIndex(t.kids, key);
      assert KidWF(t.kids, i, h - 1, lo, hi, lim) && t.kids[i].tree < t.kids[i];
      var o := InsertTree(t.kids[i].tree, key, rid, lim, avail);
      InsertGood(t.kids[i].tree, key, rid, lim, avail, h - 1, LoAt(t.kids, i, lo), HiAt(t.kids, i, hi), false);
      KidsGood(t.kids, i, o, key, rid, lim, h - 1, lo, hi);
      SplitGood(t.pid, AddKid(t.kids, i, o), lim, o.avail, h - 1, lo, hi, root);
    }
  }
}
