/** How the nodes of a B+ tree are laid out in pages (`src/storage/bplus_tree.cpp`): no page
  is used twice, and `next_page_id` links the leaves from left to right.
 */
module TreeLinks {
  import opened Basics
  import opened Page
  import opened TreeModel

  // ---------------------------------------------------------------- leaf chain

  /** The page of the leftmost leaf. */
  function FirstPid(t: Tree): int
    decreases t, 1
  {
    match t
    case Leaf(pid, _, _) => pid
    case Node(_, kids) => FirstOf(kids, INVALID_PAGE_ID)
  }

  /** The page of the leftmost leaf below the children, `after` if there are none. */
  function FirstOf(kids: seq<Kid>, after: int): int
    decreases kids, 0
  {
    if kids == [] then after
    else
      assert kids[0].tree < kids[0];
      FirstPid(kids[0].tree)
  }

  /** Every leaf points to the next leaf on its right, the last one to `after`. */
  ghost predicate Chain(t: Tree, after: int)
    decreases t, 1
  {
    match t
    case Leaf(_, _, next) => next == after
    case Node(_, kids) => kids != [] && ChainKids(kids, after)
  }

  ghost predicate ChainKids(kids: seq<Kid>, after: int)
    decreases kids, 0
  {
    if kids == [] then true
    else
      assert kids[0].tree < kids[0];
      Chain(kids[0].tree, FirstOf(kids[1..], after)) && ChainKids(kids[1..], after)
  }

  lemma {:induction false} ChainConcat(a: seq<Kid>, b: seq<Kid>, after: int)
    ensures ChainKids(a + b, after) <==> ChainKids(a, FirstOf(b, after)) && ChainKids(b, after)
  {
    if a == [] {
      assert a + b == b;
    } else {
      assert (a + b)[1..] == a[1..] + b && (a + b)[0] == a[0];
      assert FirstOf(a[1..] + b, after) == FirstOf(a[1..], FirstOf(b, after)) by {
        if a[1..] == [] { assert a[1..] + b == b; }
      }
      ChainConcat(a[1..], b, after);
    }
  }

  lemma ChainOne(k: Kid, after: int)
    ensures ChainKids([k], after) <==> Chain(k.tree, after)
  {
    assert [k][1..] == [];
  }

  /** The chain through the outcome of an insertion enters and leaves where it did. */
  ghost predicate ChainOut(o: Outcome, first: int, after: int) {
    && FirstPid(o.tree) == first
    && match o.split
       case None => Chain(o.tree, after)
       case Some(Kid(_, right)) => Chain(o.tree, FirstPid(right)) && Chain(right, after)
  }

  lemma GrownChain(kids: seq<Kid>, i: nat, o: Outcome, after: int)
    requires i < |kids| && ChainKids(kids, after)
    requires ChainOut(o, FirstPid(kids[i].tree), FirstOf(kids[i + 1..], after))
    ensures var r := kids[..i] + Grown(kids, i, o) + kids[i + 1..];
            ChainKids(r, after) && FirstOf(r, after) == FirstOf(kids, after)
  {
    var a, g, b := kids[..i], Grown(kids, i, o), kids[i + 1..];
    assert kids == a + ([kids[i]] + b);
    ChainConcat(a, [kids[i]] + b, after);
    ChainConcat([kids[i]], b, after);
    assert a + g + b == a + (g + b);
    ChainConcat(a, g + b, after);
    ChainConcat(g, b, after);
    ChainOne(g[0], FirstOf(b, after));
    if o.split.Some? {
      assert g == [g[0]] + [g[1]];
      ChainConcat([g[0]], [g[1]], FirstOf(b, after));
      ChainOne(g[0], FirstPid(g[1].tree));
      ChainOne(g[1], FirstOf(b, after));
    }
    assert (g + b)[0] == g[0];
    assert i == 0 ==> (a + g + b)[0] == g[0];
    assert i > 0 ==> (a + g + b)[0] == kids[0];
  }

  lemma ChainAt(kids: seq<Kid>, i: nat, after: int)
    requires i < |kids| && ChainKids(kids, after)
    ensures Chain(kids[i].tree, FirstOf(kids[i + 1..], after))
  {
    Around(kids, i);
    ChainConcat(kids[..i], [kids[i]] + kids[i + 1..], after);
    ChainConcat([kids[i]], kids[i + 1..], after);
    ChainOne(kids[i], FirstOf(kids[i + 1..], after));
  }

  lemma SplitChain(pid: nat, kids: seq<Kid>, lim: Limits, avail: nat, after: int)
    requires LimitsOk(lim) && kids != [] && ChainKids(kids, after)
    ensures ChainOut(SplitNode(pid, kids, lim, avail), FirstOf(kids, after), after)
  {
    if |kids| > lim.internalMax {
      var mid := |kids| / 2;
      var right := [Kid(0, kids[mid].tree)] + kids[mid + 1..];
      assert kids == kids[..mid] + ([kids[mid]] + kids[mid + 1..]);
      ChainConcat(kids[..mid], [kids[mid]] + kids[mid + 1..], after);
      assert ([kids[mid]] + kids[mid + 1..])[1..] == kids[mid + 1..] == right[1..];
    }
  }

  /** Insertion keeps the leaves linked from left to right. */
  lemma {:induction false} InsertChain(t: Tree, key: int, rid: RID, lim: Limits, avail: nat, h: nat, lo: int, hi: int, root: bool, after: int)
    requires LimitsOk(lim) && WF(t, h, lo, hi, lim, root) && lo <= key < hi && Chain(t, after)
    ensures ChainOut(InsertTree(t, key, rid, lim, avail), FirstPid(t), after)
    decreases t
  {
    if t.Node? {
      var i := ChildIndex(t.kids, key);
      assert KidWF(t.kids, i, h - 1, lo, hi, lim) && t.kids[i].tree < t.kids[i];
      var o := InsertTree(t.kids[i].tree, key, rid, lim, avail);
      InsertGood(t.kids[i].tree, key, rid, lim, avail, h - 1, LoAt(t.kids, i, lo), HiAt(t.kids, i, hi), false);
      ChainAt(t.kids, i, after);
      InsertChain(t.kids[i].tree, key, rid, lim, avail, h - 1, LoAt(t.kids, i, lo), HiAt(t.kids, i, hi), false,
                  FirstOf(t.kids[i + 1..], after));
      GrownKids(t.kids, i, o, lim, h - 1, lo, hi);
      GrownChain(t.kids, i, o, after);
      SplitChain(t.pid, AddKid(t.kids, i, o), lim, o.avail, after);
    }
  }

  // ----------------------------------------------------------------- footprint

  /** The pages of a tree. */
  ghost function Pids(t: Tree): set<nat>
    decreases t, 1
  {
    match t
    case Leaf(pid, _, _) => {pid}
    case Node(pid, kids) => {pid} + PidsOf(kids)
  }

  ghost function PidsOf(kids: seq<Kid>): set<nat>
    decreases kids, 0
  {
    if kids == [] then {}
    else
      assert kids[0].tree < kids[0];
      Pids(kids[0].tree) + PidsOf(kids[1..])
  }

  /** No page is used twice. */
  ghost predicate Distinct(t: Tree)
    decreases t, 1
  {
    match t
    case Leaf(_, _, _) => true
    case Node(pid, kids) => pid !in PidsOf(kids) && DistinctKids(kids)
  }

  ghost predicate DistinctKids(kids: seq<Kid>)
    decreases kids, 0
  {
    if kids == [] then true
    else
      assert kids[0].tree < kids[0];
      Distinct(kids[0].tree) && Pids(kids[0].tree) !! PidsOf(kids[1..]) && DistinctKids(kids[1..])
  }

  lemma {:induction false} PidsConcat(a: seq<Kid>, b: seq<Kid>)
    ensures PidsOf(a + b) == PidsOf(a) + PidsOf(b)
    ensures DistinctKids(a + b) <==> DistinctKids(a) && DistinctKids(b) && PidsOf(a) !! PidsOf(b)
  {
    if a == [] {
      assert a + b == b;
    } else {
      assert (a + b)[1..] == a[1..] + b && (a + b)[0] == a[0];
      PidsConcat(a[1..], b);
    }
  }

  lemma PidsOne(k: Kid)
    ensures PidsOf([k]) == Pids(k.tree) && (DistinctKids([k]) <==> Distinct(k.tree))
  {
    assert [k][1..] == [];
  }

  /** All pages of the set were allocated before `avail`. */
  ghost predicate Below(pids: set<nat>, avail: nat) {
    forall p :: p in pids ==> p < avail
  }

  /** The pages of the outcome are those of the tree and newly allocated ones. */
  ghost predicate PidsOut(o: Outcome, pids: set<nat>, avail: nat) {
    && avail <= o.avail && Distinct(o.tree)
    && From(Pids(o.tree), pids, avail, o.avail)
    && (o.split.Some? ==>
          && Distinct(o.split.value.tree) && Pids(o.tree) !! Pids(o.split.value.tree)
          && From(Pids(o.split.value.tree), pids, avail, o.avail))
  }

  ghost predicate From(got: set<nat>, pids: set<nat>, avail: nat, avail': nat) {
    forall p :: p in got ==> p in pids || avail <= p < avail'
  }

  lemma PidsAt(kids: seq<Kid>, i: nat)
    requires i < |kids| && DistinctKids(kids)
    ensures PidsOf(kids) == PidsOf(kids[..i]) + Pids(kids[i].tree) + PidsOf(kids[i + 1..])
    ensures PidsOf(kids[..i]) !! Pids(kids[i].tree) !! PidsOf(kids[i + 1..])
    ensures DistinctKids(kids[..i]) && Distinct(kids[i].tree) && DistinctKids(kids[i + 1..])
  {
    Around(kids, i);
    PidsConcat(kids[..i], [kids[i]] + kids[i + 1..]);
    PidsConcat([kids[i]], kids[i + 1..]);
    PidsOne(kids[i]);
  }

  lemma KidInPids(kids: seq<Kid>, i: nat)
    requires i < |kids|
    ensures Pids(kids[i].tree) <= PidsOf(kids)
  {
    assert kids == kids[..i] + ([kids[i]] + kids[i + 1..]);
    PidsConcat(kids[..i], [kids[i]] + kids[i + 1..]);
    PidsConcat([kids[i]], kids[i + 1..]);
    PidsOne(kids[i]);
  }

  lemma GrownPids(kids: seq<Kid>, i: nat, o: Outcome, avail: nat)
    requires i < |kids| && DistinctKids(kids) && Below(PidsOf(kids), avail)
    requires PidsOut(o, Pids(kids[i].tree), avail)
    ensures var r := kids[..i] + Grown(kids, i, o) + kids[i + 1..];
            DistinctKids(r) && From(PidsOf(r), PidsOf(kids), avail, o.avail)
  {
    var a, g, b := kids[..i], Grown(kids, i, o), kids[i + 1..];
    PidsAt(kids, i);
    GrownSet(kids, i, o);
    PidsConcat(a + g, b);
    PidsConcat(a, g);
  }

  lemma GrownSet(kids: seq<Kid>, i: nat, o: Outcome)
    requires i < |kids| && Distinct(o.tree)
    requires o.split.Some? ==> Distinct(o.split.value.tree) && Pids(o.tree) !! Pids(o.split.value.tree)
    ensures PidsOf(Grown(kids, i, o)) ==
            Pids(o.tree) + if o.split.None? then {} else Pids(o.split.value.tree)
    ensures DistinctKids(Grown(kids, i, o))
  {
    var g := Grown(kids, i, o);
    PidsOne(g[0]);
    if o.split.Some? {
      assert g == [g[0]] + [g[1]];
      PidsConcat([g[0]], [g[1]]);
      PidsOne(g[1]);
    }
  }

  lemma SplitPids(pid: nat, kids: seq<Kid>, lim: Limits, avail0: nat, avail: nat, pids: set<nat>)
    requires LimitsOk(lim) && DistinctKids(kids) && From(PidsOf(kids), pids, avail0, avail)
    requires pid !in PidsOf(kids) && pid in pids && Below(pids, avail0) && avail0 <= avail
    ensures PidsOut(SplitNode(pid, kids, lim, avail), pids, avail0)
  {
    if |kids| > lim.internalMax { HalvesOut(pid, kids, |kids| / 2, avail0, avail, pids); }
  }

  /** A split node: the old page keeps one half, the new page gets the other. */
  lemma HalvesOut(pid: nat, kids: seq<Kid>, m: nat, avail0: nat, avail: nat, pids: set<nat>)
    requires m < |kids| && DistinctKids(kids) && From(PidsOf(kids), pids, avail0, avail)
    requires pid !in PidsOf(kids) && pid in pids && Below(pids, avail0) && avail0 <= avail
    ensures PidsOut(Outcome(Node(pid, kids[..m]), Some(Kid(kids[m].key, Node(avail, [Kid(0, kids[m].tree)] + kids[m + 1..]))), avail + 1), pids, avail0)
  {
    HalvesPids(kids, m);
    HalvesApart(pid, avail, PidsOf(kids[..m]), PidsOf([Kid(0, kids[m].tree)] + kids[m + 1..]), avail0, pids);
  }

  lemma HalvesApart(pid: nat, avail: nat, left: set<nat>, right: set<nat>, avail0: nat, pids: set<nat>)
    requires left !! right && From(left + right, pids, avail0, avail)
    requires pid !in left + right && pid in pids && Below(pids, avail0) && avail0 <= avail
    ensures pid !in left && avail !in right && {pid} + left !! {avail} + right
    ensures From({pid} + left, pids, avail0, avail + 1) && From({avail} + right, pids, avail0, avail + 1)
  {
  }

  lemma HalvesPids(kids: seq<Kid>, m: nat)
    requires m < |kids| && DistinctKids(kids)
    ensures var left, right := kids[..m], [Kid(0, kids[m].tree)] + kids[m + 1..];
            && DistinctKids(left) && DistinctKids(right)
            && PidsOf(left) !! PidsOf(right) && PidsOf(left) + PidsOf(right) == PidsOf(kids)
  {
    PidsAt(kids, m);
    PidsConcat([Kid(0, kids[m].tree)], kids[m + 1..]);
    PidsOne(Kid(0, kids[m].tree));
  }

  /** Insertion uses the old pages and newly allocated ones, none twice. */
  lemma {:induction false} InsertPids(t: Tree, key: int, rid: RID, lim: Limits, avail: nat, h: nat, lo: int, hi: int, root: bool)
    requires LimitsOk(lim) && WF(t, h, lo, hi, lim, root) && lo <= key < hi
    requires Distinct(t) && Below(Pids(t), avail)
    ensures PidsOut(InsertTree(t, key, rid, lim, avail), Pids(t), avail)
    decreases t
  {
    if t.Node? {
      var i := ChildIndex(t.kids, key);
      assert KidWF(t.kids, i, h - 1, lo, hi, lim) && t.kids[i].tree < t.kids[i];
      PidsAt(t.kids, i);
      InsertPids(t.kids[i].tree, key, rid, lim, avail, h - 1, LoAt(t.kids, i, lo), HiAt(t.kids, i, hi), false);
      NodePids(t, i, key, rid, lim, avail, h, lo, hi, root);
    }
  }

  lemma NodePids(t: Tree, i: nat, key: int, rid: RID, lim: Limits, avail: nat, h: nat, lo: int, hi: int, root: bool)
    requires LimitsOk(lim) && t.Node? && WF(t, h, lo, hi, lim, root) && lo <= key < hi && i == ChildIndex(t.kids, key)
    requires Distinct(t) && Below(Pids(t), avail)
    requires PidsOut(InsertTree(t.kids[i].tree, key, rid, lim, avail), Pids(t.kids[i].tree), avail)
    ensures PidsOut(InsertTree(t, key, rid, lim, avail), Pids(t), avail)
  {
    var o := InsertTree(t.kids[i].tree, key, rid, lim, avail);
    assert KidWF(t.kids, i, h - 1, lo, hi, lim);
    InsertGood(t.kids[i].tree, key, rid, lim, avail, h - 1, LoAt(t.kids, i, lo), HiAt(t.kids, i, hi), false);
    GrownKids(t.kids, i, o, lim, h - 1, lo, hi);
    GrownPids(t.kids, i, o, avail);
    SplitPids(t.pid, AddKid(t.kids, i, o), lim, avail, o.avail, Pids(t));
  }
}
