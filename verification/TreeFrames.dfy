/** What the buffer pool must spare for the B+ tree (`src/storage/bplus_tree.cpp`): exactly when
  an insert, a search or a range scan gets the frames it asks for, given the pages that others
  have pinned, and what a refused insert leaves behind.
 */
module TreeFrames {
  import opened Page
  import opened TreeEntries
  import opened TreeModel
  import opened TreeLinks
  import opened TreeIndex
  import opened TreeShape

  /** `FetchPage` succeeds: the page is pinned already or some frame is not. */
  predicate CanPin(pins: set<nat>, frames: nat, p: nat) {
    p in pins || |pins| < frames
  }

  /** `NewPage` succeeds while page `p` is pinned as well. */
  predicate RoomBeside(pins: set<nat>, frames: nat, p: nat) {
    |pins + {p}| < frames
  }

  /** The insert below `t` gets every frame: each page on the way can be fetched, and beside
      each page that splits there is room for a new one. */
  ghost predicate Fits(t: Tree, key: int, rid: RID, lim: Limits, avail: nat, pins: set<nat>, frames: nat)
    decreases t
  {
    && CanPin(pins, frames, t.pid)
    && (t.Node? && t.kids != [] ==>
          var i := ChildIndex(t.kids, key);
          assert t.kids[i].tree < t.kids[i];
          Fits(t.kids[i].tree, key, rid, lim, avail, pins, frames))
    && (InsertTree(t, key, rid, lim, avail).split.Some? ==> RoomBeside(pins, frames, t.pid))
  }

  /** The whole insert; the first one only allocates a leaf. */
  ghost predicate InsertFits(x: Index, key: int, rid: RID, lim: Limits, pins: set<nat>, frames: nat) {
    if x.root.None? then |pins| < frames else Fits(x.root.value, key, rid, lim, x.avail, pins, frames)
  }

  // ------------------------------------------------------------- refused inserts

  /** What an insert that does not get its frames leaves: the tree as it was if a page cannot
      be fetched, else a tree with the key in it and one page too full. */
  ghost function Stopped(t: Tree, key: int, rid: RID, lim: Limits, avail: nat, pins: set<nat>, frames: nat): Outcome
    decreases t
  {
    if !CanPin(pins, frames, t.pid) then Outcome(t, None, avail)
    else if t.Leaf? then Outcome(Leaf(t.pid, Upsert(t.entries, key, rid), t.next), None, avail)
    else if t.kids == [] then Outcome(t, None, avail)
    else
      var i := ChildIndex(t.kids, key);
      assert t.kids[i].tree < t.kids[i];
      var o := if Fits(t.kids[i].tree, key, rid, lim, avail, pins, frames)
               then InsertTree(t.kids[i].tree, key, rid, lim, avail)
               else Stopped(t.kids[i].tree, key, rid, lim, avail, pins, frames);
      Outcome(Node(t.pid, AddKid(t.kids, i, o)), None, o.avail)
  }

  /** The page that stays pinned: the one that was to split. */
  ghost function Stuck(t: Tree, key: int, rid: RID, lim: Limits, avail: nat, pins: set<nat>, frames: nat): Option<nat>
    decreases t
  {
    if !CanPin(pins, frames, t.pid) then None
    else if t.Leaf? || t.kids == [] then Some(t.pid)
    else
      var i := ChildIndex(t.kids, key);
      assert t.kids[i].tree < t.kids[i];
      if Fits(t.kids[i].tree, key, rid, lim, avail, pins, frames) then Some(t.pid)
      else Stuck(t.kids[i].tree, key, rid, lim, avail, pins, frames)
  }

  /** A stopped insert never splits its page, and without a stuck page has changed nothing. */
  lemma {:induction false} StoppedShape(t: Tree, key: int, rid: RID, lim: Limits, avail: nat, pins: set<nat>, frames: nat)
    requires !Fits(t, key, rid, lim, avail, pins, frames)
    ensures var o := Stopped(t, key, rid, lim, avail, pins, frames);
            && o.split.None? && o.tree.pid == t.pid
            && (Stuck(t, key, rid, lim, avail, pins, frames).None? ==> o == Outcome(t, None, avail))
    decreases t
  {
    if t.Node? && t.kids != [] && CanPin(pins, frames, t.pid) {
      var i := ChildIndex(t.kids, key);
      assert t.kids[i].tree < t.kids[i];
      if !Fits(t.kids[i].tree, key, rid, lim, avail, pins, frames) {
        StoppedShape(t.kids[i].tree, key, rid, lim, avail, pins, frames);
        assert t.kids[i := Kid(t.kids[i].key, t.kids[i].tree)] == t.kids;
      }
    }
  }

  /** A stopped insert loses no entry: it has bound the key, unless it could not fetch a page
      on the way down; then it has changed nothing. */
  lemma {:induction false} StoppedEntries(t: Tree, key: int, rid: RID, lim: Limits, avail: nat, h: nat, lo: int, hi: int, root: bool, pins: set<nat>, frames: nat)
    requires LimitsOk(lim) && WF(t, h, lo, hi, lim, root) && lo <= key < hi
    requires !Fits(t, key, rid, lim, avail, pins, frames)
    ensures Entries(Stopped(t, key, rid, lim, avail, pins, frames).tree)
            == if Stuck(t, key, rid, lim, avail, pins, frames).None? then Entries(t) else Upsert(Entries(t), key, rid)
    decreases t
  {
    if t.Node? && CanPin(pins, frames, t.pid) {
      var i := ChildIndex(t.kids, key);
      assert KidWF(t.kids, i, h - 1, lo, hi, lim) && t.kids[i].tree < t.kids[i];
      var kid := t.kids[i].tree;
      if !Fits(kid, key, rid, lim, avail, pins, frames) {
        StoppedEntries(kid, key, rid, lim, avail, h - 1, LoAt(t.kids, i, lo), HiAt(t.kids, i, hi), false, pins, frames);
      }
      StoppedNode(t, i, key, rid, lim, avail, h, lo, hi, root, pins, frames);
    }
  }

  lemma StoppedNode(t: Tree, i: nat, key: int, rid: RID, lim: Limits, avail: nat, h: nat, lo: int, hi: int, root: bool, pins: set<nat>, frames: nat)
    requires LimitsOk(lim) && t.Node? && WF(t, h, lo, hi, lim, root) && lo <= key < hi
    requires CanPin(pins, frames, t.pid) && |t.kids| > 0 && i == ChildIndex(t.kids, key)
    requires var kid := t.kids[i].tree;
             Fits(kid, key, rid, lim, avail, pins, frames) || Entries(Stopped(kid, key, rid, lim, avail, pins, frames).tree)
             == if Stuck(kid, key, rid, lim, avail, pins, frames).None? then Entries(kid) else Upsert(Entries(kid), key, rid)
    ensures Entries(Stopped(t, key, rid, lim, avail, pins, frames).tree)
            == if Stuck(t, key, rid, lim, avail, pins, frames).None? then Entries(t) else Upsert(Entries(t), key, rid)
  {
    StoppedKids(t.kids, i, key, rid, lim, avail, h - 1, lo, hi, pins, frames);
    StoppedAt(t, i, key, rid, lim, avail, pins, frames);
  }

  /** One level of a stopped insert. */
  lemma StoppedAt(t: Tree, i: nat, key: int, rid: RID, lim: Limits, avail: nat, pins: set<nat>, frames: nat)
    requires t.Node? && i < |t.kids| && i == ChildIndex(t.kids, key) && CanPin(pins, frames, t.pid)
    ensures var kid := t.kids[i].tree;
            var fits := Fits(kid, key, rid, lim, avail, pins, frames);
            && Entries(Stopped(t, key, rid, lim, avail, pins, frames).tree)
               == Flat(AddKid(t.kids, i, if fits then InsertTree(kid, key, rid, lim, avail) else Stopped(kid, key, rid, lim, avail, pins, frames)))
            && Entries(t) == Flat(t.kids)
            && (Stuck(t, key, rid, lim, avail, pins, frames).Some? <==> fits || Stuck(kid, key, rid, lim, avail, pins, frames).Some?)
  {
  }

  /** The children of a node whose insert was stopped, at it or below it. */
  lemma StoppedKids(kids: seq<Kid>, i: nat, key: int, rid: RID, lim: Limits, avail: nat, h: nat, lo: int, hi: int, pins: set<nat>, frames: nat)
    requires LimitsOk(lim) && KidsWF(kids, h, lo, hi, lim) && i == ChildIndex(kids, key) && lo <= key < hi
    requires var kid := kids[i].tree;
             Fits(kid, key, rid, lim, avail, pins, frames) || Entries(Stopped(kid, key, rid, lim, avail, pins, frames).tree)
             == if Stuck(kid, key, rid, lim, avail, pins, frames).None? then Entries(kid) else Upsert(Entries(kid), key, rid)
    ensures var kid := kids[i].tree;
            var fits := Fits(kid, key, rid, lim, avail, pins, frames);
            Flat(AddKid(kids, i, if fits then InsertTree(kid, key, rid, lim, avail) else Stopped(kid, key, rid, lim, avail, pins, frames)))
            == if fits || Stuck(kid, key, rid, lim, avail, pins, frames).Some? then Upsert(Flat(kids), key, rid) else Flat(kids)
  {
    var kid := kids[i].tree;
    if Fits(kid, key, rid, lim, avail, pins, frames) {
      KidWentIn(kids, i, key, rid, lim, avail, h, lo, hi);
    } else {
      StoppedShape(kid, key, rid, lim, avail, pins, frames);
      StoppedBelow(kids, i, Stopped(kid, key, rid, lim, avail, pins, frames), Stuck(kid, key, rid, lim, avail, pins, frames).Some?,
                   key, rid, h, lo, hi, lim);
    }
  }

  lemma KidWentIn(kids: seq<Kid>, i: nat, key: int, rid: RID, lim: Limits, avail: nat, h: nat, lo: int, hi: int)
    requires LimitsOk(lim) && KidsWF(kids, h, lo, hi, lim) && i == ChildIndex(kids, key) && lo <= key < hi
    ensures Flat(AddKid(kids, i, InsertTree(kids[i].tree, key, rid, lim, avail))) == Upsert(Flat(kids), key, rid)
  {
    assert KidWF(kids, i, h, lo, hi, lim);
    InsertGood(kids[i].tree, key, rid, lim, avail, h, LoAt(kids, i, lo), HiAt(kids, i, hi), false);
    KidsGood(kids, i, InsertTree(kids[i].tree, key, rid, lim, avail), key, rid, lim, h, lo, hi);
  }

  lemma StoppedBelow(kids: seq<Kid>, i: nat, o: Outcome, bound: bool, key: int, rid: RID, h: nat, lo: int, hi: int, lim: Limits)
    requires KidsWF(kids, h, lo, hi, lim) && i == ChildIndex(kids, key) && lo <= key < hi && o.split.None?
    requires Entries(o.tree) == if bound then Upsert(Entries(kids[i].tree), key, rid) else Entries(kids[i].tree)
    ensures Flat(AddKid(kids, i, o)) == if bound then Upsert(Flat(kids), key, rid) else Flat(kids)
  {
    ReplacedFlat(kids, i, o);
    FlatAt(kids, i);
    if bound { UpsertAt(kids, i, key, rid, h, lo, hi, lim); }
  }

  lemma ReplacedFlat(kids: seq<Kid>, i: nat, o: Outcome)
    requires i < |kids| && o.split.None?
    ensures Flat(AddKid(kids, i, o)) == Flat(kids[..i]) + Entries(o.tree) + Flat(kids[i + 1..])
  {
    var kids1 := kids[i := Kid(kids[i].key, o.tree)];
    FlatAt(kids1, i);
    assert kids1[..i] == kids[..i] && kids1[i + 1..] == kids[i + 1..];
  }

  /** Inserting below child `i` is inserting into the node. */
  lemma UpsertAt(kids: seq<Kid>, i: nat, key: int, rid: RID, h: nat, lo: int, hi: int, lim: Limits)
    requires KidsWF(kids, h, lo, hi, lim) && i == ChildIndex(kids, key) && lo <= key < hi
    ensures Upsert(Flat(kids), key, rid)
            == Flat(kids[..i]) + Upsert(Entries(kids[i].tree), key, rid) + Flat(kids[i + 1..])
  {
    FlatAt(kids, i);
    SidesOfKid(kids, i, h, lo, hi, lim);
    UpsertBetween(Flat(kids[..i]), Entries(kids[i].tree), Flat(kids[i + 1..]), key, rid);
  }

  /** The tree is well formed but for page `p`, which holds exactly one entry more than it may. */
  ghost predicate OneTooFull(t: Tree, p: nat, h: nat, lo: int, hi: int, lim: Limits, root: bool)
    decreases t, 1
  {
    match t
    case Leaf(pid, es, _) =>
      pid == p && h == 0 && Sorted(es) && InRange(es, lo, hi) && |es| == lim.leafMax
    case Node(pid, kids) =>
      h > 0 &&
      if pid == p then KidsWF(kids, h - 1, lo, hi, lim) && |kids| == lim.internalMax + 1
      else
        && OneKidTooFull(kids, p, h - 1, lo, hi, lim)
        && (if root then 2 else (lim.internalMax + 1) / 2) <= |kids| <= lim.internalMax
  }

  ghost predicate OneKidTooFull(kids: seq<Kid>, p: nat, h: nat, lo: int, hi: int, lim: Limits)
    decreases kids, 1
  {
    exists i: nat :: i < |kids| && KidTooFull(kids, i, p, h, lo, hi, lim)
  }

  /** Page `p` is in child `i`; all other children are well formed. */
  ghost predicate KidTooFull(kids: seq<Kid>, i: nat, p: nat, h: nat, lo: int, hi: int, lim: Limits)
    requires i < |kids|
    decreases kids, 0
  {
    assert kids[i].tree < kids[i];
    && LoAt(kids, i, lo) < HiAt(kids, i, hi)
    && OneTooFull(kids[i].tree, p, h, LoAt(kids, i, lo), HiAt(kids, i, hi), lim, false)
    && forall j: nat :: j < |kids| && j != i ==> KidWF(kids, j, h, lo, hi, lim)
  }

  lemma {:induction false} StuckInPids(t: Tree, key: int, rid: RID, lim: Limits, avail: nat, pins: set<nat>, frames: nat)
    ensures var p := Stuck(t, key, rid, lim, avail, pins, frames); p.Some? ==> p.value in Pids(t)
    decreases t
  {
    assert t.pid in Pids(t);
    if t.Node? && t.kids != [] {
      var i := ChildIndex(t.kids, key);
      assert t.kids[i].tree < t.kids[i];
      StuckInPids(t.kids[i].tree, key, rid, lim, avail, pins, frames);
      KidInPids(t.kids, i);
    }
  }

  /** A stopped insert leaves exactly one page too full, by one entry: the stuck one. All other
      pages keep their order, bounds and fill. */
  lemma {:induction false} StuckTooFull(t: Tree, key: int, rid: RID, lim: Limits, avail: nat, h: nat, lo: int, hi: int, root: bool, pins: set<nat>, frames: nat)
    requires LimitsOk(lim) && WF(t, h, lo, hi, lim, root) && lo <= key < hi && Distinct(t)
    requires !Fits(t, key, rid, lim, avail, pins, frames) && Stuck(t, key, rid, lim, avail, pins, frames).Some?
    ensures OneTooFull(Stopped(t, key, rid, lim, avail, pins, frames).tree, Stuck(t, key, rid, lim, avail, pins, frames).value, h, lo, hi, lim, root)
    decreases t
  {
    if t.Leaf? {
      LeafTooFull(t, key, rid, lim, avail, h, lo, hi, root, pins, frames);
    } else {
      var i := ChildIndex(t.kids, key);
      assert KidWF(t.kids, i, h - 1, lo, hi, lim) && t.kids[i].tree < t.kids[i];
      if Fits(t.kids[i].tree, key, rid, lim, avail, pins, frames) {
        NodeTooFull(t, i, key, rid, lim, avail, h, lo, hi, root, pins, frames);
      } else {
        PidsAt(t.kids, i);
        StuckTooFull(t.kids[i].tree, key, rid, lim, avail, h - 1, LoAt(t.kids, i, lo), HiAt(t.kids, i, hi), false, pins, frames);
        StuckBelow(t, i, key, rid, lim, avail, h, lo, hi, root, pins, frames);
      }
    }
  }

  lemma LeafTooFull(t: Tree, key: int, rid: RID, lim: Limits, avail: nat, h: nat, lo: int, hi: int, root: bool, pins: set<nat>, frames: nat)
    requires LimitsOk(lim) && t.Leaf? && WF(t, h, lo, hi, lim, root) && lo <= key < hi
    requires CanPin(pins, frames, t.pid) && !Fits(t, key, rid, lim, avail, pins, frames)
    ensures OneTooFull(Stopped(t, key, rid, lim, avail, pins, frames).tree, t.pid, h, lo, hi, lim, root)
  {
    UpsertSorted(t.entries, key, rid, lo, hi);
  }

  lemma NodeTooFull(t: Tree, i: nat, key: int, rid: RID, lim: Limits, avail: nat, h: nat, lo: int, hi: int, root: bool, pins: set<nat>, frames: nat)
    requires LimitsOk(lim) && WF(t, h, lo, hi, lim, root) && lo <= key < hi && t.Node? && i == ChildIndex(t.kids, key)
    requires CanPin(pins, frames, t.pid) && !Fits(t, key, rid, lim, avail, pins, frames)
    requires Fits(t.kids[i].tree, key, rid, lim, avail, pins, frames)
    ensures OneTooFull(Stopped(t, key, rid, lim, avail, pins, frames).tree, t.pid, h, lo, hi, lim, root)
  {
    OneKidMore(t, i, key, rid, lim, avail, h, lo, hi, root);
  }

  /** A node that was to split has one child too many, and nothing else is wrong with it. */
  lemma OneKidMore(t: Tree, i: nat, key: int, rid: RID, lim: Limits, avail: nat, h: nat, lo: int, hi: int, root: bool)
    requires LimitsOk(lim) && WF(t, h, lo, hi, lim, root) && lo <= key < hi && t.Node? && i == ChildIndex(t.kids, key)
    requires InsertTree(t, key, rid, lim, avail).split.Some?
    ensures var kids := AddKid(t.kids, i, InsertTree(t.kids[i].tree, key, rid, lim, avail));
            KidsWF(kids, h - 1, lo, hi, lim) && |kids| == lim.internalMax + 1
  {
    assert KidWF(t.kids, i, h - 1, lo, hi, lim);
    var o := InsertTree(t.kids[i].tree, key, rid, lim, avail);
    InsertGood(t.kids[i].tree, key, rid, lim, avail, h - 1, LoAt(t.kids, i, lo), HiAt(t.kids, i, hi), false);
    KidsGood(t.kids, i, o, key, rid, lim, h - 1, lo, hi);
  }

  /** The stuck page is further down. */
  lemma StuckBelow(t: Tree, i: nat, key: int, rid: RID, lim: Limits, avail: nat, h: nat, lo: int, hi: int, root: bool, pins: set<nat>, frames: nat)
    requires t.Node? && WF(t, h, lo, hi, lim, root) && t.pid !in PidsOf(t.kids) && i < |t.kids| && i == ChildIndex(t.kids, key)
    requires CanPin(pins, frames, t.pid) && !Fits(t.kids[i].tree, key, rid, lim, avail, pins, frames)
    requires Stuck(t.kids[i].tree, key, rid, lim, avail, pins, frames).Some?
    requires OneTooFull(Stopped(t.kids[i].tree, key, rid, lim, avail, pins, frames).tree, Stuck(t.kids[i].tree, key, rid, lim, avail, pins, frames).value,
                        h - 1, LoAt(t.kids, i, lo), HiAt(t.kids, i, hi), lim, false)
    ensures OneTooFull(Stopped(t, key, rid, lim, avail, pins, frames).tree, Stuck(t, key, rid, lim, avail, pins, frames).value, h, lo, hi, lim, root)
  {
    var kid := t.kids[i].tree;
    StuckInPids(kid, key, rid, lim, avail, pins, frames);
    KidInPids(t.kids, i);
    StoppedShape(kid, key, rid, lim, avail, pins, frames);
    TooFullBelow(t.kids, i, Stopped(kid, key, rid, lim, avail, pins, frames), Stuck(kid, key, rid, lim, avail, pins, frames).value, h - 1, lo, hi, lim);
  }

  lemma TooFullBelow(kids: seq<Kid>, i: nat, o: Outcome, p: nat, h: nat, lo: int, hi: int, lim: Limits)
    requires KidsWF(kids, h, lo, hi, lim) && i < |kids| && o.split.None?
    requires OneTooFull(o.tree, p, h, LoAt(kids, i, lo), HiAt(kids, i, hi), lim, false)
    ensures OneKidTooFull(AddKid(kids, i, o), p, h, lo, hi, lim)
  {
    var kids' := AddKid(kids, i, o);
    assert KidWF(kids, i, h, lo, hi, lim);
    forall j: nat | j < |kids'| && j != i ensures KidWF(kids', j, h, lo, hi, lim) {
      assert KidWF(kids, j, h, lo, hi, lim);
    }
    assert KidTooFull(kids', i, p, h, lo, hi, lim);
  }

  // ---------------------------------------------------------- when inserts get by

  lemma OneMore(pins: set<nat>, p: nat)
    ensures |pins + {p}| == |pins| + if p in pins then 0 else 1
  {
    if p in pins { assert pins + {p} == pins; }
  }

  /** Two frames that others have not pinned are enough for any insert. */
  lemma {:induction false} TwoFramesSuffice(t: Tree, key: int, rid: RID, lim: Limits, avail: nat, pins: set<nat>, frames: nat)
    requires |pins| + 2 <= frames
    ensures Fits(t, key, rid, lim, avail, pins, frames)
    decreases t
  {
    OneMore(pins, t.pid);
    if t.Node? && t.kids != [] {
      var i := ChildIndex(t.kids, key);
      assert t.kids[i].tree < t.kids[i];
      TwoFramesSuffice(t.kids[i].tree, key, rid, lim, avail, pins, frames);
    }
  }

  /** Pages are allocated exactly for splits. */
  lemma {:induction false} AvailGrows(t: Tree, key: int, rid: RID, lim: Limits, avail: nat)
    ensures var o := InsertTree(t, key, rid, lim, avail); avail <= o.avail && (o.split.Some? ==> avail < o.avail)
    decreases t
  {
    if t.Node? && t.kids != [] {
      var i := ChildIndex(t.kids, key);
      assert t.kids[i].tree < t.kids[i];
      AvailGrows(t.kids[i].tree, key, rid, lim, avail);
    }
  }

  /** When others have pinned no page of the tree, an insert needs two frames if it splits a
      page and one if it does not. */
  lemma {:induction false} FitsIff(t: Tree, key: int, rid: RID, lim: Limits, avail: nat, pins: set<nat>, frames: nat)
    requires Pids(t) !! pins && |pins| <= frames
    ensures Fits(t, key, rid, lim, avail, pins, frames)
            <==> |pins| + 2 <= frames || (|pins| + 1 == frames && InsertTree(t, key, rid, lim, avail).avail == avail)
    decreases t
  {
    OneMore(pins, t.pid);
    assert t.pid in Pids(t);
    AvailGrows(t, key, rid, lim, avail);
    if |pins| + 2 <= frames {
      TwoFramesSuffice(t, key, rid, lim, avail, pins, frames);
    } else if t.Node? && t.kids != [] {
      var i := ChildIndex(t.kids, key);
      assert t.kids[i].tree < t.kids[i];
      KidInPids(t.kids, i);
      AvailGrows(t.kids[i].tree, key, rid, lim, avail);
      FitsIff(t.kids[i].tree, key, rid, lim, avail, pins, frames);
    }
  }

  /** The same for the index: a failing insert is one that finds every frame pinned, or that
      has a page to split and only one frame to do it with. */
  lemma InsertFitsIff(x: Index, key: int, rid: RID, lim: Limits, pins: set<nat>, frames: nat)
    requires RootPids(x.root) !! pins && |pins| <= frames
    ensures InsertFits(x, key, rid, lim, pins, frames)
            <==> |pins| + 2 <= frames || (|pins| + 1 == frames && (x.root.None? || Insert(x, key, rid, lim).avail == x.avail))
  {
    if x.root.Some? {
      FitsIff(x.root.value, key, rid, lim, x.avail, pins, frames);
      AvailGrows(x.root.value, key, rid, lim, x.avail);
    }
  }

  /** Two frames that others have not pinned are enough for the index as well. */
  lemma TwoFramesInsert(x: Index, key: int, rid: RID, lim: Limits, pins: set<nat>, frames: nat)
    requires |pins| + 2 <= frames
    ensures InsertFits(x, key, rid, lim, pins, frames)
  {
    if x.root.Some? { TwoFramesSuffice(x.root.value, key, rid, lim, x.avail, pins, frames); }
  }

  /** A root that has split leaves a frame for the new root, so that exception never comes. */
  lemma NewRootFits(t: Tree, key: int, rid: RID, lim: Limits, avail: nat, pins: set<nat>, frames: nat)
    requires Fits(t, key, rid, lim, avail, pins, frames) && InsertTree(t, key, rid, lim, avail).split.Some?
    ensures |pins| < frames
  {
    OneMore(pins, t.pid);
  }

  /** One frame and a leaf that must split: the insert fails and leaves the leaf pinned, one
      entry too full. */
  lemma OneFrameFails(a: RID, b: RID)
    ensures var t := Leaf(0, [LeafEntry(10, a)], INVALID_PAGE_ID);
            && WF(t, 0, KEY_MIN, KEY_END, Limits(2, 3), true)
            && !Fits(t, 20, b, Limits(2, 3), 1, {}, 1)
            && Stuck(t, 20, b, Limits(2, 3), 1, {}, 1) == Some(0)
            && Stopped(t, 20, b, Limits(2, 3), 1, {}, 1)
               == Outcome(Leaf(0, [LeafEntry(10, a), LeafEntry(20, b)], INVALID_PAGE_ID), None, 1)
  {
    TwoEntries(LeafEntry(10, a), 20, b);
    assert |{} + {0}| == 1;
  }

  /** A child pinned by others can split where its parent cannot: then the child has been
      split, and its parent stays pinned with one child too many. */
  lemma ParentStuck(t: Tree, key: int, rid: RID, lim: Limits, avail: nat, pins: set<nat>, frames: nat)
    requires t.Node? && t.kids != [] && |pins| + 1 == frames && t.pid !in pins
    requires var kid := t.kids[ChildIndex(t.kids, key)].tree;
             Fits(kid, key, rid, lim, avail, pins, frames) && InsertTree(kid, key, rid, lim, avail).split.Some?
    requires InsertTree(t, key, rid, lim, avail).split.Some?
    ensures !Fits(t, key, rid, lim, avail, pins, frames) && Stuck(t, key, rid, lim, avail, pins, frames) == Some(t.pid)
    ensures var o := Stopped(t, key, rid, lim, avail, pins, frames);
            o.avail > avail && o.tree.Node? && |o.tree.kids| == |t.kids| + 1
  {
    OneMore(pins, t.pid);
    AvailGrows(t.kids[ChildIndex(t.kids, key)].tree, key, rid, lim, avail);
  }

  /** Such a state: three leaves of one entry, the first of them pinned by others, two frames. */
  lemma HalfDoneSplit(a: RID, b: RID, c: RID, d: RID)
    ensures var first := Leaf(0, [LeafEntry(10, a)], 1);
            var t := Node(9, [Kid(0, first), Kid(20, Leaf(1, [LeafEntry(20, b)], 2)), Kid(30, Leaf(2, [LeafEntry(30, c)], INVALID_PAGE_ID))]);
            var lim := Limits(2, 3);
            && WF(t, 1, KEY_MIN, KEY_END, lim, true)
            && !Fits(t, 11, d, lim, 10, {0}, 2) && Stuck(t, 11, d, lim, 10, {0}, 2) == Some(9)
            && Stopped(t, 11, d, lim, 10, {0}, 2).avail == 11 && |Stopped(t, 11, d, lim, 10, {0}, 2).tree.kids| == 4
  {
    var first := Leaf(0, [LeafEntry(10, a)], 1);
    var second, third := Leaf(1, [LeafEntry(20, b)], 2), Leaf(2, [LeafEntry(30, c)], INVALID_PAGE_ID);
    var kids := [Kid(0, first), Kid(20, second), Kid(30, third)];
    var t, lim := Node(9, kids), Limits(2, 3);
    forall i: nat | i < |kids| ensures KidWF(kids, i, 0, KEY_MIN, KEY_END, lim) {
    }
    assert KidsWF(kids, 0, KEY_MIN, KEY_END, lim);
    FirstChild(kids, 11);
    TwoEntries(LeafEntry(10, a), 11, d);
    var o := InsertTree(first, 11, d, lim, 10);
    assert o == InsertLeaf(first, 11, d, lim, 10) && o.split.Some? && o.avail == 11;
    assert {0} + {0} == {0};
    assert Fits(first, 11, d, lim, 10, {0}, 2);
    assert |AddKid(kids, 0, o)| == 4;
    assert InsertTree(t, 11, d, lim, 10) == SplitNode(9, AddKid(kids, 0, o), lim, 11);
    ParentStuck(t, 11, d, lim, 10, {0}, 2);
  }

  lemma FirstChild(kids: seq<Kid>, key: int)
    requires |kids| == 3 && key < kids[1].key && key < kids[2].key
    ensures ChildIndex(kids, key) == 0
  {
  }

  lemma TwoEntries(e: LeafEntry, key: int, rid: RID)
    requires e.key < key
    ensures Upsert([e], key, rid) == [e, LeafEntry(key, rid)]
  {
    assert Upsert([e][1..], key, rid) == [LeafEntry(key, rid)];
  }

  // ------------------------------------------------------------------------ reads

  /** A search for the key can fetch every page on its way. */
  ghost predicate Readable(t: Tree, key: int, pins: set<nat>, frames: nat)
    decreases t
  {
    && CanPin(pins, frames, t.pid)
    && (t.Node? && t.kids != [] ==>
          var i := ChildIndex(t.kids, key);
          assert t.kids[i].tree < t.kids[i];
          Readable(t.kids[i].tree, key, pins, frames))
  }

  /** One frame that others have not pinned is enough, and needed if they have pinned no page
      of the tree. */
  lemma {:induction false} ReadableIff(t: Tree, key: int, pins: set<nat>, frames: nat)
    ensures |pins| < frames ==> Readable(t, key, pins, frames)
    ensures Pids(t) !! pins ==> (Readable(t, key, pins, frames) <==> |pins| < frames)
    decreases t
  {
    assert t.pid in Pids(t);
    if |pins| < frames && t.Node? && t.kids != [] {
      var i := ChildIndex(t.kids, key);
      assert t.kids[i].tree < t.kids[i];
      ReadableIff(t.kids[i].tree, key, pins, frames);
    }
  }

  /** The position among the leaves of the one a scan from `low` starts in. */
  ghost function LeafAt(t: Tree, low: int): nat
    decreases t
  {
    if t.Leaf? || t.kids == [] then 0
    else
      var i := ChildIndex(t.kids, low);
      assert t.kids[i].tree < t.kids[i];
      |LeavesOf(t.kids[..i])| + LeafAt(t.kids[i].tree, low)
  }

  /** A key above `high` ends the scan in this leaf. */
  predicate EndsScan(leaf: Tree, high: int) {
    leaf.Leaf? && leaf.entries != [] && leaf.entries[|leaf.entries| - 1].key > high
  }

  /** The scan can fetch every leaf from `j` to the one that ends it. */
  ghost predicate ChainReadable(ls: seq<Tree>, j: nat, high: int, pins: set<nat>, frames: nat)
    decreases |ls| - j
  {
    j < |ls| ==> CanPin(pins, frames, ls[j].pid) && (EndsScan(ls[j], high) || ChainReadable(ls, j + 1, high, pins, frames))
  }

  /** A range scan can fetch every page it visits. */
  ghost predicate ScanReadable(root: Option<Tree>, low: int, high: int, pins: set<nat>, frames: nat) {
    root.Some? ==>
      && Readable(root.value, low, pins, frames)
      && ChainReadable(Leaves(root.value), LeafAt(root.value, low), high, pins, frames)
  }

  lemma {:induction false} ChainReads(ls: seq<Tree>, j: nat, high: int, pins: set<nat>, frames: nat)
    requires |pins| < frames
    ensures ChainReadable(ls, j, high, pins, frames)
    decreases |ls| - j
  {
    if j < |ls| { ChainReads(ls, j + 1, high, pins, frames); }
  }

  /** One frame that others have not pinned is enough for any range scan. */
  lemma OneFrameScans(root: Option<Tree>, low: int, high: int, pins: set<nat>, frames: nat)
    requires |pins| < frames
    ensures ScanReadable(root, low, high, pins, frames)
  {
    if root.Some? {
      ReadableIff(root.value, low, pins, frames);
      ChainReads(Leaves(root.value), LeafAt(root.value, low), high, pins, frames);
    }
  }
}
