/** The parallel sequential scan: `src/executor/parallel_seq_scan.cpp`. Workers claim the pages of
  a list; a page that cannot be pinned is skipped without notice. The list is what `GetPageIds`
  returns, which ends early when every frame is pinned, as the serial scan does. When pages are
  skipped, and when the result differs from the serial scan, is settled exactly.
 */
module ParallelScan {
  import opened Page
  import opened HeapFiles
  import opened PoolState
  import opened Bags
  import opened Basics
  import opened WorkClaim

  /** The tuples of the `idx`-th listed page: what a worker pushes for that page. */
  function PageTuples(pages: seq<PageData>, ids: seq<nat>): nat -> seq<Tuple> {
    (idx: nat) => if idx < |ids| then TuplesAt(pages, ids[idx]) else []
  }

  /** The pages pinned while the workers scan the pages `busy`. */
  function PinnedPages(ids: seq<nat>, others: set<nat>, busy: set<nat>): set<nat> {
    others + PagesOf(ids, busy)
  }

  function PagesOf(ids: seq<nat>, busy: set<nat>): set<nat> {
    set b | b in busy && b < |ids| :: ids[b]
  }

  /** `FetchPage` fails when the page is not pinned and every frame is. */
  function CannotPin(ids: seq<nat>, others: set<nat>, poolSize: nat): (nat, set<nat>) -> bool {
    (idx: nat, busy: set<nat>) =>
      idx < |ids| && ids[idx] !in PinnedPages(ids, others, busy)
      && |PinnedPages(ids, others, busy)| >= poolSize
  }

  /** The tuples of a list of rows. */
  function Tuples(rows: seq<Row>): (ts: seq<Tuple>)
    ensures |ts| == |rows|
    ensures forall i :: 0 <= i < |rows| ==> ts[i] == rows[i].tuple
  {
    seq(|rows|, i requires 0 <= i < |rows| => rows[i].tuple)
  }

  /** Page by page, the tuples are those of the serial scan, in order. */
  lemma {:induction false} SerialOrder(pages: seq<PageData>, ids: seq<nat>, n: nat)
    requires n <= |ids|
    ensures FlatMap(PageTuples(pages, ids), Upto(n)) == Tuples(ChainRows(pages, ids[..n]))
  {
    var f := PageTuples(pages, ids);
    if n == 0 {
      assert Upto(0) == [] && ids[..0] == [];
    } else {
      var k: nat := n - 1;
      SerialOrder(pages, ids, k);
      UptoSnoc(k);
      FlatMapConcat<nat, Tuple>(f, Upto(k), [k]);
      FlatMapOne<nat, Tuple>(f, k);
      RowsSplit(pages, ids, k);
      var rows := PageRows(ids[k], TuplesAt(pages, ids[k]));
      TuplesConcat(ChainRows(pages, ids[..k]), rows);
      assert Tuples(rows) == f(k);
    }
  }

  lemma TuplesConcat(a: seq<Row>, b: seq<Row>)
    ensures Tuples(a + b) == Tuples(a) + Tuples(b)
  {
  }

  /** The positions of the pages that others do not hold: only these need a frame. */
  function Free(ids: seq<nat>, others: set<nat>): set<nat> {
    set i: nat | i < |ids| && ids[i] !in others
  }

  predicate NoRepeats(ids: seq<nat>) {
    forall i, j :: 0 <= i < j < |ids| ==> ids[i] != ids[j]
  }

  /** Every worker can have a frame: as many are left by others as there are workers, or as
      there are pages that need one. */
  predicate FramesForAll(ids: seq<nat>, others: set<nat>, poolSize: nat, workers: nat) {
    |others| + Min(workers, |Free(ids, others)|) <= poolSize
  }

  /** The pages of free positions are as many, and none of them is held by others. */
  lemma {:induction false} FreeSize(ids: seq<nat>, others: set<nat>, busy: set<nat>)
    requires NoRepeats(ids) && busy <= Free(ids, others)
    ensures |PinnedPages(ids, others, busy)| == |others| + |busy|
    decreases |busy|
  {
    if busy == {} {
      assert PinnedPages(ids, others, {}) == others;
    } else {
      var x :| x in busy;
      FreeSize(ids, others, busy - {x});
      OneMorePinned(ids, others, busy, x);
      assert |busy - {x}| == |busy| - 1;
    }
  }

  lemma OneMorePinned(ids: seq<nat>, others: set<nat>, busy: set<nat>, x: nat)
    requires NoRepeats(ids) && busy <= Free(ids, others) && x in busy
    ensures |PinnedPages(ids, others, busy)| == |PinnedPages(ids, others, busy - {x})| + 1
  {
    var less := PinnedPages(ids, others, busy - {x});
    assert ids[x] !in PagesOf(ids, busy - {x}) by {
      forall b | b in busy - {x} ensures ids[b] != ids[x] {
        assert b < x || x < b;
      }
    }
    assert PagesOf(ids, busy) == PagesOf(ids, busy - {x}) + {ids[x]};
    assert PinnedPages(ids, others, busy) == less + {ids[x]};
  }

  /** Only free positions count. */
  lemma FreePart(ids: seq<nat>, others: set<nat>, busy: set<nat>)
    ensures PinnedPages(ids, others, busy) == PinnedPages(ids, others, busy * Free(ids, others))
  {
  }

  /** With frames for all, no page is refused. */
  lemma EnoughFrames(ids: seq<nat>, others: set<nat>, poolSize: nat, workers: nat)
    requires NoRepeats(ids) && FramesForAll(ids, others, poolSize, workers)
    ensures NeverRefuses(workers, |ids|, CannotPin(ids, others, poolSize))
  {
    forall idx: nat, busy: set<nat> | idx < |ids| && |busy| < workers
      ensures !CannotPin(ids, others, poolSize)(idx, busy)
    {
      var held := busy * Free(ids, others);
      FreePart(ids, others, busy);
      FreeSize(ids, others, held);
      SubsetSize(held, busy);
      if idx in Free(ids, others) && idx !in held {
        SubsetSize(held + {idx}, Free(ids, others));
      }
    }
  }

  /** With frames for all, the workers buffer exactly the tuples of the listed pages, each
      once, for every number of workers and every interleaving of their claims. */
  lemma ScanComplete(pages: seq<PageData>, ids: seq<nat>, others: set<nat>, poolSize: nat,
                     workers: nat, ss: seq<State<Tuple>>, ts: seq<nat>)
    requires workers >= 1 && NoRepeats(ids) && FramesForAll(ids, others, poolSize, workers)
    requires Run(ss, ts, workers, |ids|, PageTuples(pages, ids), CannotPin(ids, others, poolSize))
    requires AllFinished(ss[|ss| - 1])
    ensures multiset(Concat(ss[|ss| - 1].local)) == multiset(Tuples(ChainRows(pages, ids)))
  {
    EnoughFrames(ids, others, poolSize, workers);
    NeverRefused(ss, ts, workers, |ids|, PageTuples(pages, ids), CannotPin(ids, others, poolSize));
    CompleteWithout(ss, ts, workers, |ids|, PageTuples(pages, ids), CannotPin(ids, others, poolSize));
    SerialOrder(pages, ids, |ids|);
    assert ids[..|ids|] == ids;
  }

  // ------------------------------------------------------------ too few frames

  /** The members of `hold` below `k`. */
  function Below(hold: set<nat>, k: nat): set<nat> {
    set h | h in hold && h < k
  }

  lemma BelowNext(hold: set<nat>, k: nat)
    ensures Below(hold, k + 1) == Below(hold, k) + if k in hold then {k} else {}
  {
  }

  /** Items below `k` have been claimed. Of those in `hold`, `victim` is claimed but not pinned
      and the others are pinned; the workers behind the holders are ready. */
  ghost predicate Held(s: State<Tuple>, hold: set<nat>, victim: nat, k: nat, workers: nat) {
    && |s.pcs| == |s.local| == workers && s.next == k
    && Busy(s.pcs) == Below(hold, k) - {victim}
    && (victim in Below(hold, k) ==> exists t: nat :: t < workers && s.pcs[t] == Claimed(victim))
    && (forall t: nat :: |Below(hold, k)| <= t < workers ==> s.pcs[t] == Ready)
  }

  lemma BusyChange(pcs: seq<Pc>, t: nat, pc: Pc)
    requires t < |pcs| && !pcs[t].Working?
    ensures Busy(pcs[t := pc]) == Busy(pcs) + if pc.Working? then {pc.idx} else {}
  {
    var pcs' := pcs[t := pc];
    forall x | x in Busy(pcs) ensures x in Busy(pcs') {
      var u :| 0 <= u < |pcs| && pcs[u].Working? && pcs[u].idx == x;
      assert pcs'[u] == pcs[u];
    }
    if pc.Working? { assert pcs'[t].Working?; }
  }

  /** A worker that pinned its page finishes it. */
  lemma {:induction false} Drain(ss: seq<State<Tuple>>, ts: seq<nat>, t: nat, workers: nat, items: nat, f: nat -> seq<Tuple>, refuse: (nat, set<nat>) -> bool)
    returns (ss': seq<State<Tuple>>, ts': seq<nat>)
    requires Run(ss, ts, workers, items, f, refuse) && t < workers
    requires var s := ss[|ss| - 1];
             |s.pcs| == |s.local| == workers && s.pcs[t].Working? && s.pcs[t].done <= |f(s.pcs[t].idx)|
    ensures Run(ss', ts', workers, items, f, refuse)
    ensures var s, s' := ss[|ss| - 1], ss'[|ss'| - 1];
            |s'.local| == workers && s'.next == s.next && s'.pcs == s.pcs[t := Ready]
    decreases var pc := ss[|ss| - 1].pcs[t]; |f(pc.idx)| - pc.done
  {
    var s := ss[|ss| - 1];
    var more, mts := Extend(ss, ts, t, workers, items, f, refuse);
    if s.pcs[t].done < |f(s.pcs[t].idx)| {
      ss', ts' := Drain(more, mts, t, workers, items, f, refuse);
    } else {
      ss', ts' := more, mts;
    }
  }

  /** A ready worker takes the next item and is done with it, pinned or refused. */
  lemma Consume(ss: seq<State<Tuple>>, ts: seq<nat>, t: nat, workers: nat, items: nat, f: nat -> seq<Tuple>, refuse: (nat, set<nat>) -> bool)
    returns (ss': seq<State<Tuple>>, ts': seq<nat>)
    requires Run(ss, ts, workers, items, f, refuse) && t < workers
    requires var s := ss[|ss| - 1];
             |s.pcs| == |s.local| == workers && s.pcs[t] == Ready && s.next < items
    ensures Run(ss', ts', workers, items, f, refuse)
    ensures var s, s' := ss[|ss| - 1], ss'[|ss'| - 1];
            |s'.local| == workers && s'.next == s.next + 1 && s'.pcs == s.pcs
  {
    var s := ss[|ss| - 1];
    var s1, t1 := Extend(ss, ts, t, workers, items, f, refuse);
    var s2, t2 := Extend(s1, t1, t, workers, items, f, refuse);
    if s2[|s2| - 1].pcs[t].Working? {
      ss', ts' := Drain(s2, t2, t, workers, items, f, refuse);
    } else {
      ss', ts' := s2, t2;
    }
    assert s.pcs[t := Ready] == s.pcs;
  }

  /** While not all of `hold` is claimed, there is a frame for one more of it. */
  lemma RoomToHold(ids: seq<nat>, others: set<nat>, poolSize: nat, hold: set<nat>, victim: nat, k: nat)
    requires NoRepeats(ids) && hold <= Free(ids, others) && victim in hold && |others| + |hold| == poolSize + 1
    requires k in hold && k != victim
    ensures !CannotPin(ids, others, poolSize)(k, Below(hold, k) - {victim})
  {
    var busy := Below(hold, k) - {victim};
    FreeSize(ids, others, busy);
    SubsetSize(busy + {k, victim}, hold);
    assert |busy + {k, victim}| == |busy| + 2;
  }

  /** The run in which the workers claim in turn, keep the pages in `hold`, and are done at
      once with all others. */
  lemma {:induction false} HoldUpTo(pages: seq<PageData>, ids: seq<nat>, others: set<nat>, poolSize: nat, workers: nat,
                                    hold: set<nat>, victim: nat, top: nat, k: nat)
    returns (ss: seq<State<Tuple>>, ts: seq<nat>)
    requires NoRepeats(ids) && hold <= Free(ids, others) && victim in hold && |others| + |hold| == poolSize + 1
    requires top in hold && k <= top + 1 && |hold| <= workers
    ensures Run(ss, ts, workers, |ids|, PageTuples(pages, ids), CannotPin(ids, others, poolSize))
    ensures Held(ss[|ss| - 1], hold, victim, k, workers)
  {
    if k == 0 {
      ss, ts := [State(0, seq(workers, _ => Ready), seq(workers, _ => []))], [];
    } else {
      ss, ts := HoldUpTo(pages, ids, others, poolSize, workers, hold, victim, top, k - 1);
      ss, ts := HoldNext(pages, ids, others, poolSize, workers, hold, victim, top, k - 1, ss, ts);
    }
  }

  lemma HoldNext(pages: seq<PageData>, ids: seq<nat>, others: set<nat>, poolSize: nat, workers: nat,
                 hold: set<nat>, victim: nat, top: nat, k: nat, ss: seq<State<Tuple>>, ts: seq<nat>)
    returns (ss': seq<State<Tuple>>, ts': seq<nat>)
    requires NoRepeats(ids) && hold <= Free(ids, others) && victim in hold && |others| + |hold| == poolSize + 1
    requires top in hold && k <= top && |hold| <= workers
    requires Run(ss, ts, workers, |ids|, PageTuples(pages, ids), CannotPin(ids, others, poolSize))
    requires Held(ss[|ss| - 1], hold, victim, k, workers)
    ensures Run(ss', ts', workers, |ids|, PageTuples(pages, ids), CannotPin(ids, others, poolSize))
    ensures Held(ss'[|ss'| - 1], hold, victim, k + 1, workers)
  {
    var f, refuse := PageTuples(pages, ids), CannotPin(ids, others, poolSize);
    NextHolder(hold, top, k);
    if k !in hold {
      ss', ts' := Consume(ss, ts, |Below(hold, k)|, workers, |ids|, f, refuse);
      HeldSkip(ss[|ss| - 1], ss'[|ss'| - 1], hold, victim, k, workers);
    } else if k == victim {
      ss', ts' := ClaimNext(ss, ts, hold, victim, workers, |ids|, f, refuse);
    } else {
      RoomToHold(ids, others, poolSize, hold, victim, k);
      ss', ts' := PinNext(ss, ts, hold, victim, k, workers, |ids|, f, refuse);
    }
  }

  lemma NextHolder(hold: set<nat>, top: nat, k: nat)
    requires top in hold && k <= top
    ensures |Below(hold, k)| < |hold|
  {
    SubsetSize(Below(hold, k) + {top}, hold);
    assert top !in Below(hold, k);
  }

  lemma ClaimNext(ss: seq<State<Tuple>>, ts: seq<nat>, hold: set<nat>, k: nat, workers: nat, items: nat, f: nat -> seq<Tuple>, refuse: (nat, set<nat>) -> bool)
    returns (ss': seq<State<Tuple>>, ts': seq<nat>)
    requires Run(ss, ts, workers, items, f, refuse) && k < items && k in hold && |Below(hold, k)| < workers
    requires Held(ss[|ss| - 1], hold, k, k, workers)
    ensures Run(ss', ts', workers, items, f, refuse) && Held(ss'[|ss'| - 1], hold, k, k + 1, workers)
  {
    var s, t := ss[|ss| - 1], |Below(hold, k)|;
    ss', ts' := Extend(ss, ts, t, workers, items, f, refuse);
    BusyChange(s.pcs, t, Claimed(k));
    HeldClaim(s, ss'[|ss'| - 1], hold, k, t, workers);
  }

  lemma PinNext(ss: seq<State<Tuple>>, ts: seq<nat>, hold: set<nat>, victim: nat, k: nat, workers: nat, items: nat, f: nat -> seq<Tuple>, refuse: (nat, set<nat>) -> bool)
    returns (ss': seq<State<Tuple>>, ts': seq<nat>)
    requires Run(ss, ts, workers, items, f, refuse) && k < items && k in hold && k != victim && |Below(hold, k)| < workers
    requires Held(ss[|ss| - 1], hold, victim, k, workers) && !refuse(k, Below(hold, k) - {victim})
    ensures Run(ss', ts', workers, items, f, refuse) && Held(ss'[|ss'| - 1], hold, victim, k + 1, workers)
  {
    var s, t := ss[|ss| - 1], |Below(hold, k)|;
    var s1, t1 := Extend(ss, ts, t, workers, items, f, refuse);
    BusyChange(s.pcs, t, Claimed(k));
    var mid := s1[|s1| - 1];
    assert mid.pcs == s.pcs[t := Claimed(k)] && Busy(mid.pcs) == Below(hold, k) - {victim};
    ss', ts' := Extend(s1, t1, t, workers, items, f, refuse);
    BusyChange(mid.pcs, t, Working(k, 0));
    assert ss'[|ss'| - 1].pcs == mid.pcs[t := Working(k, 0)] == s.pcs[t := Working(k, 0)];
    HeldPin(s, ss'[|ss'| - 1], hold, victim, k, t, workers);
  }

  lemma HeldSkip(s: State<Tuple>, s': State<Tuple>, hold: set<nat>, victim: nat, k: nat, workers: nat)
    requires Held(s, hold, victim, k, workers) && k !in hold
    requires s'.pcs == s.pcs && |s'.local| == workers && s'.next == k + 1
    ensures Held(s', hold, victim, k + 1, workers)
  {
    BelowNext(hold, k);
  }

  lemma HeldClaim(s: State<Tuple>, s': State<Tuple>, hold: set<nat>, k: nat, t: nat, workers: nat)
    requires Held(s, hold, k, k, workers) && k in hold && t == |Below(hold, k)| < workers
    requires s'.pcs == s.pcs[t := Claimed(k)] && |s'.local| == workers && s'.next == k + 1
    requires Busy(s'.pcs) == Busy(s.pcs)
    ensures Held(s', hold, k, k + 1, workers)
  {
    BelowNext(hold, k);
    assert Below(hold, k + 1) - {k} == Below(hold, k) - {k};
    assert s'.pcs[t] == Claimed(k);
  }

  lemma HeldPin(s: State<Tuple>, s': State<Tuple>, hold: set<nat>, victim: nat, k: nat, t: nat, workers: nat)
    requires Held(s, hold, victim, k, workers) && k in hold && k != victim && t == |Below(hold, k)| < workers
    requires s'.pcs == s.pcs[t := Working(k, 0)] && |s'.local| == workers && s'.next == k + 1
    requires Busy(s'.pcs) == Busy(s.pcs) + {k}
    ensures Held(s', hold, victim, k + 1, workers)
  {
    BelowNext(hold, k);
    assert Below(hold, k + 1) - {victim} == Below(hold, k) - {victim} + {k};
    if victim in Below(hold, k) {
      var u: nat :| u < workers && s.pcs[u] == Claimed(victim);
      assert s'.pcs[u] == Claimed(victim);
    }
  }

  /** A set of `n` elements between `{x}` and `s`. */
  lemma {:induction false} Choose(s: set<nat>, x: nat, n: nat) returns (r: set<nat>)
    requires x in s && 1 <= n <= |s|
    ensures r <= s && x in r && |r| == n
    decreases |s|
  {
    if |s| == n {
      r := s;
    } else {
      SubsetSize({x}, s);
      assert s - {x} != {} by { assert |s - {x}| == |s| - 1; }
      var y :| y in s - {x};
      r := Choose(s - {y}, x, n);
    }
  }

  lemma {:induction false} Greatest(s: set<nat>) returns (top: nat)
    requires s != {}
    ensures top in s && forall x :: x in s ==> x <= top
    decreases |s|
  {
    var y :| y in s;
    if s == {y} {
      top := y;
    } else {
      assert s - {y} != {};
      var rest := Greatest(s - {y});
      top := if rest < y then y else rest;
      forall x | x in s ensures x <= top {
        assert x == y || x in s - {y};
      }
    }
  }

  /** With fewer frames than that, every listed page that others do not hold can be
      refused. */
  lemma RefusingRun(pages: seq<PageData>, ids: seq<nat>, others: set<nat>, poolSize: nat, workers: nat, victim: nat)
    returns (ss: seq<State<Tuple>>, ts: seq<nat>, t: nat)
    requires NoRepeats(ids) && |others| <= poolSize && !FramesForAll(ids, others, poolSize, workers)
    requires victim in Free(ids, others)
    ensures Run(ss, ts, workers, |ids|, PageTuples(pages, ids), CannotPin(ids, others, poolSize))
    ensures t < workers && |ss[|ss| - 1].pcs| == workers && ss[|ss| - 1].pcs[t] == Claimed(victim)
    ensures Refused(ss[|ss| - 1], t, CannotPin(ids, others, poolSize))
  {
    var hold := Choose(Free(ids, others), victim, poolSize - |others| + 1);
    var top := Greatest(hold);
    ss, ts := HoldUpTo(pages, ids, others, poolSize, workers, hold, victim, top, top + 1);
    assert Below(hold, top + 1) == hold;
    t := Waiting(ss[|ss| - 1], hold, victim, top + 1, workers);
    VictimRefused(ids, others, poolSize, hold, victim);
  }

  lemma Waiting(s: State<Tuple>, hold: set<nat>, victim: nat, k: nat, workers: nat) returns (t: nat)
    requires Held(s, hold, victim, k, workers) && victim in hold && Below(hold, k) == hold
    ensures t < workers == |s.pcs| && s.pcs[t] == Claimed(victim) && Busy(s.pcs) == hold - {victim}
  {
    t :| t < workers && s.pcs[t] == Claimed(victim);
  }

  lemma VictimRefused(ids: seq<nat>, others: set<nat>, poolSize: nat, hold: set<nat>, victim: nat)
    requires NoRepeats(ids) && hold <= Free(ids, others) && victim in hold && |others| + |hold| == poolSize + 1
    ensures CannotPin(ids, others, poolSize)(victim, hold - {victim})
  {
    FreeSize(ids, others, hold - {victim});
  }

  /** No run skips a listed page if and only if there are frames for all. */
  lemma NoPageSkippedIff(pages: seq<PageData>, ids: seq<nat>, others: set<nat>, poolSize: nat, workers: nat)
    requires NoRepeats(ids) && |others| <= poolSize
    ensures (forall ss: seq<State<Tuple>>, ts: seq<nat> ::
               Run(ss, ts, workers, |ids|, PageTuples(pages, ids), CannotPin(ids, others, poolSize)) ==>
                 NoneRefused(ss, ts, CannotPin(ids, others, poolSize)))
            <==> FramesForAll(ids, others, poolSize, workers)
  {
    var f, refuse := PageTuples(pages, ids), CannotPin(ids, others, poolSize);
    if FramesForAll(ids, others, poolSize, workers) {
      EnoughFrames(ids, others, poolSize, workers);
      forall ss: seq<State<Tuple>>, ts: seq<nat> | Run(ss, ts, workers, |ids|, f, refuse) ensures NoneRefused(ss, ts, refuse) {
        NeverRefused(ss, ts, workers, |ids|, f, refuse);
      }
    } else {
      var victim: nat :| victim in Free(ids, others);
      var ss, ts, t := RefusingRun(pages, ids, others, poolSize, workers, victim);
      RunInv(ss, ts, workers, |ids|, f, refuse, |ss| - 1);
      var ss', ts' := Extend(ss, ts, t, workers, |ids|, f, refuse);
      assert Refused(ss'[|ts|], ts'[|ts|], refuse);
    }
  }

  /** Every complete run of the workers buffers these tuples, in some order. */
  ghost predicate Buffers(pages: seq<PageData>, ids: seq<nat>, others: set<nat>, poolSize: nat, workers: nat, tuples: seq<Tuple>) {
    forall ss: seq<State<Tuple>>, ts: seq<nat> ::
      Run(ss, ts, workers, |ids|, PageTuples(pages, ids), CannotPin(ids, others, poolSize)) && AllFinished(ss[|ss| - 1]) ==>
        multiset(Concat(ss[|ss| - 1].local)) == multiset(tuples)
  }

  /** Every complete run buffers the tuples of all listed pages if and only if there are frames
      for all, or every page that needs one is empty. */
  lemma ListExactIff(pages: seq<PageData>, ids: seq<nat>, others: set<nat>, poolSize: nat, workers: nat)
    requires NoRepeats(ids) && |others| <= poolSize && workers >= 1
    ensures Buffers(pages, ids, others, poolSize, workers, Tuples(ChainRows(pages, ids)))
            <==> FramesForAll(ids, others, poolSize, workers) || NothingToLose(pages, ids, others)
  {
    var f, refuse := PageTuples(pages, ids), CannotPin(ids, others, poolSize);
    SerialOrder(pages, ids, |ids|);
    assert ids[..|ids|] == ids;
    if FramesForAll(ids, others, poolSize, workers) || NothingToLose(pages, ids, others) {
      forall ss: seq<State<Tuple>>, ts: seq<nat> | Run(ss, ts, workers, |ids|, f, refuse) && AllFinished(ss[|ss| - 1])
        ensures multiset(Concat(ss[|ss| - 1].local)) == multiset(Tuples(ChainRows(pages, ids)))
      {
        if FramesForAll(ids, others, poolSize, workers) {
          ScanComplete(pages, ids, others, poolSize, workers, ss, ts);
        } else {
          OnlyEmptyLost(pages, ids, others, poolSize, workers, ss, ts, |ts|);
          CompleteRun(ss, ts, workers, |ids|, f, refuse);
        }
      }
    } else {
      var victim: nat :| victim in Free(ids, others) && TuplesAt(pages, ids[victim]) != [];
      var ss, ts, t := RefusingRun(pages, ids, others, poolSize, workers, victim);
      var ss', ts' := LosingRun(ss, ts, t, workers, |ids|, f, refuse);
    }
  }

  /** Pages that need a frame are empty. */
  ghost predicate NothingToLose(pages: seq<PageData>, ids: seq<nat>, others: set<nat>) {
    forall i :: i in Free(ids, others) ==> TuplesAt(pages, ids[i]) == []
  }

  lemma {:induction false} OnlyEmptyLost(pages: seq<PageData>, ids: seq<nat>, others: set<nat>, poolSize: nat, workers: nat,
                                         ss: seq<State<Tuple>>, ts: seq<nat>, i: nat)
    requires NothingToLose(pages, ids, others) && i <= |ts| < |ss|
    ensures Lost(ss, ts, PageTuples(pages, ids), CannotPin(ids, others, poolSize), i) == multiset{}
  {
    if i > 0 {
      OnlyEmptyLost(pages, ids, others, poolSize, workers, ss, ts, i - 1);
      var s, t := ss[i - 1], ts[i - 1];
      if Refused(s, t, CannotPin(ids, others, poolSize)) {
        assert s.pcs[t].idx in Free(ids, others);
      }
    }
  }

  /** When others hold every frame and no listed page, not only some run but every run
      comes back empty-handed. */
  lemma {:induction false} StarvedScan(pages: seq<PageData>, ids: seq<nat>, others: set<nat>, poolSize: nat,
                                       workers: nat, ss: seq<State<Tuple>>, ts: seq<nat>, i: nat)
    requires |others| == poolSize && (forall k :: 0 <= k < |ids| ==> ids[k] !in others)
    requires Run(ss, ts, workers, |ids|, PageTuples(pages, ids), CannotPin(ids, others, poolSize))
    requires i < |ss|
    ensures |ss[i].pcs| == |ss[i].local| == workers
    ensures forall t :: 0 <= t < workers ==> Idle(ss[i], t, |ids|)
  {
    if i > 0 {
      StarvedScan(pages, ids, others, poolSize, workers, ss, ts, i - 1);
      var s, t := ss[i - 1], ts[i - 1];
      assert Step(s, ss[i], t, |ids|, PageTuples(pages, ids), CannotPin(ids, others, poolSize));
      assert Idle(s, t, |ids|);
      NobodyBusy(s, workers, |ids|);
      assert PinnedPages(ids, others, {}) == others;
      forall u | 0 <= u < workers ensures Idle(ss[i], u, |ids|) {
        assert Idle(s, u, |ids|);
      }
    }
  }

  lemma NobodyBusy(s: State<Tuple>, workers: nat, items: nat)
    requires |s.pcs| == |s.local| == workers && forall t :: 0 <= t < workers ==> Idle(s, t, items)
    ensures Busy(s.pcs) == {}
  {
    forall t | 0 <= t < |s.pcs| ensures !s.pcs[t].Working? {
      assert Idle(s, t, items);
    }
  }

  ghost predicate Idle(s: State<Tuple>, t: nat, items: nat)
    requires t < |s.pcs| == |s.local|
  {
    !s.pcs[t].Working? && s.local[t] == [] && (s.pcs[t].Claimed? ==> s.pcs[t].idx < items)
  }

  // ---------------------------------------------------------------- full pool

  /** Nobody works on an item from `reach` on. */
  ghost predicate WorkBelow(s: State<Tuple>, reach: nat) {
    forall t :: 0 <= t < |s.pcs| && s.pcs[t].Working? ==> s.pcs[t].idx < reach
  }

  /** Others hold every frame and, of the list, the pages before `reach`. */
  ghost predicate FullUpTo(ids: seq<nat>, others: set<nat>, poolSize: nat, reach: nat) {
    && NoRepeats(ids) && |others| == poolSize && reach <= |ids|
    && (forall k :: 0 <= k < reach ==> ids[k] in others)
    && (forall k :: reach <= k < |ids| ==> ids[k] !in others)
  }

  lemma BeyondRefused(ids: seq<nat>, others: set<nat>, poolSize: nat, reach: nat, s: State<Tuple>, idx: nat)
    requires FullUpTo(ids, others, poolSize, reach) && WorkBelow(s, reach) && reach <= idx < |ids|
    ensures CannotPin(ids, others, poolSize)(idx, Busy(s.pcs))
  {
    SubsetSize(others, PinnedPages(ids, others, Busy(s.pcs)));
    forall b | b in Busy(s.pcs) ensures b < reach {
    }
  }

  lemma {:induction false} StaysBelow(pages: seq<PageData>, ids: seq<nat>, others: set<nat>, poolSize: nat, reach: nat, workers: nat,
                                      ss: seq<State<Tuple>>, ts: seq<nat>, i: nat)
    requires FullUpTo(ids, others, poolSize, reach) && i < |ss|
    requires Run(ss, ts, workers, |ids|, PageTuples(pages, ids), CannotPin(ids, others, poolSize))
    ensures WorkBelow(ss[i], reach)
  {
    if i > 0 {
      StaysBelow(pages, ids, others, poolSize, reach, workers, ss, ts, i - 1);
      NextBelow(pages, ids, others, poolSize, reach, workers, ss, ts, ss[i - 1], ss[i], i - 1);
    }
  }

  lemma NextBelow(pages: seq<PageData>, ids: seq<nat>, others: set<nat>, poolSize: nat, reach: nat, workers: nat,
                  ss: seq<State<Tuple>>, ts: seq<nat>, s: State<Tuple>, s': State<Tuple>, i: nat)
    requires FullUpTo(ids, others, poolSize, reach) && i + 1 < |ss| && s == ss[i] && s' == ss[i + 1] && WorkBelow(s, reach)
    requires Run(ss, ts, workers, |ids|, PageTuples(pages, ids), CannotPin(ids, others, poolSize))
    ensures WorkBelow(s', reach)
  {
    assert Step(ss[i], ss[i + 1], ts[i], |ids|, PageTuples(pages, ids), CannotPin(ids, others, poolSize));
    RunInv(ss, ts, workers, |ids|, PageTuples(pages, ids), CannotPin(ids, others, poolSize), i);
    assert PcOk(ss[i], ts[i], |ids|, PageTuples(pages, ids));
    StepBelow(pages, ids, others, poolSize, reach, s, s', ts[i]);
  }

  lemma StepBelow(pages: seq<PageData>, ids: seq<nat>, others: set<nat>, poolSize: nat, reach: nat, s: State<Tuple>, s': State<Tuple>, t: nat)
    requires FullUpTo(ids, others, poolSize, reach) && WorkBelow(s, reach)
    requires Step(s, s', t, |ids|, PageTuples(pages, ids), CannotPin(ids, others, poolSize)) && PcOk(s, t, |ids|, PageTuples(pages, ids))
    ensures WorkBelow(s', reach)
  {
    if s.pcs[t].Claimed? && reach <= s.pcs[t].idx {
      BeyondRefused(ids, others, poolSize, reach, s, s.pcs[t].idx);
    }
  }

  /** So the tuples behind `reach` make no difference to the run. */
  lemma SameRun(pages: seq<PageData>, ids: seq<nat>, others: set<nat>, poolSize: nat, reach: nat, workers: nat,
                ss: seq<State<Tuple>>, ts: seq<nat>)
    requires FullUpTo(ids, others, poolSize, reach)
    requires Run(ss, ts, workers, |ids|, PageTuples(pages, ids), CannotPin(ids, others, poolSize))
    ensures Run(ss, ts, workers, |ids|, PageTuples(pages, ids[..reach]), CannotPin(ids, others, poolSize))
  {
    var f, part, refuse := PageTuples(pages, ids), PageTuples(pages, ids[..reach]), CannotPin(ids, others, poolSize);
    forall i | 0 <= i < |ts| ensures Step(ss[i], ss[i + 1], ts[i], |ids|, part, refuse) {
      assert Step(ss[i], ss[i + 1], ts[i], |ids|, f, refuse);
      StaysBelow(pages, ids, others, poolSize, reach, workers, ss, ts, i);
    }
  }

  lemma {:induction false} NoneBeforeLost(pages: seq<PageData>, ids: seq<nat>, others: set<nat>, poolSize: nat, reach: nat,
                                          ss: seq<State<Tuple>>, ts: seq<nat>, i: nat)
    requires FullUpTo(ids, others, poolSize, reach) && i <= |ts| < |ss|
    ensures Lost(ss, ts, PageTuples(pages, ids[..reach]), CannotPin(ids, others, poolSize), i) == multiset{}
  {
    if i > 0 {
      NoneBeforeLost(pages, ids, others, poolSize, reach, ss, ts, i - 1);
      if Refused(ss[i - 1], ts[i - 1], CannotPin(ids, others, poolSize)) {
        assert ss[i - 1].pcs[ts[i - 1]].idx >= reach;
      }
    }
  }

  lemma {:induction false} NothingBehind(f: nat -> seq<Tuple>, m: nat, n: nat)
    requires m <= n && forall k: nat :: m <= k < n ==> f(k) == []
    ensures FlatMap(f, Upto(n)) == FlatMap(f, Upto(m))
  {
    if m < n {
      var k: nat := n - 1;
      NothingBehind(f, m, k);
      UptoSnoc(k);
      FlatMapConcat<nat, Tuple>(f, Upto(k), [k]);
      FlatMapOne<nat, Tuple>(f, k);
    }
  }

  /** When others hold every frame, every complete run buffers the tuples of exactly the pages
      that they hold. */
  lemma FullRun(pages: seq<PageData>, ids: seq<nat>, others: set<nat>, poolSize: nat, reach: nat, workers: nat,
                ss: seq<State<Tuple>>, ts: seq<nat>)
    requires FullUpTo(ids, others, poolSize, reach) && workers >= 1
    requires Run(ss, ts, workers, |ids|, PageTuples(pages, ids), CannotPin(ids, others, poolSize))
    requires AllFinished(ss[|ss| - 1])
    ensures multiset(Concat(ss[|ss| - 1].local)) == multiset(Tuples(ChainRows(pages, ids[..reach])))
  {
    var part, refuse := PageTuples(pages, ids[..reach]), CannotPin(ids, others, poolSize);
    SameRun(pages, ids, others, poolSize, reach, workers, ss, ts);
    CompleteRun(ss, ts, workers, |ids|, part, refuse);
    NoneBeforeLost(pages, ids, others, poolSize, reach, ss, ts, |ts|);
    NothingBehind(part, reach, |ids|);
    SerialOrder(pages, ids[..reach], reach);
    assert ids[..reach][..reach] == ids[..reach];
  }

  // ----------------------------------------------------------------- operator

  lemma ListFull(pins: map<nat, nat>, frames: nat, chain: seq<nat>)
    requires NoRepeats(chain) && |pins| == frames
    ensures FullUpTo(Listed(pins, frames, chain), pins.Keys, frames, Reach(pins, frames, chain))
    ensures var reach := Reach(pins, frames, chain); Listed(pins, frames, chain)[..reach] == chain[..reach]
  {
  }

  lemma NoWorkers(pages: seq<PageData>, ids: seq<nat>, others: set<nat>, poolSize: nat, tuples: seq<Tuple>)
    ensures Buffers(pages, ids, others, poolSize, 0, tuples) <==> tuples == []
  {
    var f, refuse := PageTuples(pages, ids), CannotPin(ids, others, poolSize);
    var s: State<Tuple> := State(0, [], []);
    assert Run([s], [], 0, |ids|, f, refuse) && AllFinished([s][|[s]| - 1]) && Concat(s.local) == [];
    if tuples != [] {
      assert tuples[0] in multiset(tuples);
    } else {
      forall ss: seq<State<Tuple>>, ts: seq<nat> | Run(ss, ts, 0, |ids|, f, refuse)
        ensures multiset(Concat(ss[|ss| - 1].local)) == multiset(tuples)
      {
        RunInv(ss, ts, 0, |ids|, f, refuse, |ss| - 1);
        assert ss[|ss| - 1].local == [];
      }
    }
  }

  /** The operator on a heap file. Its workers share the list that `GetPageIds` returns. They
      buffer what the serial scan shows, in every complete run, if and only if every frame is
      pinned (then both stop at the same page), or there are frames for all workers, or every
      page that needs one is empty. */
  lemma ScanExactIff(pages: seq<PageData>, chain: seq<nat>, pins: map<nat, nat>, frames: nat, threads: nat)
    requires NoRepeats(chain) && |pins| <= frames && threads >= 1 && chain != []
    ensures var ids := Listed(pins, frames, chain);
            var workers := Min(threads, |ids|);
            Buffers(pages, ids, pins.Keys, frames, workers, Tuples(ChainRows(pages, chain[..Reach(pins, frames, chain)])))
            <==> |pins| == frames || FramesForAll(chain, pins.Keys, frames, workers) || NothingToLose(pages, chain, pins.Keys)
  {
    var ids, reach := Listed(pins, frames, chain), Reach(pins, frames, chain);
    var workers := Min(threads, |ids|);
    if |pins| == frames {
      ListFull(pins, frames, chain);
      forall ss: seq<State<Tuple>>, ts: seq<nat>
        | Run(ss, ts, workers, |ids|, PageTuples(pages, ids), CannotPin(ids, pins.Keys, frames)) && AllFinished(ss[|ss| - 1])
        ensures multiset(Concat(ss[|ss| - 1].local)) == multiset(Tuples(ChainRows(pages, chain[..reach])))
      {
        FullRun(pages, ids, pins.Keys, frames, reach, workers, ss, ts);
      }
    } else {
      ReachAll(pins, frames, chain);
      assert chain[..|chain|] == chain;
      ListExactIff(pages, chain, pins.Keys, frames, workers);
    }
  }

  /** What the parallel scan starts from, and what the serial scan of the same file shows. */
  method ScanBoth(file: HeapFile, threads: nat) returns (ids: seq<nat>, workers: nat, serial: seq<Row>)
    requires file.Valid()
    modifies file.pool, file.pool.frames, file.pool.replacer
    ensures file.Valid() && file.pool.pages == old(file.pool.pages) && file.pool.pins == old(file.pool.pins)
    ensures ids == Listed(file.pool.pins, file.pool.poolSize, file.chain) && ids != [] && workers == Min(threads, |ids|)
    ensures serial == ChainRows(file.pool.pages, file.chain[..Reach(file.pool.pins, file.pool.poolSize, file.chain)])
    ensures var others, frames := file.pool.pins.Keys, file.pool.poolSize;
            Buffers(file.pool.pages, ids, others, frames, workers, Tuples(serial)) <==>
              if threads == 0 then serial == []
              else |others| == frames || FramesForAll(file.chain, others, frames, workers) || NothingToLose(file.pool.pages, file.chain, others)
  {
    file.pool.PinFacts(0);
    ids := file.GetPageIds();
    workers := Min(threads, |ids|);
    var all := (_: Row) => true;
    serial := file.Scan(all);
    ghost var pages, pins, frames, chain := file.pool.pages, file.pool.pins, file.pool.poolSize, file.chain;
    AllVisited(ChainRows(pages, chain[..Reach(pins, frames, chain)]), all);
    if threads == 0 {
      NoWorkers(pages, ids, pins.Keys, frames, Tuples(serial));
    } else {
      ScanExactIff(pages, chain, pins, frames, threads);
    }
  }
}
