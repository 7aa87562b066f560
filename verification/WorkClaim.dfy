/** Workers that claim work items with `fetch_add` and collect rows in buffers of their own:
  the loop of `src/executor/parallel_seq_scan.cpp` and the probe phase of
  `src/executor/parallel_hash_join.cpp`, as a transition system with arbitrary interleavings.

  Item `idx` produces the rows `f(idx)`. Before working on an item a worker may be refused
  it (a heap page that cannot be pinned); `refuse` says when, from the items the other
  workers are busy with. A refused item is dropped silently, as in the source.
 */
module WorkClaim {
  import opened Bags
  import opened Basics

  datatype Pc =
    | Ready
    | Claimed(idx: nat)
    | Working(idx: nat, done: nat)
    | Finished

  /** The shared counter, and per worker its program counter and local buffer. */
  datatype State<V> = State(next: nat, pcs: seq<Pc>, local: seq<seq<V>>)

  ghost predicate Start<V>(s: State<V>, workers: nat) {
    && s.next == 0 && |s.pcs| == |s.local| == workers
    && (forall t :: 0 <= t < workers ==> s.pcs[t] == Ready)
    && (forall t :: 0 <= t < workers ==> s.local[t] == [])
  }

  /** The items workers are busy with. */
  function Busy(pcs: seq<Pc>): set<nat> {
    set t | 0 <= t < |pcs| && pcs[t].Working? :: pcs[t].idx
  }

  /** One step of worker `t`. */
  ghost predicate Step<V(!new)>(s: State<V>, s': State<V>, t: nat, items: nat, f: nat -> seq<V>, refuse: (nat, set<nat>) -> bool) {
    && t < |s.pcs| == |s.local|
    && match s.pcs[t]
       case Ready =>
         && s'.local == s.local && s'.next == s.next + 1
         && s'.pcs == s.pcs[t := if s.next < items then Claimed(s.next) else Finished]
       case Claimed(idx) =>
         && s'.local == s.local && s'.next == s.next
         && s'.pcs == s.pcs[t := if refuse(idx, Busy(s.pcs)) then Ready else Working(idx, 0)]
       case Working(idx, done) =>
         && s'.next == s.next
         && if done < |f(idx)| then
              && s'.local == s.local[t := s.local[t] + [f(idx)[done]]]
              && s'.pcs == s.pcs[t := Working(idx, done + 1)]
            else
              s'.local == s.local && s'.pcs == s.pcs[t := Ready]
       case Finished => false
  }

  /** A run: states linked by steps of some worker each. */
  ghost predicate Run<V(!new)>(ss: seq<State<V>>, ts: seq<nat>, workers: nat, items: nat, f: nat -> seq<V>, refuse: (nat, set<nat>) -> bool) {
    && |ss| == |ts| + 1 && Start(ss[0], workers)
    && forall i :: 0 <= i < |ts| ==> Step(ss[i], ss[i + 1], ts[i], items, f, refuse)
  }

  ghost predicate AllFinished<V>(s: State<V>) {
    forall t :: 0 <= t < |s.pcs| ==> s.pcs[t].Finished?
  }

  // ---------------------------------------------------------------- accounting

  /** Rows a worker has claimed but not yet stored. */
  ghost function Owed<V>(pc: Pc, f: nat -> seq<V>): multiset<V> {
    match pc
    case Claimed(idx) => multiset(f(idx))
    case Working(idx, done) => multiset(f(idx)[if done <= |f(idx)| then done else |f(idx)|..])
    case _ => multiset{}
  }

  /** The rows a worker stored and those it owes. */
  ghost function Share<V>(pc: Pc, local: seq<V>, f: nat -> seq<V>): multiset<V> {
    multiset(local) + Owed(pc, f)
  }

  ghost function Shares<V>(s: State<V>, f: nat -> seq<V>): seq<multiset<V>>
    requires |s.pcs| == |s.local|
  {
    seq(|s.pcs|, t requires 0 <= t < |s.pcs| => Share(s.pcs[t], s.local[t], f))
  }

  /** A worker is about to be refused the item it claimed. */
  predicate Refused<V>(s: State<V>, t: nat, refuse: (nat, set<nat>) -> bool) {
    t < |s.pcs| && s.pcs[t].Claimed? && refuse(s.pcs[t].idx, Busy(s.pcs))
  }

  /** The rows lost in a step: those of a refused item. */
  ghost function Dropped<V>(s: State<V>, t: nat, f: nat -> seq<V>, refuse: (nat, set<nat>) -> bool): multiset<V> {
    if Refused(s, t, refuse) then multiset(f(s.pcs[t].idx)) else multiset{}
  }

  /** The rows lost in the first `i` steps. */
  ghost function Lost<V>(ss: seq<State<V>>, ts: seq<nat>, f: nat -> seq<V>, refuse: (nat, set<nat>) -> bool, i: nat): multiset<V>
    requires i <= |ts| < |ss|
  {
    if i == 0 then multiset{} else Lost(ss, ts, f, refuse, i - 1) + Dropped(ss[i - 1], ts[i - 1], f, refuse)
  }

  /** The workers' shares and the rows lost add up to the rows of the items claimed so far. */
  ghost predicate Inv<V>(s: State<V>, lost: multiset<V>, workers: nat, items: nat, f: nat -> seq<V>) {
    && |s.pcs| == |s.local| == workers
    && Sum(Shares(s, f)) + lost == multiset(FlatMap(f, Upto(Min(s.next, items))))
    && (forall t :: 0 <= t < workers ==> PcOk(s, t, items, f))
  }

  ghost predicate PcOk<V>(s: State<V>, t: nat, items: nat, f: nat -> seq<V>)
    requires t < |s.pcs|
  {
    && (s.pcs[t].Working? ==> s.pcs[t].idx < items && s.pcs[t].done <= |f(s.pcs[t].idx)|)
    && (s.pcs[t].Claimed? ==> s.pcs[t].idx < items)
    && (s.pcs[t].Finished? ==> s.next >= items)
  }

  lemma StartInv<V>(s: State<V>, workers: nat, items: nat, f: nat -> seq<V>)
    requires Start(s, workers)
    ensures Inv(s, multiset{}, workers, items, f)
  {
    SumEmpty(Shares(s, f));
  }

  /** A step changes the share of one worker. */
  lemma ShareChange<V>(s: State<V>, s': State<V>, t: nat, f: nat -> seq<V>)
    requires |s.pcs| == |s.local| == |s'.pcs| == |s'.local| && t < |s.pcs|
    requires s'.pcs == s.pcs[t := s'.pcs[t]] && s'.local == s.local[t := s'.local[t]]
    ensures Sum(Shares(s', f)) + Shares(s, f)[t] == Sum(Shares(s, f)) + Shares(s', f)[t]
  {
    assert Shares(s', f) == Shares(s, f)[t := Shares(s', f)[t]];
    SumUpdate(Shares(s, f), t, Shares(s', f)[t]);
  }

  /** The rows a step adds to the share of worker `t`: those of a newly claimed item. */
  ghost function Gained<V>(s: State<V>, t: nat, items: nat, f: nat -> seq<V>): multiset<V>
    requires t < |s.pcs|
  {
    if s.pcs[t].Ready? && s.next < items then multiset(f(s.next)) else multiset{}
  }

  lemma StoreRow<V>(local: seq<V>, all: seq<V>, done: nat)
    requires done < |all|
    ensures multiset(local + [all[done]]) + multiset(all[done + 1..]) == multiset(local) + multiset(all[done..])
  {
    assert all[done..] == [all[done]] + all[done + 1..];
  }

  lemma ShareStep<V(!new)>(s: State<V>, s': State<V>, t: nat, items: nat, f: nat -> seq<V>, refuse: (nat, set<nat>) -> bool)
    requires Step(s, s', t, items, f, refuse) && PcOk(s, t, items, f)
    ensures |s'.pcs| == |s.pcs| && |s'.local| == |s.local|
    ensures s'.pcs == s.pcs[t := s'.pcs[t]] && s'.local == s.local[t := s'.local[t]]
    ensures Share(s'.pcs[t], s'.local[t], f) + Dropped(s, t, f, refuse) == Share(s.pcs[t], s.local[t], f) + Gained(s, t, items, f)
    ensures PcOk(s', t, items, f)
  {
    if s.pcs[t].Working? && s.pcs[t].done < |f(s.pcs[t].idx)| {
      StoreRow(s.local[t], f(s.pcs[t].idx), s.pcs[t].done);
    }
  }

  lemma StepSum<V(!new)>(s: State<V>, s': State<V>, t: nat, items: nat, f: nat -> seq<V>, refuse: (nat, set<nat>) -> bool)
    requires Step(s, s', t, items, f, refuse) && PcOk(s, t, items, f)
    ensures |s'.pcs| == |s.pcs| == |s'.local| && s'.pcs == s.pcs[t := s'.pcs[t]] && PcOk(s', t, items, f)
    ensures Sum(Shares(s', f)) + Dropped(s, t, f, refuse) == Sum(Shares(s, f)) + Gained(s, t, items, f)
  {
    ShareStep(s, s', t, items, f, refuse);
    ShareChange(s, s', t, f);
    Settle(Sum(Shares(s, f)), Sum(Shares(s', f)), Shares(s, f)[t], Shares(s', f)[t], Gained(s, t, items, f), Dropped(s, t, f, refuse));
  }

  lemma ClaimRows<V>(next: nat, items: nat, f: nat -> seq<V>)
    ensures multiset(FlatMap(f, Upto(Min(next + 1, items)))) ==
            multiset(FlatMap(f, Upto(Min(next, items)))) + if next < items then multiset(f(next)) else multiset{}
  {
    if next < items {
      UptoSnoc(next);
      FlatMapConcat(f, Upto(next), [next]);
      FlatMapOne(f, next);
    }
  }

  lemma StepPc<V(!new)>(s: State<V>, s': State<V>, t: nat, u: nat, items: nat, f: nat -> seq<V>, refuse: (nat, set<nat>) -> bool)
    requires Step(s, s', t, items, f, refuse) && PcOk(s, t, items, f)
    requires u < |s.pcs| && PcOk(s, u, items, f)
    ensures u < |s'.pcs| && PcOk(s', u, items, f)
  {
  }

  /** No step repeats or invents a row, and it loses only those of a refused item. */
  lemma StepInv<V(!new)>(s: State<V>, s': State<V>, lost: multiset<V>, t: nat, workers: nat, items: nat, f: nat -> seq<V>, refuse: (nat, set<nat>) -> bool)
    requires Inv(s, lost, workers, items, f) && Step(s, s', t, items, f, refuse)
    ensures Inv(s', lost + Dropped(s, t, f, refuse), workers, items, f)
  {
    assert PcOk(s, t, items, f);
    StepSum(s, s', t, items, f, refuse);
    StepNext(s, s', t, items, f, refuse);
    Carry(Sum(Shares(s, f)), Sum(Shares(s', f)), lost, Dropped(s, t, f, refuse), Gained(s, t, items, f),
          multiset(FlatMap(f, Upto(Min(s.next, items)))), multiset(FlatMap(f, Upto(Min(s'.next, items)))));
    forall u | 0 <= u < workers ensures PcOk(s', u, items, f) {
      assert PcOk(s, u, items, f);
      StepPc(s, s', t, u, items, f, refuse);
    }
  }

  lemma Carry<V>(sum: multiset<V>, sum': multiset<V>, lost: multiset<V>, off: multiset<V>, gain: multiset<V>, total: multiset<V>, total': multiset<V>)
    requires sum + lost == total && sum' + off == sum + gain && total' == total + gain
    ensures sum' + (lost + off) == total'
  {
    forall x ensures (sum' + (lost + off))[x] == total'[x] {
      assert (sum' + off)[x] == (sum + gain)[x] && (sum + lost)[x] == total[x];
    }
  }

  /** The rows of the claimed items grow by what the worker gained. */
  lemma StepNext<V(!new)>(s: State<V>, s': State<V>, t: nat, items: nat, f: nat -> seq<V>, refuse: (nat, set<nat>) -> bool)
    requires Step(s, s', t, items, f, refuse)
    ensures multiset(FlatMap(f, Upto(Min(s'.next, items)))) ==
            multiset(FlatMap(f, Upto(Min(s.next, items)))) + Gained(s, t, items, f)
  {
    if s.pcs[t].Ready? {
      ClaimRows(s.next, items, f);
    } else {
      assert s'.next == s.next && Gained(s, t, items, f) == multiset{};
    }
  }

  // ---------------------------------------------------------------------- runs

  /** The accounting holds in every reachable state, refusals included. */
  lemma {:induction false} RunInv<V(!new)>(ss: seq<State<V>>, ts: seq<nat>, workers: nat, items: nat, f: nat -> seq<V>, refuse: (nat, set<nat>) -> bool, i: nat)
    requires Run(ss, ts, workers, items, f, refuse) && i < |ss|
    ensures Inv(ss[i], Lost(ss, ts, f, refuse, i), workers, items, f)
  {
    if i == 0 {
      StartInv(ss[0], workers, items, f);
    } else {
      RunInv(ss, ts, workers, items, f, refuse, i - 1);
      NextInv(ss, ts, ss[i - 1], ss[i], ts[i - 1], Lost(ss, ts, f, refuse, i - 1), Lost(ss, ts, f, refuse, i), workers, items, f, refuse, i);
    }
  }

  lemma NextInv<V(!new)>(ss: seq<State<V>>, ts: seq<nat>, s: State<V>, s': State<V>, t: nat, lost: multiset<V>, lost': multiset<V>,
                         workers: nat, items: nat, f: nat -> seq<V>, refuse: (nat, set<nat>) -> bool, i: nat)
    requires Run(ss, ts, workers, items, f, refuse) && 0 < i < |ss| && s == ss[i - 1] && s' == ss[i] && t == ts[i - 1]
    requires Inv(s, lost, workers, items, f) && lost' == lost + Dropped(s, t, f, refuse)
    ensures Inv(s', lost', workers, items, f)
  {
    assert Step(ss[i - 1], ss[i - 1 + 1], ts[i - 1], items, f, refuse);
    StepInv(s, s', lost, t, workers, items, f, refuse);
  }

  /** Every complete run, with any number of workers and any interleaving, collects the rows
      of every item exactly once, except those of the items it was refused. */
  lemma CompleteRun<V(!new)>(ss: seq<State<V>>, ts: seq<nat>, workers: nat, items: nat, f: nat -> seq<V>, refuse: (nat, set<nat>) -> bool)
    requires Run(ss, ts, workers, items, f, refuse) && workers >= 1 && AllFinished(ss[|ss| - 1])
    ensures multiset(Concat(ss[|ss| - 1].local)) + Lost(ss, ts, f, refuse, |ts|) == multiset(FlatMap(f, Upto(items)))
  {
    var s := ss[|ss| - 1];
    RunInv(ss, ts, workers, items, f, refuse, |ss| - 1);
    assert PcOk(s, 0, items, f);
    ConcatBag(s.local, Shares(s, f));
  }

  /** No step of the run is a refusal. */
  ghost predicate NoneRefused<V>(ss: seq<State<V>>, ts: seq<nat>, refuse: (nat, set<nat>) -> bool) {
    |ts| < |ss| && forall i :: 0 <= i < |ts| ==> !Refused(ss[i], ts[i], refuse)
  }

  lemma {:induction false} NothingLost<V>(ss: seq<State<V>>, ts: seq<nat>, f: nat -> seq<V>, refuse: (nat, set<nat>) -> bool, i: nat)
    requires NoneRefused(ss, ts, refuse) && i <= |ts|
    ensures Lost(ss, ts, f, refuse, i) == multiset{}
  {
    if i > 0 { NothingLost(ss, ts, f, refuse, i - 1); }
  }

  /** No item is refused while fewer items are worked on than there are workers. */
  ghost predicate NeverRefuses(workers: nat, items: nat, refuse: (nat, set<nat>) -> bool) {
    forall idx: nat, busy: set<nat> ::
      idx < items && (forall b :: b in busy ==> b < items) && |busy| < workers ==> !refuse(idx, busy)
  }

  /** A worker that is not busy leaves fewer busy items than workers. */
  lemma {:induction false} BusySize(pcs: seq<Pc>)
    ensures |Busy(pcs)| <= |pcs|
    ensures (exists t :: 0 <= t < |pcs| && !pcs[t].Working?) ==> |Busy(pcs)| < |pcs|
  {
    if pcs != [] {
      var n := |pcs| - 1;
      BusySize(pcs[..n]);
      BusySnoc(pcs);
      if t :| 0 <= t < |pcs| && !pcs[t].Working? {
        if t < n { assert !pcs[..n][t].Working?; }
      }
    }
  }

  lemma BusySnoc(pcs: seq<Pc>)
    requires pcs != []
    ensures var n := |pcs| - 1;
            Busy(pcs) == Busy(pcs[..n]) + if pcs[n].Working? then {pcs[n].idx} else {}
  {
    var n := |pcs| - 1;
    forall idx | idx in Busy(pcs) ensures idx in Busy(pcs[..n]) + if pcs[n].Working? then {pcs[n].idx} else {} {
      var t :| 0 <= t < |pcs| && pcs[t].Working? && pcs[t].idx == idx;
      if t < n { assert pcs[..n][t] == pcs[t]; }
    }
    forall idx | idx in Busy(pcs[..n]) ensures idx in Busy(pcs) {
      var t :| 0 <= t < n && pcs[..n][t].Working? && pcs[..n][t].idx == idx;
      assert pcs[t] == pcs[..n][t];
    }
  }

  lemma NotRefused<V>(s: State<V>, lost: multiset<V>, t: nat, workers: nat, items: nat, f: nat -> seq<V>, refuse: (nat, set<nat>) -> bool)
    requires Inv(s, lost, workers, items, f) && NeverRefuses(workers, items, refuse)
    ensures !Refused(s, t, refuse)
  {
    if t < workers && s.pcs[t].Claimed? {
      BusySize(s.pcs);
      assert PcOk(s, t, items, f);
      forall b | b in Busy(s.pcs) ensures b < items {
        var u :| 0 <= u < |s.pcs| && s.pcs[u].Working? && s.pcs[u].idx == b;
        assert PcOk(s, u, items, f);
      }
    }
  }

  lemma NeverRefused<V(!new)>(ss: seq<State<V>>, ts: seq<nat>, workers: nat, items: nat, f: nat -> seq<V>, refuse: (nat, set<nat>) -> bool)
    requires Run(ss, ts, workers, items, f, refuse) && NeverRefuses(workers, items, refuse)
    ensures NoneRefused(ss, ts, refuse)
  {
    forall i | 0 <= i < |ts| ensures !Refused(ss[i], ts[i], refuse) {
      RunInv(ss, ts, workers, items, f, refuse, i);
      NotRefused(ss[i], Lost(ss, ts, f, refuse, i), ts[i], workers, items, f, refuse);
    }
  }

  /** Without refusals a complete run collects the rows of every item exactly once. */
  lemma CompleteWithout<V(!new)>(ss: seq<State<V>>, ts: seq<nat>, workers: nat, items: nat, f: nat -> seq<V>, refuse: (nat, set<nat>) -> bool)
    requires Run(ss, ts, workers, items, f, refuse) && NoneRefused(ss, ts, refuse)
    requires workers >= 1 && AllFinished(ss[|ss| - 1])
    ensures multiset(Concat(ss[|ss| - 1].local)) == multiset(FlatMap(f, Upto(items)))
  {
    CompleteRun(ss, ts, workers, items, f, refuse);
    NothingLost(ss, ts, f, refuse, |ts|);
  }

  // ---------------------------------------------------------------- completion

  /** What worker `t` does next; there is no choice. */
  function Stepped<V>(s: State<V>, t: nat, items: nat, f: nat -> seq<V>, refuse: (nat, set<nat>) -> bool): State<V>
    requires t < |s.pcs| == |s.local| && !s.pcs[t].Finished?
  {
    match s.pcs[t]
    case Ready => State(s.next + 1, s.pcs[t := if s.next < items then Claimed(s.next) else Finished], s.local)
    case Claimed(idx) => State(s.next, s.pcs[t := if refuse(idx, Busy(s.pcs)) then Ready else Working(idx, 0)], s.local)
    case Working(idx, done) =>
      if done < |f(idx)| then State(s.next, s.pcs[t := Working(idx, done + 1)], s.local[t := s.local[t] + [f(idx)[done]]])
      else State(s.next, s.pcs[t := Ready], s.local)
  }

  /** A worker that has not finished can always step. */
  lemma Extend<V(!new)>(ss: seq<State<V>>, ts: seq<nat>, t: nat, workers: nat, items: nat, f: nat -> seq<V>, refuse: (nat, set<nat>) -> bool)
    returns (ss': seq<State<V>>, ts': seq<nat>)
    requires Run(ss, ts, workers, items, f, refuse) && t < workers
    requires |ss[|ss| - 1].pcs| == |ss[|ss| - 1].local| == workers && !ss[|ss| - 1].pcs[t].Finished?
    ensures Run(ss', ts', workers, items, f, refuse) && ts' == ts + [t]
    ensures ss' == ss + [Stepped(ss[|ss| - 1], t, items, f, refuse)]
  {
    ss', ts' := ss + [Stepped(ss[|ss| - 1], t, items, f, refuse)], ts + [t];
    forall i | 0 <= i < |ts'| ensures Step(ss'[i], ss'[i + 1], ts'[i], items, f, refuse) {
      if i < |ts| { assert Step(ss[i], ss[i + 1], ts[i], items, f, refuse); }
    }
  }

  /** Steps that a worker still has to make for its item. */
  function Effort<V>(pc: Pc, f: nat -> seq<V>): nat {
    match pc
    case Ready => 1
    case Claimed(idx) => |f(idx)| + 3
    case Working(idx, done) => if done <= |f(idx)| then |f(idx)| - done + 2 else 2
    case Finished => 0
  }

  function Efforts<V>(pcs: seq<Pc>, f: nat -> seq<V>): nat {
    if pcs == [] then 0 else Effort(pcs[0], f) + Efforts(pcs[1..], f)
  }

  lemma {:induction false} EffortChange<V>(pcs: seq<Pc>, t: nat, pc: Pc, f: nat -> seq<V>)
    requires t < |pcs|
    ensures Efforts(pcs[t := pc], f) + Effort(pcs[t], f) == Efforts(pcs, f) + Effort(pc, f)
  {
    if t == 0 {
      assert pcs[0 := pc][1..] == pcs[1..];
    } else {
      assert pcs[t := pc][1..] == pcs[1..][t - 1 := pc];
      EffortChange(pcs[1..], t - 1, pc, f);
    }
  }

  /** And for the items nobody has claimed. */
  function Unclaimed<V>(next: nat, items: nat, f: nat -> seq<V>): nat
    decreases items - next
  {
    if next >= items then 0 else |f(next)| + 3 + Unclaimed(next + 1, items, f)
  }

  function Rank<V>(s: State<V>, items: nat, f: nat -> seq<V>): nat {
    Unclaimed(s.next, items, f) + Efforts(s.pcs, f)
  }

  /** Every step brings the end closer, so no run goes on forever. */
  lemma StepShrinks<V(!new)>(s: State<V>, s': State<V>, t: nat, items: nat, f: nat -> seq<V>, refuse: (nat, set<nat>) -> bool)
    requires Step(s, s', t, items, f, refuse)
    ensures Rank(s', items, f) < Rank(s, items, f)
  {
    EffortChange(s.pcs, t, s'.pcs[t], f);
    assert s'.pcs == s.pcs[t := s'.pcs[t]];
  }

  /** Every run can be carried on to a complete one. */
  lemma {:induction false} Completes<V(!new)>(ss: seq<State<V>>, ts: seq<nat>, workers: nat, items: nat, f: nat -> seq<V>, refuse: (nat, set<nat>) -> bool)
    returns (ss': seq<State<V>>, ts': seq<nat>)
    requires Run(ss, ts, workers, items, f, refuse)
    ensures Run(ss', ts', workers, items, f, refuse) && AllFinished(ss'[|ss'| - 1]) && ss <= ss' && ts <= ts'
    decreases Rank(ss[|ss| - 1], items, f)
  {
    var s := ss[|ss| - 1];
    RunInv(ss, ts, workers, items, f, refuse, |ss| - 1);
    if t: nat :| t < workers && !s.pcs[t].Finished? {
      var more, mts := Closer(ss, ts, t, workers, items, f, refuse);
      ss', ts' := Completes(more, mts, workers, items, f, refuse);
    } else {
      ss', ts' := ss, ts;
    }
  }

  /** One more step, and the end is closer. */
  lemma Closer<V(!new)>(ss: seq<State<V>>, ts: seq<nat>, t: nat, workers: nat, items: nat, f: nat -> seq<V>, refuse: (nat, set<nat>) -> bool)
    returns (ss': seq<State<V>>, ts': seq<nat>)
    requires Run(ss, ts, workers, items, f, refuse) && t < workers
    requires |ss[|ss| - 1].pcs| == |ss[|ss| - 1].local| == workers && !ss[|ss| - 1].pcs[t].Finished?
    ensures Run(ss', ts', workers, items, f, refuse) && ss <= ss' && ts <= ts'
    ensures Rank(ss'[|ss'| - 1], items, f) < Rank(ss[|ss| - 1], items, f)
  {
    ss', ts' := Extend(ss, ts, t, workers, items, f, refuse);
    assert Step(ss'[|ts|], ss'[|ts| + 1], ts'[|ts|], items, f, refuse);
    StepShrinks(ss[|ss| - 1], ss'[|ts| + 1], t, items, f, refuse);
  }

  /** What is lost is lost for good. */
  lemma {:induction false} LostStays<V>(ss: seq<State<V>>, ts: seq<nat>, f: nat -> seq<V>, refuse: (nat, set<nat>) -> bool, i: nat, j: nat)
    requires i < j <= |ts| < |ss|
    ensures Dropped(ss[i], ts[i], f, refuse) <= Lost(ss, ts, f, refuse, j)
  {
    if i < j - 1 { LostStays(ss, ts, f, refuse, i, j - 1); }
  }

  /** A run about to lose rows leads to a complete run with fewer rows than there are. */
  lemma LosingRun<V(!new)>(ss: seq<State<V>>, ts: seq<nat>, t: nat, workers: nat, items: nat, f: nat -> seq<V>, refuse: (nat, set<nat>) -> bool)
    returns (ss': seq<State<V>>, ts': seq<nat>)
    requires Run(ss, ts, workers, items, f, refuse) && t < workers && Refused(ss[|ss| - 1], t, refuse)
    requires f(ss[|ss| - 1].pcs[t].idx) != []
    ensures Run(ss', ts', workers, items, f, refuse) && AllFinished(ss'[|ss'| - 1])
    ensures multiset(Concat(ss'[|ss'| - 1].local)) != multiset(FlatMap(f, Upto(items)))
  {
    RunInv(ss, ts, workers, items, f, refuse, |ss| - 1);
    var more, mts := Extend(ss, ts, t, workers, items, f, refuse);
    ss', ts' := Completes(more, mts, workers, items, f, refuse);
    CompleteRun(ss', ts', workers, items, f, refuse);
    var n := |ts|;
    assert ss'[n] == more[n] == ss[n] && ts'[n] == mts[n] == t;
    LostStays(ss', ts', f, refuse, n, |ts'|);
    var got, lost := multiset(Concat(ss'[|ss'| - 1].local)), Lost(ss', ts', f, refuse, |ts'|);
    assert f(ss[n].pcs[t].idx)[0] in Dropped(ss[n], t, f, refuse);
    assert f(ss[n].pcs[t].idx)[0] in lost;
    assert |got + lost| == |got| + |lost| && |lost| > 0;
  }
}
