/** The parallel hash join: `src/executor/parallel_hash_join.cpp`. In the build phase workers
  claim left rows and insert them into the lock-free table; after a barrier, in the probe
  phase, they claim right rows, look up their keys and collect joined rows.
 */
module ParallelJoin {
  import opened Page
  import opened Bags
  import opened Basics
  import opened Equijoin
  import T = LockFreeTable
  import W = WorkClaim

  // --------------------------------------------------------------- build phase

  datatype Pc = Ready | Claimed(idx: nat) | Inserting | Exited

  datatype Build<L> = Build(next: nat, work: seq<Pc>, table: T.Table<L>)

  ghost predicate Start<L>(s: Build<L>, workers: nat) {
    && s.next == 0 && |s.work| == |s.table.pcs| == workers
    && (forall t :: 0 <= t < workers ==> s.work[t] == Ready && s.table.pcs[t] == T.Outside)
    && s.table.heap == [] && (forall b :: 0 <= b < |s.table.heads| ==> s.table.heads[b] == None)
  }

  /** One step of worker `t`: claim an index, allocate the node, or a step inside Insert. */
  ghost predicate Step<L(!new)>(s: Build<L>, s': Build<L>, t: nat, left: seq<L>, lkey: L -> int, hash: int -> nat) {
    && t < |s.work| == |s.table.pcs|
    && match s.work[t]
       case Ready =>
         && s'.table == s.table && s'.next == s.next + 1
         && s'.work == s.work[t := if s.next < |left| then Claimed(s.next) else Exited]
       case Claimed(idx) =>
         && idx < |left| && s'.next == s.next && s'.work == s.work[t := Inserting]
         && s'.table == T.Allocate(s.table, t, lkey(left[idx]), left[idx])
       case Inserting =>
         && s'.next == s.next && T.Step(s.table, s'.table, t, hash) && t < |s'.table.pcs|
         && s'.work == s.work[t := if s'.table.pcs[t].Outside? then Ready else Inserting]
       case Exited => false
  }

  ghost predicate Run<L(!new)>(ss: seq<Build<L>>, ts: seq<nat>, workers: nat, left: seq<L>, lkey: L -> int, hash: int -> nat) {
    && |ss| == |ts| + 1 && Start(ss[0], workers)
    && forall i :: 0 <= i < |ts| ==> Step(ss[i], ss[i + 1], ts[i], left, lkey, hash)
  }

  ghost predicate AllExited<L>(s: Build<L>) {
    forall t :: 0 <= t < |s.work| ==> s.work[t].Exited?
  }

  /** The values of all allocated nodes. */
  function Values<L>(heap: seq<T.Node<L>>): (r: seq<L>)
    ensures |r| == |heap| && forall i :: 0 <= i < |heap| ==> r[i] == heap[i].value
  {
    seq(|heap|, i requires 0 <= i < |heap| => heap[i].value)
  }

  /** The row a worker has claimed but not yet put into a node. */
  ghost function Owed<L>(pc: Pc, left: seq<L>): multiset<L> {
    if pc.Claimed? && pc.idx < |left| then multiset{left[pc.idx]} else multiset{}
  }

  ghost function Debts<L>(work: seq<Pc>, left: seq<L>): (r: seq<multiset<L>>)
    ensures |r| == |work| && forall t :: 0 <= t < |work| ==> r[t] == Owed(work[t], left)
  {
    seq(|work|, t requires 0 <= t < |work| => Owed(work[t], left))
  }

  /** Allocated nodes and outstanding claims account for the rows claimed so far; the node of
      a row carries its key. */
  ghost predicate Inv<L>(s: Build<L>, lists: seq<seq<nat>>, workers: nat, left: seq<L>, lkey: L -> int, hash: int -> nat) {
    && |s.work| == |s.table.pcs| == workers
    && T.Inv(s.table, lists, hash) && T.HashFits(s.table, hash)
    && Accounts(s, left)
    && (forall n :: 0 <= n < |s.table.heap| ==> s.table.heap[n].key == lkey(s.table.heap[n].value))
    && (forall t :: 0 <= t < workers ==> PcOk(s, t, |left|))
  }

  ghost predicate Accounts<L>(s: Build<L>, left: seq<L>) {
    multiset(Values(s.table.heap)) + Sum(Debts(s.work, left)) == multiset(left[..Min(s.next, |left|)])
  }

  /** The ledger of one worker balances. */
  lemma AccountsStep<L>(s: Build<L>, s': Build<L>, t: nat, left: seq<L>)
    requires Accounts(s, left) && t < |s.work| && |s'.work| == |s.work| && s'.work == s.work[t := s'.work[t]]
    requires multiset(Values(s'.table.heap)) + Owed(s'.work[t], left) + multiset(left[..Min(s.next, |left|)])
             == multiset(Values(s.table.heap)) + Owed(s.work[t], left) + multiset(left[..Min(s'.next, |left|)])
    ensures Accounts(s', left)
  {
    DebtChange(s.work, t, s'.work[t], left);
    Ledger(multiset(Values(s.table.heap)), multiset(Values(s'.table.heap)), Sum(Debts(s.work, left)), Sum(Debts(s'.work, left)),
           Owed(s.work[t], left), Owed(s'.work[t], left),
           multiset(left[..Min(s.next, |left|)]), multiset(left[..Min(s'.next, |left|)]));
  }

  ghost predicate PcOk<L>(s: Build<L>, t: nat, items: nat)
    requires t < |s.work| == |s.table.pcs|
  {
    && (s.work[t].Inserting? <==> !s.table.pcs[t].Outside?)
    && (s.work[t].Claimed? ==> s.work[t].idx < items)
    && (s.work[t].Exited? ==> s.next >= items)
  }

  lemma StartInv<L>(s: Build<L>, workers: nat, left: seq<L>, lkey: L -> int, hash: int -> nat)
    requires Start(s, workers) && T.HashFits(s.table, hash)
    ensures Inv(s, seq(|s.table.heads|, _ => []), workers, left, lkey, hash)
  {
    T.StartInv(s.table, hash);
    SumEmpty(Debts(s.work, left));
    assert left[..0] == [];
  }

  /** A step of worker `t` changes at most its own debt. */
  lemma DebtChange<L>(work: seq<Pc>, t: nat, pc: Pc, left: seq<L>)
    requires t < |work|
    ensures Sum(Debts(work[t := pc], left)) + Owed(work[t], left) == Sum(Debts(work, left)) + Owed(pc, left)
  {
    assert Debts(work[t := pc], left) == Debts(work, left)[t := Owed(pc, left)];
    SumUpdate(Debts(work, left), t, Owed(pc, left));
  }

  lemma PcsKept<L>(s: Build<L>, s': Build<L>, t: nat, workers: nat, items: nat)
    requires |s.work| == |s.table.pcs| == workers == |s'.work| == |s'.table.pcs| && t < workers
    requires s'.work == s.work[t := s'.work[t]] && s'.table.pcs == s.table.pcs[t := s'.table.pcs[t]]
    requires s.next <= s'.next && PcOk(s', t, items)
    requires forall u :: 0 <= u < workers ==> PcOk(s, u, items)
    ensures forall u :: 0 <= u < workers ==> PcOk(s', u, items)
  {
    forall u | 0 <= u < workers ensures PcOk(s', u, items) {
      assert PcOk(s, u, items);
    }
  }

  lemma ClaimInv<L(!new)>(s: Build<L>, s': Build<L>, t: nat, lists: seq<seq<nat>>, workers: nat, left: seq<L>, lkey: L -> int, hash: int -> nat)
    requires Inv(s, lists, workers, left, lkey, hash) && Step(s, s', t, left, lkey, hash) && s.work[t].Ready?
    ensures Inv(s', lists, workers, left, lkey, hash)
  {
    assert PcOk(s, t, |left|);
    PcsKept(s, s', t, workers, |left|);
    ClaimAccounts(s, s', t, left);
  }

  lemma ClaimAccounts<L>(s: Build<L>, s': Build<L>, t: nat, left: seq<L>)
    requires Accounts(s, left) && t < |s.work| && s.work[t].Ready? && s'.table == s.table && s'.next == s.next + 1
    requires s'.work == s.work[t := if s.next < |left| then Claimed(s.next) else Exited]
    ensures Accounts(s', left)
  {
    if s.next < |left| {
      assert left[..s.next + 1] == left[..s.next] + [left[s.next]];
    }
    AccountsStep(s, s', t, left);
  }

  lemma AllocInv<L(!new)>(s: Build<L>, s': Build<L>, t: nat, lists: seq<seq<nat>>, workers: nat, left: seq<L>, lkey: L -> int, hash: int -> nat)
    requires Inv(s, lists, workers, left, lkey, hash) && Step(s, s', t, left, lkey, hash) && s.work[t].Claimed?
    ensures Inv(s', lists, workers, left, lkey, hash)
  {
    assert PcOk(s, t, |left|);
    var l := left[s.work[t].idx];
    T.AllocateInv(s.table, lists, t, lkey(l), l, hash);
    PcsKept(s, s', t, workers, |left|);
    AllocAccounts(s, s', t, left, lkey);
  }

  lemma AllocAccounts<L>(s: Build<L>, s': Build<L>, t: nat, left: seq<L>, lkey: L -> int)
    requires Accounts(s, left) && t < |s.work| == |s.table.pcs| && s.work[t].Claimed? && s.work[t].idx < |left|
    requires s'.next == s.next && s'.work == s.work[t := Inserting]
    requires s'.table == T.Allocate(s.table, t, lkey(left[s.work[t].idx]), left[s.work[t].idx])
    ensures Accounts(s', left)
  {
    assert Values(s'.table.heap) == Values(s.table.heap) + [left[s.work[t].idx]];
    AccountsStep(s, s', t, left);
  }

  lemma InsertInv<L(!new)>(s: Build<L>, s': Build<L>, t: nat, lists: seq<seq<nat>>, workers: nat, left: seq<L>, lkey: L -> int, hash: int -> nat)
    returns (lists': seq<seq<nat>>)
    requires Inv(s, lists, workers, left, lkey, hash) && Step(s, s', t, left, lkey, hash) && s.work[t].Inserting?
    ensures Inv(s', lists', workers, left, lkey, hash)
  {
    assert PcOk(s, t, |left|);
    lists' := T.StepInv(s.table, s'.table, t, lists, hash);
    InsertPcs(s.table, s'.table, t, hash);
    PcsKept(s, s', t, workers, |left|);
    assert Values(s'.table.heap) == Values(s.table.heap);
    AccountsStep(s, s', t, left);
  }

  lemma InsertPcs<L(!new)>(s: T.Table<L>, s': T.Table<L>, t: nat, hash: int -> nat)
    requires T.Step(s, s', t, hash)
    ensures |s'.pcs| == |s.pcs| && t < |s.pcs| && s'.pcs == s.pcs[t := s'.pcs[t]]
  {
  }

  lemma {:induction false} RunInv<L(!new)>(ss: seq<Build<L>>, ts: seq<nat>, workers: nat, left: seq<L>, lkey: L -> int, hash: int -> nat, i: nat)
    returns (lists: seq<seq<nat>>)
    requires Run(ss, ts, workers, left, lkey, hash) && T.HashFits(ss[0].table, hash) && i < |ss|
    ensures Inv(ss[i], lists, workers, left, lkey, hash)
  {
    if i == 0 {
      StartInv(ss[0], workers, left, lkey, hash);
      lists := seq(|ss[0].table.heads|, _ => []);
    } else {
      lists := RunInv(ss, ts, workers, left, lkey, hash, i - 1);
      var s, t := ss[i - 1], ts[i - 1];
      assert Step(s, ss[i], t, left, lkey, hash);
      match s.work[t]
      case Ready => ClaimInv(s, ss[i], t, lists, workers, left, lkey, hash);
      case Claimed(_) => AllocInv(s, ss[i], t, lists, workers, left, lkey, hash);
      case Inserting => lists := InsertInv(s, ss[i], t, lists, workers, left, lkey, hash);
    }
  }

  /** After the build phase the table holds exactly the left rows. */
  lemma BuildComplete<L(!new)>(ss: seq<Build<L>>, ts: seq<nat>, workers: nat, left: seq<L>, lkey: L -> int, hash: int -> nat)
    returns (lists: seq<seq<nat>>)
    requires Run(ss, ts, workers, left, lkey, hash) && T.HashFits(ss[0].table, hash)
    requires workers >= 1 && AllExited(ss[|ss| - 1])
    ensures var s := ss[|ss| - 1];
            && Inv(s, lists, workers, left, lkey, hash) && T.Quiet(s.table)
            && multiset(Values(s.table.heap)) == multiset(left)
  {
    var s := ss[|ss| - 1];
    lists := RunInv(ss, ts, workers, left, lkey, hash, |ss| - 1);
    forall t | 0 <= t < workers ensures s.table.pcs[t].Outside? && s.next >= |left| {
      assert PcOk(s, t, |left|);
    }
    assert PcOk(s, 0, |left|);
    SumEmpty(Debts(s.work, left));
    assert left[..|left|] == left;
  }

  /** What a lookup returns, in the order of the bucket. */
  function Found<L>(table: T.Table<L>, lists: seq<seq<nat>>, hash: int -> nat, k: int): seq<L> {
    if hash(k) < |lists| then FlatMap(T.Match(table.heap, k), lists[hash(k)]) else []
  }

  /** A lookup finds the left rows of that key, up to order. */
  lemma FoundIsSelect<L>(s: Build<L>, lists: seq<seq<nat>>, workers: nat, left: seq<L>, lkey: L -> int, hash: int -> nat, k: int)
    requires Inv(s, lists, workers, left, lkey, hash) && T.Quiet(s.table)
    requires multiset(Values(s.table.heap)) == multiset(left)
    ensures multiset(Found(s.table, lists, hash, k)) == multiset(FlatMap(Select(lkey, k), left))
  {
    var heap := s.table.heap;
    assert hash(k) < |s.table.heads|;
    T.LookupComplete(s.table, lists, k, hash);
    FlatMapIndex<L, L>(Select(lkey, k), T.Match(heap, k), Values(heap), |heap|);
    assert Values(heap)[..|heap|] == Values(heap);
    FlatMapBag(Select(lkey, k), Values(heap), left);
  }

  // --------------------------------------------------------------- probe phase

  /** The rows a worker stores for the `idx`-th right row. */
  function Probe<L, R, O>(table: T.Table<L>, lists: seq<seq<nat>>, hash: int -> nat, right: seq<R>, rkey: R -> int, cat: (L, R) -> O): nat -> seq<O> {
    (idx: nat) =>
      if idx < |right| then FlatMap(Pair(cat, right[idx]), Found(table, lists, hash, rkey(right[idx]))) else []
  }

  /** In the probe phase nothing is ever refused. */
  function Never(): (nat, set<nat>) -> bool {
    (_: nat, _: set<nat>) => false
  }

  /** For any number of workers, every hash function, and every interleaving of both phases,
      the parallel join returns the rows of the nested-loop equijoin, each as often. */
  lemma JoinComplete<L(!new), R(!new), O(!new)>(
      left: seq<L>, right: seq<R>, lkey: L -> int, rkey: R -> int, cat: (L, R) -> O, hash: int -> nat, workers: nat,
      build: seq<Build<L>>, bts: seq<nat>, lists: seq<seq<nat>>, probe: seq<W.State<O>>, pts: seq<nat>)
    requires workers >= 1
    requires Run(build, bts, workers, left, lkey, hash) && T.HashFits(build[0].table, hash)
    requires AllExited(build[|build| - 1])
    requires T.Inv(build[|build| - 1].table, lists, hash)
    requires W.Run(probe, pts, workers, |right|, Probe(build[|build| - 1].table, lists, hash, right, rkey, cat), Never())
    requires W.AllFinished(probe[|probe| - 1])
    ensures multiset(Concat(probe[|probe| - 1].local)) == multiset(NestedLoop(left, right, lkey, rkey, cat))
  {
    var s := build[|build| - 1];
    var _ := BuildComplete(build, bts, workers, left, lkey, hash);
    var f := Probe(s.table, lists, hash, right, rkey, cat);
    W.CompleteWithout(probe, pts, workers, |right|, f, Never());
    var g := (r: R) => FlatMap(Pair(cat, r), Found(s.table, lists, hash, rkey(r)));
    FlatMapIndex<R, O>(g, f, right, |right|);
    assert right[..|right|] == right;
    forall i | 0 <= i < |right|
      ensures multiset(g(right[i])) == multiset(JoinOne(left, lkey, rkey, cat)(right[i]))
    {
      FoundIsSelect(s, lists, workers, left, lkey, hash, rkey(right[i]));
      FlatMapBag(Pair(cat, right[i]), Found(s.table, lists, hash, rkey(right[i])), FlatMap(Select(lkey, rkey(right[i])), left));
    }
    FlatMapPointwise(g, JoinOne(left, lkey, rkey, cat), right);
  }
}
