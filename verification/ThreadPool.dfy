/** The thread pool: `src/executor/thread_pool.cpp`, as a transition system. A step is one
  critical section of the mutex, one notification, or one task run outside the lock.
  Condition variables are modelled with their waiting sets: a sleeping thread goes on only
  after a notification or a spurious wakeup. One client thread submits, waits and destroys.
 */
module ThreadPool {
  import opened Bags

  type Task = nat

  datatype Worker =
    | Awake                // about to lock and test the wait predicate
    | Asleep               // waiting on task_cv_
    | Running(task: Task)  // task taken, not run yet
    | Ran(task: Task)      // task run, in_flight_ not decremented yet
    | Exited

  datatype Client =
    | Outside      // between calls
    | Notifying    // Submit has released the lock, notify_one is next
    | Checking     // in WaitAll, about to test in_flight_ == 0
    | Waiting      // asleep on done_cv_
    | Stopping     // destructor has set stop_, notify_all is next
    | Joining      // destructor joins the workers

  /** `submitted` and `ran` are histories: every task handed in, every task executed. */
  datatype Pool = Pool(queue: seq<Task>, inFlight: int, stop: bool, workers: seq<Worker>, client: Client,
                       submitted: seq<Task>, ran: seq<Task>)

  ghost predicate Start(s: Pool, n: nat) {
    && s.queue == s.submitted == s.ran == [] && s.inFlight == 0 && !s.stop && s.client == Outside
    && |s.workers| == n && forall w :: 0 <= w < n ==> s.workers[w] == Awake
  }

  // --------------------------------------------------------------------- steps

  /** A step of worker `w` in its loop. Finishing the last task wakes the waiting client. */
  ghost predicate WorkerStep(s: Pool, s': Pool, w: nat) {
    w < |s.workers| &&
    match s.workers[w]
    case Awake =>
      if s.queue != [] then
        s' == s.(queue := s.queue[1..], workers := s.workers[w := Running(s.queue[0])])
      else
        s' == s.(workers := s.workers[w := if s.stop then Exited else Asleep])
    case Running(task) =>
      s' == s.(workers := s.workers[w := Ran(task)], ran := s.ran + [task])
    case Ran(_) =>
      s' == s.(workers := s.workers[w := Awake], inFlight := s.inFlight - 1,
               client := if s.inFlight - 1 == 0 && s.client == Waiting then Checking else s.client)
    case _ => false
  }

  /** `notify_one`: wakes some sleeping worker if there is one. */
  ghost predicate NotifyOne(s: Pool, s': Pool) {
    && s.client == Notifying
    && (|| (exists w :: 0 <= w < |s.workers| && s.workers[w] == Asleep && s' == Woken(s, w))
        || (NoneAsleep(s) && s' == s.(client := Outside)))
  }

  function Woken(s: Pool, w: nat): Pool
    requires w < |s.workers|
  {
    s.(workers := s.workers[w := Awake], client := Outside)
  }

  ghost predicate NoneAsleep(s: Pool) {
    forall w :: 0 <= w < |s.workers| ==> s.workers[w] != Asleep
  }

  function WakeAll(workers: seq<Worker>): (r: seq<Worker>)
    ensures |r| == |workers|
    ensures forall w :: 0 <= w < |r| ==> r[w] == if workers[w] == Asleep then Awake else workers[w]
  {
    seq(|workers|, w requires 0 <= w < |workers| => if workers[w] == Asleep then Awake else workers[w])
  }

  /** A call or continuation of the client. */
  ghost predicate ClientStep(s: Pool, s': Pool) {
    || (s.client == Outside && !s.stop && exists task :: s' == Submitted(s, task))
    || NotifyOne(s, s')
    || (s.client == Outside && s' == s.(client := Checking))
    || (s.client == Checking && s' == s.(client := if s.inFlight == 0 then Outside else Waiting))
    || (s.client == Outside && s' == s.(stop := true, client := Stopping))
    || (s.client == Stopping && s' == s.(workers := WakeAll(s.workers), client := Joining))
  }

  function Submitted(s: Pool, task: Task): Pool {
    s.(inFlight := s.inFlight + 1, queue := s.queue + [task], client := Notifying, submitted := s.submitted + [task])
  }

  /** A wakeup for no reason. */
  ghost predicate Spurious(s: Pool, s': Pool) {
    || (exists w :: 0 <= w < |s.workers| && s.workers[w] == Asleep && s' == s.(workers := s.workers[w := Awake]))
    || (s.client == Waiting && s' == s.(client := Checking))
  }

  ghost predicate Step(s: Pool, s': Pool) {
    (exists w: nat :: WorkerStep(s, s', w)) || ClientStep(s, s') || Spurious(s, s')
  }

  // ----------------------------------------------------------------- invariant

  /** The tasks being executed by a worker. */
  ghost function Taken(w: Worker): multiset<Task> {
    if w.Running? then multiset{w.task} else multiset{}
  }

  ghost function AllTaken(ws: seq<Worker>): (r: seq<multiset<Task>>)
    ensures |r| == |ws| && forall w :: 0 <= w < |ws| ==> r[w] == Taken(ws[w])
  {
    seq(|ws|, w requires 0 <= w < |ws| => Taken(ws[w]))
  }

  /** Workers that took a task and have not reported it finished. */
  function ActiveCount(ws: seq<Worker>): nat {
    if ws == [] then 0
    else (if ws[0].Running? || ws[0].Ran? then 1 else 0) + ActiveCount(ws[1..])
  }

  /** A worker that will look at the queue again by itself. */
  predicate OnTheWay(w: Worker) {
    w.Awake? || w.Running? || w.Ran?
  }

  ghost predicate Inv(s: Pool, n: nat) {
    && |s.workers| == n
    && s.inFlight == |s.queue| + ActiveCount(s.workers)
    && EachOnce(s)
    && NoLostWakeup(s)
    && (s.client == Waiting ==> s.inFlight > 0)
    && (s.stop <==> s.client == Stopping || s.client == Joining)
    && (s.client == Joining ==> NoneAsleep(s))
    && (forall w :: 0 <= w < |s.workers| && s.workers[w].Exited? ==> s.stop && s.queue == [])
  }

  /** Every submitted task is queued, taken or has run, and only one of these. */
  ghost predicate EachOnce(s: Pool) {
    multiset(s.submitted) == multiset(s.queue) + Sum(AllTaken(s.workers)) + multiset(s.ran)
  }

  /** A queued task has a worker on its way to it, or a notification still to come. */
  ghost predicate NoLostWakeup(s: Pool) {
    s.queue == [] || |s.workers| == 0 || s.client == Notifying
    || exists w :: 0 <= w < |s.workers| && OnTheWay(s.workers[w])
  }

  lemma {:induction false} ActiveUpdate(ws: seq<Worker>, w: nat, x: Worker)
    requires w < |ws|
    ensures ActiveCount(ws[w := x]) + ActiveCount([ws[w]]) == ActiveCount(ws) + ActiveCount([x])
  {
    if w > 0 {
      assert ws[w := x][1..] == ws[1..][w - 1 := x];
      ActiveUpdate(ws[1..], w - 1, x);
    } else {
      assert ws[0 := x][1..] == ws[1..];
    }
  }

  lemma TakenUpdate(ws: seq<Worker>, w: nat, x: Worker)
    requires w < |ws|
    ensures Sum(AllTaken(ws[w := x])) + Taken(ws[w]) == Sum(AllTaken(ws)) + Taken(x)
  {
    assert AllTaken(ws[w := x]) == AllTaken(ws)[w := Taken(x)];
    SumUpdate(AllTaken(ws), w, Taken(x));
  }

  lemma TakenSame(ws: seq<Worker>, w: nat, x: Worker)
    requires w < |ws| && !ws[w].Running? && !x.Running?
    ensures AllTaken(ws[w := x]) == AllTaken(ws)
  {
  }

  lemma {:induction false} NoneActive(ws: seq<Worker>)
    ensures ActiveCount(ws) == 0 <==> forall w :: 0 <= w < |ws| ==> !ws[w].Running? && !ws[w].Ran?
  {
    if ws != [] {
      NoneActive(ws[1..]);
      assert forall w :: 0 < w < |ws| ==> ws[w] == ws[1..][w - 1];
      assert forall w :: 0 <= w < |ws[1..]| ==> ws[1..][w] == ws[w + 1];
    }
  }

  // ------------------------------------------------------------- preservation

  lemma StartInv(s: Pool, n: nat)
    requires Start(s, n)
    ensures Inv(s, n)
  {
    NoneActive(s.workers);
    SumEmpty(AllTaken(s.workers));
  }

  lemma TakeInv(s: Pool, s': Pool, w: nat, n: nat)
    requires Inv(s, n) && WorkerStep(s, s', w) && s.workers[w].Awake? && s.queue != []
    ensures Inv(s', n)
  {
    var task := s.queue[0];
    ActiveUpdate(s.workers, w, Running(task));
    TakenUpdate(s.workers, w, Running(task));
    TakeBag(s, s');
    assert OnTheWay(s'.workers[w]);
  }

  lemma TakeBag(s: Pool, s': Pool)
    requires EachOnce(s) && s.queue != [] && s'.queue == s.queue[1..] && s'.submitted == s.submitted && s'.ran == s.ran
    requires Sum(AllTaken(s'.workers)) == Sum(AllTaken(s.workers)) + multiset{s.queue[0]}
    ensures EachOnce(s')
  {
    HeadBag(s.queue);
    MoveOver(multiset(s.submitted), multiset(s.queue[1..]), Sum(AllTaken(s.workers)), multiset(s.ran), multiset{s.queue[0]});
  }

  lemma HeadBag<T>(q: seq<T>)
    requires q != []
    ensures multiset(q) == multiset{q[0]} + multiset(q[1..])
  {
    assert q == [q[0]] + q[1..];
  }

  lemma MoveOver<T>(total: multiset<T>, q: multiset<T>, d: multiset<T>, r: multiset<T>, x: multiset<T>)
    requires total == (x + q) + d + r
    ensures total == q + (d + x) + r
  {
    forall e ensures total[e] == (q + (d + x) + r)[e] {
      assert total[e] == ((x + q) + d + r)[e];
    }
  }

  lemma RestInv(s: Pool, s': Pool, w: nat, n: nat)
    requires Inv(s, n) && WorkerStep(s, s', w) && s.workers[w].Awake? && s.queue == []
    ensures Inv(s', n)
  {
    ActiveUpdate(s.workers, w, s'.workers[w]);
    TakenSame(s.workers, w, s'.workers[w]);
  }

  lemma RunInvStep(s: Pool, s': Pool, w: nat, n: nat)
    requires Inv(s, n) && WorkerStep(s, s', w) && s.workers[w].Running?
    ensures Inv(s', n)
  {
    var task := s.workers[w].task;
    ActiveUpdate(s.workers, w, Ran(task));
    TakenUpdate(s.workers, w, Ran(task));
    assert OnTheWay(s'.workers[w]);
    RanBag(s, s', task);
  }

  lemma RanBag(s: Pool, s': Pool, task: Task)
    requires EachOnce(s) && s'.queue == s.queue && s'.submitted == s.submitted && s'.ran == s.ran + [task]
    requires Sum(AllTaken(s'.workers)) + multiset{task} == Sum(AllTaken(s.workers))
    ensures EachOnce(s')
  {
  }

  lemma ReportInv(s: Pool, s': Pool, w: nat, n: nat)
    requires Inv(s, n) && WorkerStep(s, s', w) && s.workers[w].Ran?
    ensures Inv(s', n)
  {
    ActiveUpdate(s.workers, w, Awake);
    TakenSame(s.workers, w, Awake);
    assert OnTheWay(s'.workers[w]);
  }

  lemma WorkerInv(s: Pool, s': Pool, w: nat, n: nat)
    requires Inv(s, n) && WorkerStep(s, s', w)
    ensures Inv(s', n)
  {
    match s.workers[w]
    case Awake => if s.queue != [] { TakeInv(s, s', w, n); } else { RestInv(s, s', w, n); }
    case Running(_) => RunInvStep(s, s', w, n);
    case Ran(_) => ReportInv(s, s', w, n);
  }

  lemma WakeInv(s: Pool, s': Pool, w: nat, n: nat)
    requires Inv(s, n) && w < n && s.workers[w].Asleep? && s'.workers == s.workers[w := Awake]
    requires s' == s.(workers := s'.workers, client := s'.client)
    requires s'.client == s.client || (s.client == Notifying && s'.client == Outside)
    ensures Inv(s', n)
  {
    ActiveUpdate(s.workers, w, Awake);
    TakenSame(s.workers, w, Awake);
    assert OnTheWay(s'.workers[w]);
  }

  lemma SubmitInv(s: Pool, task: Task, n: nat)
    requires Inv(s, n) && s.client == Outside && !s.stop
    ensures Inv(Submitted(s, task), n)
  {
  }

  lemma {:induction false} WakeAllKeeps(ws: seq<Worker>)
    ensures ActiveCount(WakeAll(ws)) == ActiveCount(ws) && AllTaken(WakeAll(ws)) == AllTaken(ws)
  {
    if ws != [] {
      WakeAllKeeps(ws[1..]);
      assert WakeAll(ws)[1..] == WakeAll(ws[1..]);
    }
  }

  lemma ClientInv(s: Pool, s': Pool, n: nat)
    requires Inv(s, n) && ClientStep(s, s')
    ensures Inv(s', n)
  {
    if s.client == Outside && !s.stop && exists task :: s' == Submitted(s, task) {
      var task :| s' == Submitted(s, task);
      SubmitInv(s, task, n);
    } else if NotifyOne(s, s') {
      NotifyInv(s, s', n);
    } else if s.client == Stopping {
      StopInv(s, s', n);
    }
  }

  lemma StopInv(s: Pool, s': Pool, n: nat)
    requires Inv(s, n) && s.client == Stopping && s' == s.(workers := WakeAll(s.workers), client := Joining)
    ensures Inv(s', n)
  {
    WakeAllKeeps(s.workers);
    if w :| 0 <= w < |s.workers| && OnTheWay(s.workers[w]) { assert OnTheWay(s'.workers[w]); }
  }

  lemma NotifyInv(s: Pool, s': Pool, n: nat)
    requires Inv(s, n) && NotifyOne(s, s')
    ensures Inv(s', n)
  {
    if w :| 0 <= w < |s.workers| && s.workers[w] == Asleep && s' == Woken(s, w) {
      WakeInv(s, s', w, n);
    } else if n > 0 {
      assert !s.workers[0].Exited? && s.workers[0] != Asleep;
      assert OnTheWay(s'.workers[0]);
    }
  }

  /** Every step keeps the invariant. */
  lemma StepInv(s: Pool, s': Pool, n: nat)
    requires Inv(s, n) && Step(s, s')
    ensures Inv(s', n)
  {
    if w: nat :| WorkerStep(s, s', w) {
      WorkerInv(s, s', w, n);
    } else if ClientStep(s, s') {
      ClientInv(s, s', n);
    } else if w :| 0 <= w < |s.workers| && s.workers[w] == Asleep && s' == s.(workers := s.workers[w := Awake]) {
      WakeInv(s, s', w, n);
    }
  }

  // ---------------------------------------------------------------------- runs

  ghost predicate Run(ss: seq<Pool>, n: nat) {
    |ss| > 0 && Start(ss[0], n) && forall i :: 0 <= i < |ss| - 1 ==> Step(ss[i], ss[i + 1])
  }

  /** `in_flight_` counts queued and running tasks, and every submitted task is in exactly one
      place, in every reachable state. */
  lemma {:induction false} RunInv(ss: seq<Pool>, n: nat, i: nat)
    requires Run(ss, n) && i < |ss|
    ensures Inv(ss[i], n)
  {
    if i == 0 {
      StartInv(ss[0], n);
    } else {
      RunInv(ss, n, i - 1);
      assert Step(ss[i - 1], ss[(i - 1) + 1]);
      StepInv(ss[i - 1], ss[i], n);
    }
  }

  /** Tasks are taken in the order in which they were submitted: those still queued are the ones
      submitted last. */
  ghost predicate QueuedLast(s: Pool) {
    |s.queue| <= |s.submitted| && s.queue == s.submitted[|s.submitted| - |s.queue|..]
  }

  lemma QueueStep(s: Pool, s': Pool)
    requires QueuedLast(s) && Step(s, s')
    ensures QueuedLast(s')
  {
    if s'.submitted != s.submitted {
      SubmittedLast(s, s');
    } else if s'.queue != s.queue {
      assert s'.queue == s.queue[1..];
    }
  }

  lemma SubmittedLast(s: Pool, s': Pool)
    requires QueuedLast(s) && Step(s, s') && s'.submitted != s.submitted
    ensures QueuedLast(s')
  {
    var task :| s' == Submitted(s, task);
    Longer(s.submitted, s.queue, task);
  }

  lemma Longer<T>(all: seq<T>, q: seq<T>, x: T)
    requires |q| <= |all| && q == all[|all| - |q|..]
    ensures q + [x] == (all + [x])[|all + [x]| - |q + [x]|..]
  {
  }

  lemma {:induction false} FirstInFirstOut(ss: seq<Pool>, n: nat, i: nat)
    requires Run(ss, n) && i < |ss|
    ensures QueuedLast(ss[i])
  {
    if i > 0 {
      FirstInFirstOut(ss, n, i - 1);
      assert Step(ss[i - 1], ss[(i - 1) + 1]);
      QueueStep(ss[i - 1], ss[i]);
    }
  }

  /** `WaitAll` returns only after every task submitted so far has run, each exactly once. */
  lemma WaitAllReturns(ss: seq<Pool>, n: nat, i: nat)
    requires Run(ss, n) && i + 1 < |ss|
    requires ss[i].client == Checking && ss[i + 1].client == Outside
    ensures multiset(ss[i].ran) == multiset(ss[i].submitted)
  {
    RunInv(ss, n, i);
    assert Step(ss[i], ss[i + 1]);
    ReturnsIdle(ss[i], ss[i + 1]);
    IdleHasRun(ss[i], n);
  }

  /** `WaitAll` returns in a step that finds nothing in flight. */
  lemma ReturnsIdle(s: Pool, s': Pool)
    requires Step(s, s') && s.client == Checking && s'.client == Outside
    ensures s.inFlight == 0
  {
  }

  lemma IdleHasRun(s: Pool, n: nat)
    requires Inv(s, n) && s.inFlight == 0
    ensures multiset(s.ran) == multiset(s.submitted)
  {
    NoneActive(s.workers);
    SumEmpty(AllTaken(s.workers));
  }

  /** No wakeup is lost: while tasks are in flight, a worker on its own way, or the pending
      notification, has a step to make. */
  lemma Progress(s: Pool, n: nat)
    requires Inv(s, n) && n >= 1 && s.inFlight > 0
    ensures (exists w: nat, s' :: WorkerStep(s, s', w)) || (exists s' :: NotifyOne(s, s'))
  {
    NoneActive(s.workers);
    if w :| 0 <= w < n && OnTheWay(s.workers[w]) {
      var s' := WorkerStepOf(s, w);
    } else {
      assert s.queue != [];
      assert s.client == Notifying && s.workers[0] == Asleep;
      assert NotifyOne(s, Woken(s, 0));
    }
  }

  lemma WorkerStepOf(s: Pool, w: nat) returns (s': Pool)
    requires w < |s.workers| && OnTheWay(s.workers[w])
    ensures WorkerStep(s, s', w)
  {
    match s.workers[w]
    case Awake =>
      s' := if s.queue != [] then s.(queue := s.queue[1..], workers := s.workers[w := Running(s.queue[0])])
            else s.(workers := s.workers[w := if s.stop then Exited else Asleep]);
    case Running(task) =>
      s' := s.(workers := s.workers[w := Ran(task)], ran := s.ran + [task]);
    case Ran(_) =>
      s' := s.(workers := s.workers[w := Awake], inFlight := s.inFlight - 1,
               client := if s.inFlight - 1 == 0 && s.client == Waiting then Checking else s.client);
  }

  /** What is left to do. */
  function Effort(w: Worker): nat {
    match w
    case Awake => 1
    case Asleep => 0
    case Running(_) => 3
    case Ran(_) => 2
    case Exited => 0
  }

  function TotalEffort(ws: seq<Worker>): nat {
    if ws == [] then 0 else Effort(ws[0]) + TotalEffort(ws[1..])
  }

  function Remaining(s: Pool): nat {
    5 * |s.queue| + TotalEffort(s.workers) + if s.client == Notifying then 2 else 0
  }

  lemma {:induction false} EffortUpdate(ws: seq<Worker>, w: nat, x: Worker)
    requires w < |ws|
    ensures TotalEffort(ws[w := x]) + Effort(ws[w]) == TotalEffort(ws) + Effort(x)
  {
    if w > 0 {
      assert ws[w := x][1..] == ws[1..][w - 1 := x];
      EffortUpdate(ws[1..], w - 1, x);
    } else {
      assert ws[0 := x][1..] == ws[1..];
    }
  }

  lemma WorkerShrinks(s: Pool, s': Pool, w: nat)
    requires WorkerStep(s, s', w)
    ensures Remaining(s') < Remaining(s)
  {
    EffortUpdate(s.workers, w, s'.workers[w]);
  }

  /** Worker steps and notifications cannot go on forever. */
  lemma WorkShrinks(s: Pool, s': Pool, n: nat)
    requires Inv(s, n) && ((exists w: nat :: WorkerStep(s, s', w)) || NotifyOne(s, s'))
    ensures Remaining(s') < Remaining(s)
  {
    if w: nat :| WorkerStep(s, s', w) {
      WorkerShrinks(s, s', w);
    } else if w :| 0 <= w < |s.workers| && s.workers[w] == Asleep && s' == Woken(s, w) {
      EffortUpdate(s.workers, w, Awake);
    }
  }

  /** A worker steps, or the pending notification goes out. */
  ghost predicate Works(s: Pool, s': Pool) {
    (exists w: nat :: WorkerStep(s, s', w)) || NotifyOne(s, s')
  }

  ghost predicate Working(ss: seq<Pool>) {
    |ss| > 0 && forall i :: 0 <= i < |ss| - 1 ==> Works(ss[i], ss[i + 1])
  }

  /** While WaitAll waits: asleep as long as something is in flight, awake from then on. */
  ghost predicate InWaitAll(s: Pool, n: nat) {
    Inv(s, n) && (s.client == Waiting || (s.client == Checking && s.inFlight == 0))
  }

  lemma WaitStep(s: Pool, s': Pool, n: nat)
    requires InWaitAll(s, n) && Works(s, s')
    ensures InWaitAll(s', n)
  {
    var w: nat :| WorkerStep(s, s', w);
    WorkerInv(s, s', w, n);
    NoneActive(s.workers);
  }

  lemma {:induction false} WaitKeeps(ss: seq<Pool>, n: nat, i: nat)
    requires Working(ss) && InWaitAll(ss[0], n) && i < |ss|
    ensures InWaitAll(ss[i], n) && Remaining(ss[i]) + i <= Remaining(ss[0])
  {
    if i > 0 {
      WaitKeeps(ss, n, i - 1);
      assert Works(ss[i - 1], ss[(i - 1) + 1]);
      WaitStep(ss[i - 1], ss[i], n);
      WorkShrinks(ss[i - 1], ss[i], n);
    }
  }

  /** Neither a worker nor the notification can step. */
  ghost predicate Halted(s: Pool) {
    forall s' :: !Works(s, s')
  }

  lemma GoesOn(s: Pool, n: nat)
    requires Inv(s, n) && n >= 1 && s.inFlight > 0
    ensures !Halted(s)
  {
    Progress(s, n);
    if w: nat, s' :| WorkerStep(s, s', w) {
      assert Works(s, s');
    } else {
      var s' :| NotifyOne(s, s');
      assert Works(s, s');
    }
  }

  /** WaitAll gets to return: however the workers go on from the moment it waits, they stop after
      finitely many steps, and when they can do no more, nothing is in flight and the client is
      awake to see it. */
  lemma WaitAllWakes(ss: seq<Pool>, n: nat)
    requires n >= 1 && Working(ss) && Inv(ss[0], n) && ss[0].client == Waiting
    requires Halted(ss[|ss| - 1])
    ensures ss[|ss| - 1].inFlight == 0 && ss[|ss| - 1].client == Checking && |ss| - 1 <= Remaining(ss[0])
    ensures multiset(ss[|ss| - 1].ran) == multiset(ss[|ss| - 1].submitted)
  {
    var s := ss[|ss| - 1];
    WaitKeeps(ss, n, |ss| - 1);
    if s.inFlight > 0 { GoesOn(s, n); }
    IdleHasRun(s, n);
  }

  // ---------------------------------------------------------------- destructor

  ghost predicate InJoin(s: Pool, n: nat) {
    Inv(s, n) && s.client == Joining
  }

  /** While the destructor joins, only workers step. */
  lemma JoinStep(s: Pool, s': Pool, n: nat)
    requires InJoin(s, n) && Step(s, s')
    ensures InJoin(s', n) && Remaining(s') < Remaining(s)
  {
    StepInv(s, s', n);
    var w := OnlyWorkers(s, s');
    WorkerShrinks(s, s', w);
    JoinsOn(s, s', w);
  }

  lemma OnlyWorkers(s: Pool, s': Pool) returns (w: nat)
    requires s.client == Joining && NoneAsleep(s) && Step(s, s')
    ensures WorkerStep(s, s', w)
  {
    w :| WorkerStep(s, s', w);
  }

  lemma JoinsOn(s: Pool, s': Pool, w: nat)
    requires s.client == Joining && WorkerStep(s, s', w)
    ensures s'.client == Joining
  {
  }

  ghost predicate Stepping(ss: seq<Pool>) {
    |ss| > 0 && forall i :: 0 <= i < |ss| - 1 ==> Step(ss[i], ss[i + 1])
  }

  lemma {:induction false} JoinKeeps(ss: seq<Pool>, n: nat, i: nat)
    requires Stepping(ss) && InJoin(ss[0], n) && i < |ss|
    ensures InJoin(ss[i], n) && Remaining(ss[i]) + i <= Remaining(ss[0])
  {
    if i > 0 {
      JoinKeeps(ss, n, i - 1);
      JoinNext(ss, ss[i - 1], ss[i], n, i - 1);
    }
  }

  lemma JoinNext(ss: seq<Pool>, s: Pool, s': Pool, n: nat, i: nat)
    requires Stepping(ss) && i + 1 < |ss| && s == ss[i] && s' == ss[i + 1] && InJoin(s, n)
    ensures InJoin(s', n) && Remaining(s') < Remaining(s)
  {
    assert Step(ss[i], ss[i + 1]);
    JoinStep(s, s', n);
  }

  /** Nothing at all can step. */
  ghost predicate AtRest(s: Pool) {
    forall s' :: !Step(s, s')
  }

  lemma RestExited(s: Pool, n: nat, w: nat)
    requires InJoin(s, n) && AtRest(s) && w < n
    ensures s.workers[w].Exited?
  {
    if OnTheWay(s.workers[w]) {
      var s' := WorkerStepOf(s, w);
      assert Step(s, s');
    }
  }

  /** The destructor gets to return: whatever happens from the moment it joins, it is over after
      finitely many steps, and then every worker has exited, the queue is empty and every task
      submitted has run exactly once. */
  lemma DestructorJoins(ss: seq<Pool>, n: nat)
    requires n >= 1 && Stepping(ss) && InJoin(ss[0], n) && AtRest(ss[|ss| - 1])
    ensures var s := ss[|ss| - 1];
            && (forall w :: 0 <= w < n == |s.workers| ==> s.workers[w].Exited?) && s.queue == [] && s.inFlight == 0
            && multiset(s.ran) == multiset(s.submitted) && |ss| - 1 <= Remaining(ss[0])
  {
    var s := ss[|ss| - 1];
    JoinKeeps(ss, n, |ss| - 1);
    forall w: nat | w < n ensures s.workers[w].Exited? {
      RestExited(s, n, w);
    }
    NoneActive(s.workers);
    IdleHasRun(s, n);
  }
}
