/** The buffer pool over whole runs: any sequence of calls shows what an uncached array of pages
  with pin counts would (`src/storage/buffer_pool.cpp`). Which page is evicted, and when, shows
  in one answer only: `FlushPage` tells whether a page that nobody has pinned is resident. That
  too is settled by the calls: the page given up is always the unpinned one whose last `NewPage`
  or `FetchPage` is the earliest.
 */
module PoolTrace {
  import opened Page
  import opened BufferPool
  import opened Recency

  datatype Call =
    | New
    | Fetch(p: nat)
    | Store(p: nat, d: PageData)
    | Unpin(p: nat, dirty: bool)
    | Flush(p: nat)
    | FlushAll

  /** What the caller gets to see. */
  datatype Answer = NoFrame | Got(p: nat, d: PageData) | Returned(ok: bool) | Done

  /** The calls a client may make: fetch allocated pages, store through a pinned page,
      and drop the last pin of a changed page with the dirty flag set. */
  predicate Legal(m: Memory, call: Call) {
    match call
    case Fetch(p) => p < |m.pages|
    case Store(p, _) => p in m.pins && p < |m.pages|
    case Unpin(p, dirty) => dirty || p !in m.written || (p in m.pins && m.pins[p] > 1)
    case _ => true
  }

  /** What a call does to the memory. */
  function Next(m: Memory, frames: nat, call: Call): Memory {
    match call
    case New =>
      if |m.pins| == frames then m else Memory(m.pages + [Zeroed], m.pins[|m.pages| := 1], m.written)
    case Fetch(p) =>
      if p >= |m.pages| || (p !in m.pins && |m.pins| == frames) then m else m.(pins := Pinned(m.pins, p))
    case Store(p, d) =>
      if p < |m.pages| then m.(pages := m.pages[p := d], written := m.written + {p}) else m
    case Unpin(p, dirty) =>
      if p !in m.pins || m.pins[p] == 0 then m
      else m.(pins := Unpinned(m.pins, p), written := if dirty then m.written - {p} else m.written)
    case Flush(_) => m
    case FlushAll => m
  }

  /** The answers a call may get. A flush is answered yes for a pinned page and no for one that
      was never allocated; for any other page either answer is possible. */
  predicate Answers(m: Memory, frames: nat, call: Call, a: Answer) {
    match call
    case New => a == if |m.pins| == frames then NoFrame else Got(|m.pages|, Zeroed)
    case Fetch(p) => a == if p >= |m.pages| || (p !in m.pins && |m.pins| == frames) then NoFrame else Got(p, m.pages[p])
    case Store(_, _) => a == Done
    case Unpin(p, _) => a == Returned(p in m.pins && m.pins[p] > 0)
    case Flush(p) => a.Returned? && (p in m.pins ==> a.ok) && (p >= |m.pages| ==> !a.ok)
    case FlushAll => a == Done
  }

  /** The answer is a function of the memory exactly when the call is not the flush of an
      allocated page that nobody has pinned. */
  lemma OneAnswer(m: Memory, frames: nat, call: Call)
    ensures (forall a, b :: Answers(m, frames, call, a) && Answers(m, frames, call, b) ==> a == b)
            <==> (call.Flush? ==> call.p in m.pins || call.p >= |m.pages|)
  {
    if call.Flush? && call.p !in m.pins && call.p < |m.pages| {
      assert Answers(m, frames, call, Returned(true)) && Answers(m, frames, call, Returned(false));
    }
  }

  ghost predicate LegalRun(m: Memory, frames: nat, calls: seq<Call>)
    decreases calls
  {
    calls == [] || (Legal(m, calls[0]) && LegalRun(Next(m, frames, calls[0]), frames, calls[1..]))
  }

  /** The memory after a run. */
  ghost function After(m: Memory, frames: nat, calls: seq<Call>): Memory
    decreases calls
  {
    if calls == [] then m else After(Next(m, frames, calls[0]), frames, calls[1..])
  }

  /** The answers to a run. */
  ghost predicate AllAnswer(m: Memory, frames: nat, calls: seq<Call>, answers: seq<Answer>)
    decreases calls
  {
    && |answers| == |calls|
    && (calls == [] || (Answers(m, frames, calls[0], answers[0]) && AllAnswer(Next(m, frames, calls[0]), frames, calls[1..], answers[1..])))
  }

  /** One call on the pool answers, and changes what clients see, as one on the memory. */
  method Perform(pool: BufferPoolManager, call: Call) returns (answer: Answer)
    requires pool.Valid() && Legal(pool.View(), call)
    modifies pool, pool.frames, pool.replacer
    ensures pool.Valid() && pool.View() == Next(old(pool.View()), pool.poolSize, call)
    ensures Answers(old(pool.View()), pool.poolSize, call, answer)
    ensures UseStep(old(pool.View()), pool.poolSize, call, answer, old(pool.Use()), pool.Use())
  {
    pool.UseFacts(0, 0);
    match call
    case New =>
      var r := pool.NewPage();
      answer := if r.None? then NoFrame else Got(r.value.0, pool.frames[r.value.1].data);
    case Fetch(p) =>
      pool.PinFacts(p);
      var r := pool.FetchPage(p);
      answer := if r.None? then NoFrame else Got(p, pool.frames[r.value].data);
    case Store(p, d) =>
      pool.HoldsPinned(p);
      pool.Write(pool.pageTable[p], p, d);
      answer := Done;
    case Unpin(p, dirty) =>
      pool.PinFacts(p);
      var ok := pool.UnpinPage(p, dirty);
      answer := Returned(ok);
    case Flush(p) =>
      if p in pool.pins { pool.HoldsPinned(p); }
      var ok := pool.FlushPage(p);
      answer := Returned(ok);
    case FlushAll =>
      pool.FlushAllPages();
      answer := Done;
  }

  /** Over every legal run the pool shows what the memory shows, and which pages are resident is
      what least-recently-used replacement makes of the calls. */
  method Replay(pool: BufferPoolManager, calls: seq<Call>) returns (answers: seq<Answer>, ghost history: seq<set<nat>>)
    requires pool.Valid() && LegalRun(pool.View(), pool.poolSize, calls)
    modifies pool, pool.frames, pool.replacer
    ensures pool.Valid() && pool.View() == After(old(pool.View()), pool.poolSize, calls)
    ensures AllAnswer(old(pool.View()), pool.poolSize, calls, answers)
    ensures LruHistory(old(pool.View()), pool.poolSize, calls, answers, history)
    ensures history[0] == old(pool.pageTable).Keys && history[|calls|] == pool.pageTable.Keys
  {
    ghost var m := pool.View();
    pool.AllPast();
    pool.UseFacts(0, 0);
    ghost var uses;
    answers, uses := ReplayUses(pool, calls);
    history := Keys(uses);
    pool.UseFacts(0, 0);
    RunIsLru(m, pool.poolSize, calls, answers, uses);
  }

  method ReplayUses(pool: BufferPoolManager, calls: seq<Call>) returns (answers: seq<Answer>, ghost uses: seq<Usage>)
    requires pool.Valid() && LegalRun(pool.View(), pool.poolSize, calls)
    modifies pool, pool.frames, pool.replacer
    decreases calls
    ensures pool.Valid() && pool.View() == After(old(pool.View()), pool.poolSize, calls)
    ensures AllAnswer(old(pool.View()), pool.poolSize, calls, answers)
    ensures UseTrace(old(pool.View()), pool.poolSize, calls, answers, uses)
    ensures uses[0] == old(pool.Use()) && uses[|calls|] == pool.Use()
  {
    if calls == [] { return [], [pool.Use()]; }
    ghost var u := pool.Use();
    var a := Perform(pool, calls[0]);
    var rest;
    ghost var more;
    rest, more := ReplayUses(pool, calls[1..]);
    answers, uses := [a] + rest, [u] + more;
    assert answers[1..] == rest && uses[1..] == more;
  }

  /** The last value stored to page `p` by the calls, or `before` if there is none. */
  ghost function LastStored(calls: seq<Call>, p: nat, before: PageData): PageData {
    if calls == [] then before
    else if calls[|calls| - 1].Store? && calls[|calls| - 1].p == p then calls[|calls| - 1].d
    else LastStored(calls[..|calls| - 1], p, before)
  }

  lemma {:induction false} AfterSnoc(m: Memory, frames: nat, calls: seq<Call>, call: Call)
    ensures After(m, frames, calls + [call]) == Next(After(m, frames, calls), frames, call)
    decreases calls
  {
    if calls == [] {
      assert (calls + [call])[1..] == [] && [] + [call] == [call];
    } else {
      assert (calls + [call])[1..] == calls[1..] + [call];
      AfterSnoc(Next(m, frames, calls[0]), frames, calls[1..], call);
    }
  }

  /** The last answer of a run is one to the last call after the others. */
  lemma {:induction false} LastAnswer(m: Memory, frames: nat, calls: seq<Call>, call: Call, answers: seq<Answer>)
    requires AllAnswer(m, frames, calls + [call], answers)
    ensures |answers| == |calls| + 1 && Answers(After(m, frames, calls), frames, call, answers[|calls|])
    decreases calls
  {
    if calls != [] {
      assert (calls + [call])[1..] == calls[1..] + [call];
      LastAnswer(Next(m, frames, calls[0]), frames, calls[1..], call, answers[1..]);
    }
  }

  /** A fetch shows the last contents written to the page, however long ago and whatever was
      evicted in between, unless every frame is pinned and the page is not. */
  lemma {:induction false} FetchShowsLastStore(m: Memory, frames: nat, calls: seq<Call>, p: nat, answers: seq<Answer>)
    requires p < |m.pages| && AllAnswer(m, frames, calls + [Fetch(p)], answers)
    ensures |answers| == |calls| + 1
    ensures var pins := After(m, frames, calls).pins;
            answers[|calls|] == if p !in pins && |pins| == frames then NoFrame else Got(p, LastStored(calls, p, m.pages[p]))
  {
    StoredPage(m, frames, calls, p);
    LastAnswer(m, frames, calls, Fetch(p), answers);
  }

  lemma {:induction false} StoredPage(m: Memory, frames: nat, calls: seq<Call>, p: nat)
    requires p < |m.pages|
    ensures var pages := After(m, frames, calls).pages;
            |m.pages| <= |pages| && pages[p] == LastStored(calls, p, m.pages[p])
  {
    if calls != [] {
      var n := |calls| - 1;
      assert calls == calls[..n] + [calls[n]];
      AfterSnoc(m, frames, calls[..n], calls[n]);
      StoredPage(m, frames, calls[..n], p);
    }
  }

  // -------------------------------------------------------------------- eviction

  /** The page that a call fetches or creates, unless it is refused. */
  function Accessed(m: Memory, frames: nat, call: Call): Option<nat> {
    match call
    case New => if |m.pins| == frames then None else Some(|m.pages|)
    case Fetch(p) => if p >= |m.pages| || (p !in m.pins && |m.pins| == frames) then None else Some(p)
    case _ => None
  }

  /** What one call does to the times of use. A flush tells whether the page is resident. */
  ghost predicate UseStep(m: Memory, frames: nat, call: Call, answer: Answer, u: Usage, u': Usage) {
    && (call.Flush? ==> answer == Returned(call.p in u.last))
    && match Accessed(m, frames, call)
       case None => u' == u
       case Some(p) => Used(u, u', m.pins, frames, p)
  }

  ghost predicate UseTrace(m: Memory, frames: nat, calls: seq<Call>, answers: seq<Answer>, uses: seq<Usage>)
    decreases calls
  {
    && |answers| == |calls| && |uses| == |calls| + 1
    && (calls == [] ||
        (UseStep(m, frames, calls[0], answers[0], uses[0], uses[1])
         && UseTrace(Next(m, frames, calls[0]), frames, calls[1..], answers[1..], uses[1..])))
  }

  /** The number of the last call that accessed page `p`, or -1. */
  ghost function LastCall(m: Memory, frames: nat, calls: seq<Call>, p: nat): int {
    if calls == [] then -1
    else
      var n := |calls| - 1;
      if Accessed(After(m, frames, calls[..n]), frames, calls[n]) == Some(p) then n
      else LastCall(m, frames, calls[..n], p)
  }

  /** Of the unpinned pages among `res`, `v` is the one whose last access is the earliest. (Pages
      resident before the first call that no call has accessed are older than all others.) */
  ghost predicate Earliest(m: Memory, frames: nat, calls: seq<Call>, res: set<nat>, v: nat) {
    var pins := After(m, frames, calls).pins;
    && v in res && v !in pins
    && forall q :: q in res && q !in pins && q != v ==>
         LastCall(m, frames, calls, v) < LastCall(m, frames, calls, q) || LastCall(m, frames, calls, v) == LastCall(m, frames, calls, q) == -1
  }

  /** Least-recently-used replacement, in terms of the calls alone: what call `i` does to the set
      of resident pages. */
  ghost predicate LruStep(m: Memory, frames: nat, calls: seq<Call>, i: nat, answer: Answer, res: set<nat>, res': set<nat>)
    requires i < |calls|
  {
    && (calls[i].Flush? ==> answer == Returned(calls[i].p in res))
    && match Accessed(After(m, frames, calls[..i]), frames, calls[i])
       case None => res' == res
       case Some(p) =>
         if p in res || |res| < frames then res' == res + {p}
         else exists v: nat :: Earliest(m, frames, calls[..i], res, v) && res' == res - {v} + {p}
  }

  ghost predicate LruHistory(m: Memory, frames: nat, calls: seq<Call>, answers: seq<Answer>, history: seq<set<nat>>) {
    && |answers| == |calls| && |history| == |calls| + 1
    && forall i: nat :: i < |calls| ==> LruStep(m, frames, calls, i, answers[i], history[i], history[i + 1])
  }

  function Keys(uses: seq<Usage>): (r: seq<set<nat>>)
    ensures |r| == |uses| && forall i :: 0 <= i < |uses| ==> r[i] == uses[i].last.Keys
  {
    seq(|uses|, i requires 0 <= i < |uses| => uses[i].last.Keys)
  }

  lemma {:induction false} TraceAt(m: Memory, frames: nat, calls: seq<Call>, answers: seq<Answer>, uses: seq<Usage>, i: nat)
    requires UseTrace(m, frames, calls, answers, uses) && i < |calls|
    ensures UseStep(After(m, frames, calls[..i]), frames, calls[i], answers[i], uses[i], uses[i + 1])
    decreases i
  {
    if i > 0 {
      TraceAt(Next(m, frames, calls[0]), frames, calls[1..], answers[1..], uses[1..], i - 1);
      assert calls[..i][1..] == calls[1..][..i - 1] && calls[..i][0] == calls[0];
    }
  }

  /** Times of use are in the past and follow the order of the calls. */
  ghost predicate Timed(m: Memory, frames: nat, calls: seq<Call>, u: Usage) {
    && (forall p :: p in u.last ==> u.last[p] < u.now)
    && (forall p, q :: p in u.last && q in u.last && LastCall(m, frames, calls, p) < LastCall(m, frames, calls, q) ==> u.last[p] < u.last[q])
  }

  lemma LastCallSnoc(m: Memory, frames: nat, calls: seq<Call>, call: Call, p: nat)
    ensures LastCall(m, frames, calls + [call], p)
            == if Accessed(After(m, frames, calls), frames, call) == Some(p) then |calls| else LastCall(m, frames, calls, p)
  {
    assert (calls + [call])[..|calls|] == calls;
  }

  lemma {:induction false} LastCallBelow(m: Memory, frames: nat, calls: seq<Call>, p: nat)
    ensures -1 <= LastCall(m, frames, calls, p) < |calls|
  {
    if calls != [] { LastCallBelow(m, frames, calls[..|calls| - 1], p); }
  }

  /** One call accesses one page. */
  lemma {:induction false} LastCallsDiffer(m: Memory, frames: nat, calls: seq<Call>, p: nat, q: nat)
    requires p != q && LastCall(m, frames, calls, p) == LastCall(m, frames, calls, q)
    ensures LastCall(m, frames, calls, p) == -1
  {
    if calls != [] {
      var n := |calls| - 1;
      LastCallBelow(m, frames, calls[..n], p);
      LastCallBelow(m, frames, calls[..n], q);
      if Accessed(After(m, frames, calls[..n]), frames, calls[n]) != Some(p) && Accessed(After(m, frames, calls[..n]), frames, calls[n]) != Some(q) {
        LastCallsDiffer(m, frames, calls[..n], p, q);
      }
    }
  }

  lemma TimedStep(m: Memory, frames: nat, calls: seq<Call>, call: Call, answer: Answer, u: Usage, u': Usage)
    requires Timed(m, frames, calls, u) && UseStep(After(m, frames, calls), frames, call, answer, u, u')
    ensures Timed(m, frames, calls + [call], u')
  {
    var a := Accessed(After(m, frames, calls), frames, call);
    forall p, q | p in u'.last && q in u'.last && LastCall(m, frames, calls + [call], p) < LastCall(m, frames, calls + [call], q)
      ensures u'.last[p] < u'.last[q]
    {
      LastCallSnoc(m, frames, calls, call, p);
      LastCallSnoc(m, frames, calls, call, q);
      LastCallBelow(m, frames, calls, q);
      if a.Some? { KeptUses(u, u', After(m, frames, calls).pins, frames, a.value); }
    }
    if a.Some? { KeptUses(u, u', After(m, frames, calls).pins, frames, a.value); }
  }

  /** The page accessed has the present time, all others that are left have theirs. */
  lemma KeptUses(u: Usage, u': Usage, pins: map<nat, nat>, frames: nat, p: nat)
    requires Used(u, u', pins, frames, p)
    ensures u'.now == u.now + 1 && p in u'.last && u'.last[p] == u.now
    ensures forall q :: q in u'.last && q != p ==> q in u.last && u'.last[q] == u.last[q]
  {
  }

  lemma {:induction false} TimedRun(m: Memory, frames: nat, calls: seq<Call>, answers: seq<Answer>, uses: seq<Usage>, i: nat)
    requires UseTrace(m, frames, calls, answers, uses) && i <= |calls|
    requires forall p :: p in uses[0].last ==> uses[0].last[p] < uses[0].now
    ensures Timed(m, frames, calls[..i], uses[i])
  {
    if i > 0 {
      var n := i - 1;
      TimedRun(m, frames, calls, answers, uses, n);
      TraceAt(m, frames, calls, answers, uses, n);
      assert calls[..i] == calls[..n] + [calls[n]];
      TimedStep(m, frames, calls[..n], calls[n], answers[n], uses[n], uses[i]);
    } else {
      assert calls[..0] == [];
    }
  }

  /** The least recently used page is the one whose last access is the earliest. */
  lemma VictimIsEarliest(m: Memory, frames: nat, calls: seq<Call>, u: Usage, v: nat)
    requires Timed(m, frames, calls, u) && Victim(u.last, After(m, frames, calls).pins, v)
    ensures Earliest(m, frames, calls, u.last.Keys, v)
  {
    var pins := After(m, frames, calls).pins;
    forall q | q in u.last.Keys && q !in pins && q != v
      ensures LastCall(m, frames, calls, v) < LastCall(m, frames, calls, q) || LastCall(m, frames, calls, v) == LastCall(m, frames, calls, q) == -1
    {
      assert u.last[v] <= u.last[q];
      if LastCall(m, frames, calls, v) == LastCall(m, frames, calls, q) { LastCallsDiffer(m, frames, calls, v, q); }
    }
  }

  lemma UsedIsLru(m: Memory, frames: nat, calls: seq<Call>, i: nat, answer: Answer, u: Usage, u': Usage)
    requires i < |calls| && Timed(m, frames, calls[..i], u)
    requires UseStep(After(m, frames, calls[..i]), frames, calls[i], answer, u, u')
    ensures LruStep(m, frames, calls, i, answer, u.last.Keys, u'.last.Keys)
  {
    var a := Accessed(After(m, frames, calls[..i]), frames, calls[i]);
    if a.Some? { AccessIsLru(m, frames, calls[..i], u, u', a.value); }
  }

  lemma AccessIsLru(m: Memory, frames: nat, calls: seq<Call>, u: Usage, u': Usage, p: nat)
    requires Timed(m, frames, calls, u) && Used(u, u', After(m, frames, calls).pins, frames, p)
    ensures var res, res' := u.last.Keys, u'.last.Keys;
            if p in res || |res| < frames then res' == res + {p}
            else exists v: nat :: Earliest(m, frames, calls, res, v) && res' == res - {v} + {p}
  {
    assert |u.last.Keys| == |u.last|;
    if p !in u.last && |u.last| >= frames {
      var v: nat :| Victim(u.last, After(m, frames, calls).pins, v) && u'.last == (u.last - {v})[p := u.now];
      VictimIsEarliest(m, frames, calls, u, v);
      KeysAfter(u.last, v, p, u.now);
    } else {
      KeysWith(u.last, p, u.now);
    }
  }

  lemma KeysAfter(last: map<nat, nat>, v: nat, p: nat, t: nat)
    ensures (last - {v})[p := t].Keys == last.Keys - {v} + {p}
  {
  }

  lemma KeysWith(last: map<nat, nat>, p: nat, t: nat)
    ensures last[p := t].Keys == last.Keys + {p}
  {
  }

  lemma RunIsLru(m: Memory, frames: nat, calls: seq<Call>, answers: seq<Answer>, uses: seq<Usage>)
    requires UseTrace(m, frames, calls, answers, uses)
    requires forall p :: p in uses[0].last ==> uses[0].last[p] < uses[0].now
    ensures LruHistory(m, frames, calls, answers, Keys(uses))
  {
    var history := Keys(uses);
    forall i: nat | i < |calls| ensures LruStep(m, frames, calls, i, answers[i], history[i], history[i + 1]) {
      TimedRun(m, frames, calls, answers, uses, i);
      TraceAt(m, frames, calls, answers, uses, i);
      UsedIsLru(m, frames, calls, i, answers[i], uses[i], uses[i + 1]);
    }
  }

  // ----------------------------------------------------------------- determinism

  /** In a run from a new pool every resident page has been accessed. */
  lemma {:induction false} ResidentAccessed(m: Memory, frames: nat, calls: seq<Call>, answers: seq<Answer>, history: seq<set<nat>>, i: nat, p: nat)
    requires LruHistory(m, frames, calls, answers, history) && history[0] == {} && i <= |calls| && p in history[i]
    ensures LastCall(m, frames, calls[..i], p) >= 0
  {
    if i > 0 {
      var n := i - 1;
      assert LruStep(m, frames, calls, n, answers[n], history[n], history[n + 1]);
      assert calls[..i] == calls[..n] + [calls[n]];
      LastCallSnoc(m, frames, calls[..n], calls[n], p);
      if p in history[n] { ResidentAccessed(m, frames, calls, answers, history, n, p); }
    }
  }

  lemma OneVictim(m: Memory, frames: nat, calls: seq<Call>, res: set<nat>, v: nat, w: nat)
    requires Earliest(m, frames, calls, res, v) && Earliest(m, frames, calls, res, w)
    requires forall p :: p in res ==> LastCall(m, frames, calls, p) >= 0
    ensures v == w
  {
  }

  /** From a new pool the calls determine which pages are resident at any time. */
  lemma {:induction false} OneHistory(m: Memory, frames: nat, calls: seq<Call>, a: seq<Answer>, b: seq<Answer>, history: seq<set<nat>>, other: seq<set<nat>>, i: nat)
    requires LruHistory(m, frames, calls, a, history) && LruHistory(m, frames, calls, b, other)
    requires history[0] == {} && other[0] == {} && i <= |calls|
    ensures history[i] == other[i]
  {
    if i > 0 {
      var n := i - 1;
      OneHistory(m, frames, calls, a, b, history, other, n);
      assert LruStep(m, frames, calls, n, a[n], history[n], history[n + 1]);
      assert LruStep(m, frames, calls, n, b[n], other[n], other[n + 1]);
      forall p | p in history[n] ensures LastCall(m, frames, calls[..n], p) >= 0 {
        ResidentAccessed(m, frames, calls, a, history, n, p);
      }
      SameStep(m, frames, calls, n, a[n], b[n], history[n], history[i], other[i]);
    }
  }

  lemma SameStep(m: Memory, frames: nat, calls: seq<Call>, i: nat, a: Answer, b: Answer, res: set<nat>, one: set<nat>, two: set<nat>)
    requires i < |calls| && LruStep(m, frames, calls, i, a, res, one) && LruStep(m, frames, calls, i, b, res, two)
    requires forall p :: p in res ==> LastCall(m, frames, calls[..i], p) >= 0
    ensures one == two
  {
    var acc := Accessed(After(m, frames, calls[..i]), frames, calls[i]);
    if acc.Some? && acc.value !in res && |res| >= frames {
      var v: nat :| Earliest(m, frames, calls[..i], res, v) && one == res - {v} + {acc.value};
      var w: nat :| Earliest(m, frames, calls[..i], res, w) && two == res - {w} + {acc.value};
      OneVictim(m, frames, calls[..i], res, v, w);
    }
  }

  lemma {:induction false} AnswerAt(m: Memory, frames: nat, calls: seq<Call>, answers: seq<Answer>, i: nat)
    requires AllAnswer(m, frames, calls, answers) && i < |calls|
    ensures Answers(After(m, frames, calls[..i]), frames, calls[i], answers[i])
    decreases i
  {
    if i > 0 {
      AnswerAt(Next(m, frames, calls[0]), frames, calls[1..], answers[1..], i - 1);
      assert calls[..i][1..] == calls[1..][..i - 1] && calls[..i][0] == calls[0];
    }
  }

  /** So two new pools of the same size over the same file answer the same calls in the same way,
      flushes included. */
  lemma OneRun(m: Memory, frames: nat, calls: seq<Call>, a: seq<Answer>, b: seq<Answer>, history: seq<set<nat>>, other: seq<set<nat>>)
    requires AllAnswer(m, frames, calls, a) && AllAnswer(m, frames, calls, b)
    requires LruHistory(m, frames, calls, a, history) && LruHistory(m, frames, calls, b, other)
    requires history[0] == {} && other[0] == {}
    ensures a == b && history == other
  {
    forall i: nat | i <= |calls| ensures history[i] == other[i] {
      OneHistory(m, frames, calls, a, b, history, other, i);
    }
    forall i: nat | i < |calls| ensures a[i] == b[i] {
      AnswerAt(m, frames, calls, a, i);
      AnswerAt(m, frames, calls, b, i);
      assert LruStep(m, frames, calls, i, a[i], history[i], history[i + 1]);
      assert LruStep(m, frames, calls, i, b[i], other[i], other[i + 1]);
    }
  }
}
