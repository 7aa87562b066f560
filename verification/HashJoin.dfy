/** The serial hash join: `src/executor/hash_join.cpp`. The left rows are loaded into a table
  keyed by the rendered join key; `Next` walks the right rows and, for each, the bucket of its
  key. The empty string doubles as "no current key".
 */
module HashJoins {
  import opened Basics
  import opened Page
  import opened Bags
  import opened Equijoin
  import opened Values
  import opened Decimal
  import LockFreeTable
  import ParallelJoin
  import WorkClaim

  // ------------------------------------------------------------- specification

  /** A right row with an empty rendered key matches nothing. */
  function Present<L>(lkey: L -> string): L -> Option<string> {
    (l: L) => Some(lkey(l))
  }

  function NonEmpty<R>(rkey: R -> string): R -> Option<string> {
    (r: R) => if rkey(r) == "" then None else Some(rkey(r))
  }

  /** What draining the join yields. */
  function Joined<L, R, O>(left: seq<L>, right: seq<R>, lkey: L -> string, rkey: R -> string, cat: (L, R) -> O): seq<O> {
    NestedLoop(left, right, Present(lkey), NonEmpty(rkey), cat)
  }

  function Bucket<L>(table: map<string, seq<L>>, k: string): seq<L> {
    if k in table then table[k] else []
  }

  /** The table maps each key to the left rows of that key, in build order. */
  ghost predicate TableOk<L>(table: map<string, seq<L>>, lkey: L -> string, left: seq<L>) {
    && (forall k :: Bucket(table, k) == FlatMap(Select(lkey, k), left))
    && (forall k :: k in table ==> table[k] != [])
  }

  lemma TableStep<L>(table: map<string, seq<L>>, lkey: L -> string, left: seq<L>, l: L)
    requires TableOk(table, lkey, left)
    ensures TableOk(table[lkey(l) := Bucket(table, lkey(l)) + [l]], lkey, left + [l])
  {
    var table' := table[lkey(l) := Bucket(table, lkey(l)) + [l]];
    forall k ensures Bucket(table', k) == FlatMap(Select(lkey, k), left + [l]) {
      FlatMapConcat(Select(lkey, k), left, [l]);
      FlatMapOne(Select(lkey, k), l);
      assert Bucket(table, k) == FlatMap(Select(lkey, k), left);
    }
  }

  /** The rows still to come: the rest of the current bucket, then the later right rows. */
  function Remaining<L, R, O>(table: map<string, seq<L>>, right: seq<R>, rkey: R -> string, cat: (L, R) -> O, rc: nat, mc: nat, key: string): seq<O>
    requires rc <= |right| && InStep(table, rc, mc, key)
  {
    Current(table, right, cat, rc, mc, key) + FlatMap(Probe(table, rkey, cat), right[rc..])
  }

  /** When rows of the current bucket are left, there is a current right row. */
  predicate InStep<L>(table: map<string, seq<L>>, rc: nat, mc: nat, key: string) {
    key != "" && mc < |Bucket(table, key)| ==> rc >= 1
  }

  function Current<L, R, O>(table: map<string, seq<L>>, right: seq<R>, cat: (L, R) -> O, rc: nat, mc: nat, key: string): seq<O>
    requires rc <= |right| && InStep(table, rc, mc, key)
  {
    if key != "" && mc < |Bucket(table, key)| then FlatMap(Pair(cat, right[rc - 1]), Bucket(table, key)[mc..]) else []
  }

  function Probe<L, R, O>(table: map<string, seq<L>>, rkey: R -> string, cat: (L, R) -> O): R -> seq<O> {
    (r: R) => if rkey(r) == "" then [] else FlatMap(Pair(cat, r), Bucket(table, rkey(r)))
  }

  /** Emitting a row of the current bucket. */
  lemma EmitStep<L, R, O>(table: map<string, seq<L>>, right: seq<R>, rkey: R -> string, cat: (L, R) -> O, rc: nat, mc: nat, key: string)
    requires 1 <= rc <= |right| && key != "" && mc < |Bucket(table, key)|
    ensures Remaining(table, right, rkey, cat, rc, mc, key)
            == [cat(Bucket(table, key)[mc], right[rc - 1])] + Remaining(table, right, rkey, cat, rc, mc + 1, key)
  {
    CurrentStep(table, right, cat, rc, mc, key);
    var now, next, later := Current(table, right, cat, rc, mc, key), Current(table, right, cat, rc, mc + 1, key), FlatMap(Probe(table, rkey, cat), right[rc..]);
    Assoc([cat(Bucket(table, key)[mc], right[rc - 1])], next, later);
  }

  lemma CurrentStep<L, R, O>(table: map<string, seq<L>>, right: seq<R>, cat: (L, R) -> O, rc: nat, mc: nat, key: string)
    requires 1 <= rc <= |right| && key != "" && mc < |Bucket(table, key)|
    ensures Current(table, right, cat, rc, mc, key) == [cat(Bucket(table, key)[mc], right[rc - 1])] + Current(table, right, cat, rc, mc + 1, key)
  {
    var f, bucket := Pair(cat, right[rc - 1]), Bucket(table, key);
    assert bucket[mc..][0] == bucket[mc] && bucket[mc..][1..] == bucket[mc + 1..];
    assert FlatMap(f, bucket[mc..]) == f(bucket[mc]) + FlatMap(f, bucket[mc + 1..]);
  }

  /** Moving on to the next right row. */
  lemma AdvanceStep<L, R, O>(table: map<string, seq<L>>, right: seq<R>, rkey: R -> string, cat: (L, R) -> O, rc: nat, mc: nat)
    requires rc < |right|
    ensures Remaining(table, right, rkey, cat, rc, mc, "") == Remaining(table, right, rkey, cat, rc + 1, 0, rkey(right[rc]))
  {
    assert right[rc..] == [right[rc]] + right[rc + 1..];
    FlatMapConcat(Probe(table, rkey, cat), [right[rc]], right[rc + 1..]);
    FlatMapOne(Probe(table, rkey, cat), right[rc]);
    var bucket := Bucket(table, rkey(right[rc]));
    assert bucket[0..] == bucket;
  }

  /** From the first right row, without a current key, the whole join remains. */
  lemma StartsWhole<L, R, O>(table: map<string, seq<L>>, lkey: L -> string, left: seq<L>, right: seq<R>, rkey: R -> string, cat: (L, R) -> O, key: string)
    requires TableOk(table, lkey, left) && (key == "" || key !in table)
    ensures Remaining(table, right, rkey, cat, 0, 0, key) == Joined(left, right, lkey, rkey, cat)
  {
    assert right[0..] == right;
    var f, g := Probe(table, rkey, cat), JoinOne(left, Present(lkey), NonEmpty(rkey), cat);
    forall i | 0 <= i < |right| ensures f(right[i]) == g(right[i]) {
      var r := right[i];
      if rkey(r) == "" {
        SelectNone(left, lkey);
      } else {
        SelectPresent(left, lkey, rkey(r));
        assert Bucket(table, rkey(r)) == FlatMap(Select(lkey, rkey(r)), left);
      }
    }
    FlatMapSame(f, g, right);
  }

  lemma {:induction false} SelectNone<L>(left: seq<L>, lkey: L -> string)
    ensures FlatMap(Select(Present(lkey), None), left) == []
  {
    if left != [] { SelectNone(left[1..], lkey); }
  }

  lemma SelectPresent<L>(left: seq<L>, lkey: L -> string, k: string)
    ensures FlatMap(Select(Present(lkey), Some(k)), left) == FlatMap(Select(lkey, k), left)
  {
    FlatMapSame(Select(Present(lkey), Some(k)), Select(lkey, k), left);
  }

  // ------------------------------------------------------------------ operator

  class HashJoin<L, R, O> {
    const leftKey: L -> string
    const rightKey: R -> string
    const cat: (L, R) -> O
    var hashTable: map<string, seq<L>>
    var rightBuffer: seq<R>
    var rightCursor: nat
    var matchCursor: nat
    var currentKey: string

    /** The cursors are in step. After `Init` this is all that can fail. */
    ghost predicate Valid()
      reads this
    {
      rightCursor <= |rightBuffer| && InStep(hashTable, rightCursor, matchCursor, currentKey)
    }

    ghost function Rest(): seq<O>
      requires Valid()
      reads this
    {
      Remaining(hashTable, rightBuffer, rightKey, cat, rightCursor, matchCursor, currentKey)
    }

    constructor (lkey: L -> string, rkey: R -> string, concat: (L, R) -> O)
      ensures Valid() && currentKey == ""
      ensures leftKey == lkey && rightKey == rkey && cat == concat
    {
      leftKey, rightKey, cat := lkey, rkey, concat;
      hashTable, rightBuffer, rightCursor, matchCursor, currentKey := map[], [], 0, 0, "";
    }

    /** Builds the table. The current key is left as it was: the run starts over exactly when
        that key is empty or no left row has it, and otherwise `Next` would read before the
        first right row. */
    method Init(left: seq<L>, right: seq<R>)
      modifies this
      ensures currentKey == old(currentKey)
      ensures Valid() <==> currentKey == "" || forall i :: 0 <= i < |left| ==> leftKey(left[i]) != currentKey
      ensures Valid() ==> Rest() == Joined(left, right, leftKey, rightKey, cat)
    {
      hashTable, rightBuffer, rightCursor, matchCursor := map[], [], 0, 0;
      hashTable := Build(left, leftKey);
      rightBuffer := right;
      KeyInTable(hashTable, leftKey, left, currentKey);
      if Valid() {
        StartsWhole(hashTable, leftKey, left, right, rightKey, cat, currentKey);
      }
    }

    /** The next joined row, if any. A run that has ended has no current key, so `Init` can
        start it again. */
    method Next() returns (out: seq<O>)
      requires Valid()
      modifies this`rightCursor, this`matchCursor, this`currentKey
      ensures Valid() && old(Rest()) == out + Rest()
      ensures |out| <= 1
      ensures out == [] ==> old(Rest()) == [] && currentKey == ""
    {
      while true
        invariant Valid() && Rest() == old(Rest())
        decreases |rightBuffer| - rightCursor, currentKey != ""
      {
        if currentKey != "" {
          if currentKey in hashTable && matchCursor < |hashTable[currentKey]| {
            var row := Emit();
            return [row];
          }
          LeaveBucket();
        }
        if rightCursor >= |rightBuffer| {
          assert rightBuffer[rightCursor..] == [];
          return [];
        }
        Advance();
      }
    }

    /** The next row of the current bucket. */
    method Emit() returns (row: O)
      requires Valid() && currentKey != "" && currentKey in hashTable && matchCursor < |hashTable[currentKey]|
      modifies this`matchCursor
      ensures Valid() && old(Rest()) == [row] + Rest()
    {
      EmitStep(hashTable, rightBuffer, rightKey, cat, rightCursor, matchCursor, currentKey);
      row := cat(hashTable[currentKey][matchCursor], rightBuffer[rightCursor - 1]);
      matchCursor := matchCursor + 1;
    }

    /** The current bucket is exhausted. */
    method LeaveBucket()
      requires Valid() && !(currentKey in hashTable && matchCursor < |hashTable[currentKey]|)
      modifies this`matchCursor, this`currentKey
      ensures Valid() && currentKey == "" && Rest() == old(Rest())
    {
      currentKey := "";
      matchCursor := 0;
    }

    /** The next right row becomes the current one. */
    method Advance()
      requires Valid() && currentKey == "" && rightCursor < |rightBuffer|
      modifies this`rightCursor, this`matchCursor, this`currentKey
      ensures Valid() && rightCursor == old(rightCursor) + 1 && Rest() == old(Rest())
    {
      AdvanceStep(hashTable, rightBuffer, rightKey, cat, rightCursor, matchCursor);
      currentKey := rightKey(rightBuffer[rightCursor]);
      rightCursor := rightCursor + 1;
      matchCursor := 0;
    }

    /** Draining from any state gives all that remained. */
    method Drain() returns (out: seq<O>)
      requires Valid()
      modifies this`rightCursor, this`matchCursor, this`currentKey
      ensures Valid() && out == old(Rest()) && currentKey == ""
    {
      out := [];
      ghost var all := Rest();
      while true
        invariant Valid() && out + Rest() == all
        decreases |Rest()|
      {
        var row := Next();
        if row == [] { return; }
        Assoc(out, row, Rest());
        out := out + row;
      }
    }
  }

  method Build<L>(left: seq<L>, lkey: L -> string) returns (table: map<string, seq<L>>)
    ensures TableOk(table, lkey, left)
  {
    table := map[];
    for i := 0 to |left|
      invariant TableOk(table, lkey, left[..i])
    {
      TableStep(table, lkey, left[..i], left[i]);
      assert left[..i + 1] == left[..i] + [left[i]];
      var key := lkey(left[i]);
      table := table[key := Bucket(table, key) + [left[i]]];
    }
    assert left[..|left|] == left;
  }

  lemma KeyInTable<L>(table: map<string, seq<L>>, lkey: L -> string, left: seq<L>, k: string)
    requires TableOk(table, lkey, left)
    ensures Bucket(table, k) == [] <==> forall i :: 0 <= i < |left| ==> lkey(left[i]) != k
    ensures Bucket(table, k) == [] <==> k !in table
  {
    assert Bucket(table, k) == FlatMap(Select(lkey, k), left);
    SelectEmpty(left, lkey, k);
  }

  lemma {:induction false} SelectEmpty<L>(left: seq<L>, lkey: L -> string, k: string)
    ensures FlatMap(Select(lkey, k), left) == [] <==> forall i :: 0 <= i < |left| ==> lkey(left[i]) != k
  {
    if left != [] {
      SelectEmpty(left[1..], lkey, k);
      Tail(left, (l: L) => lkey(l) != k);
    }
  }

  // ---------------------------------------------------------------- properties

  /** The join is the equijoin on rendered keys if and only if it is not the case that both
      sides have a row with an empty key. */
  lemma EquijoinIff<L, R, O>(left: seq<L>, right: seq<R>, lkey: L -> string, rkey: R -> string, cat: (L, R) -> O)
    ensures multiset(Joined(left, right, lkey, rkey, cat)) == multiset(NestedLoop(left, right, lkey, rkey, cat))
            <==> !(EmptyKey(left, lkey) && EmptyKey(right, rkey))
    ensures !(EmptyKey(left, lkey) && EmptyKey(right, rkey))
            ==> Joined(left, right, lkey, rkey, cat) == NestedLoop(left, right, lkey, rkey, cat)
  {
    SameJoinIff(left, right, Present(lkey), NonEmpty(rkey), lkey, rkey, cat);
    CoarserJoin(left, right, Present(lkey), NonEmpty(rkey), lkey, rkey, cat);
    if EmptyKey(left, lkey) && EmptyKey(right, rkey) {
      var i :| 0 <= i < |left| && lkey(left[i]) == "";
      var j :| 0 <= j < |right| && rkey(right[j]) == "";
      assert lkey(left[i]) == rkey(right[j]) && Present(lkey)(left[i]) != NonEmpty(rkey)(right[j]);
    }
  }

  ghost predicate EmptyKey<T>(rows: seq<T>, key: T -> string) {
    exists i :: 0 <= i < |rows| && key(rows[i]) == ""
  }

  /** A key column as the join reads it. */
  function Text<T>(key: T -> Value): T -> string {
    (x: T) => Rendered(key(x))
  }

  function Int<T>(key: T -> Value): T -> int {
    (x: T) => key(x).AsInt()
  }

  ghost predicate IntColumn<T>(rows: seq<T>, key: T -> Value) {
    forall i :: 0 <= i < |rows| ==> key(rows[i]).IntValue?
  }

  ghost predicate TextColumn<T>(rows: seq<T>, key: T -> Value) {
    forall i :: 0 <= i < |rows| ==> key(rows[i]).StrValue?
  }

  /** On INT keys the serial join is the equijoin on the numbers. */
  lemma IntJoin<L, R, O>(left: seq<L>, right: seq<R>, lkey: L -> Value, rkey: R -> Value, cat: (L, R) -> O)
    requires IntColumn(left, lkey) && IntColumn(right, rkey)
    ensures Joined(left, right, Text(lkey), Text(rkey), cat) == NestedLoop(left, right, Int(lkey), Int(rkey), cat)
  {
    forall i, j | 0 <= i < |left| && 0 <= j < |right|
      ensures Present(Text(lkey))(left[i]) == NonEmpty(Text(rkey))(right[j]) <==> Int(lkey)(left[i]) == Int(rkey)(right[j])
    {
      ToStringInjective(lkey(left[i]).int_, rkey(right[j]).int_);
      ToStringInjective(rkey(right[j]).int_, lkey(left[i]).int_);
    }
    CoarserJoin(left, right, Present(Text(lkey)), NonEmpty(Text(rkey)), Int(lkey), Int(rkey), cat);
  }

  /** On INT keys the parallel join returns the rows of the serial one, each as often, for any
      number of workers, every hash function and every interleaving. */
  lemma ParallelIsSerial<L(!new), R(!new), O(!new)>(
      left: seq<L>, right: seq<R>, lkey: L -> Value, rkey: R -> Value, cat: (L, R) -> O, hash: int -> nat, workers: nat,
      build: seq<ParallelJoin.Build<L>>, bts: seq<nat>, lists: seq<seq<nat>>, probe: seq<WorkClaim.State<O>>, pts: seq<nat>)
    requires workers >= 1 && IntColumn(left, lkey) && IntColumn(right, rkey)
    requires ParallelJoin.Run(build, bts, workers, left, Int(lkey), hash) && LockFreeTable.HashFits(build[0].table, hash)
    requires ParallelJoin.AllExited(build[|build| - 1])
    requires LockFreeTable.Inv(build[|build| - 1].table, lists, hash)
    requires WorkClaim.Run(probe, pts, workers, |right|, ParallelJoin.Probe(build[|build| - 1].table, lists, hash, right, Int(rkey), cat), ParallelJoin.Never())
    requires WorkClaim.AllFinished(probe[|probe| - 1])
    ensures multiset(Concat(probe[|probe| - 1].local)) == multiset(Joined(left, right, Text(lkey), Text(rkey), cat))
  {
    ParallelJoin.JoinComplete(left, right, Int(lkey), Int(rkey), cat, hash, workers, build, bts, lists, probe, pts);
    IntJoin(left, right, lkey, rkey, cat);
  }

  /** On VARCHAR keys the parallel join compares the default integer 0 with itself, so it pairs
      all rows; that is the equijoin if and only if all keys of both sides are equal. */
  lemma TextKeysInParallel<L, R, O>(left: seq<L>, right: seq<R>, lkey: L -> Value, rkey: R -> Value, cat: (L, R) -> O)
    requires TextColumn(left, lkey) && TextColumn(right, rkey)
    ensures multiset(NestedLoop(left, right, Int(lkey), Int(rkey), cat)) == multiset(NestedLoop(left, right, Text(lkey), Text(rkey), cat))
            <==> forall i, j :: 0 <= i < |left| && 0 <= j < |right| ==> lkey(left[i]) == rkey(right[j])
  {
    SameJoinIff(left, right, Text(lkey), Text(rkey), Int(lkey), Int(rkey), cat);
    if Implies(left, right, Int(lkey), Int(rkey), Text(lkey), Text(rkey)) {
      forall i, j | 0 <= i < |left| && 0 <= j < |right| ensures lkey(left[i]) == rkey(right[j]) {
        assert Int(lkey)(left[i]) == Int(rkey)(right[j]);
      }
    }
  }
}
