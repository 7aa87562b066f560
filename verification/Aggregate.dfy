/** Grouped aggregation: `src/executor/aggregate.cpp`. Rows are accumulated into groups by
  their key; the groups are emitted in the order in which they first appeared.
 */
module Aggregates {
  import opened Bags
  import opened Basics
  import opened Equijoin
  import opened Values
  import opened Decimal
  import opened GroupKeys
  import opened Types

  // --------------------------------------------------------------- integer types

  const INT64_MAX := 0x7FFF_FFFF_FFFF_FFFF
  const INT64_MIN := -0x8000_0000_0000_0000

  /** `static_cast<int32_t>`. */
  function Cast32(v: int): int {
    (v + 0x8000_0000) % 0x1_0000_0000 - 0x8000_0000
  }

  /** The cast keeps a value if and only if it fits. */
  lemma CastIff(v: int)
    ensures IsInt32(Cast32(v)) && (Cast32(v) == v <==> IsInt32(v))
    ensures exists k :: Cast32(v) == v + k * 0x1_0000_0000
  {
    var k := -((v + 0x8000_0000) / 0x1_0000_0000);
    assert Cast32(v) == v + k * 0x1_0000_0000;
  }

  /** C++ division, which truncates toward zero. */
  function TruncDiv(a: int, b: int): int
    requires b > 0
  {
    if a >= 0 then a / b else -((-a) / b)
  }

  // --------------------------------------------------------------- specification

  /** One aggregate expression: the name of the function and its argument. */
  datatype Agg<!T> = Agg(func: string, arg: T -> Value)

  /** The values of an argument over the rows of a group. */
  function ArgOf<T>(arg: T -> Value, rows: seq<T>): (r: seq<int>)
    ensures |r| == |rows| && forall i :: 0 <= i < |rows| ==> r[i] == arg(rows[i]).AsInt()
  {
    seq(|rows|, i requires 0 <= i < |rows| => arg(rows[i]).AsInt())
  }

  function Total(vs: seq<int>): int {
    if vs == [] then 0 else Total(vs[..|vs| - 1]) + vs[|vs| - 1]
  }

  /** The least value, starting from the largest 32-bit integer. */
  function Least(vs: seq<int>): int {
    if vs == [] then INT_MAX
    else
      var m := Least(vs[..|vs| - 1]);
      if vs[|vs| - 1] < m then vs[|vs| - 1] else m
  }

  function Greatest(vs: seq<int>): int {
    if vs == [] then INT_MIN
    else
      var m := Greatest(vs[..|vs| - 1]);
      if vs[|vs| - 1] > m then vs[|vs| - 1] else m
  }

  /** The column an aggregate contributes for a group; an unknown function contributes none. */
  function Result<T>(agg: Agg<T>, rows: seq<T>): seq<Value>
    requires rows != []
  {
    var vs := ArgOf(agg.arg, rows);
    if agg.func == "COUNT" then [IntValue(Cast32(|rows|))]
    else if agg.func == "SUM" then [IntValue(Cast32(Total(vs)))]
    else if agg.func == "AVG" then [IntValue(Cast32(TruncDiv(Total(vs), |rows|)))]
    else if agg.func == "MIN" then [IntValue(Least(vs))]
    else if agg.func == "MAX" then [IntValue(Greatest(vs))]
    else []
  }

  function Results<T>(rows: seq<T>): Agg<T> -> seq<Value> {
    (agg: Agg<T>) => if rows == [] then [] else Result(agg, rows)
  }

  /** The group-by values of a row, and its key. */
  function GroupVals<T>(groupBy: seq<T -> Value>, r: T): (vals: seq<Value>)
    ensures |vals| == |groupBy| && forall i :: 0 <= i < |groupBy| ==> vals[i] == groupBy[i](r)
  {
    seq(|groupBy|, i requires 0 <= i < |groupBy| => groupBy[i](r))
  }

  function Key<T>(groupBy: seq<T -> Value>): T -> string {
    (r: T) => MakeKey(GroupVals(groupBy, r))
  }

  /** The rows of a group, in input order. */
  function Members<T>(groupBy: seq<T -> Value>, rows: seq<T>, k: string): seq<T> {
    FlatMap(Select(Key(groupBy), k), rows)
  }

  /** The keys in the order of their first appearance. */
  function FirstSeen<T>(key: T -> string, rows: seq<T>): seq<string> {
    if rows == [] then []
    else
      var before := FirstSeen(key, rows[..|rows| - 1]);
      var k := key(rows[|rows| - 1]);
      if k in before then before else before + [k]
  }

  /** The output row of a group. */
  function GroupRow<T>(groupBy: seq<T -> Value>, aggs: seq<Agg<T>>, rows: seq<T>): seq<Value> {
    if rows == [] then [] else GroupVals(groupBy, rows[0]) + FlatMap(Results(rows), aggs)
  }

  /** What draining the operator yields. */
  function Grouped<T>(groupBy: seq<T -> Value>, aggs: seq<Agg<T>>, rows: seq<T>): seq<seq<Value>> {
    OutputRows(groupBy, aggs, rows, FirstSeen(Key(groupBy), rows))
  }

  function OutputRows<T>(groupBy: seq<T -> Value>, aggs: seq<Agg<T>>, rows: seq<T>, keys: seq<string>): (r: seq<seq<Value>>)
    ensures |r| == |keys|
  {
    seq(|keys|, i requires 0 <= i < |keys| => GroupRow(groupBy, aggs, Members(groupBy, rows, keys[i])))
  }

  // ----------------------------------------------------------------- accumulation

  datatype Group = Group(keyVals: seq<Value>, counts: seq<int>, sums: seq<int>, mins: seq<int>, maxs: seq<int>)

  predicate Shaped(g: Group, n: nat) {
    |g.counts| == |g.sums| == |g.mins| == |g.maxs| == n
  }

  /** Accumulator `i` summarises the rows of the group. COUNT reads no argument. */
  predicate CellOk<T>(g: Group, aggs: seq<Agg<T>>, rows: seq<T>, i: nat)
    requires Shaped(g, |aggs|) && i < |aggs|
  {
    && g.counts[i] == |rows|
    && (aggs[i].func != "COUNT" ==>
          var vs := ArgOf(aggs[i].arg, rows);
          g.sums[i] == Total(vs) && g.mins[i] == Least(vs) && g.maxs[i] == Greatest(vs))
  }

  predicate GroupOk<T>(g: Group, vals: seq<Value>, aggs: seq<Agg<T>>, rows: seq<T>) {
    g.keyVals == vals && Shaped(g, |aggs|) && forall i :: 0 <= i < |aggs| ==> CellOk(g, aggs, rows, i)
  }

  method NewGroup<T>(vals: seq<Value>, aggs: seq<Agg<T>>) returns (g: Group)
    ensures GroupOk(g, vals, aggs, [])
  {
    var n := |aggs|;
    g := Group(vals, seq(n, _ => 0), seq(n, _ => 0), seq(n, _ => INT_MAX), seq(n, _ => INT_MIN));
  }

  lemma ArgSnoc<T>(arg: T -> Value, rows: seq<T>, r: T)
    ensures var vs, vs' := ArgOf(arg, rows), ArgOf(arg, rows + [r]);
            vs'[..|vs'| - 1] == vs && vs'[|vs'| - 1] == arg(r).AsInt()
  {
  }

  /** One row into every accumulator of its group. */
  method Accumulate<T>(g0: Group, vals: seq<Value>, aggs: seq<Agg<T>>, ghost rows: seq<T>, r: T) returns (g: Group)
    requires GroupOk(g0, vals, aggs, rows)
    ensures GroupOk(g, vals, aggs, rows + [r])
  {
    g := g0;
    for i := 0 to |aggs|
      invariant g.keyVals == vals && Shaped(g, |aggs|)
      invariant forall j :: 0 <= j < i ==> CellOk(g, aggs, rows + [r], j)
      invariant forall j :: i <= j < |aggs| ==> CellOk(g, aggs, rows, j)
    {
      ghost var before := g;
      assert CellOk(before, aggs, rows, i);
      g := AddToCell(g, aggs, rows, r, i);
      forall j | 0 <= j < i ensures CellOk(g, aggs, rows + [r], j) {
        assert CellOk(before, aggs, rows + [r], j);
      }
      forall j | i < j < |aggs| ensures CellOk(g, aggs, rows, j) {
        assert CellOk(before, aggs, rows, j);
      }
    }
  }

  method AddToCell<T>(g0: Group, aggs: seq<Agg<T>>, ghost rows: seq<T>, r: T, i: nat) returns (g: Group)
    requires Shaped(g0, |aggs|) && i < |aggs| && CellOk(g0, aggs, rows, i)
    ensures g.keyVals == g0.keyVals && Shaped(g, |aggs|) && CellOk(g, aggs, rows + [r], i)
    ensures forall j :: 0 <= j < |aggs| && j != i ==>
              g.counts[j] == g0.counts[j] && g.sums[j] == g0.sums[j] && g.mins[j] == g0.mins[j] && g.maxs[j] == g0.maxs[j]
  {
    g := g0.(counts := g0.counts[i := g0.counts[i] + 1]);
    if aggs[i].func != "COUNT" {
      ArgSnoc(aggs[i].arg, rows, r);
      var v := aggs[i].arg(r).AsInt();
      g := g.(sums := g.sums[i := g.sums[i] + v]);
      if v < g.mins[i] { g := g.(mins := g.mins[i := v]); }
      if v > g.maxs[i] { g := g.(maxs := g.maxs[i := v]); }
    }
  }

  // --------------------------------------------------------------------- operator

  /** The groups and their order, as the rows read so far determine them. */
  ghost predicate GroupsOk<T>(groups: map<string, Group>, order: seq<string>, groupBy: seq<T -> Value>, aggs: seq<Agg<T>>, rows: seq<T>) {
    && order == FirstSeen(Key(groupBy), rows)
    && (forall k :: k in groups <==> k in order)
    && (forall k :: k in groups ==> OneGroupOk(groups[k], groupBy, aggs, Members(groupBy, rows, k)))
  }

  ghost predicate OneGroupOk<T>(g: Group, groupBy: seq<T -> Value>, aggs: seq<Agg<T>>, members: seq<T>) {
    members != [] && GroupOk(g, GroupVals(groupBy, members[0]), aggs, members)
  }

  lemma MembersSnoc<T>(groupBy: seq<T -> Value>, rows: seq<T>, r: T, k: string)
    ensures Members(groupBy, rows + [r], k) == if Key(groupBy)(r) == k then Members(groupBy, rows, k) + [r] else Members(groupBy, rows, k)
  {
    FlatMapConcat(Select(Key(groupBy), k), rows, [r]);
    FlatMapOne(Select(Key(groupBy), k), r);
  }

  lemma FirstSeenSnoc<T>(key: T -> string, rows: seq<T>, r: T)
    ensures FirstSeen(key, rows + [r]) == if key(r) in FirstSeen(key, rows) then FirstSeen(key, rows) else FirstSeen(key, rows) + [key(r)]
  {
    assert (rows + [r])[..|rows|] == rows;
  }

  /** The keys seen are those of the rows, each once. */
  lemma {:induction false} FirstSeenKeys<T>(key: T -> string, rows: seq<T>)
    ensures forall k :: k in FirstSeen(key, rows) <==> exists i :: 0 <= i < |rows| && key(rows[i]) == k
    ensures forall i, j :: 0 <= i < j < |FirstSeen(key, rows)| ==> FirstSeen(key, rows)[i] != FirstSeen(key, rows)[j]
  {
    if rows != [] {
      var n := |rows| - 1;
      FirstSeenKeys(key, rows[..n]);
      assert rows == rows[..n] + [rows[n]];
      FirstSeenSnoc(key, rows[..n], rows[n]);
    }
  }

  /** A key not seen yet has no rows yet. */
  lemma NotSeen<T>(groupBy: seq<T -> Value>, rows: seq<T>, k: string)
    requires k !in FirstSeen(Key(groupBy), rows)
    ensures Members(groupBy, rows, k) == []
  {
    FirstSeenKeys(Key(groupBy), rows);
    NoMembers(Key(groupBy), rows, k);
  }

  lemma {:induction false} NoMembers<T>(key: T -> string, rows: seq<T>, k: string)
    requires forall i :: 0 <= i < |rows| ==> key(rows[i]) != k
    ensures FlatMap(Select(key, k), rows) == []
  {
    if rows != [] { NoMembers(key, rows[1..], k); }
  }

  /** A row joins its group. */
  lemma GroupsStep<T>(groups: map<string, Group>, order: seq<string>, groupBy: seq<T -> Value>, aggs: seq<Agg<T>>, rows: seq<T>, r: T, g: Group)
    requires GroupsOk(groups, order, groupBy, aggs, rows)
    requires var k := Key(groupBy)(r);
             OneGroupOk(g, groupBy, aggs, Members(groupBy, rows, k) + [r])
    ensures var k := Key(groupBy)(r);
            GroupsOk(groups[k := g], if k in groups then order else order + [k], groupBy, aggs, rows + [r])
  {
    var k0 := Key(groupBy)(r);
    FirstSeenSnoc(Key(groupBy), rows, r);
    forall k | k in groups[k0 := g] ensures OneGroupOk(groups[k0 := g][k], groupBy, aggs, Members(groupBy, rows + [r], k)) {
      MembersSnoc(groupBy, rows, r, k);
    }
  }

  class HashAggregate<T(!new)> {
    const groupBy: seq<T -> Value>
    const aggExprs: seq<Agg<T>>
    var groups: map<string, Group>
    var groupOrder: seq<string>
    var cursor: nat
    ghost var rows: seq<T>

    ghost predicate Valid()
      reads this
    {
      GroupsOk(groups, groupOrder, groupBy, aggExprs, rows) && cursor <= |groupOrder|
    }

    constructor (exprs: seq<T -> Value>, aggs: seq<Agg<T>>)
      ensures Valid() && groupBy == exprs && aggExprs == aggs && rows == [] && cursor == 0
    {
      groupBy, aggExprs := exprs, aggs;
      groups, groupOrder, cursor, rows := map[], [], 0, [];
    }

    /** Reads and groups the whole input. */
    method Init(input: seq<T>)
      modifies this
      ensures Valid() && rows == input && cursor == 0
    {
      groups, groupOrder, cursor, rows := map[], [], 0, [];
      for i := 0 to |input|
        invariant Valid() && rows == input[..i] && cursor == 0
      {
        Snoc(input, i);
        Add(input[i]);
      }
      assert input[..|input|] == input;
    }

    /** One turn of the loop of `Init`. */
    method Add(r: T)
      requires Valid()
      modifies this`groups, this`groupOrder, this`rows
      ensures Valid() && rows == old(rows) + [r] && cursor == old(cursor)
    {
      var vals := GroupVals(groupBy, r);
      var key := BuildKey(vals);
      var g := GroupWith(groups, groupOrder, groupBy, aggExprs, rows, r, key, vals);
      GroupsStep(groups, groupOrder, groupBy, aggExprs, rows, r, g);
      if key !in groups { groupOrder := groupOrder + [key]; }
      groups := groups[key := g];
      rows := rows + [r];
    }

    /** The row of the next group, if any. */
    method Next() returns (out: seq<seq<Value>>)
      requires Valid()
      modifies this`cursor
      ensures Valid() && cursor == if old(cursor) < |groupOrder| then old(cursor) + 1 else old(cursor)
      ensures out == if old(cursor) < |groupOrder| then [Grouped(groupBy, aggExprs, rows)[old(cursor)]] else []
    {
      if cursor >= |groupOrder| { return []; }
      var row := RowOf(groups, groupOrder, groupBy, aggExprs, rows, cursor);
      out := [row];
      cursor := cursor + 1;
    }

    method Drain() returns (out: seq<seq<Value>>)
      requires Valid() && cursor == 0
      modifies this`cursor
      ensures Valid() && out == Grouped(groupBy, aggExprs, rows)
      ensures |out| == |FirstSeen(Key(groupBy), rows)|
      ensures forall c :: 0 <= c < |out| ==> RowShows(groupBy, aggExprs, Members(groupBy, rows, FirstSeen(Key(groupBy), rows)[c]), out[c])
    {
      forall c: nat | c < |FirstSeen(Key(groupBy), rows)|
        ensures RowShows(groupBy, aggExprs, Members(groupBy, rows, FirstSeen(Key(groupBy), rows)[c]), Grouped(groupBy, aggExprs, rows)[c])
      {
        GroupedShows(groupBy, aggExprs, rows, c);
      }
      out := [];
      ghost var all := Grouped(groupBy, aggExprs, rows);
      while cursor < |groupOrder|
        invariant Valid() && out == all[..cursor]
      {
        Snoc(all, cursor);
        var row := Next();
        out := out + row;
      }
    }
  }

  /** The output row of the `c`-th group. */
  method RowOf<T>(groups: map<string, Group>, order: seq<string>, ghost groupBy: seq<T -> Value>, aggs: seq<Agg<T>>, ghost rows: seq<T>, c: nat)
    returns (row: seq<Value>)
    requires GroupsOk(groups, order, groupBy, aggs, rows) && c < |order|
    ensures row == Grouped(groupBy, aggs, rows)[c]
  {
    var g := groups[order[c]];
    ghost var members := Members(groupBy, rows, order[c]);
    assert OneGroupOk(g, groupBy, aggs, members);
    var vals := Output(g, aggs, members);
    row := g.keyVals + vals;
  }

  /** The group of a row, created if need be, with the row accumulated. */
  method GroupWith<T>(groups: map<string, Group>, ghost order: seq<string>, groupBy: seq<T -> Value>, aggs: seq<Agg<T>>, ghost rows: seq<T>, r: T, key: string, vals: seq<Value>)
    returns (g: Group)
    requires GroupsOk(groups, order, groupBy, aggs, rows) && key == Key(groupBy)(r) && vals == GroupVals(groupBy, r)
    ensures OneGroupOk(g, groupBy, aggs, Members(groupBy, rows, key) + [r])
  {
    ghost var members := Members(groupBy, rows, key);
    if key !in groups {
      NotSeen(groupBy, rows, key);
      g := NewGroup(vals, aggs);
    } else {
      g := groups[key];
      assert OneGroupOk(g, groupBy, aggs, members);
    }
    g := Accumulate(g, g.keyVals, aggs, members, r);
  }

  /** The aggregate columns of a group. */
  method Output<T>(g: Group, aggs: seq<Agg<T>>, ghost members: seq<T>) returns (vals: seq<Value>)
    requires members != [] && Shaped(g, |aggs|) && forall i :: 0 <= i < |aggs| ==> CellOk(g, aggs, members, i)
    ensures vals == FlatMap(Results(members), aggs)
  {
    vals := [];
    for i := 0 to |aggs|
      invariant vals == FlatMap(Results(members), aggs[..i])
    {
      assert CellOk(g, aggs, members, i);
      assert aggs[..i + 1] == aggs[..i] + [aggs[i]];
      FlatMapConcat(Results(members), aggs[..i], [aggs[i]]);
      FlatMapOne(Results(members), aggs[i]);
      var f := aggs[i].func;
      if f == "COUNT" { vals := vals + [IntValue(Cast32(g.counts[i]))]; }
      else if f == "SUM" { vals := vals + [IntValue(Cast32(g.sums[i]))]; }
      else if f == "AVG" { vals := vals + [IntValue(Cast32(TruncDiv(g.sums[i], if g.counts[i] > 0 then g.counts[i] else 1)))]; }
      else if f == "MIN" { vals := vals + [IntValue(g.mins[i])]; }
      else if f == "MAX" { vals := vals + [IntValue(g.maxs[i])]; }
    }
    assert aggs[..|aggs|] == aggs;
  }

  // -------------------------------------------------------------------- properties

  /** Every input row is in exactly one group: the groups, in output order, hold the input. */
  lemma {:induction false} GroupsPartition<T>(groupBy: seq<T -> Value>, rows: seq<T>)
    ensures multiset(FlatMap((k: string) => Members(groupBy, rows, k), FirstSeen(Key(groupBy), rows))) == multiset(rows)
  {
    if rows == [] {
    } else {
      var n := |rows| - 1;
      var before, r := rows[..n], rows[n];
      assert rows == before + [r];
      GroupsPartition(groupBy, before);
      FirstSeenSnoc(Key(groupBy), before, r);
      FirstSeenKeys(Key(groupBy), before);
      var k, seen := Key(groupBy)(r), FirstSeen(Key(groupBy), before);
      var f, f' := (k: string) => Members(groupBy, before, k), (k: string) => Members(groupBy, rows, k);
      if k in seen {
        GrowOne(groupBy, before, r, seen);
      } else {
        FlatMapConcat(f', seen, [k]);
        FlatMapOne(f', k);
        NotSeen(groupBy, before, k);
        MembersSnoc(groupBy, before, r, k);
        forall i | 0 <= i < |seen| ensures f(seen[i]) == f'(seen[i]) {
          MembersSnoc(groupBy, before, r, seen[i]);
        }
        FlatMapSame(f, f', seen);
      }
    }
  }

  /** Among distinct keys, exactly one group grows. */
  lemma {:induction false} GrowOne<T>(groupBy: seq<T -> Value>, rows: seq<T>, r: T, keys: seq<string>)
    requires Key(groupBy)(r) in keys && forall i, j :: 0 <= i < j < |keys| ==> keys[i] != keys[j]
    ensures multiset(FlatMap((k: string) => Members(groupBy, rows + [r], k), keys))
            == multiset(FlatMap((k: string) => Members(groupBy, rows, k), keys)) + multiset{r}
  {
    var f, f' := (k: string) => Members(groupBy, rows, k), (k: string) => Members(groupBy, rows + [r], k);
    var k, rest := keys[0], keys[1..];
    MembersSnoc(groupBy, rows, r, k);
    if k == Key(groupBy)(r) {
      forall i | 0 <= i < |rest| ensures f(rest[i]) == f'(rest[i]) {
        MembersSnoc(groupBy, rows, r, rest[i]);
      }
      FlatMapSame(f, f', rest);
      HeadGrows(f(k), r, FlatMap(f, rest));
    } else {
      GrowOne(groupBy, rows, r, rest);
      RestGrows(f(k), FlatMap(f, rest), FlatMap(f', rest), r);
    }
  }

  lemma HeadGrows<T>(head: seq<T>, r: T, rest: seq<T>)
    ensures multiset(head + [r] + rest) == multiset(head + rest) + multiset{r}
  {
  }

  lemma RestGrows<T>(head: seq<T>, rest: seq<T>, rest': seq<T>, r: T)
    requires multiset(rest') == multiset(rest) + multiset{r}
    ensures multiset(head + rest') == multiset(head + rest) + multiset{r}
  {
  }

  /** The counts of the groups add up to the number of rows. */
  lemma CountsAddUp<T>(groupBy: seq<T -> Value>, rows: seq<T>)
    ensures SizeSum(groupBy, rows, FirstSeen(Key(groupBy), rows)) == |rows|
  {
    var keys := FirstSeen(Key(groupBy), rows);
    GroupsPartition(groupBy, rows);
    SizeOfFlat(groupBy, rows, keys);
    var all := FlatMap((k: string) => Members(groupBy, rows, k), keys);
    assert |multiset(all)| == |all| && |multiset(rows)| == |rows|;
  }

  function SizeSum<T>(groupBy: seq<T -> Value>, rows: seq<T>, keys: seq<string>): nat {
    if keys == [] then 0 else |Members(groupBy, rows, keys[0])| + SizeSum(groupBy, rows, keys[1..])
  }

  lemma {:induction false} SizeOfFlat<T>(groupBy: seq<T -> Value>, rows: seq<T>, keys: seq<string>)
    ensures |FlatMap((k: string) => Members(groupBy, rows, k), keys)| == SizeSum(groupBy, rows, keys)
  {
    if keys != [] { SizeOfFlat(groupBy, rows, keys[1..]); }
  }

  /** Groups come out in the order of first appearance: each key was first seen before the next. */
  lemma {:induction false} FirstSeenOrder<T>(key: T -> string, rows: seq<T>, p: nat)
    requires p < |FirstSeen(key, rows)|
    ensures exists i :: 0 <= i < |rows| && key(rows[i]) == FirstSeen(key, rows)[p] && FirstSeen(key, rows[..i]) == FirstSeen(key, rows)[..p]
  {
    var n := |rows| - 1;
    var seen := FirstSeen(key, rows[..n]);
    if p < |seen| {
      FirstSeenOrder(key, rows[..n], p);
      var i :| 0 <= i < n && key(rows[..n][i]) == seen[p] && FirstSeen(key, rows[..n][..i]) == seen[..p];
      assert rows[..n][..i] == rows[..i];
      assert FirstSeen(key, rows)[..p] == seen[..p];
    } else {
      assert FirstSeen(key, rows)[..p] == seen;
    }
  }

  /** The keys tell rows of these group-by values apart: there is at most one VARCHAR column, or
      no value has a bar, or the declared lengths rule out a collision. */
  ghost predicate KeysSeparate<T(!new)>(groupBy: seq<T -> Value>, rows: seq<T>, types: seq<ColumnType>) {
    || AtMostOneText(types)
    || (forall x, v :: x in rows && v in GroupVals(groupBy, x) ==> NoBar(Rendered(v)))
    || (Tells(types) && forall x :: x in rows ==> InColumns(GroupVals(groupBy, x), types))
  }

  /** The rows have the same value in every group-by expression. */
  predicate SameValues<T>(groupBy: seq<T -> Value>, x: T, r: T) {
    forall i :: 0 <= i < |groupBy| ==> groupBy[i](x) == groupBy[i](r)
  }

  /** Then the group of a row consists of the rows that agree with it in every group-by
      expression, as SQL asks: all of them, each as often as in the input and in its order. */
  lemma GroupsAreByValue<T(!new)>(groupBy: seq<T -> Value>, rows: seq<T>, types: seq<ColumnType>, r: T)
    requires forall x :: x in rows + [r] ==> OfSchema(GroupVals(groupBy, x), types)
    requires KeysSeparate(groupBy, rows + [r], types)
    ensures Members(groupBy, rows, Key(groupBy)(r)) == FlatMap(Select((x: T) => SameValues(groupBy, x, r), true), rows)
    ensures forall i :: 0 <= i < |rows| ==> (rows[i] in Members(groupBy, rows, Key(groupBy)(r)) <==> SameValues(groupBy, rows[i], r))
  {
    var same := (x: T) => SameValues(groupBy, x, r);
    var f, g := Select(Key(groupBy), Key(groupBy)(r)), Select(same, true);
    forall i | 0 <= i < |rows| ensures f(rows[i]) == g(rows[i]) {
      KeysTell(groupBy, rows, types, r, i);
    }
    FlatMapSame(f, g, rows);
    forall i | 0 <= i < |rows| ensures rows[i] in FlatMap(g, rows) <==> same(rows[i]) {
      SelectHas(rows, same, true, i);
    }
  }

  lemma SelectHas<T, K>(rows: seq<T>, key: T -> K, k: K, i: nat)
    requires i < |rows|
    ensures rows[i] in FlatMap(Select(key, k), rows) <==> key(rows[i]) == k
  {
    var at := SelectMeans(rows, key, k);
    var picked := FlatMap(Select(key, k), rows);
    if key(rows[i]) == k {
      var m :| 0 <= m < |at| && at[m] == i;
      assert picked[m] == rows[i];
    }
    if rows[i] in picked {
      var m :| 0 <= m < |picked| && picked[m] == rows[i];
      assert key(rows[at[m]]) == k;
    }
  }

  lemma KeysTell<T(!new)>(groupBy: seq<T -> Value>, rows: seq<T>, types: seq<ColumnType>, r: T, i: nat)
    requires forall x :: x in rows + [r] ==> OfSchema(GroupVals(groupBy, x), types)
    requires KeysSeparate(groupBy, rows + [r], types) && i < |rows|
    ensures Key(groupBy)(rows[i]) == Key(groupBy)(r) <==> SameValues(groupBy, rows[i], r)
  {
    assert r == (rows + [r])[|rows|] && rows[i] == (rows + [r])[i];
    var a, b := GroupVals(groupBy, rows[i]), GroupVals(groupBy, r);
    if MakeKey(a) == MakeKey(b) {
      if AtMostOneText(types) {
        OneTextSeparates(a, b, types);
      } else if Tells(types) && InColumns(a, types) && InColumns(b, types) {
        TellsApart(a, b, types);
      } else {
        NoBarsSeparate(a, b, types);
      }
    }
    if SameValues(groupBy, rows[i], r) { assert a == b; }
  }

  // ------------------------------------------------------------------ output rows

  predicate Known(func: string) {
    func == "COUNT" || func == "SUM" || func == "AVG" || func == "MIN" || func == "MAX"
  }

  /** How many of the first `n` aggregates are known functions. */
  function KnownBefore<T>(aggs: seq<Agg<T>>, n: nat): nat
    requires n <= |aggs|
  {
    if n == 0 then 0 else KnownBefore(aggs, n - 1) + if Known(aggs[n - 1].func) then 1 else 0
  }

  /** The row of a group: the values of its first row in every group-by expression, in order,
      and then one column for each known aggregate, in order. */
  ghost predicate RowShows<T>(groupBy: seq<T -> Value>, aggs: seq<Agg<T>>, members: seq<T>, row: seq<Value>) {
    && members != [] && |row| == |groupBy| + KnownBefore(aggs, |aggs|)
    && (forall i :: 0 <= i < |groupBy| ==> row[i] == groupBy[i](members[0]))
    && (forall i: nat :: i < |aggs| && Known(aggs[i].func) ==> ColumnShows(aggs, members, row, |groupBy| + KnownBefore(aggs, i), i))
  }

  ghost predicate ColumnShows<T>(aggs: seq<Agg<T>>, members: seq<T>, row: seq<Value>, c: nat, i: nat)
    requires members != [] && i < |aggs|
  {
    c < |row| && Result(aggs[i], members) == [row[c]]
  }

  lemma GroupRowShows<T>(groupBy: seq<T -> Value>, aggs: seq<Agg<T>>, members: seq<T>)
    requires members != []
    ensures RowShows(groupBy, aggs, members, GroupRow(groupBy, aggs, members))
  {
    var row, vals := GroupRow(groupBy, aggs, members), GroupVals(groupBy, members[0]);
    assert aggs[..|aggs|] == aggs;
    ResultColumns(aggs, members, |aggs|);
    forall i | 0 <= i < |groupBy| ensures row[i] == groupBy[i](members[0]) {
      assert row[i] == vals[i];
    }
    forall i: nat | i < |aggs| && Known(aggs[i].func) ensures ColumnShows(aggs, members, row, |groupBy| + KnownBefore(aggs, i), i) {
      assert ColumnShows(aggs, members, FlatMap(Results(members), aggs), KnownBefore(aggs, i), i);
    }
  }

  /** The columns of the first `n` aggregates. */
  lemma {:induction false} ResultColumns<T>(aggs: seq<Agg<T>>, members: seq<T>, n: nat)
    requires members != [] && n <= |aggs|
    ensures var cols := FlatMap(Results(members), aggs[..n]);
            && |cols| == KnownBefore(aggs, n)
            && forall i: nat :: i < n && Known(aggs[i].func) ==> ColumnShows(aggs, members, cols, KnownBefore(aggs, i), i)
  {
    if n > 0 {
      ResultColumns(aggs, members, n - 1);
      Snoc(aggs, n - 1);
      FlatMapConcat(Results(members), aggs[..n - 1], [aggs[n - 1]]);
      FlatMapOne(Results(members), aggs[n - 1]);
      var before, cols := FlatMap(Results(members), aggs[..n - 1]), FlatMap(Results(members), aggs[..n]);
      forall i: nat | i < n && Known(aggs[i].func) ensures ColumnShows(aggs, members, cols, KnownBefore(aggs, i), i) {
        if i < n - 1 { assert ColumnShows(aggs, members, before, KnownBefore(aggs, i), i); }
      }
    }
  }

  /** Every row that draining yields shows its group, and the group has rows. */
  lemma GroupedShows<T>(groupBy: seq<T -> Value>, aggs: seq<Agg<T>>, rows: seq<T>, c: nat)
    requires c < |FirstSeen(Key(groupBy), rows)|
    ensures RowShows(groupBy, aggs, Members(groupBy, rows, FirstSeen(Key(groupBy), rows)[c]), Grouped(groupBy, aggs, rows)[c])
  {
    var k := FirstSeen(Key(groupBy), rows)[c];
    FirstSeenKeys(Key(groupBy), rows);
    assert k in FirstSeen(Key(groupBy), rows);
    var i :| 0 <= i < |rows| && Key(groupBy)(rows[i]) == k;
    SelectHas(rows, Key(groupBy), k, i);
    GroupRowShows(groupBy, aggs, Members(groupBy, rows, k));
  }

  ghost predicate AllInt32(vs: seq<int>) {
    forall i :: 0 <= i < |vs| ==> IsInt32(vs[i])
  }

  /** MIN and MAX are attained and bound every value. */
  lemma {:induction false} Extremes(vs: seq<int>)
    requires vs != [] && AllInt32(vs)
    ensures Least(vs) in vs && Greatest(vs) in vs
    ensures forall v :: v in vs ==> Least(vs) <= v <= Greatest(vs)
  {
    var n := |vs| - 1;
    var init := vs[..n];
    assert vs == init + [vs[n]];
    if n > 0 { Extremes(init); }
  }

  /** The sum lies between the extremes times the count. */
  lemma {:induction false} TotalBounds(vs: seq<int>, low: int, high: int)
    requires forall i :: 0 <= i < |vs| ==> low <= vs[i] <= high
    ensures |vs| * low <= Total(vs) <= |vs| * high
  {
    if vs != [] {
      var n := |vs| - 1;
      TotalBounds(vs[..n], low, high);
      assert |vs| * low == n * low + low && |vs| * high == n * high + high;
    }
  }

  /** The sum of a single value is the value, and sums add up. */
  lemma {:induction false} TotalConcat(a: seq<int>, b: seq<int>)
    ensures Total(a + b) == Total(a) + Total(b)
  {
    if b == [] {
      assert a + b == a;
    } else {
      var n := |b| - 1;
      TotalConcat(a, b[..n]);
      assert (a + b)[..|a + b| - 1] == a + b[..n] && (a + b)[|a + b| - 1] == b[n];
    }
  }

  lemma TotalOne(x: int)
    ensures Total([x]) == x
  {
    assert [x][..0] == [];
  }

  /** Below 2^32 rows no partial 64-bit sum overflows. */
  lemma NoOverflow(vs: seq<int>, k: nat)
    requires AllInt32(vs) && k <= |vs| < 0x1_0000_0000
    ensures INT64_MIN <= Total(vs[..k]) <= INT64_MAX
  {
    TotalBounds(vs[..k], INT_MIN, INT_MAX);
  }

  /** The quotient is rounded toward zero: it has the sign of the sum, and what it leaves over is
      less than the divisor and has that sign too. */
  lemma TruncMeans(s: int, n: int)
    requires n > 0
    ensures var q := TruncDiv(s, n);
            if s >= 0 then q >= 0 && 0 <= s - n * q < n else q <= 0 && -n < s - n * q <= 0
  {
    if s >= 0 {
      DivMeans(s, n);
    } else {
      DivMeans(-s, n);
      Negated(n, (-s) / n);
    }
  }

  lemma DivMeans(m: int, n: int)
    requires m >= 0 && n > 0
    ensures m / n >= 0 && 0 <= m - n * (m / n) < n
  {
    assert m == n * (m / n) + m % n;
  }

  lemma Negated(n: int, q: int)
    ensures n * (-q) == -(n * q)
  {
  }

  lemma TruncBetween(s: int, n: int, low: int, high: int)
    requires n > 0 && n * low <= s <= n * high
    ensures low <= TruncDiv(s, n) <= high
  {
    if s >= 0 {
      DivBetween(s, n, low, high);
    } else {
      assert n * (-high) <= -s <= n * (-low);
      DivBetween(-s, n, -high, -low);
    }
  }

  lemma DivBetween(s: int, n: int, low: int, high: int)
    requires n > 0 && s >= 0 && n * low <= s <= n * high
    ensures low <= s / n <= high
  {
    var q := s / n;
    assert s == n * q + s % n;
    if q < low { MulLe(n, q + 1, low); }
    if q > high { MulLe(n, high + 1, q); }
  }

  lemma MulLe(n: int, a: int, b: int)
    requires n > 0 && a <= b
    ensures n * a <= n * b
  {
  }

  /** A VARCHAR argument counts as 0 in every row: its sum and average are 0. */
  lemma {:induction false} TextTotals<T>(arg: T -> Value, rows: seq<T>)
    requires forall i :: 0 <= i < |rows| ==> arg(rows[i]).StrValue?
    ensures Total(ArgOf(arg, rows)) == 0
  {
    if rows != [] {
      var n := |rows| - 1;
      assert rows == rows[..n] + [rows[n]];
      ArgSnoc(arg, rows[..n], rows[n]);
      TextTotals(arg, rows[..n]);
    }
  }

  /** What the output columns of a group mean: COUNT the size, MIN and MAX the extremes, SUM the
      sum exactly when it fits in 32 bits, AVG the truncated average, between MIN and MAX, so
      that its cast loses nothing. */
  lemma ResultMeaning<T>(agg: Agg<T>, rows: seq<T>)
    requires rows != [] && AllInt32(ArgOf(agg.arg, rows))
    ensures var vs := ArgOf(agg.arg, rows);
            && (agg.func == "COUNT" ==> (Result(agg, rows) == [IntValue(|rows|)] <==> |rows| <= INT_MAX))
            && (agg.func == "SUM" ==> (Result(agg, rows) == [IntValue(Total(vs))] <==> IsInt32(Total(vs))))
            && (agg.func == "AVG" ==> Result(agg, rows) == [IntValue(TruncDiv(Total(vs), |rows|))]
                                      && Least(vs) <= TruncDiv(Total(vs), |rows|) <= Greatest(vs))
            && (agg.func == "MIN" ==> exists v :: v in vs && Result(agg, rows) == [IntValue(v)] && forall w :: w in vs ==> v <= w)
            && (agg.func == "MAX" ==> exists v :: v in vs && Result(agg, rows) == [IntValue(v)] && forall w :: w in vs ==> w <= v)
  {
    var vs := ArgOf(agg.arg, rows);
    Extremes(vs);
    assert forall i :: 0 <= i < |vs| ==> vs[i] in vs;
    TotalBounds(vs, Least(vs), Greatest(vs));
    TruncBetween(Total(vs), |rows|, Least(vs), Greatest(vs));
    CastIff(|rows|);
    CastIff(Total(vs));
    CastIff(TruncDiv(Total(vs), |rows|));
  }
}
