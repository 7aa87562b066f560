/** The equijoin as a specification: for each right row in order, every left row of equal key
  in order. Both hash joins are compared with it.
 */
module Equijoin {
  import opened Bags

  /** The rows of `left` with key `k`. */
  function Select<L, K(==)>(lkey: L -> K, k: K): L -> seq<L> {
    (l: L) => if lkey(l) == k then [l] else []
  }

  function Pair<L, R, O>(cat: (L, R) -> O, r: R): L -> seq<O> {
    (l: L) => [cat(l, r)]
  }

  /** `r` joined with every left row of equal key. */
  function JoinOne<L, R, K(==), O>(left: seq<L>, lkey: L -> K, rkey: R -> K, cat: (L, R) -> O): R -> seq<O> {
    (r: R) => FlatMap(Pair(cat, r), FlatMap(Select(lkey, rkey(r)), left))
  }

  function NestedLoop<L, R, K(==), O>(left: seq<L>, right: seq<R>, lkey: L -> K, rkey: R -> K, cat: (L, R) -> O): seq<O> {
    FlatMap(JoinOne(left, lkey, rkey, cat), right)
  }

  /** The positions of all rows with the key, in order. */
  ghost predicate SelectedAt<L, K>(left: seq<L>, lkey: L -> K, k: K, at: seq<nat>) {
    && (forall m :: 0 <= m < |at| ==> at[m] < |left| && lkey(left[at[m]]) == k)
    && (forall m, n :: 0 <= m < n < |at| ==> at[m] < at[n])
    && (forall i: nat :: i < |left| && lkey(left[i]) == k ==> i in at)
  }

  /** The rows are those at the positions `at`. */
  ghost predicate RowsAt<L>(rows: seq<L>, left: seq<L>, at: seq<nat>) {
    |rows| == |at| && forall m :: 0 <= m < |at| ==> at[m] < |left| && rows[m] == left[at[m]]
  }

  /** Selection keeps exactly the rows with the key, in order. */
  lemma {:induction false} SelectMeans<L, K>(left: seq<L>, lkey: L -> K, k: K) returns (at: seq<nat>)
    ensures SelectedAt(left, lkey, k, at) && RowsAt(FlatMap(Select(lkey, k), left), left, at)
  {
    if left == [] {
      at := [];
    } else {
      var n := |left| - 1;
      var before := SelectMeans(left[..n], lkey, k);
      Last(left);
      FlatMapConcat(Select(lkey, k), left[..n], [left[n]]);
      FlatMapOne(Select(lkey, k), left[n]);
      at := if lkey(left[n]) == k then before + [n] else before;
      SelectedMore(left, lkey, k, before, at);
      RowsMore(FlatMap(Select(lkey, k), left[..n]), left, before, FlatMap(Select(lkey, k), left), at);
    }
  }

  lemma Last<T>(s: seq<T>)
    requires s != []
    ensures s == s[..|s| - 1] + [s[|s| - 1]]
  {
  }

  lemma SelectedMore<L, K>(left: seq<L>, lkey: L -> K, k: K, before: seq<nat>, at: seq<nat>)
    requires left != [] && SelectedAt(left[..|left| - 1], lkey, k, before)
    requires at == if lkey(left[|left| - 1]) == k then before + [|left| - 1] else before
    ensures SelectedAt(left, lkey, k, at)
  {
    var n := |left| - 1;
    forall m | 0 <= m < |before| ensures before[m] < n && left[..n][before[m]] == left[before[m]] && lkey(left[before[m]]) == k {
    }
    forall i: nat | i < |left| && lkey(left[i]) == k ensures i in at {
      if i < n {
        assert left[..n][i] == left[i] && i in before;
      } else {
        assert at[|before|] == n;
      }
    }
  }

  lemma RowsMore<L>(rows: seq<L>, left: seq<L>, before: seq<nat>, rows': seq<L>, at: seq<nat>)
    requires left != [] && RowsAt(rows, left[..|left| - 1], before)
    requires (rows' == rows && at == before) || (rows' == rows + [left[|left| - 1]] && at == before + [|left| - 1])
    ensures RowsAt(rows', left, at)
  {
  }

  /** The pairs of positions that a join matches: every pair with equal keys once, ordered by
      right row and, for each, by left row. */
  ghost predicate MatchedAt<L, R, K>(left: seq<L>, right: seq<R>, lkey: L -> K, rkey: R -> K, at: seq<(nat, nat)>) {
    && (forall m :: 0 <= m < |at| ==> at[m].0 < |left| && at[m].1 < |right| && lkey(left[at[m].0]) == rkey(right[at[m].1]))
    && (forall m, n :: 0 <= m < n < |at| ==> at[m].1 < at[n].1 || (at[m].1 == at[n].1 && at[m].0 < at[n].0))
    && (forall i: nat, j: nat :: i < |left| && j < |right| && lkey(left[i]) == rkey(right[j]) ==> (i, j) in at)
  }

  /** The rows are the pairs at the positions `at`, left row first. */
  ghost predicate PairsAt<L, R, O>(rows: seq<O>, left: seq<L>, right: seq<R>, cat: (L, R) -> O, at: seq<(nat, nat)>) {
    |rows| == |at| && forall m :: 0 <= m < |at| ==> at[m].0 < |left| && at[m].1 < |right| && rows[m] == cat(left[at[m].0], right[at[m].1])
  }

  /** The join has exactly one row for each pair of rows with equal keys, in that order. */
  lemma {:induction false} JoinMeans<L, R, K, O>(left: seq<L>, right: seq<R>, lkey: L -> K, rkey: R -> K, cat: (L, R) -> O) returns (at: seq<(nat, nat)>)
    ensures MatchedAt(left, right, lkey, rkey, at) && PairsAt(NestedLoop(left, right, lkey, rkey, cat), left, right, cat, at)
  {
    if right == [] {
      at := [];
    } else {
      var n := |right| - 1;
      var before := JoinMeans(left, right[..n], lkey, rkey, cat);
      var now := SelectMeans(left, lkey, rkey(right[n]));
      at := before + With(now, n);
      MatchedMore(left, right, lkey, rkey, before, now);
      Last(right);
      FlatMapConcat(JoinOne(left, lkey, rkey, cat), right[..n], [right[n]]);
      FlatMapOne(JoinOne(left, lkey, rkey, cat), right[n]);
      var selected := FlatMap(Select(lkey, rkey(right[n])), left);
      PairAt(cat, right[n], selected);
      PairsMore(left, right, cat, NestedLoop(left, right[..n], lkey, rkey, cat), before, selected, now);
    }
  }

  /** The positions `at`, each paired with `j`. */
  function With(at: seq<nat>, j: nat): (r: seq<(nat, nat)>)
    ensures |r| == |at| && forall m :: 0 <= m < |at| ==> r[m] == (at[m], j)
  {
    seq(|at|, m requires 0 <= m < |at| => (at[m], j))
  }

  lemma {:induction false} PairAt<L, R, O>(cat: (L, R) -> O, r: R, ls: seq<L>)
    ensures var rows := FlatMap(Pair(cat, r), ls); |rows| == |ls| && forall m :: 0 <= m < |ls| ==> rows[m] == cat(ls[m], r)
  {
    if ls != [] { PairAt(cat, r, ls[1..]); }
  }

  lemma PairsMore<L, R, O>(left: seq<L>, right: seq<R>, cat: (L, R) -> O, rows: seq<O>, before: seq<(nat, nat)>, selected: seq<L>, now: seq<nat>)
    requires right != [] && PairsAt(rows, left, right[..|right| - 1], cat, before) && RowsAt(selected, left, now)
    requires var more := FlatMap(Pair(cat, right[|right| - 1]), selected);
             |more| == |selected| && forall m :: 0 <= m < |selected| ==> more[m] == cat(selected[m], right[|right| - 1])
    ensures PairsAt(rows + FlatMap(Pair(cat, right[|right| - 1]), selected), left, right, cat, before + With(now, |right| - 1))
  {
    var n := |right| - 1;
    var more, at := FlatMap(Pair(cat, right[n]), selected), before + With(now, n);
    forall m | 0 <= m < |at| ensures at[m].0 < |left| && at[m].1 < |right| && (rows + more)[m] == cat(left[at[m].0], right[at[m].1]) {
      if m < |before| {
        assert at[m] == before[m] && right[..n][before[m].1] == right[before[m].1];
      } else {
        assert at[m] == (now[m - |before|], n);
      }
    }
  }

  lemma MatchedMore<L, R, K>(left: seq<L>, right: seq<R>, lkey: L -> K, rkey: R -> K, before: seq<(nat, nat)>, now: seq<nat>)
    requires right != [] && MatchedAt(left, right[..|right| - 1], lkey, rkey, before) && SelectedAt(left, lkey, rkey(right[|right| - 1]), now)
    ensures MatchedAt(left, right, lkey, rkey, before + With(now, |right| - 1))
  {
    var n := |right| - 1;
    var last := With(now, n);
    var at := before + last;
    forall i: nat, j: nat | i < |left| && j < |right| && lkey(left[i]) == rkey(right[j]) ensures (i, j) in at {
      if j == n {
        var m :| 0 <= m < |now| && now[m] == i;
        assert last[m] == (i, j) && at[|before| + m] == last[m];
      } else {
        assert right[..n][j] == right[j] && (i, j) in before;
      }
    }
  }

  /** Every match by the first keys is a match by the second. */
  ghost predicate Implies<L, R, K, M>(left: seq<L>, right: seq<R>, lkey: L -> K, rkey: R -> K, lkey': L -> M, rkey': R -> M) {
    forall i, j :: 0 <= i < |left| && 0 <= j < |right| && lkey(left[i]) == rkey(right[j]) ==> lkey'(left[i]) == rkey'(right[j])
  }

  /** How often a key occurs. */
  function Matches<L, K(==)>(left: seq<L>, lkey: L -> K, k: K): nat {
    |FlatMap(Select(lkey, k), left)|
  }

  lemma {:induction false} PairLength<L, R, O>(cat: (L, R) -> O, r: R, ls: seq<L>)
    ensures |FlatMap(Pair(cat, r), ls)| == |ls|
  {
    if ls != [] { PairLength(cat, r, ls[1..]); }
  }

  /** A coarser key selects at least as many rows, and the same rows only if no match is new. */
  lemma {:induction false} SelectLength<L, K, M>(left: seq<L>, lkey: L -> K, k: K, lkey': L -> M, m: M)
    requires forall i :: 0 <= i < |left| && lkey(left[i]) == k ==> lkey'(left[i]) == m
    ensures Matches(left, lkey, k) <= Matches(left, lkey', m)
    ensures Matches(left, lkey, k) == Matches(left, lkey', m) <==> forall i :: 0 <= i < |left| && lkey'(left[i]) == m ==> lkey(left[i]) == k
    ensures Matches(left, lkey, k) == Matches(left, lkey', m) ==> FlatMap(Select(lkey, k), left) == FlatMap(Select(lkey', m), left)
  {
    if left != [] {
      SelectLength(left[1..], lkey, k, lkey', m);
      assert left == [left[0]] + left[1..];
      assert (forall i :: 0 <= i < |left| && lkey'(left[i]) == m ==> lkey(left[i]) == k)
        <==> ((lkey'(left[0]) == m ==> lkey(left[0]) == k)
              && forall i :: 0 <= i < |left[1..]| && lkey'(left[1..][i]) == m ==> lkey(left[1..][i]) == k) by {
        Tail(left, (l: L) => lkey'(l) == m ==> lkey(l) == k);
      }
    }
  }

  lemma Tail<L>(s: seq<L>, p: L -> bool)
    requires s != []
    ensures (forall i :: 0 <= i < |s| ==> p(s[i])) <==> (p(s[0]) && forall i :: 0 <= i < |s[1..]| ==> p(s[1..][i]))
  {
    if p(s[0]) && forall i :: 0 <= i < |s[1..]| ==> p(s[1..][i]) {
      forall i | 0 <= i < |s| ensures p(s[i]) {
        assert i > 0 ==> s[i] == s[1..][i - 1];
      }
    }
  }

  /** A join on coarser keys has at least as many rows; it has as many exactly when no match is
      new, and then it is the same list. */
  lemma {:induction false} CoarserJoin<L, R, K, M, O>(left: seq<L>, right: seq<R>, lkey: L -> K, rkey: R -> K, lkey': L -> M, rkey': R -> M, cat: (L, R) -> O)
    requires Implies(left, right, lkey, rkey, lkey', rkey')
    ensures |NestedLoop(left, right, lkey, rkey, cat)| <= |NestedLoop(left, right, lkey', rkey', cat)|
    ensures |NestedLoop(left, right, lkey, rkey, cat)| == |NestedLoop(left, right, lkey', rkey', cat)|
            <==> Implies(left, right, lkey', rkey', lkey, rkey)
    ensures Implies(left, right, lkey', rkey', lkey, rkey)
            ==> NestedLoop(left, right, lkey, rkey, cat) == NestedLoop(left, right, lkey', rkey', cat)
    decreases |right|
  {
    if right != [] {
      var r, rest := right[0], right[1..];
      CoarserJoin(left, rest, lkey, rkey, lkey', rkey', cat);
      SelectLength(left, lkey, rkey(r), lkey', rkey'(r));
      PairLength(cat, r, FlatMap(Select(lkey, rkey(r)), left));
      PairLength(cat, r, FlatMap(Select(lkey', rkey'(r)), left));
      ImpliesTail(left, right, lkey', rkey', lkey, rkey);
    }
  }

  lemma ImpliesTail<L, R, K, M>(left: seq<L>, right: seq<R>, lkey: L -> K, rkey: R -> K, lkey': L -> M, rkey': R -> M)
    requires right != []
    ensures Implies(left, right, lkey, rkey, lkey', rkey')
            <==> Implies(left, right[1..], lkey, rkey, lkey', rkey')
                 && forall i :: 0 <= i < |left| && lkey(left[i]) == rkey(right[0]) ==> lkey'(left[i]) == rkey'(right[0])
  {
    if Implies(left, right[1..], lkey, rkey, lkey', rkey')
       && forall i :: 0 <= i < |left| && lkey(left[i]) == rkey(right[0]) ==> lkey'(left[i]) == rkey'(right[0]) {
      forall i, j | 0 <= i < |left| && 0 <= j < |right| && lkey(left[i]) == rkey(right[j]) ensures lkey'(left[i]) == rkey'(right[j]) {
        assert j > 0 ==> right[j] == right[1..][j - 1];
      }
    }
  }

  /** Joining on coarser keys gives the same bag of rows if and only if no match is new. */
  lemma SameJoinIff<L, R, K, M, O>(left: seq<L>, right: seq<R>, lkey: L -> K, rkey: R -> K, lkey': L -> M, rkey': R -> M, cat: (L, R) -> O)
    requires Implies(left, right, lkey, rkey, lkey', rkey')
    ensures multiset(NestedLoop(left, right, lkey, rkey, cat)) == multiset(NestedLoop(left, right, lkey', rkey', cat))
            <==> Implies(left, right, lkey', rkey', lkey, rkey)
  {
    CoarserJoin(left, right, lkey, rkey, lkey', rkey', cat);
    var a, b := NestedLoop(left, right, lkey, rkey, cat), NestedLoop(left, right, lkey', rkey', cat);
    assert |multiset(a)| == |a| && |multiset(b)| == |b|;
  }
}
