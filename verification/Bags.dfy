/** Lists as multisets: flattening, mapping and summing without regard to order. The parallel
  operators promise their rows up to order, so this is the vocabulary of their theorems.
 */
module Bags {

  /** The results of `f` on the elements, one after the other. */
  function FlatMap<T, V>(f: T -> seq<V>, s: seq<T>): seq<V> {
    if s == [] then [] else f(s[0]) + FlatMap(f, s[1..])
  }

  lemma {:induction false} FlatMapConcat<T, V>(f: T -> seq<V>, a: seq<T>, b: seq<T>)
    ensures FlatMap(f, a + b) == FlatMap(f, a) + FlatMap(f, b)
  {
    if a == [] {
      assert a + b == b;
    } else {
      assert (a + b)[1..] == a[1..] + b && (a + b)[0] == a[0];
      FlatMapConcat(f, a[1..], b);
    }
  }

  lemma FlatMapOne<T, V>(f: T -> seq<V>, x: T)
    ensures FlatMap(f, [x]) == f(x)
  {
    assert [x][1..] == [];
  }

  lemma Cancel<T>(x: multiset<T>, a: multiset<T>, b: multiset<T>)
    requires x + a == x + b
    ensures a == b
  {
    assert a == (x + a) - x && b == (x + b) - x;
  }

  lemma Balance<T>(sum: multiset<T>, sum': multiset<T>, part: multiset<T>, part': multiset<T>, gain: multiset<T>)
    requires sum' + part == sum + part' && part' == part + gain
    ensures sum' == sum + gain
  {
    forall x ensures sum'[x] == (sum + gain)[x] {
      assert (sum' + part)[x] == (sum + part')[x];
    }
  }

  /** One summand goes from `part` to `part'`, and `part'` and what is written off make up
      `part` and what is gained: so do the sums. */
  lemma Settle<T>(sum: multiset<T>, sum': multiset<T>, part: multiset<T>, part': multiset<T>, gain: multiset<T>, off: multiset<T>)
    requires sum' + part == sum + part' && part' + off == part + gain
    ensures sum' + off == sum + gain
  {
    forall x ensures (sum' + off)[x] == (sum + gain)[x] {
      assert (sum' + part)[x] == (sum + part')[x] && (part' + off)[x] == (part + gain)[x];
    }
  }

  /** Double-entry: stored `v` and debts `d` add up to `total`; one debt changes from `o` to
      `o'`, and the stored rows and the total change to match. */
  lemma Ledger<T>(v: multiset<T>, v': multiset<T>, d: multiset<T>, d': multiset<T>, o: multiset<T>, o': multiset<T>, total: multiset<T>, total': multiset<T>)
    requires v + d == total && d' + o == d + o' && v' + o' + total == v + o + total'
    ensures v' + d' == total'
  {
    forall x ensures (v' + d')[x] == total'[x] {
      assert (v + d)[x] == total[x] && (d' + o)[x] == (d + o')[x];
      assert (v' + o' + total)[x] == (v + o + total')[x];
    }
  }

  lemma TakeOut<T>(b: seq<T>, i: nat)
    requires i < |b|
    ensures multiset(b) == multiset{b[i]} + multiset(b[..i] + b[i + 1..])
  {
    assert b == b[..i] + ([b[i]] + b[i + 1..]);
  }

  lemma FlatMapTakeOut<T, V>(f: T -> seq<V>, b: seq<T>, i: nat)
    requires i < |b|
    ensures multiset(FlatMap(f, b)) == multiset(f(b[i])) + multiset(FlatMap(f, b[..i] + b[i + 1..]))
  {
    assert b == b[..i] + ([b[i]] + b[i + 1..]);
    FlatMapConcat(f, b[..i], [b[i]] + b[i + 1..]);
    FlatMapConcat(f, [b[i]], b[i + 1..]);
    FlatMapOne(f, b[i]);
    FlatMapConcat(f, b[..i], b[i + 1..]);
  }

  /** The bag of results depends only on the bag of elements. */
  lemma {:induction false} FlatMapBag<T, V>(f: T -> seq<V>, a: seq<T>, b: seq<T>)
    requires multiset(a) == multiset(b)
    ensures multiset(FlatMap(f, a)) == multiset(FlatMap(f, b))
    decreases |a|
  {
    if a == [] {
      assert |multiset(b)| == 0;
    } else {
      assert a[0] in multiset(b);
      var i :| 0 <= i < |b| && b[i] == a[0];
      var b' := b[..i] + b[i + 1..];
      TakeOut(b, i);
      assert a == [a[0]] + a[1..];
      assert multiset(a) == multiset{a[0]} + multiset(a[1..]);
      Cancel(multiset{a[0]}, multiset(a[1..]), multiset(b'));
      FlatMapBag(f, a[1..], b');
      FlatMapTakeOut(f, b, i);
    }
  }

  /** Pointwise equal bags of results give equal bags. */
  lemma {:induction false} FlatMapPointwise<T, V>(f: T -> seq<V>, g: T -> seq<V>, s: seq<T>)
    requires forall i :: 0 <= i < |s| ==> multiset(f(s[i])) == multiset(g(s[i]))
    ensures multiset(FlatMap(f, s)) == multiset(FlatMap(g, s))
  {
    if s != [] {
      FlatMapPointwise(f, g, s[1..]);
    }
  }

  lemma {:induction false} FlatMapSame<T, V>(f: T -> seq<V>, g: T -> seq<V>, s: seq<T>)
    requires forall i :: 0 <= i < |s| ==> f(s[i]) == g(s[i])
    ensures FlatMap(f, s) == FlatMap(g, s)
  {
    if s != [] {
      FlatMapSame(f, g, s[1..]);
    }
  }

  /** The numbers below `n`, in order. */
  function Upto(n: nat): (r: seq<nat>)
    ensures |r| == n && forall i :: 0 <= i < n ==> r[i] == i
  {
    seq(n, i => i)
  }

  lemma UptoSnoc(n: nat)
    ensures Upto(n + 1) == Upto(n) + [n]
  {
  }

  /** Lists without repetition and with the same elements are the same bag. */
  lemma {:induction false} DistinctBag<T>(a: seq<T>, b: seq<T>)
    requires forall i, j :: 0 <= i < j < |a| ==> a[i] != a[j]
    requires forall i, j :: 0 <= i < j < |b| ==> b[i] != b[j]
    requires forall x :: x in a <==> x in b
    ensures multiset(a) == multiset(b)
  {
    forall x ensures multiset(a)[x] == multiset(b)[x] {
      DistinctCount(a, x);
      DistinctCount(b, x);
    }
  }

  lemma {:induction false} DistinctCount<T>(a: seq<T>, x: T)
    requires forall i, j :: 0 <= i < j < |a| ==> a[i] != a[j]
    ensures multiset(a)[x] == if x in a then 1 else 0
  {
    if a != [] {
      assert a == [a[0]] + a[1..];
      DistinctCount(a[1..], x);
    }
  }

  /** The sum of bags. */
  ghost function Sum<V>(bags: seq<multiset<V>>): multiset<V> {
    if bags == [] then multiset{} else bags[0] + Sum(bags[1..])
  }

  /** Changing one bag changes the sum by the difference. */
  lemma {:induction false} SumUpdate<V>(bags: seq<multiset<V>>, i: nat, x: multiset<V>)
    requires i < |bags|
    ensures Sum(bags[i := x]) + bags[i] == Sum(bags) + x
  {
    if i == 0 {
      assert bags[0 := x][1..] == bags[1..];
    } else {
      var rest := bags[1..];
      assert bags[i := x][1..] == rest[i - 1 := x] && bags[i := x][0] == bags[0];
      SumUpdate(rest, i - 1, x);
      calc {
        Sum(bags[i := x]) + bags[i];
        bags[0] + Sum(rest[i - 1 := x]) + rest[i - 1];
        bags[0] + (Sum(rest) + x);
        Sum(bags) + x;
      }
    }
  }

  /** All lists, one after the other. */
  function Concat<V>(ls: seq<seq<V>>): seq<V> {
    if ls == [] then [] else ls[0] + Concat(ls[1..])
  }

  lemma {:induction false} ConcatAppend<V>(ls: seq<seq<V>>, l: seq<V>)
    ensures Concat(ls + [l]) == Concat(ls) + l
  {
    if ls == [] {
      assert [l][1..] == [];
    } else {
      assert (ls + [l])[1..] == ls[1..] + [l];
      ConcatAppend(ls[1..], l);
    }
  }

  lemma {:induction false} ConcatBag<V>(ls: seq<seq<V>>, bags: seq<multiset<V>>)
    requires |ls| == |bags| && forall i :: 0 <= i < |ls| ==> bags[i] == multiset(ls[i])
    ensures multiset(Concat(ls)) == Sum(bags)
  {
    if ls != [] {
      ConcatBag(ls[1..], bags[1..]);
    }
  }

  lemma {:induction false} SumEmpty<V>(bags: seq<multiset<V>>)
    requires forall i :: 0 <= i < |bags| ==> bags[i] == multiset{}
    ensures Sum(bags) == multiset{}
  {
    if bags != [] {
      SumEmpty(bags[1..]);
    }
  }

  /** Going over a list by index. */
  lemma {:induction false} FlatMapIndex<T, V>(f: T -> seq<V>, g: nat -> seq<V>, s: seq<T>, n: nat)
    requires n <= |s| && forall i: nat :: i < |s| ==> g(i) == f(s[i])
    ensures FlatMap(g, Upto(n)) == FlatMap(f, s[..n])
  {
    if n == 0 {
      assert Upto(0) == [] && s[..0] == [];
    } else {
      var k: nat := n - 1;
      FlatMapIndex(f, g, s, k);
      UptoSnoc(k);
      FlatMapConcat<nat, V>(g, Upto(k), [k]);
      FlatMapOne<nat, V>(g, k);
      assert s[..n] == s[..k] + [s[k]];
      FlatMapConcat(f, s[..k], [s[k]]);
      FlatMapOne(f, s[k]);
    }
  }
}
