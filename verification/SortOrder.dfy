/** The ORDER BY comparator shared by `src/executor/sort.cpp` and `src/executor/parallel_sort.cpp`:
  rows are compared on the values of the order-by expressions, item by item, each ascending
  or descending, integers or strings.
 */
module SortOrder {
  import opened Values
  import opened Bags

  /** The comparison of two key vectors from item `i` on. */
  predicate LessFrom(asc: seq<bool>, a: seq<Value>, b: seq<Value>, i: nat)
    requires |a| == |b| == |asc| && i <= |asc|
    decreases |asc| - i
  {
    if i == |asc| then false
    else if a[i].IntValue? then
      if a[i].AsInt() != b[i].AsInt() then
        if asc[i] then a[i].AsInt() < b[i].AsInt() else a[i].AsInt() > b[i].AsInt()
      else LessFrom(asc, a, b, i + 1)
    else
      if a[i].AsVarchar() != b[i].AsVarchar() then
        if asc[i] then StrLess(a[i].AsVarchar(), b[i].AsVarchar()) else StrLess(b[i].AsVarchar(), a[i].AsVarchar())
      else LessFrom(asc, a, b, i + 1)
  }

  predicate Less(asc: seq<bool>, a: seq<Value>, b: seq<Value>)
    requires |a| == |b| == |asc|
  {
    LessFrom(asc, a, b, 0)
  }

  /** Key vectors of rows of one schema: same length, and the same kind in every position. */
  predicate SameKind(a: seq<Value>, b: seq<Value>) {
    |a| == |b| && forall i :: 0 <= i < |a| ==> (a[i].IntValue? <==> b[i].IntValue?)
  }

  lemma {:induction false} Irreflexive(asc: seq<bool>, a: seq<Value>, i: nat)
    requires |a| == |asc| && i <= |asc|
    ensures !LessFrom(asc, a, a, i)
    decreases |asc| - i
  {
    if i < |asc| { Irreflexive(asc, a, i + 1); }
  }

  lemma {:induction false} Transitive(asc: seq<bool>, a: seq<Value>, b: seq<Value>, c: seq<Value>, i: nat)
    requires |a| == |b| == |c| == |asc| && i <= |asc| && SameKind(a, b) && SameKind(b, c)
    requires LessFrom(asc, a, b, i) && LessFrom(asc, b, c, i)
    ensures LessFrom(asc, a, c, i)
    decreases |asc| - i
  {
    if a[i] == b[i] && b[i] == c[i] {
      Transitive(asc, a, b, c, i + 1);
    } else if a[i].StrValue? && a[i] != b[i] && b[i] != c[i] {
      if asc[i] {
        StrTransitive(a[i].str, b[i].str, c[i].str);
        StrIrreflexive(a[i].str);
      } else {
        StrTransitive(c[i].str, b[i].str, a[i].str);
        StrIrreflexive(a[i].str);
      }
    }
  }

  /** Rows that the comparator does not separate have the same sort keys. */
  lemma {:induction false} Trichotomy(asc: seq<bool>, a: seq<Value>, b: seq<Value>, i: nat)
    requires |a| == |b| == |asc| && i <= |asc| && SameKind(a, b)
    requires !LessFrom(asc, a, b, i) && !LessFrom(asc, b, a, i)
    ensures a[i..] == b[i..]
    decreases |asc| - i
  {
    if i < |asc| {
      if a[i].StrValue? && a[i] != b[i] {
        StrTrichotomy(a[i].str, b[i].str);
      }
      Trichotomy(asc, a, b, i + 1);
      assert a[i..] == [a[i]] + a[i + 1..] && b[i..] == [b[i]] + b[i + 1..];
    }
  }

  /** What the ORDER BY list asks for, said without the comparator: at the first item in which
      the keys differ, an ascending item has the smaller value first, a descending one the
      larger. Integers are ordered by value, strings as in a dictionary. */
  ghost predicate InOrder(asc: seq<bool>, a: seq<Value>, b: seq<Value>)
    requires |a| == |b| == |asc|
  {
    exists i: nat :: i < |asc| && DiffersAt(asc, a, b, i)
  }

  ghost predicate DiffersAt(asc: seq<bool>, a: seq<Value>, b: seq<Value>, i: nat)
    requires |a| == |b| == |asc| && i < |asc|
  {
    && (forall k :: 0 <= k < i ==> a[k] == b[k])
    && if asc[i] then Smaller(a[i], b[i]) else Smaller(b[i], a[i])
  }

  ghost predicate Smaller(v: Value, w: Value) {
    if v.IntValue? then w.IntValue? && v.int_ < w.int_ else w.StrValue? && StrBefore(v.str, w.str)
  }

  /** The comparator says that `a` comes before `b` exactly when the ORDER BY list does. */
  lemma ComparatorIff(asc: seq<bool>, a: seq<Value>, b: seq<Value>)
    requires |a| == |asc| && SameKind(a, b)
    ensures Less(asc, a, b) <==> InOrder(asc, a, b)
  {
    LessFromIff(asc, a, b, 0);
  }

  lemma {:induction false} LessFromIff(asc: seq<bool>, a: seq<Value>, b: seq<Value>, i: nat)
    requires |a| == |asc| && SameKind(a, b) && i <= |asc| && forall k :: 0 <= k < i ==> a[k] == b[k]
    ensures LessFrom(asc, a, b, i) <==> InOrder(asc, a, b)
    decreases |asc| - i
  {
    if i == |asc| {
      forall k: nat | k < |asc| ensures !DiffersAt(asc, a, b, k) {
        NotSmaller(a[k]);
      }
    } else if a[i] == b[i] {
      LessFromIff(asc, a, b, i + 1);
    } else {
      DecidedAt(asc, a, b, i);
    }
  }

  lemma NotSmaller(v: Value)
    ensures !Smaller(v, v)
  {
    if v.StrValue? {
      StrIrreflexive(v.str);
      StrLessIff(v.str, v.str);
    }
  }

  /** The first difference decides. */
  lemma DecidedAt(asc: seq<bool>, a: seq<Value>, b: seq<Value>, i: nat)
    requires |a| == |asc| && SameKind(a, b) && i < |asc| && a[i] != b[i] && forall k :: 0 <= k < i ==> a[k] == b[k]
    ensures LessFrom(asc, a, b, i) <==> InOrder(asc, a, b)
  {
    if a[i].StrValue? {
      StrLessIff(a[i].str, b[i].str);
      StrLessIff(b[i].str, a[i].str);
    }
    assert LessFrom(asc, a, b, i) <==> DiffersAt(asc, a, b, i);
    if InOrder(asc, a, b) {
      var k: nat :| k < |asc| && DiffersAt(asc, a, b, k);
      if k < i { NotSmaller(a[k]); }
    }
  }

  // ------------------------------------------------------------- orders on rows

  /** `std::sort` asks for a strict weak order. */
  ghost predicate StrictWeak<T(!new)>(less: (T, T) -> bool) {
    && (forall x :: !less(x, x))
    && (forall x, y, z :: less(x, y) && less(y, z) ==> less(x, z))
    && (forall x, y, z :: less(x, y) ==> less(x, z) || less(z, y))
  }

  ghost predicate Sorted<T>(less: (T, T) -> bool, s: seq<T>) {
    forall i, j :: 0 <= i < j < |s| ==> !less(s[j], s[i])
  }

  /** The keys of rows that come from one schema. */
  ghost predicate OneSchema<T(!new)>(key: T -> seq<Value>, asc: seq<bool>) {
    && (forall x :: |key(x)| == |asc|)
    && (forall x, y :: SameKind(key(x), key(y)))
  }

  function ByKey<T>(key: T -> seq<Value>, asc: seq<bool>): (T, T) -> bool {
    (x: T, y: T) => |key(x)| == |key(y)| == |asc| && Less(asc, key(x), key(y))
  }

  /** The comparator is a strict weak order, for any mix of directions and kinds. */
  lemma ComparatorIsStrictWeak<T(!new)>(key: T -> seq<Value>, asc: seq<bool>)
    requires OneSchema(key, asc)
    ensures StrictWeak(ByKey(key, asc))
  {
    var less := ByKey(key, asc);
    forall x ensures !less(x, x) {
      Irreflexive(asc, key(x), 0);
    }
    forall x, y, z | less(x, y) && less(y, z) ensures less(x, z) {
      Transitive(asc, key(x), key(y), key(z), 0);
    }
    forall x, y, z | less(x, y) && !less(x, z) ensures less(z, y) {
      if less(z, x) {
        Transitive(asc, key(z), key(x), key(y), 0);
      } else {
        Trichotomy(asc, key(x), key(z), 0);
        assert key(x) == key(x)[0..] && key(z) == key(z)[0..];
      }
    }
  }

  /** The sort keys of a list of rows. */
  function Keys<T>(key: T -> seq<Value>, s: seq<T>): (r: seq<seq<Value>>)
    ensures |r| == |s| && forall i :: 0 <= i < |s| ==> r[i] == key(s[i])
  {
    seq(|s|, i requires 0 <= i < |s| => key(s[i]))
  }

  /** Two sorted arrangements of the same rows have the same sequence of sort keys. */
  lemma {:induction false} SortedKeysAgree<T(!new)>(key: T -> seq<Value>, asc: seq<bool>, a: seq<T>, b: seq<T>)
    requires OneSchema(key, asc)
    requires Sorted(ByKey(key, asc), a) && Sorted(ByKey(key, asc), b)
    requires multiset(Keys(key, a)) == multiset(Keys(key, b))
    ensures Keys(key, a) == Keys(key, b)
    decreases |a|
  {
    var ka, kb := Keys(key, a), Keys(key, b);
    assert |multiset(ka)| == |ka| && |multiset(kb)| == |kb|;
    if a != [] {
      FirstKeysAgree(key, asc, a, b);
      assert ka == [ka[0]] + ka[1..] && kb == [kb[0]] + kb[1..];
      assert Keys(key, a[1..]) == ka[1..] && Keys(key, b[1..]) == kb[1..];
      Cancel(multiset{ka[0]}, multiset(ka[1..]), multiset(kb[1..]));
      SortedKeysAgree(key, asc, a[1..], b[1..]);
    }
  }

  lemma FirstKeysAgree<T(!new)>(key: T -> seq<Value>, asc: seq<bool>, a: seq<T>, b: seq<T>)
    requires OneSchema(key, asc) && |a| == |b| > 0
    requires Sorted(ByKey(key, asc), a) && Sorted(ByKey(key, asc), b)
    requires multiset(Keys(key, a)) == multiset(Keys(key, b))
    ensures key(a[0]) == key(b[0])
  {
    var ka, kb := Keys(key, a), Keys(key, b);
    assert ka[0] in multiset(kb) && kb[0] in multiset(ka);
    var i :| 0 <= i < |kb| && kb[i] == ka[0];
    var j :| 0 <= j < |ka| && ka[j] == kb[0];
    assert !ByKey(key, asc)(a[j], a[0]) by { if j == 0 { Irreflexive(asc, key(a[0]), 0); } }
    assert !ByKey(key, asc)(b[i], b[0]) by { if i == 0 { Irreflexive(asc, key(b[0]), 0); } }
    assert SameKind(key(a[0]), key(b[0]));
    Trichotomy(asc, key(a[0]), key(b[0]), 0);
    assert key(a[0]) == key(a[0])[0..] && key(b[0]) == key(b[0])[0..];
  }
}
