/** The grouping key of `src/executor/aggregate.cpp`: the rendered group-by values, each
  followed by a bar. This module settles when two rows with different values get one key,
  given the kinds and declared lengths of the group-by columns.
 */
module GroupKeys {
  import opened Values
  import opened Types
  import opened Decimal
  import opened Bags
  import opened Basics

  /** One rendered value and its bar. */
  function Field(v: Value): string {
    Rendered(v) + "|"
  }

  /** `MakeKey` on the group-by values of a row. */
  function MakeKey(vals: seq<Value>): string {
    FlatMap(Field, vals)
  }

  lemma KeySnoc(vals: seq<Value>, v: Value)
    ensures MakeKey(vals + [v]) == MakeKey(vals) + Field(v)
  {
    FlatMapConcat(Field, vals, [v]);
    FlatMapOne(Field, v);
  }

  /** The loop of the source. */
  method BuildKey(vals: seq<Value>) returns (key: string)
    ensures key == MakeKey(vals)
  {
    key := "";
    for i := 0 to |vals|
      invariant key == MakeKey(vals[..i])
    {
      KeySnoc(vals[..i], vals[i]);
      assert vals[..i + 1] == vals[..i] + [vals[i]];
      key := key + Field(vals[i]);
    }
    assert vals[..|vals|] == vals;
  }

  predicate NoBar(s: string) {
    '|' !in s
  }

  lemma IntHasNoBar(v: Value)
    requires v.IntValue?
    ensures NoBar(Rendered(v))
  {
    var n := if v.int_ < 0 then -v.int_ else v.int_;
    assert AllDigits(Numeral(n));
  }

  lemma KeyEndsInBar(vals: seq<Value>)
    ensures EndsInBar(MakeKey(vals))
  {
    if vals != [] {
      KeySnoc(vals[..|vals| - 1], vals[|vals| - 1]);
      assert vals == vals[..|vals| - 1] + [vals[|vals| - 1]];
    }
  }

  predicate EndsInBar(s: string) {
    s == "" || s[|s| - 1] == '|'
  }

  /** A first field without a bar can be read off the front. */
  lemma PeelFront(a: string, s: string, b: string, t: string)
    requires NoBar(a) && NoBar(b) && (a + "|") + s == (b + "|") + t
    ensures a == b && s == t
  {
    var x, y := (a + "|") + s, (b + "|") + t;
    assert x[|a|] == '|' && y[|b|] == '|';
    assert a == x[..|a|] && b == y[..|b|] && s == x[|a| + 1..] && t == y[|b| + 1..];
  }

  lemma NotShorter(s: string, a: string, t: string, b: string)
    requires s + (a + "|") == t + (b + "|") && EndsInBar(t) && |s| < |t|
    ensures !NoBar(a)
  {
    var x := s + (a + "|");
    assert |t| + |b| == |s| + |a|;
    assert a[|t| - 1 - |s|] == x[|t| - 1] == t[|t| - 1];
  }

  /** And a last one off the back. */
  lemma PeelBack(s: string, a: string, t: string, b: string)
    requires NoBar(a) && NoBar(b) && s + (a + "|") == t + (b + "|") && EndsInBar(s) && EndsInBar(t)
    ensures s == t && a == b
  {
    var x, y := s + (a + "|"), t + (b + "|");
    if |s| < |t| { NotShorter(s, a, t, b); }
    if |t| < |s| { NotShorter(t, b, s, a); }
    assert s == x[..|s|] && t == y[..|t|] && a == x[|s|..|x| - 1] && b == y[|t|..|y| - 1];
  }

  /** Group-by values of one schema: each of the kind of its column. */
  predicate OfSchema(vals: seq<Value>, types: seq<ColumnType>) {
    |vals| == |types| && forall i :: 0 <= i < |types| ==> (vals[i].StrValue? <==> types[i].Varchar?)
  }

  /** Values that the columns of a stored row can hold. */
  predicate InColumns(vals: seq<Value>, types: seq<ColumnType>) {
    |vals| == |types| && forall i :: 0 <= i < |types| ==> Fits(vals[i], types[i]) && Storable(vals[i], types[i])
  }

  predicate AtMostOneText(types: seq<ColumnType>) {
    forall i, j :: 0 <= i < j < |types| ==> !(types[i].Varchar? && types[j].Varchar?)
  }

  lemma RenderedSame(a: Value, b: Value)
    requires (a.StrValue? <==> b.StrValue?) && Rendered(a) == Rendered(b)
    ensures a == b
  {
    if a.IntValue? { ToStringInjective(a.int_, b.int_); }
  }

  /** Keys that can be peeled from the front as far as the fields have no bar. */
  lemma PeelFirst(a: seq<Value>, b: seq<Value>)
    requires a != [] && b != [] && MakeKey(a) == MakeKey(b) && NoBar(Rendered(a[0])) && NoBar(Rendered(b[0]))
    ensures Rendered(a[0]) == Rendered(b[0]) && MakeKey(a[1..]) == MakeKey(b[1..])
  {
    PeelFront(Rendered(a[0]), MakeKey(a[1..]), Rendered(b[0]), MakeKey(b[1..]));
  }

  lemma PeelLast(a: seq<Value>, b: seq<Value>)
    requires a != [] && b != [] && MakeKey(a) == MakeKey(b)
    requires NoBar(Rendered(a[|a| - 1])) && NoBar(Rendered(b[|b| - 1]))
    ensures Rendered(a[|a| - 1]) == Rendered(b[|b| - 1]) && MakeKey(a[..|a| - 1]) == MakeKey(b[..|b| - 1])
  {
    var a', b', v, w := a[..|a| - 1], b[..|b| - 1], a[|a| - 1], b[|b| - 1];
    assert a == a' + [v] && b == b' + [w];
    KeySnoc(a', v);
    KeySnoc(b', w);
    KeyEndsInBar(a');
    KeyEndsInBar(b');
    PeelBack(MakeKey(a'), Rendered(v), MakeKey(b'), Rendered(w));
  }

  /** Values without bars are told apart, in any number of columns. */
  lemma {:induction false} NoBarsSeparate(a: seq<Value>, b: seq<Value>, types: seq<ColumnType>)
    requires OfSchema(a, types) && OfSchema(b, types) && MakeKey(a) == MakeKey(b)
    requires forall i :: 0 <= i < |a| ==> NoBar(Rendered(a[i])) && NoBar(Rendered(b[i]))
    ensures a == b
  {
    if a != [] {
      PeelFirst(a, b);
      RenderedSame(a[0], b[0]);
      NoBarsSeparate(a[1..], b[1..], types[1..]);
      assert a == [a[0]] + a[1..] && b == [b[0]] + b[1..];
    }
  }

  /** With at most one VARCHAR column all values are told apart. */
  lemma {:induction false} OneTextSeparates(a: seq<Value>, b: seq<Value>, types: seq<ColumnType>)
    requires OfSchema(a, types) && OfSchema(b, types) && AtMostOneText(types) && MakeKey(a) == MakeKey(b)
    ensures a == b
    decreases |a|
  {
    if |a| == 0 {
    } else if types[0].IntColumn? {
      IntFirst(a, b);
      OneTextSeparates(a[1..], b[1..], types[1..]);
      assert a == [a[0]] + a[1..] && b == [b[0]] + b[1..];
    } else if |a| > 1 {
      var n := |a| - 1;
      IntLast(a, b);
      OneTextSeparates(a[..n], b[..n], types[..n]);
      assert a == a[..n] + [a[n]] && b == b[..n] + [b[n]];
    } else {
      OneColumn(a, b);
      RenderedSame(a[0], b[0]);
      assert a == [a[0]] && b == [b[0]];
    }
  }

  lemma IntFirst(a: seq<Value>, b: seq<Value>)
    requires a != [] && b != [] && MakeKey(a) == MakeKey(b) && a[0].IntValue? && b[0].IntValue?
    ensures a[0] == b[0] && MakeKey(a[1..]) == MakeKey(b[1..])
  {
    IntHasNoBar(a[0]);
    IntHasNoBar(b[0]);
    PeelFirst(a, b);
    RenderedSame(a[0], b[0]);
  }

  lemma IntLast(a: seq<Value>, b: seq<Value>)
    requires a != [] && b != [] && MakeKey(a) == MakeKey(b) && a[|a| - 1].IntValue? && b[|b| - 1].IntValue?
    ensures a[|a| - 1] == b[|b| - 1] && MakeKey(a[..|a| - 1]) == MakeKey(b[..|b| - 1])
  {
    IntHasNoBar(a[|a| - 1]);
    IntHasNoBar(b[|b| - 1]);
    PeelLast(a, b);
    RenderedSame(a[|a| - 1], b[|b| - 1]);
  }

  lemma OneColumn(a: seq<Value>, b: seq<Value>)
    requires |a| == |b| == 1 && MakeKey(a) == MakeKey(b)
    ensures Rendered(a[0]) == Rendered(b[0])
  {
    FlatMapOne(Field, a[0]);
    FlatMapOne(Field, b[0]);
    assert a == [a[0]] && b == [b[0]];
    assert Rendered(a[0]) == Field(a[0])[..|Field(a[0])| - 1] && Rendered(b[0]) == Field(b[0])[..|Field(b[0])| - 1];
  }

  // ------------------------------------------------------------ declared lengths

  /** No two VARCHAR columns stand side by side, and at most one is longer than one character. */
  predicate Tells(types: seq<ColumnType>) {
    && (forall i :: 0 <= i < |types| - 1 ==> !(types[i].Varchar? && types[i + 1].Varchar?))
    && (forall i, j :: 0 <= i < j < |types| ==> !(Long(types[i]) && Long(types[j])))
  }

  predicate Long(t: ColumnType) {
    t.Varchar? && t.maxLen >= 2
  }

  lemma IntNotEmpty(v: Value)
    requires v.IntValue?
    ensures Rendered(v) != [] && Rendered(v)[0] != '|' && Rendered(v)[|Rendered(v)| - 1] != '|'
  {
    IntHasNoBar(v);
    ToStringInjective(v.int_, v.int_);
  }

  lemma KeyCons(vals: seq<Value>)
    requires vals != []
    ensures MakeKey(vals) == Rendered(vals[0]) + "|" + MakeKey(vals[1..])
  {
  }

  /** In front of an INT column, at most one character can be read off the front. */
  lemma ShortFirst(a: seq<Value>, b: seq<Value>)
    requires |a| >= 2 && |b| >= 2 && MakeKey(a) == MakeKey(b) && a[1].IntValue? && b[1].IntValue?
    requires |Rendered(a[0])| <= 1 && |Rendered(b[0])| <= 1
    ensures Rendered(a[0]) == Rendered(b[0]) && MakeKey(a[1..]) == MakeKey(b[1..])
  {
    KeyCons(a);
    KeyCons(b);
    KeyCons(a[1..]);
    KeyCons(b[1..]);
    IntNotEmpty(a[1]);
    IntNotEmpty(b[1]);
    ShortFront(Rendered(a[0]), MakeKey(a[1..]), Rendered(b[0]), MakeKey(b[1..]));
  }

  lemma ShortFront(x: string, s: string, y: string, t: string)
    requires x + "|" + s == y + "|" + t && |x| <= 1 && |y| <= 1
    requires s != [] && t != [] && s[0] != '|' && t[0] != '|'
    ensures x == y && s == t
  {
    var k, l := x + "|" + s, y + "|" + t;
    assert k[|x|] == '|' && k[|x| + 1] == s[0] && l[|y|] == '|' && l[|y| + 1] == t[0];
    assert x == k[..|x|] && y == l[..|y|] && s == k[|x| + 1..] && t == l[|y| + 1..];
  }

  /** Behind one, off the back. */
  lemma ShortLast(a: seq<Value>, b: seq<Value>)
    requires |a| >= 2 && |b| >= 2 && MakeKey(a) == MakeKey(b) && a[|a| - 2].IntValue? && b[|b| - 2].IntValue?
    requires |Rendered(a[|a| - 1])| <= 1 && |Rendered(b[|b| - 1])| <= 1
    ensures Rendered(a[|a| - 1]) == Rendered(b[|b| - 1]) && MakeKey(a[..|a| - 1]) == MakeKey(b[..|b| - 1])
  {
    var s, x := LastTwo(a);
    var t, y := LastTwo(b);
    ShortBack(s, x, t, y);
  }

  /** The key before the last field, which ends in a number and its bar, and the last value. */
  lemma LastTwo(a: seq<Value>) returns (k: string, x: string)
    requires |a| >= 2 && a[|a| - 2].IntValue?
    ensures k == MakeKey(a[..|a| - 1]) && x == Rendered(a[|a| - 1]) && MakeKey(a) == k + (x + "|")
    ensures |k| >= 2 && k[|k| - 1] == '|' && k[|k| - 2] != '|'
  {
    var n := |a| - 1;
    k, x := MakeKey(a[..n]), Rendered(a[n]);
    assert a == a[..n] + [a[n]];
    KeySnoc(a[..n], a[n]);
    assert a[..n] == a[..n - 1] + [a[n - 1]];
    KeySnoc(a[..n - 1], a[n - 1]);
    IntNotEmpty(a[n - 1]);
    EndOfField(MakeKey(a[..n - 1]), Rendered(a[n - 1]));
  }

  lemma EndOfField(s: string, v: string)
    requires v != [] && v[|v| - 1] != '|'
    ensures var k := s + (v + "|"); |k| >= 2 && k[|k| - 1] == '|' && k[|k| - 2] != '|'
  {
  }

  lemma ShortBack(s: string, x: string, t: string, y: string)
    requires s + (x + "|") == t + (y + "|") && |x| <= 1 && |y| <= 1 && |s| >= 2 && |t| >= 2
    requires s[|s| - 1] == t[|t| - 1] == '|' && s[|s| - 2] != '|' && t[|t| - 2] != '|'
    ensures x == y && s == t
  {
    var k, l := s + (x + "|"), t + (y + "|");
    assert k[|s| - 1] == '|' && k[|s| - 2] == s[|s| - 2] && l[|t| - 1] == '|' && l[|t| - 2] == t[|t| - 2];
    assert |k| == |s| + |x| + 1 && |l| == |t| + |y| + 1;
    assert s == k[..|s|] && t == l[..|t|] && x == k[|s|..|k| - 1] && y == l[|t|..|l| - 1];
  }

  /** Under that condition all stored rows are told apart: fields can be peeled off the front or
      the back, one by one. */
  lemma {:induction false} TellsApart(a: seq<Value>, b: seq<Value>, types: seq<ColumnType>)
    requires InColumns(a, types) && InColumns(b, types) && Tells(types) && MakeKey(a) == MakeKey(b)
    ensures a == b
    decreases |a|
  {
    var n := |a| - 1;
    if |a| == 0 {
    } else if |a| == 1 {
      OneColumn(a, b);
      RenderedSame(a[0], b[0]);
      assert a == [a[0]] && b == [b[0]];
    } else if types[0].IntColumn? || !Long(types[0]) {
      FirstApart(a, b, types);
      TellsRest(types);
      TellsApart(a[1..], b[1..], types[1..]);
      assert a == [a[0]] + a[1..] && b == [b[0]] + b[1..];
    } else {
      LastApart(a, b, types);
      TellsInit(types);
      TellsApart(a[..n], b[..n], types[..n]);
      assert a == a[..n] + [a[n]] && b == b[..n] + [b[n]];
    }
  }

  lemma FirstApart(a: seq<Value>, b: seq<Value>, types: seq<ColumnType>)
    requires InColumns(a, types) && InColumns(b, types) && Tells(types) && MakeKey(a) == MakeKey(b)
    requires |a| >= 2 && !Long(types[0])
    ensures a[0] == b[0] && MakeKey(a[1..]) == MakeKey(b[1..])
  {
    if types[0].IntColumn? {
      IntFirst(a, b);
    } else {
      assert types[0 + 1].IntColumn?;
      ShortFirst(a, b);
    }
  }

  lemma LastApart(a: seq<Value>, b: seq<Value>, types: seq<ColumnType>)
    requires InColumns(a, types) && InColumns(b, types) && Tells(types) && MakeKey(a) == MakeKey(b)
    requires |a| >= 2 && Long(types[0])
    ensures a[|a| - 1] == b[|b| - 1] && MakeKey(a[..|a| - 1]) == MakeKey(b[..|b| - 1])
  {
    var n := |a| - 1;
    if types[n].IntColumn? {
      IntLast(a, b);
    } else {
      assert !types[n - 1].Varchar?;
      ShortLast(a, b);
    }
  }

  lemma TellsRest(types: seq<ColumnType>)
    requires Tells(types) && types != []
    ensures Tells(types[1..])
  {
    var r := types[1..];
    forall i | 0 <= i < |r| - 1 ensures !(r[i].Varchar? && r[i + 1].Varchar?) {
      assert r[i] == types[i + 1] && r[i + 1] == types[i + 1 + 1];
    }
  }

  lemma TellsInit(types: seq<ColumnType>)
    requires Tells(types) && types != []
    ensures Tells(types[..|types| - 1])
  {
    var r := types[..|types| - 1];
    forall i | 0 <= i < |r| - 1 ensures !(r[i].Varchar? && r[i + 1].Varchar?) {
      assert r[i] == types[i] && r[i + 1] == types[i + 1];
    }
  }

  /** Two VARCHAR columns, with anything before, between and after them: a bar can be moved from
      one to the other along with a word, if the word and what is between them commute. */
  lemma TwoTextsCollide(pre: seq<Value>, mid: seq<Value>, post: seq<Value>, w: string)
    requires MakeKey(mid) + (w + "|") == (w + "|") + MakeKey(mid)
    ensures MakeKey(Columns(pre, StrValue(""), mid, StrValue(w + "|"), post)) == MakeKey(Columns(pre, StrValue("|" + w), mid, StrValue(""), post))
  {
    Flatten(pre, StrValue(""), mid, StrValue(w + "|"), post);
    Flatten(pre, StrValue("|" + w), mid, StrValue(""), post);
    Shift(MakeKey(mid), w);
    assert Field(StrValue("")) == "|" && Field(StrValue(w + "|")) == w + "|" + "|" && Field(StrValue("|" + w)) == "|" + w + "|";
  }

  lemma Shift(k: string, w: string)
    requires k + (w + "|") == (w + "|") + k
    ensures "|" + k + (w + "|" + "|") == ("|" + w + "|") + k + "|"
  {
    assert "|" + k + (w + "|" + "|") == "|" + (k + (w + "|")) + "|";
    assert ("|" + w + "|") + k + "|" == "|" + ((w + "|") + k) + "|";
  }

  function Columns(pre: seq<Value>, v: Value, mid: seq<Value>, w: Value, post: seq<Value>): seq<Value> {
    pre + ([v] + (mid + ([w] + post)))
  }

  lemma Flatten(pre: seq<Value>, v: Value, mid: seq<Value>, w: Value, post: seq<Value>)
    ensures MakeKey(Columns(pre, v, mid, w, post)) == MakeKey(pre) + (Field(v) + MakeKey(mid) + Field(w)) + MakeKey(post)
  {
    FlatMapConcat(Field, pre, [v] + (mid + ([w] + post)));
    FlatMapConcat(Field, [v], mid + ([w] + post));
    FlatMapConcat(Field, mid, [w] + post);
    FlatMapConcat(Field, [w], post);
    FlatMapOne(Field, v);
    FlatMapOne(Field, w);
    Regroup(MakeKey(pre), Field(v), MakeKey(mid), Field(w), MakeKey(post));
  }

  lemma Regroup(p: string, a: string, k: string, b: string, q: string)
    ensures p + (a + (k + (b + q))) == p + (a + k + b) + q
  {
    assert a + (k + (b + q)) == (a + k + b) + q;
  }

  /** The key tells apart all stored rows of a schema if and only if no two VARCHAR columns stand
      side by side and at most one of them is longer than one character. */
  lemma SeparatesIff(types: seq<ColumnType>)
    requires AllPositive(types)
    ensures (forall a, b :: InColumns(a, types) && InColumns(b, types) && MakeKey(a) == MakeKey(b) ==> a == b) <==> Tells(types)
  {
    if Tells(types) {
      forall a, b | InColumns(a, types) && InColumns(b, types) && MakeKey(a) == MakeKey(b) ensures a == b {
        TellsApart(a, b, types);
      }
    } else if i :| 0 <= i < |types| - 1 && types[i].Varchar? && types[i + 1].Varchar? {
      AdjacentCollide(types, i);
    } else {
      var i, j :| 0 <= i < j < |types| && Long(types[i]) && Long(types[j]);
      LongCollide(types, i, j);
    }
  }

  ghost predicate AllPositive(types: seq<ColumnType>) {
    forall i :: 0 <= i < |types| && types[i].Varchar? ==> types[i].maxLen >= 1
  }

  /** Some two stored rows share a key. */
  ghost predicate Collides(types: seq<ColumnType>) {
    exists a, b :: InColumns(a, types) && InColumns(b, types) && MakeKey(a) == MakeKey(b) && a != b
  }

  /** VARCHAR columns side by side collide, whatever is around them. */
  lemma AdjacentCollide(types: seq<ColumnType>, i: nat)
    requires AllPositive(types) && i + 1 < |types| && types[i].Varchar? && types[i + 1].Varchar?
    ensures Collides(types)
  {
    assert Zeros(types[i + 1..i + 1]) == [];
    assert MakeKey([]) == "" && "" + ("" + "|") == ("" + "|") + "";
    Collision(types, i, i + 1, "");
  }

  /** So do VARCHAR columns of two characters or more, whatever is around or between them. */
  lemma LongCollide(types: seq<ColumnType>, i: nat, j: nat)
    requires AllPositive(types) && i < j < |types| && Long(types[i]) && Long(types[j])
    ensures Collides(types)
  {
    ZerosCommute(types[i + 1..j]);
    assert "0" + "|" == "0|";
    Collision(types, i, j, "0");
  }

  /** Two rows of zeros that differ in columns `i` and `j`. */
  lemma Collision(types: seq<ColumnType>, i: nat, j: nat, w: string)
    requires AllPositive(types) && i < j < |types|
    requires types[i].Varchar? && types[j].Varchar? && |w| < types[i].maxLen && |w| < types[j].maxLen && (w == "" || w == "0")
    requires MakeKey(Zeros(types[i + 1..j])) + (w + "|") == (w + "|") + MakeKey(Zeros(types[i + 1..j]))
    ensures Collides(types)
  {
    var pre, mid, post := Zeros(types[..i]), Zeros(types[i + 1..j]), Zeros(types[j + 1..]);
    TwoTextsCollide(pre, mid, post, w);
    var a, b := Columns(pre, StrValue(""), mid, StrValue(w + "|"), post), Columns(pre, StrValue("|" + w), mid, StrValue(""), post);
    ZerosAround(types, i, j, StrValue(""), StrValue(w + "|"));
    ZerosAround(types, i, j, StrValue("|" + w), StrValue(""));
    assert a[i] != b[i];
  }

  /** Zeros in all columns, as numbers or as texts. */
  function Zeros(types: seq<ColumnType>): (r: seq<Value>)
    ensures |r| == |types|
    ensures forall i :: 0 <= i < |r| ==> r[i] == if types[i].Varchar? then StrValue("0") else IntValue(0)
  {
    seq(|types|, i requires 0 <= i < |types| => if types[i].Varchar? then StrValue("0") else IntValue(0))
  }

  lemma {:induction false} ZerosCommute(types: seq<ColumnType>)
    ensures MakeKey(Zeros(types)) + "0|" == "0|" + MakeKey(Zeros(types))
  {
    if types != [] {
      var z := Zeros(types);
      KeyCons(z);
      assert z[1..] == Zeros(types[1..]) && Rendered(z[0]) == "0";
      ZerosCommute(types[1..]);
      assert MakeKey(z) == "0|" + MakeKey(z[1..]);
      Assoc("0|", MakeKey(z[1..]), "0|");
    }
  }

  lemma ZerosAround(types: seq<ColumnType>, i: nat, j: nat, v: Value, w: Value)
    requires AllPositive(types) && i < j < |types|
    requires Fits(v, types[i]) && Storable(v, types[i]) && Fits(w, types[j]) && Storable(w, types[j])
    ensures InColumns(Columns(Zeros(types[..i]), v, Zeros(types[i + 1..j]), w, Zeros(types[j + 1..])), types)
  {
    var r := Columns(Zeros(types[..i]), v, Zeros(types[i + 1..j]), w, Zeros(types[j + 1..]));
    forall k | 0 <= k < |types| ensures r[k] == if k == i then v else if k == j then w else Zeros(types)[k] {
    }
  }

  /** A column between two others can be in their way: in (VARCHAR(1), INT, VARCHAR(1)) nothing
      collides. */
  lemma ShortColumnsApart(a: seq<Value>, b: seq<Value>)
    requires var types := [Varchar(1), IntColumn, Varchar(1)]; InColumns(a, types) && InColumns(b, types)
    ensures MakeKey(a) == MakeKey(b) <==> a == b
  {
    var types := [Varchar(1), IntColumn, Varchar(1)];
    if MakeKey(a) == MakeKey(b) { TellsApart(a, b, types); }
  }

  /** The rows ("a|", "b") and ("a", "|b") share a key. */
  lemma BarCollision()
    ensures MakeKey([StrValue("a|"), StrValue("b")]) == MakeKey([StrValue("a"), StrValue("|b")])
  {
    assert [StrValue("a|"), StrValue("b")][1..] == [StrValue("b")] && [StrValue("a"), StrValue("|b")][1..] == [StrValue("|b")];
    FlatMapOne(Field, StrValue("b"));
    FlatMapOne(Field, StrValue("|b"));
    assert ("a|" + "|") + ("b" + "|") == ("a" + "|") + ("|b" + "|");
  }
}
