/** Column values: `class Value` of `src/common/types.h`. Reading the wrong kind of a value
  gives the default of that field, as in the source.
 */
module Values {
  datatype Value = IntValue(int_: int) | StrValue(str: string)
  {
    function AsInt(): int {
      if IntValue? then int_ else 0
    }

    function AsVarchar(): string {
      if StrValue? then str else ""
    }
  }

  /** `std::string::operator<`. */
  predicate StrLess(s: string, t: string) {
    if t == [] then false
    else if s == [] then true
    else if s[0] != t[0] then s[0] < t[0]
    else StrLess(s[1..], t[1..])
  }

  /** Dictionary order: at the first difference the character is smaller, or the string ends. */
  ghost predicate StrBefore(s: string, t: string) {
    exists k: nat :: k < |t| && StrBeforeAt(s, t, k)
  }

  predicate StrBeforeAt(s: string, t: string, k: nat) {
    && k <= |s| && k < |t| && (forall i :: 0 <= i < k ==> s[i] == t[i])
    && (k == |s| || s[k] < t[k])
  }

  lemma {:induction false} StrLessIff(s: string, t: string)
    ensures StrLess(s, t) <==> StrBefore(s, t)
  {
    if s == [] || t == [] {
      assert t != [] ==> StrBeforeAt(s, t, 0);
    } else if s[0] != t[0] {
      assert s[0] < t[0] ==> StrBeforeAt(s, t, 0);
    } else {
      StrLessIff(s[1..], t[1..]);
      if StrLess(s[1..], t[1..]) {
        var k: nat :| k < |t[1..]| && StrBeforeAt(s[1..], t[1..], k);
        forall i | 0 <= i < k + 1 ensures s[i] == t[i] {
          if i > 0 { assert s[i] == s[1..][i - 1] && t[i] == t[1..][i - 1]; }
        }
        assert StrBeforeAt(s, t, k + 1);
      }
      if StrBefore(s, t) {
        var k: nat :| k < |t| && StrBeforeAt(s, t, k);
        assert StrBeforeAt(s[1..], t[1..], k - 1);
      }
    }
  }

  lemma {:induction false} StrIrreflexive(s: string)
    ensures !StrLess(s, s)
  {
    if s != [] { StrIrreflexive(s[1..]); }
  }

  lemma {:induction false} StrTransitive(a: string, b: string, c: string)
    requires StrLess(a, b) && StrLess(b, c)
    ensures StrLess(a, c)
  {
    if a != [] && b[0] == a[0] && c[0] == a[0] {
      StrTransitive(a[1..], b[1..], c[1..]);
    }
  }

  lemma {:induction false} StrTrichotomy(a: string, b: string)
    requires !StrLess(a, b) && !StrLess(b, a)
    ensures a == b
  {
    if a != [] && b != [] {
      StrTrichotomy(a[1..], b[1..]);
      assert a == [a[0]] + a[1..] && b == [b[0]] + b[1..];
    }
  }
}
