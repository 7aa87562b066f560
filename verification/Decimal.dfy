/** Decimal numerals: `std::to_string` as used by `Value::ToString`, and `std::stoi` as used
  by the parser.
 */
module Decimal {
  import opened Page
  import opened Values

  const INT_MIN := -0x8000_0000
  const INT_MAX := 0x7FFF_FFFF

  predicate IsInt32(v: int) {
    INT_MIN <= v <= INT_MAX
  }

  predicate IsDigit(c: char) {
    '0' <= c <= '9'
  }

  function Digit(d: nat): (c: char)
    requires d < 10
    ensures IsDigit(c)
  {
    d as char + '0'
  }

  function DigitValue(c: char): nat
    requires IsDigit(c)
  {
    (c as int - '0' as int) as nat
  }

  predicate AllDigits(s: string) {
    forall i :: 0 <= i < |s| ==> IsDigit(s[i])
  }

  /** A natural number in decimal, without leading zeros. */
  function Numeral(n: nat): (s: string)
    ensures s != [] && AllDigits(s)
  {
    if n < 10 then [Digit(n)] else Numeral(n / 10) + [Digit(n % 10)]
  }

  /** `std::to_string` on an integer. */
  function ToString(v: int): string {
    if v < 0 then "-" + Numeral(-v) else Numeral(v)
  }

  /** The number a string of digits stands for. */
  function Number(s: string): nat
    requires AllDigits(s)
  {
    if s == [] then 0 else Number(s[..|s| - 1]) * 10 + DigitValue(s[|s| - 1])
  }

  lemma {:induction false} NumberOfNumeral(n: nat)
    ensures Number(Numeral(n)) == n
  {
    if n >= 10 {
      NumberOfNumeral(n / 10);
      assert Numeral(n)[..|Numeral(n)| - 1] == Numeral(n / 10);
    } else {
      assert Numeral(n)[..0] == [];
    }
  }

  /** Digits have the value of their place: each one further left counts ten times as much. */
  lemma {:induction false} NumberConcat(a: string, b: string)
    requires AllDigits(a) && AllDigits(b)
    ensures AllDigits(a + b) && Number(a + b) == Number(a) * Pow10(|b|) + Number(b)
  {
    if b == [] {
      assert a + b == a;
    } else {
      var n := |b| - 1;
      NumberConcat(a, b[..n]);
      assert (a + b)[..|a + b| - 1] == a + b[..n] && (a + b)[|a + b| - 1] == b[n];
      TenTimes(Number(a), Pow10(n), Number(b[..n]), DigitValue(b[n]));
    }
  }

  function Pow10(n: nat): nat {
    if n == 0 then 1 else 10 * Pow10(n - 1)
  }

  lemma TenTimes(a: nat, p: nat, b: nat, d: nat)
    ensures (a * p + b) * 10 + d == a * (10 * p) + (b * 10 + d)
  {
  }

  /** A single digit counts from the character 0, which has code 48. */
  lemma NumberOne(c: char)
    requires IsDigit(c)
    ensures Number([c]) == c as int - 48 < 10
  {
    assert [c][..0] == [];
  }

  /** `to_string` writes a minus sign for negative numbers, then the digits of the number,
      without leading zeros. */
  lemma ToStringCanonical(v: int)
    ensures var s := ToString(v);
            var d := if v < 0 then s[1..] else s;
            && (v < 0 ==> s[0] == '-') && d != [] && AllDigits(d)
            && Number(d) == (if v < 0 then -v else v) && (d[0] == '0' ==> v == 0)
  {
    var n := if v < 0 then -v else v;
    NumberOfNumeral(n);
    NoLeadingZero(n);
    assert v < 0 ==> ToString(v)[1..] == Numeral(n);
  }

  lemma {:induction false} NoLeadingZero(n: nat)
    ensures Numeral(n)[0] == '0' ==> n == 0
  {
    if n >= 10 { NoLeadingZero(n / 10); }
  }

  /** `Value::ToString`. */
  function Rendered(v: Value): string {
    if v.IntValue? then ToString(v.int_) else v.str
  }

  /** Different integers are rendered differently, never as the empty string. */
  lemma ToStringInjective(a: int, b: int)
    ensures ToString(a) != []
    ensures ToString(a) == ToString(b) <==> a == b
  {
    NumberOfNumeral(if a < 0 then -a else a);
    NumberOfNumeral(if b < 0 then -b else b);
    if ToString(a) == ToString(b) {
      assert ToString(a)[0] == '-' <==> a < 0;
      assert ToString(b)[0] == '-' <==> b < 0;
      assert a < 0 ==> ToString(a)[1..] == Numeral(-a) && ToString(b)[1..] == Numeral(-b);
    }
  }

  // ---------------------------------------------------------------- std::stoi

  predicate IsSpace(c: char) {
    c == ' ' || '\t' <= c <= '\r'
  }

  function SkipSpace(s: string): string {
    if s != [] && IsSpace(s[0]) then SkipSpace(s[1..]) else s
  }

  /** The longest prefix of digits. */
  function DigitPrefix(s: string): (r: string)
    ensures AllDigits(r) && r <= s
  {
    if s != [] && IsDigit(s[0]) then [s[0]] + DigitPrefix(s[1..]) else []
  }

  /** `std::stoi`: optional white space, an optional sign and digits; what follows is ignored.
      It throws when there are no digits or the value does not fit in 32 bits. */
  function Stoi(s: string): Option<int> {
    var t := SkipSpace(s);
    var signed := t != [] && (t[0] == '-' || t[0] == '+');
    var digits := DigitPrefix(if signed then t[1..] else t);
    var v: int := if signed && t[0] == '-' then 0 - Number(digits) else Number(digits);
    if digits != [] && IsInt32(v) then Some(v) else None
  }

  lemma {:induction false} DigitPrefixAll(s: string)
    requires AllDigits(s)
    ensures DigitPrefix(s) == s
  {
    if s != [] {
      DigitPrefixAll(s[1..]);
      assert s == [s[0]] + s[1..];
    }
  }

  /** White space, a sign or none, at least one digit, and then no digit. */
  ghost predicate Reads(s: string, w: string, sign: string, d: string, rest: string) {
    && s == w + (sign + (d + rest)) && (forall i :: 0 <= i < |w| ==> IsSpace(w[i]))
    && (sign == "" || sign == "-" || sign == "+") && d != [] && AllDigits(d)
    && (rest != [] ==> !IsDigit(rest[0]))
  }

  /** Of such a text `stoi` gives the number, leading zeros or not, if it fits in 32 bits, and
      throws if it does not. */
  lemma StoiReads(s: string, w: string, sign: string, d: string, rest: string)
    requires Reads(s, w, sign, d, rest)
    ensures var v: int := if sign == "-" then 0 - Number(d) else Number(d);
            Stoi(s) == if IsInt32(v) then Some(v) else None
  {
    var t := sign + (d + rest);
    Signed(sign, d, rest, t);
    SkipSpaceIs(w, t);
    DigitPrefixIs(d, rest);
  }

  lemma Signed(sign: string, d: string, rest: string, t: string)
    requires t == sign + (d + rest) && (sign == "" || sign == "-" || sign == "+") && d != [] && AllDigits(d)
    ensures t != [] && !IsSpace(t[0])
    ensures sign == "" ==> IsDigit(t[0]) && t == d + rest
    ensures sign != "" ==> t[0] == sign[0] && t[1..] == d + rest
  {
  }

  lemma {:induction false} SkipSpaceIs(w: string, t: string)
    requires (forall i :: 0 <= i < |w| ==> IsSpace(w[i])) && t != [] && !IsSpace(t[0])
    ensures SkipSpace(w + t) == t
  {
    if w == [] {
      assert w + t == t;
    } else {
      assert (w + t)[1..] == w[1..] + t;
      SkipSpaceIs(w[1..], t);
    }
  }

  lemma {:induction false} DigitPrefixIs(d: string, rest: string)
    requires AllDigits(d) && (rest != [] ==> !IsDigit(rest[0]))
    ensures DigitPrefix(d + rest) == d
  {
    if d == [] {
      assert d + rest == rest;
    } else {
      assert (d + rest)[1..] == d[1..] + rest;
      DigitPrefixIs(d[1..], rest);
      assert d == [d[0]] + d[1..];
    }
  }

  /** It throws on every text of another form. */
  lemma StoiThrows(s: string)
    requires Stoi(s).Some?
    ensures exists w, sign, d, rest :: Reads(s, w, sign, d, rest)
  {
    var w := SpacePrefix(s);
    var t := SkipSpace(s);
    var signed := t != [] && (t[0] == '-' || t[0] == '+');
    var sign, u := if signed then t[..1] else "", if signed then t[1..] else t;
    var rest := AfterDigits(u);
    SignFirst(t, signed);
    assert Reads(s, w, sign, DigitPrefix(u), rest);
  }

  lemma SignFirst(t: string, signed: bool)
    requires signed == (t != [] && (t[0] == '-' || t[0] == '+'))
    ensures signed ==> t == t[..1] + t[1..] && (t[..1] == "-" || t[..1] == "+")
    ensures !signed ==> t == "" + t
  {
  }

  lemma AfterDigits(u: string) returns (rest: string)
    ensures u == DigitPrefix(u) + rest && (rest != [] ==> !IsDigit(rest[0]))
  {
    PrefixStops(u);
    rest := u[|DigitPrefix(u)|..];
  }

  lemma {:induction false} SpacePrefix(s: string) returns (w: string)
    ensures s == w + SkipSpace(s) && forall i :: 0 <= i < |w| ==> IsSpace(w[i])
  {
    if s != [] && IsSpace(s[0]) {
      var v := SpacePrefix(s[1..]);
      w := [s[0]] + v;
      assert s == [s[0]] + s[1..];
    } else {
      w := [];
    }
  }

  lemma {:induction false} PrefixStops(s: string)
    ensures var n := |DigitPrefix(s)|; n < |s| ==> !IsDigit(s[n])
  {
    if s != [] && IsDigit(s[0]) { PrefixStops(s[1..]); }
  }

  /** Reading back a rendered 32-bit integer gives it. */
  lemma StoiToString(v: int)
    ensures Stoi(ToString(v)) == if IsInt32(v) then Some(v) else None
  {
    var n, t := if v < 0 then -v else v, ToString(v);
    NumberOfNumeral(n);
    DigitPrefixAll(Numeral(n));
    assert SkipSpace(t) == t;
    if v < 0 {
      assert t[0] == '-' && t[1..] == Numeral(n);
    } else {
      assert IsDigit(t[0]) && t == Numeral(n);
    }
  }
}
