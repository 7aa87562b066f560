/** The expression part of the recursive-descent parser, `src/parser/parser.cpp`. The methods
  of the class are proved equal to functions of the tokens and the position; the functions
  are proved sound and complete for the grammar.
 */
module Parsers {
  import opened Page
  import opened Decimal
  import opened Grammar

  /** A parse ends in an exception, or with a tree and the position after it. */
  datatype Parsed = Fail | Done(expr: Expr, pos: nat)

  /** The token list ends in EOF. */
  predicate Ends(ts: seq<Token>) {
    |ts| > 0 && ts[|ts| - 1].kind == EOF_TOKEN
  }

  predicate After(ts: seq<Token>, r: Parsed, pos: nat) {
    r.Done? ==> pos < r.pos < |ts|
  }

  // ------------------------------------------------------------------ functions

  function OrFrom(ts: seq<Token>, pos: nat): (r: Parsed)
    requires Ends(ts) && pos < |ts|
    ensures After(ts, r, pos)
    decreases |ts| - pos, 5
  {
    var l := AndFrom(ts, pos);
    if l.Fail? then Fail else OrTail(ts, l.expr, l.pos)
  }

  /** The loop of `ParseOr`, with the tree built so far. */
  function OrTail(ts: seq<Token>, left: Expr, pos: nat): (r: Parsed)
    requires Ends(ts) && pos < |ts|
    ensures r.Done? ==> pos <= r.pos < |ts|
    decreases |ts| - pos, 5
  {
    if ts[pos].kind != OR then Done(left, pos)
    else
      var r := AndFrom(ts, pos + 1);
      if r.Fail? then Fail else OrTail(ts, Or(left, r.expr), r.pos)
  }

  function AndFrom(ts: seq<Token>, pos: nat): (r: Parsed)
    requires Ends(ts) && pos < |ts|
    ensures After(ts, r, pos)
    decreases |ts| - pos, 4
  {
    var l := NotFrom(ts, pos);
    if l.Fail? then Fail else AndTail(ts, l.expr, l.pos)
  }

  function AndTail(ts: seq<Token>, left: Expr, pos: nat): (r: Parsed)
    requires Ends(ts) && pos < |ts|
    ensures r.Done? ==> pos <= r.pos < |ts|
    decreases |ts| - pos, 4
  {
    if ts[pos].kind != AND then Done(left, pos)
    else
      var r := NotFrom(ts, pos + 1);
      if r.Fail? then Fail else AndTail(ts, And(left, r.expr), r.pos)
  }

  function NotFrom(ts: seq<Token>, pos: nat): (r: Parsed)
    requires Ends(ts) && pos < |ts|
    ensures After(ts, r, pos)
    decreases |ts| - pos, 3
  {
    if ts[pos].kind == NOT then
      var c := CompareFrom(ts, pos + 1);
      if c.Fail? then Fail else Done(Not(c.expr), c.pos)
    else CompareFrom(ts, pos)
  }

  function CompareFrom(ts: seq<Token>, pos: nat): (r: Parsed)
    requires Ends(ts) && pos < |ts|
    ensures After(ts, r, pos)
    decreases |ts| - pos, 2
  {
    var l := PrimaryFrom(ts, pos);
    if l.Fail? then Fail
    else if ts[l.pos].kind.CmpTok? then
      var r := PrimaryFrom(ts, l.pos + 1);
      if r.Fail? then Fail else Done(Compare(ts[l.pos].kind.cmp, l.expr, r.expr), r.pos)
    else l
  }

  function PrimaryFrom(ts: seq<Token>, pos: nat): (r: Parsed)
    requires Ends(ts) && pos < |ts|
    ensures After(ts, r, pos)
    decreases |ts| - pos, 1
  {
    match ts[pos].kind
    case LPAREN => Closed(ts, OrFrom(ts, pos + 1))
    case STAR => Done(Star, pos + 1)
    case INT_LITERAL =>
      var n := Stoi(ts[pos].value);
      if n.None? then Fail else Done(IntLit(n.value), pos + 1)
    case STRING_LITERAL => Done(StrLit(ts[pos].value), pos + 1)
    case FuncTok(f) => AggFrom(ts, f, pos + 1)
    case IDENTIFIER =>
      if ts[pos + 1].kind != DOT then Done(ColumnRef("", ts[pos].value), pos + 1)
      else if ts[pos + 2].kind != IDENTIFIER then Fail
      else Done(ColumnRef(ts[pos].value, ts[pos + 2].value), pos + 3)
    case _ => Fail
  }

  /** A closing parenthesis must follow. */
  function Closed(ts: seq<Token>, r: Parsed): (r': Parsed)
    requires Ends(ts) && (r.Done? ==> r.pos < |ts|)
    ensures r'.Done? ==> r.Done? && r' == Done(r.expr, r.pos + 1) && r'.pos < |ts|
  {
    if r.Fail? || ts[r.pos].kind != RPAREN then Fail else Done(r.expr, r.pos + 1)
  }

  /** The arguments of an aggregate function. */
  function AggFrom(ts: seq<Token>, f: Func, pos: nat): (r: Parsed)
    requires Ends(ts) && pos < |ts|
    ensures After(ts, r, pos)
    decreases |ts| - pos, 0
  {
    if ts[pos].kind != LPAREN then Fail
    else if ts[pos + 1].kind == STAR then Closed(ts, Done(AggStar(f), pos + 2))
    else
      var a := Closed(ts, OrFrom(ts, pos + 1));
      if a.Fail? then Fail else Done(Agg(f, a.expr), a.pos)
  }

  // ------------------------------------------------------------------ soundness

  /** What is parsed is what the grammar says the consumed tokens stand for. */
  lemma {:induction false} OrSound(ts: seq<Token>, pos: nat)
    requires Ends(ts) && pos < |ts|
    ensures var r := OrFrom(ts, pos); r.Done? ==> IsOr(ts, r.expr, pos, r.pos)
    decreases |ts| - pos, 5
  {
    AndSound(ts, pos);
    var l := AndFrom(ts, pos);
    if l.Done? { OrTailSound(ts, l.expr, pos, l.pos); }
  }

  lemma {:induction false} OrTailSound(ts: seq<Token>, left: Expr, start: nat, pos: nat)
    requires Ends(ts) && start < pos < |ts| && IsOr(ts, left, start, pos)
    ensures var r := OrTail(ts, left, pos); r.Done? ==> IsOr(ts, r.expr, start, r.pos)
    decreases |ts| - pos, 5
  {
    if ts[pos].kind == OR {
      AndSound(ts, pos + 1);
      var r := AndFrom(ts, pos + 1);
      if r.Done? {
        assert OrAt(ts, left, r.expr, start, pos, r.pos);
        OrTailSound(ts, Or(left, r.expr), start, r.pos);
      }
    }
  }

  lemma {:induction false} AndSound(ts: seq<Token>, pos: nat)
    requires Ends(ts) && pos < |ts|
    ensures var r := AndFrom(ts, pos); r.Done? ==> IsAnd(ts, r.expr, pos, r.pos)
    decreases |ts| - pos, 4
  {
    NotSound(ts, pos);
    var l := NotFrom(ts, pos);
    if l.Done? { AndTailSound(ts, l.expr, pos, l.pos); }
  }

  lemma {:induction false} AndTailSound(ts: seq<Token>, left: Expr, start: nat, pos: nat)
    requires Ends(ts) && start < pos < |ts| && IsAnd(ts, left, start, pos)
    ensures var r := AndTail(ts, left, pos); r.Done? ==> IsAnd(ts, r.expr, start, r.pos)
    decreases |ts| - pos, 4
  {
    if ts[pos].kind == AND {
      NotSound(ts, pos + 1);
      var r := NotFrom(ts, pos + 1);
      if r.Done? {
        assert AndAt(ts, left, r.expr, start, pos, r.pos);
        AndTailSound(ts, And(left, r.expr), start, r.pos);
      }
    }
  }

  lemma {:induction false} NotSound(ts: seq<Token>, pos: nat)
    requires Ends(ts) && pos < |ts|
    ensures var r := NotFrom(ts, pos); r.Done? ==> IsNot(ts, r.expr, pos, r.pos)
    decreases |ts| - pos, 3
  {
    if ts[pos].kind == NOT { CompareSound(ts, pos + 1); } else { CompareSound(ts, pos); }
  }

  lemma {:induction false} CompareSound(ts: seq<Token>, pos: nat)
    requires Ends(ts) && pos < |ts|
    ensures var r := CompareFrom(ts, pos); r.Done? ==> IsCompare(ts, r.expr, pos, r.pos)
    decreases |ts| - pos, 2
  {
    PrimarySound(ts, pos);
    var l := PrimaryFrom(ts, pos);
    if l.Done? && ts[l.pos].kind.CmpTok? {
      PrimarySound(ts, l.pos + 1);
      var r := PrimaryFrom(ts, l.pos + 1);
      if r.Done? { assert CompareAt(ts, Compare(ts[l.pos].kind.cmp, l.expr, r.expr), pos, l.pos, r.pos); }
    }
  }

  lemma {:induction false} PrimarySound(ts: seq<Token>, pos: nat)
    requires Ends(ts) && pos < |ts|
    ensures var r := PrimaryFrom(ts, pos); r.Done? ==> IsPrimary(ts, r.expr, pos, r.pos)
    decreases |ts| - pos, 1
  {
    var r := PrimaryFrom(ts, pos);
    if r.Done? {
      var kind := ts[pos].kind;
      if kind == LPAREN {
        OrSound(ts, pos + 1);
        assert InParens(ts, r.expr, pos, r.pos);
      } else if kind.FuncTok? && ts[pos + 2].kind != STAR {
        OrSound(ts, pos + 2);
        AggSound(ts, pos);
      } else {
        AtomSound(ts, pos);
      }
    }
  }

  lemma AggSound(ts: seq<Token>, pos: nat)
    requires Ends(ts) && pos < |ts| && ts[pos].kind.FuncTok? && PrimaryFrom(ts, pos).Done? && pos + 2 < |ts| && ts[pos + 2].kind != STAR
    requires var a := OrFrom(ts, pos + 2); a.Done? ==> IsOr(ts, a.expr, pos + 2, a.pos)
    ensures var r := PrimaryFrom(ts, pos); r.expr.Agg? && IsAgg(ts, r.expr, pos, r.pos)
  {
    var f, a := ts[pos].kind.func, Closed(ts, OrFrom(ts, pos + 2));
    assert PrimaryFrom(ts, pos) == AggFrom(ts, f, pos + 1);
    assert AggFrom(ts, f, pos + 1) == Done(Agg(f, a.expr), a.pos);
  }

  lemma AtomSound(ts: seq<Token>, pos: nat)
    requires Ends(ts) && pos < |ts| && PrimaryFrom(ts, pos).Done?
    requires ts[pos].kind != LPAREN && (ts[pos].kind.FuncTok? ==> pos + 2 < |ts| && ts[pos + 2].kind == STAR)
    ensures var r := PrimaryFrom(ts, pos); IsAtom(ts, r.expr, pos, r.pos)
  {
    var r, kind := PrimaryFrom(ts, pos), ts[pos].kind;
    if kind == STAR {
      assert r == Done(Star, pos + 1);
    } else if kind == INT_LITERAL {
      assert r == Done(IntLit(Stoi(ts[pos].value).value), pos + 1);
    } else if kind == STRING_LITERAL {
      assert r == Done(StrLit(ts[pos].value), pos + 1);
    } else if kind.FuncTok? {
      assert r == Closed(ts, Done(AggStar(kind.func), pos + 3));
    } else if ts[pos + 1].kind == DOT {
      assert r == Done(ColumnRef(ts[pos].value, ts[pos + 2].value), pos + 3);
    } else {
      assert r == Done(ColumnRef("", ts[pos].value), pos + 1);
    }
  }

  // --------------------------------------------------------------- completeness

  /** A token that cannot continue a comparison or anything below it. */
  predicate EndsCompare(t: Token) {
    t.kind != DOT && !t.kind.CmpTok?
  }

  /** A disjunction in the tokens is what the loop of `ParseOr` has built when it gets to its
      end, provided that the next token does not continue a lower level. */
  lemma {:induction false} OrComplete(ts: seq<Token>, e: Expr, i: nat, j: nat)
    requires Ends(ts) && i <= j < |ts| && IsOr(ts, e, i, j) && EndsCompare(ts[j]) && ts[j].kind != AND
    ensures OrFrom(ts, i) == OrTail(ts, e, j)
    decreases j - i, 5
  {
    if IsAnd(ts, e, i, j) {
      AndComplete(ts, e, i, j);
    } else {
      var k: nat :| i <= k < j && OrAt(ts, e.left, e.right, i, k, j);
      OrComplete(ts, e.left, i, k);
      AndComplete(ts, e.right, k + 1, j);
    }
  }

  lemma {:induction false} AndComplete(ts: seq<Token>, e: Expr, i: nat, j: nat)
    requires Ends(ts) && i <= j < |ts| && IsAnd(ts, e, i, j) && EndsCompare(ts[j])
    ensures AndFrom(ts, i) == AndTail(ts, e, j)
    decreases j - i, 4
  {
    if IsNot(ts, e, i, j) {
      NotComplete(ts, e, i, j);
    } else {
      var k: nat :| i <= k < j && AndAt(ts, e.left, e.right, i, k, j);
      AndComplete(ts, e.left, i, k);
      NotComplete(ts, e.right, k + 1, j);
    }
  }

  lemma {:induction false} NotComplete(ts: seq<Token>, e: Expr, i: nat, j: nat)
    requires Ends(ts) && i <= j < |ts| && IsNot(ts, e, i, j) && EndsCompare(ts[j])
    ensures NotFrom(ts, i) == Done(e, j)
    decreases j - i, 3
  {
    if IsCompare(ts, e, i, j) {
      CompareComplete(ts, e, i, j);
      StartsPrimary(ts, e, i, j);
    } else {
      CompareComplete(ts, e.child, i + 1, j);
    }
  }

  /** No comparison starts with NOT. */
  lemma StartsPrimary(ts: seq<Token>, e: Expr, i: nat, j: nat)
    requires i <= j <= |ts| && IsCompare(ts, e, i, j)
    ensures ts[i].kind != NOT
  {
    if IsPrimary(ts, e, i, j) {
      PrimaryStart(ts, e, i, j);
    } else {
      var k: nat :| i <= k < j && CompareAt(ts, e, i, k, j);
      PrimaryStart(ts, e.left, i, k);
    }
  }

  lemma PrimaryStart(ts: seq<Token>, e: Expr, i: nat, j: nat)
    requires i <= j <= |ts| && IsPrimary(ts, e, i, j)
    ensures ts[i].kind != NOT
  {
    assert InParens(ts, e, i, j) || IsAtom(ts, e, i, j) || (e.Agg? && IsAgg(ts, e, i, j));
  }

  lemma {:induction false} CompareComplete(ts: seq<Token>, e: Expr, i: nat, j: nat)
    requires Ends(ts) && i <= j < |ts| && IsCompare(ts, e, i, j) && EndsCompare(ts[j])
    ensures CompareFrom(ts, i) == Done(e, j)
    decreases j - i, 2
  {
    if IsPrimary(ts, e, i, j) {
      PrimaryComplete(ts, e, i, j);
    } else {
      var k: nat :| i <= k < j && CompareAt(ts, e, i, k, j);
      PrimaryComplete(ts, e.left, i, k);
      PrimaryComplete(ts, e.right, k + 1, j);
    }
  }

  lemma {:induction false} PrimaryComplete(ts: seq<Token>, e: Expr, i: nat, j: nat)
    requires Ends(ts) && i <= j < |ts| && IsPrimary(ts, e, i, j) && ts[j].kind != DOT
    ensures PrimaryFrom(ts, i) == Done(e, j)
    decreases j - i, 1
  {
    if InParens(ts, e, i, j) {
      OrComplete(ts, e, i + 1, j - 1);
    } else if e.Agg? && IsAgg(ts, e, i, j) {
      OrComplete(ts, e.arg, i + 2, j - 1);
    } else {
      AtomComplete(ts, e, i, j);
    }
  }

  lemma AtomComplete(ts: seq<Token>, e: Expr, i: nat, j: nat)
    requires Ends(ts) && i <= j < |ts| && IsAtom(ts, e, i, j) && ts[j].kind != DOT
    ensures PrimaryFrom(ts, i) == Done(e, j)
  {
    if e.AggStar? {
      assert AggFrom(ts, e.func, i + 1) == Closed(ts, Done(AggStar(e.func), i + 3));
    }
  }

  /** A token list is parsed as a tree, up to its EOF, if and only if the grammar gives that
      tree to the tokens. */
  lemma ParsesIff(ts: seq<Token>, e: Expr)
    requires Ends(ts)
    ensures OrFrom(ts, 0) == Done(e, |ts| - 1) <==> IsOr(ts, e, 0, |ts| - 1)
  {
    if IsOr(ts, e, 0, |ts| - 1) {
      OrComplete(ts, e, 0, |ts| - 1);
    }
    OrSound(ts, 0);
  }

  // ----------------------------------------------------------------- exceptions

  /** What follows token `j` can be chosen so that the tokens from `i` go on beyond it as an
      expression of some level: `us` has the tokens of `ts` up to and with `j`. */
  ghost predicate Onward(ts: seq<Token>, us: seq<Token>, i: nat, j: nat, k: nat) {
    i <= j < |ts| && j < k <= |us| && us[..j + 1] == ts[..j + 1]
  }

  /** With the right tokens behind it, token `j` would continue a disjunction that starts at `i`. */
  ghost predicate OrGoesOn(ts: seq<Token>, i: nat, j: nat) {
    exists us: seq<Token>, e: Expr, k: nat :: Onward(ts, us, i, j, k) && IsOr(us, e, i, k)
  }

  ghost predicate AndGoesOn(ts: seq<Token>, i: nat, j: nat) {
    exists us: seq<Token>, e: Expr, k: nat :: Onward(ts, us, i, j, k) && IsAnd(us, e, i, k)
  }

  ghost predicate NotGoesOn(ts: seq<Token>, i: nat, j: nat) {
    exists us: seq<Token>, e: Expr, k: nat :: Onward(ts, us, i, j, k) && IsNot(us, e, i, k)
  }

  ghost predicate CompareGoesOn(ts: seq<Token>, i: nat, j: nat) {
    exists us: seq<Token>, e: Expr, k: nat :: Onward(ts, us, i, j, k) && IsCompare(us, e, i, k)
  }

  ghost predicate PrimaryGoesOn(ts: seq<Token>, i: nat, j: nat) {
    exists us: seq<Token>, e: Expr, k: nat :: Onward(ts, us, i, j, k) && IsPrimary(us, e, i, k)
  }

  /** A parser that has returned did not look beyond the token it stopped at. */
  predicate Prefix(ts: seq<Token>, us: seq<Token>, j: nat) {
    Ends(ts) && Ends(us) && j < |ts| && j < |us| && us[..j + 1] == ts[..j + 1]
  }

  lemma SameToken(ts: seq<Token>, us: seq<Token>, j: nat, k: nat)
    requires Prefix(ts, us, j) && k <= j
    ensures us[k] == ts[k] && Prefix(ts, us, k)
  {
    assert us[..j + 1][k] == ts[..j + 1][k];
    assert us[..k + 1] == us[..j + 1][..k + 1] && ts[..k + 1] == ts[..j + 1][..k + 1];
  }

  lemma {:induction false} OrLocal(ts: seq<Token>, us: seq<Token>, i: nat)
    requires Ends(ts) && i < |ts| && OrFrom(ts, i).Done? && Prefix(ts, us, OrFrom(ts, i).pos)
    ensures OrFrom(us, i) == OrFrom(ts, i)
    decreases |ts| - i, 5
  {
    var l := AndFrom(ts, i);
    SameToken(ts, us, OrFrom(ts, i).pos, l.pos);
    AndLocal(ts, us, i);
    OrTailLocal(ts, us, l.expr, l.pos);
  }

  lemma {:induction false} OrTailLocal(ts: seq<Token>, us: seq<Token>, left: Expr, i: nat)
    requires Ends(ts) && i < |ts| && OrTail(ts, left, i).Done? && Prefix(ts, us, OrTail(ts, left, i).pos)
    ensures OrTail(us, left, i) == OrTail(ts, left, i)
    decreases |ts| - i, 5
  {
    var j := OrTail(ts, left, i).pos;
    SameToken(ts, us, j, i);
    if ts[i].kind == OR {
      var r := AndFrom(ts, i + 1);
      SameToken(ts, us, j, r.pos);
      AndLocal(ts, us, i + 1);
      OrTailLocal(ts, us, Or(left, r.expr), r.pos);
    }
  }

  lemma {:induction false} AndLocal(ts: seq<Token>, us: seq<Token>, i: nat)
    requires Ends(ts) && i < |ts| && AndFrom(ts, i).Done? && Prefix(ts, us, AndFrom(ts, i).pos)
    ensures AndFrom(us, i) == AndFrom(ts, i)
    decreases |ts| - i, 4
  {
    var l := NotFrom(ts, i);
    SameToken(ts, us, AndFrom(ts, i).pos, l.pos);
    NotLocal(ts, us, i);
    AndTailLocal(ts, us, l.expr, l.pos);
  }

  lemma {:induction false} AndTailLocal(ts: seq<Token>, us: seq<Token>, left: Expr, i: nat)
    requires Ends(ts) && i < |ts| && AndTail(ts, left, i).Done? && Prefix(ts, us, AndTail(ts, left, i).pos)
    ensures AndTail(us, left, i) == AndTail(ts, left, i)
    decreases |ts| - i, 4
  {
    var j := AndTail(ts, left, i).pos;
    SameToken(ts, us, j, i);
    if ts[i].kind == AND {
      var r := NotFrom(ts, i + 1);
      SameToken(ts, us, j, r.pos);
      NotLocal(ts, us, i + 1);
      AndTailLocal(ts, us, And(left, r.expr), r.pos);
    }
  }

  lemma {:induction false} NotLocal(ts: seq<Token>, us: seq<Token>, i: nat)
    requires Ends(ts) && i < |ts| && NotFrom(ts, i).Done? && Prefix(ts, us, NotFrom(ts, i).pos)
    ensures NotFrom(us, i) == NotFrom(ts, i)
    decreases |ts| - i, 3
  {
    SameToken(ts, us, NotFrom(ts, i).pos, i);
    if ts[i].kind == NOT { CompareLocal(ts, us, i + 1); } else { CompareLocal(ts, us, i); }
  }

  lemma {:induction false} CompareLocal(ts: seq<Token>, us: seq<Token>, i: nat)
    requires Ends(ts) && i < |ts| && CompareFrom(ts, i).Done? && Prefix(ts, us, CompareFrom(ts, i).pos)
    ensures CompareFrom(us, i) == CompareFrom(ts, i)
    decreases |ts| - i, 2
  {
    var l := PrimaryFrom(ts, i);
    SameToken(ts, us, CompareFrom(ts, i).pos, l.pos);
    PrimaryLocal(ts, us, i);
    if ts[l.pos].kind.CmpTok? { PrimaryLocal(ts, us, l.pos + 1); }
  }

  lemma {:induction false} PrimaryLocal(ts: seq<Token>, us: seq<Token>, i: nat)
    requires Ends(ts) && i < |ts| && PrimaryFrom(ts, i).Done? && Prefix(ts, us, PrimaryFrom(ts, i).pos)
    ensures PrimaryFrom(us, i) == PrimaryFrom(ts, i)
    decreases |ts| - i, 1
  {
    var j := PrimaryFrom(ts, i).pos;
    SameToken(ts, us, j, i);
    if ts[i].kind == LPAREN {
      SameToken(ts, us, j, j - 1);
      OrLocal(ts, us, i + 1);
    } else if ts[i].kind.FuncTok? {
      AggLocal(ts, us, ts[i].kind.func, i + 1);
    } else if ts[i].kind == IDENTIFIER {
      SameToken(ts, us, j, i + 1);
      if ts[i + 1].kind == DOT { SameToken(ts, us, j, i + 2); }
    }
  }

  lemma {:induction false} AggLocal(ts: seq<Token>, us: seq<Token>, f: Func, i: nat)
    requires Ends(ts) && i < |ts| && AggFrom(ts, f, i).Done? && Prefix(ts, us, AggFrom(ts, f, i).pos)
    ensures AggFrom(us, f, i) == AggFrom(ts, f, i)
    decreases |ts| - i, 0
  {
    var j := AggFrom(ts, f, i).pos;
    SameToken(ts, us, j, i);
    SameToken(ts, us, j, i + 1);
    SameToken(ts, us, j, j - 1);
    if ts[i + 1].kind != STAR { OrLocal(ts, us, i + 1); }
  }

  /** The chosen tokens up to `k`, and then EOF. */
  function Ended(us: seq<Token>, k: nat): (vs: seq<Token>)
    requires k <= |us|
    ensures Ends(vs) && |vs| == k + 1 && forall n :: 0 <= n < k ==> vs[n] == us[n]
  {
    us[..k] + [Token(EOF_TOKEN, "")]
  }

  lemma EndedPrefix(ts: seq<Token>, us: seq<Token>, i: nat, j: nat, k: nat) returns (vs: seq<Token>)
    requires Ends(ts) && Onward(ts, us, i, j, k)
    ensures vs == Ended(us, k) && Prefix(ts, vs, j) && SameTokens(us, vs, i, k, 0)
  {
    vs := Ended(us, k);
    assert vs[..j + 1] == us[..j + 1];
  }

  /** ParseOr returns a tree and stops at token `j` if and only if the grammar gives the tokens
      before `j` that tree and token `j` cannot continue them, whatever were to follow. */
  lemma OrIff(ts: seq<Token>, i: nat, e: Expr, j: nat)
    requires Ends(ts) && i < |ts|
    ensures OrFrom(ts, i) == Done(e, j) <==> i <= j < |ts| && IsOr(ts, e, i, j) && !OrGoesOn(ts, i, j)
  {
    if OrFrom(ts, i) == Done(e, j) {
      OrSound(ts, i);
      if us: seq<Token>, e': Expr, k: nat :| Onward(ts, us, i, j, k) && IsOr(us, e', i, k) {
        var vs := EndedPrefix(ts, us, i, j, k);
        MoveOr(us, vs, e', i, k, 0);
        OrComplete(vs, e', i, k);
        OrLocal(ts, vs, i);
      }
    }
    if i <= j < |ts| && IsOr(ts, e, i, j) { OrStops(ts, e, i, j); }
  }

  /** It throws if and only if there is no such tree: the tokens that can be continued to an
      expression end before they have become one. */
  lemma OrThrowsIff(ts: seq<Token>, i: nat)
    requires Ends(ts) && i < |ts|
    ensures OrFrom(ts, i).Fail? <==> !exists e: Expr, j: nat :: i <= j < |ts| && IsOr(ts, e, i, j) && !OrGoesOn(ts, i, j)
  {
    if OrFrom(ts, i).Done? { OrIff(ts, i, OrFrom(ts, i).expr, OrFrom(ts, i).pos); }
    if e: Expr, j: nat :| i <= j < |ts| && IsOr(ts, e, i, j) && !OrGoesOn(ts, i, j) { OrIff(ts, i, e, j); }
  }

  lemma AndIff(ts: seq<Token>, i: nat, e: Expr, j: nat)
    requires Ends(ts) && i < |ts|
    ensures AndFrom(ts, i) == Done(e, j) <==> i <= j < |ts| && IsAnd(ts, e, i, j) && !AndGoesOn(ts, i, j)
  {
    if AndFrom(ts, i) == Done(e, j) {
      AndSound(ts, i);
      if us: seq<Token>, e': Expr, k: nat :| Onward(ts, us, i, j, k) && IsAnd(us, e', i, k) {
        var vs := EndedPrefix(ts, us, i, j, k);
        MoveAnd(us, vs, e', i, k, 0);
        AndComplete(vs, e', i, k);
        AndLocal(ts, vs, i);
      }
    }
    if i <= j < |ts| && IsAnd(ts, e, i, j) { AndStops(ts, e, i, j); }
  }

  lemma NotIff(ts: seq<Token>, i: nat, e: Expr, j: nat)
    requires Ends(ts) && i < |ts|
    ensures NotFrom(ts, i) == Done(e, j) <==> i <= j < |ts| && IsNot(ts, e, i, j) && !NotGoesOn(ts, i, j)
  {
    if NotFrom(ts, i) == Done(e, j) {
      NotSound(ts, i);
      if us: seq<Token>, e': Expr, k: nat :| Onward(ts, us, i, j, k) && IsNot(us, e', i, k) {
        var vs := EndedPrefix(ts, us, i, j, k);
        MoveNot(us, vs, e', i, k, 0);
        NotComplete(vs, e', i, k);
        NotLocal(ts, vs, i);
      }
    }
    if i <= j < |ts| && IsNot(ts, e, i, j) { NotStops(ts, e, i, j); }
  }

  lemma CompareIff(ts: seq<Token>, i: nat, e: Expr, j: nat)
    requires Ends(ts) && i < |ts|
    ensures CompareFrom(ts, i) == Done(e, j) <==> i <= j < |ts| && IsCompare(ts, e, i, j) && !CompareGoesOn(ts, i, j)
  {
    if CompareFrom(ts, i) == Done(e, j) {
      CompareSound(ts, i);
      if us: seq<Token>, e': Expr, k: nat :| Onward(ts, us, i, j, k) && IsCompare(us, e', i, k) {
        var vs := EndedPrefix(ts, us, i, j, k);
        MoveCompare(us, vs, e', i, k, 0);
        CompareComplete(vs, e', i, k);
        CompareLocal(ts, vs, i);
      }
    }
    if i <= j < |ts| && IsCompare(ts, e, i, j) { CompareStops(ts, e, i, j); }
  }

  lemma PrimaryIff(ts: seq<Token>, i: nat, e: Expr, j: nat)
    requires Ends(ts) && i < |ts|
    ensures PrimaryFrom(ts, i) == Done(e, j) <==> i <= j < |ts| && IsPrimary(ts, e, i, j) && !PrimaryGoesOn(ts, i, j)
  {
    if PrimaryFrom(ts, i) == Done(e, j) {
      PrimarySound(ts, i);
      if us: seq<Token>, e': Expr, k: nat :| Onward(ts, us, i, j, k) && IsPrimary(us, e', i, k) {
        var vs := EndedPrefix(ts, us, i, j, k);
        MovePrimary(us, vs, e', i, k, 0);
        PrimaryComplete(vs, e', i, k);
        PrimaryLocal(ts, vs, i);
      }
    }
    if i <= j < |ts| && IsPrimary(ts, e, i, j) { PrimaryStops(ts, e, i, j); }
  }

  /** Tokens `i` to `j`, token `j` itself, and one more. */
  function OneMore(ts: seq<Token>, j: nat, t: Token): (us: seq<Token>)
    requires j < |ts|
    ensures |us| == j + 2 && us[..j + 1] == ts[..j + 1] && us[j] == ts[j] && us[j + 1] == t
  {
    ts[..j + 1] + [t]
  }

  const STAR_TOKEN := Token(STAR, "*")

  /** The tokens chosen to follow `j` leave those before it as they are. */
  lemma OnwardSame(ts: seq<Token>, us: seq<Token>, i: nat, j: nat, k: nat, m: nat)
    requires Onward(ts, us, i, j, k) && m <= j
    ensures us[m] == ts[m] && SameTokens(ts, us, 0, j, 0)
  {
    forall n | 0 <= n <= j ensures us[n] == ts[n] {
      assert us[..j + 1][n] == ts[..j + 1][n];
    }
  }

  lemma OrStops(ts: seq<Token>, e: Expr, i: nat, j: nat)
    requires Ends(ts) && i <= j < |ts| && IsOr(ts, e, i, j)
    ensures OrGoesOn(ts, i, j) || OrFrom(ts, i) == Done(e, j)
  {
    if ts[j].kind == OR {
      OrMore(ts, e, i, j);
    } else if IsAnd(ts, e, i, j) {
      AndStops(ts, e, i, j);
      if us: seq<Token>, e': Expr, k: nat :| Onward(ts, us, i, j, k) && IsAnd(us, e', i, k) { assert IsOr(us, e', i, k); }
    } else {
      var m: nat :| i <= m < j && OrAt(ts, e.left, e.right, i, m, j);
      OrComplete(ts, e.left, i, m);
      AndStops(ts, e.right, m + 1, j);
      if AndGoesOn(ts, m + 1, j) { OrOnward(ts, e.left, i, m, m + 1, j); }
    }
  }

  /** A right operand that goes on takes the whole with it. */
  lemma OrOnward(ts: seq<Token>, l: Expr, i: nat, m: nat, n: nat, j: nat)
    requires i <= m < n <= j < |ts| && n == m + 1 && IsOr(ts, l, i, m) && ts[m].kind == OR && AndGoesOn(ts, n, j)
    ensures OrGoesOn(ts, i, j)
  {
    var us: seq<Token>, e: Expr, k: nat :| Onward(ts, us, n, j, k) && IsAnd(us, e, n, k);
    OnwardSame(ts, us, n, j, k, m);
    MoveOr(ts, us, l, i, m, 0);
    assert OrAt(us, l, e, i, m, k);
    assert Onward(ts, us, i, j, k) && IsOr(us, Or(l, e), i, k);
  }

  lemma AndOnward(ts: seq<Token>, l: Expr, i: nat, m: nat, n: nat, j: nat)
    requires i <= m < n <= j < |ts| && n == m + 1 && IsAnd(ts, l, i, m) && ts[m].kind == AND && NotGoesOn(ts, n, j)
    ensures AndGoesOn(ts, i, j)
  {
    var us: seq<Token>, e: Expr, k: nat :| Onward(ts, us, n, j, k) && IsNot(us, e, n, k);
    OnwardSame(ts, us, n, j, k, m);
    MoveAnd(ts, us, l, i, m, 0);
    assert AndAt(us, l, e, i, m, k);
    assert Onward(ts, us, i, j, k) && IsAnd(us, And(l, e), i, k);
  }

  lemma NotOnward(ts: seq<Token>, i: nat, n: nat, j: nat)
    requires n == i + 1 <= j < |ts| && ts[i].kind == NOT && CompareGoesOn(ts, n, j)
    ensures NotGoesOn(ts, i, j)
  {
    var us: seq<Token>, e: Expr, k: nat :| Onward(ts, us, n, j, k) && IsCompare(us, e, n, k);
    OnwardSame(ts, us, n, j, k, i);
    assert Onward(ts, us, i, j, k) && IsNot(us, Not(e), i, k);
  }

  lemma CompareOnward(ts: seq<Token>, l: Expr, i: nat, m: nat, n: nat, j: nat)
    requires i <= m < n <= j < |ts| && n == m + 1 && IsPrimary(ts, l, i, m) && ts[m].kind.CmpTok? && PrimaryGoesOn(ts, n, j)
    ensures CompareGoesOn(ts, i, j)
  {
    var us: seq<Token>, e: Expr, k: nat :| Onward(ts, us, n, j, k) && IsPrimary(us, e, n, k);
    OnwardSame(ts, us, n, j, k, m);
    MovePrimary(ts, us, l, i, m, 0);
    var whole := Compare(ts[m].kind.cmp, l, e);
    assert CompareAt(us, whole, i, m, k);
    assert Onward(ts, us, i, j, k) && IsCompare(us, whole, i, k);
  }

  lemma OrMore(ts: seq<Token>, e: Expr, i: nat, j: nat)
    requires i <= j < |ts| && IsOr(ts, e, i, j) && ts[j].kind == OR
    ensures OrGoesOn(ts, i, j)
  {
    var us := OneMore(ts, j, STAR_TOKEN);
    OnwardSame(ts, us, i, j, j + 2, j);
    MoveOr(ts, us, e, i, j, 0);
    StarStands(us, j + 1);
    assert OrAt(us, e, Star, i, j, j + 2);
    assert IsOr(us, Or(e, Star), i, j + 2);
  }

  lemma AndAgain(ts: seq<Token>, e: Expr, i: nat, j: nat)
    requires i <= j < |ts| && IsAnd(ts, e, i, j) && ts[j].kind == AND
    ensures AndGoesOn(ts, i, j)
  {
    var us := OneMore(ts, j, STAR_TOKEN);
    OnwardSame(ts, us, i, j, j + 2, j);
    MoveAnd(ts, us, e, i, j, 0);
    StarStands(us, j + 1);
    assert AndAt(us, e, Star, i, j, j + 2);
    assert IsAnd(us, And(e, Star), i, j + 2);
  }

  /** AND binds to the last operand. */
  lemma AndMore(ts: seq<Token>, e: Expr, i: nat, j: nat)
    requires i <= j < |ts| && IsOr(ts, e, i, j) && ts[j].kind == AND
    ensures OrGoesOn(ts, i, j)
  {
    if IsAnd(ts, e, i, j) {
      AndAgain(ts, e, i, j);
      var us: seq<Token>, e': Expr, k: nat :| Onward(ts, us, i, j, k) && IsAnd(us, e', i, k);
      assert IsOr(us, e', i, k);
    } else {
      var m: nat :| i <= m < j && OrAt(ts, e.left, e.right, i, m, j);
      AndAgain(ts, e.right, m + 1, j);
      OrOnward(ts, e.left, i, m, m + 1, j);
    }
  }

  lemma StarStands(us: seq<Token>, j: nat)
    requires j < |us| && us[j].kind == STAR
    ensures IsPrimary(us, Star, j, j + 1) && IsCompare(us, Star, j, j + 1) && IsNot(us, Star, j, j + 1) && IsAnd(us, Star, j, j + 1)
  {
    assert IsAtom(us, Star, j, j + 1);
    assert IsPrimary(us, Star, j, j + 1);
    assert IsCompare(us, Star, j, j + 1);
    assert IsNot(us, Star, j, j + 1);
  }

  lemma AndStops(ts: seq<Token>, e: Expr, i: nat, j: nat)
    requires Ends(ts) && i <= j < |ts| && IsAnd(ts, e, i, j)
    ensures AndGoesOn(ts, i, j) || AndFrom(ts, i) == Done(e, j)
  {
    if ts[j].kind == AND {
      AndAgain(ts, e, i, j);
    } else if IsNot(ts, e, i, j) {
      NotStops(ts, e, i, j);
      if us: seq<Token>, e': Expr, k: nat :| Onward(ts, us, i, j, k) && IsNot(us, e', i, k) { assert IsAnd(us, e', i, k); }
    } else {
      var m: nat :| i <= m < j && AndAt(ts, e.left, e.right, i, m, j);
      AndComplete(ts, e.left, i, m);
      NotStops(ts, e.right, m + 1, j);
      if NotGoesOn(ts, m + 1, j) { AndOnward(ts, e.left, i, m, m + 1, j); }
    }
  }

  lemma NotStops(ts: seq<Token>, e: Expr, i: nat, j: nat)
    requires Ends(ts) && i <= j < |ts| && IsNot(ts, e, i, j)
    ensures NotGoesOn(ts, i, j) || NotFrom(ts, i) == Done(e, j)
  {
    if IsCompare(ts, e, i, j) {
      StartsPrimary(ts, e, i, j);
      CompareStops(ts, e, i, j);
      if us: seq<Token>, e': Expr, k: nat :| Onward(ts, us, i, j, k) && IsCompare(us, e', i, k) { assert IsNot(us, e', i, k); }
    } else {
      CompareStops(ts, e.child, i + 1, j);
      if CompareGoesOn(ts, i + 1, j) { NotOnward(ts, i, i + 1, j); }
    }
  }

  lemma CompareStops(ts: seq<Token>, e: Expr, i: nat, j: nat)
    requires Ends(ts) && i <= j < |ts| && IsCompare(ts, e, i, j)
    ensures CompareGoesOn(ts, i, j) || CompareFrom(ts, i) == Done(e, j)
  {
    if IsPrimary(ts, e, i, j) {
      BareStops(ts, e, i, j);
    } else {
      var m: nat :| i <= m < j && CompareAt(ts, e, i, m, j);
      PairStops(ts, e, i, m, j);
    }
  }

  lemma PairStops(ts: seq<Token>, e: Expr, i: nat, m: nat, j: nat)
    requires Ends(ts) && i <= m < j < |ts| && e.Compare? && CompareAt(ts, e, i, m, j)
    ensures CompareGoesOn(ts, i, j) || CompareFrom(ts, i) == Done(e, j)
  {
    PrimaryComplete(ts, e.left, i, m);
    PrimaryStops(ts, e.right, m + 1, j);
    if PrimaryGoesOn(ts, m + 1, j) { CompareOnward(ts, e.left, i, m, m + 1, j); }
  }

  lemma BareStops(ts: seq<Token>, e: Expr, i: nat, j: nat)
    requires Ends(ts) && i <= j < |ts| && IsPrimary(ts, e, i, j)
    ensures CompareGoesOn(ts, i, j) || CompareFrom(ts, i) == Done(e, j)
  {
    PrimaryStops(ts, e, i, j);
    if ts[j].kind.CmpTok? {
      CompareMore(ts, e, i, j);
    } else if PrimaryGoesOn(ts, i, j) {
      var us: seq<Token>, e': Expr, k: nat :| Onward(ts, us, i, j, k) && IsPrimary(us, e', i, k);
      assert IsCompare(us, e', i, k);
    }
  }

  /** A bare primary before a comparison token goes on. */
  lemma CompareMore(ts: seq<Token>, e: Expr, i: nat, j: nat)
    requires i <= j < |ts| && IsPrimary(ts, e, i, j) && ts[j].kind.CmpTok?
    ensures CompareGoesOn(ts, i, j)
  {
    var us := OneMore(ts, j, STAR_TOKEN);
    OnwardSame(ts, us, i, j, j + 2, j);
    MovePrimary(ts, us, e, i, j, 0);
    StarStands(us, j + 1);
    assert CompareAt(us, Compare(ts[j].kind.cmp, e, Star), i, j, j + 2);
    assert IsCompare(us, Compare(ts[j].kind.cmp, e, Star), i, j + 2);
  }

  lemma PrimaryStops(ts: seq<Token>, e: Expr, i: nat, j: nat)
    requires Ends(ts) && i <= j < |ts| && IsPrimary(ts, e, i, j)
    ensures PrimaryGoesOn(ts, i, j) || PrimaryFrom(ts, i) == Done(e, j)
  {
    if ts[j].kind != DOT {
      PrimaryComplete(ts, e, i, j);
    } else if !IsAtom(ts, e, i, j) {
      ClosedStops(ts, e, i, j);
    } else if e.ColumnRef? && j == i + 1 {
      ColumnMore(ts, e, i);
    } else {
      AtomBeforeDot(ts, e, i, j);
    }
  }

  /** A closing parenthesis ends a primary whatever follows. */
  lemma ClosedStops(ts: seq<Token>, e: Expr, i: nat, j: nat)
    requires Ends(ts) && i <= j < |ts| && (InParens(ts, e, i, j) || (e.Agg? && IsAgg(ts, e, i, j)))
    ensures PrimaryFrom(ts, i) == Done(e, j)
  {
    if InParens(ts, e, i, j) {
      OrComplete(ts, e, i + 1, j - 1);
    } else {
      OrComplete(ts, e.arg, i + 2, j - 1);
    }
  }

  /** A dot behind a name goes on to a qualified column. */
  lemma ColumnMore(ts: seq<Token>, e: Expr, i: nat)
    requires i + 1 < |ts| && ts[i].kind == IDENTIFIER && ts[i + 1].kind == DOT
    ensures PrimaryGoesOn(ts, i, i + 1)
  {
    var us := OneMore(ts, i + 1, Token(IDENTIFIER, "x"));
    OnwardSame(ts, us, i, i + 1, i + 3, i);
    assert IsAtom(us, ColumnRef(ts[i].value, "x"), i, i + 3);
    assert IsPrimary(us, ColumnRef(ts[i].value, "x"), i, i + 3);
  }

  /** Any other atom is complete before a dot. */
  lemma AtomBeforeDot(ts: seq<Token>, e: Expr, i: nat, j: nat)
    requires Ends(ts) && i <= j < |ts| && IsAtom(ts, e, i, j) && !(e.ColumnRef? && j == i + 1)
    ensures PrimaryFrom(ts, i) == Done(e, j)
  {
    if e.AggStar? {
      assert AggFrom(ts, e.func, i + 1) == Closed(ts, Done(AggStar(e.func), i + 3));
    }
  }

  /** In particular no connective that could continue the expression is left behind, and no
      comparison token behind a bare primary. */
  lemma NothingLeft(ts: seq<Token>, i: nat)
    requires Ends(ts) && i < |ts|
    ensures var r := OrFrom(ts, i); r.Done? ==> ts[r.pos].kind != OR && ts[r.pos].kind != AND
    ensures var l, r := PrimaryFrom(ts, i), CompareFrom(ts, i); l.Done? && r == l ==> !ts[r.pos].kind.CmpTok?
    ensures var r := PrimaryFrom(ts, i); r.Done? && r.expr.ColumnRef? && r.pos == i + 1 ==> ts[r.pos].kind != DOT
  {
    var r := OrFrom(ts, i);
    if r.Done? {
      OrIff(ts, i, r.expr, r.pos);
      if ts[r.pos].kind == OR { OrMore(ts, r.expr, i, r.pos); }
      if ts[r.pos].kind == AND { AndMore(ts, r.expr, i, r.pos); }
    }
    var l, c := PrimaryFrom(ts, i), CompareFrom(ts, i);
    if l.Done? && c == l && ts[l.pos].kind.CmpTok? {
      PrimarySound(ts, i);
      CompareIff(ts, i, c.expr, c.pos);
      CompareMore(ts, l.expr, i, l.pos);
    }
    if l.Done? && l.expr.ColumnRef? && l.pos == i + 1 && ts[l.pos].kind == DOT {
      PrimaryIff(ts, i, l.expr, l.pos);
      ColumnMore(ts, l.expr, i);
    }
  }

  /** The grammar is unambiguous. */
  lemma Unambiguous(ts: seq<Token>, d: Expr, e: Expr, i: nat, j: nat)
    requires i <= j <= |ts| && IsOr(ts, d, i, j) && IsOr(ts, e, i, j)
    ensures d == e
  {
    var us := ts[..j] + [Token(EOF_TOKEN, "")];
    MoveOr(ts, us, d, i, j, 0);
    MoveOr(ts, us, e, i, j, 0);
    OrComplete(us, d, i, j);
    OrComplete(us, e, i, j);
  }

  // ----------------------------------------------------------------- the parser

  /** A method's result and new position agree with the function's. */
  predicate Agrees(r: Option<Expr>, pos: nat, p: Parsed) {
    if p.Fail? then r.None? else r == Some(p.expr) && pos == p.pos
  }

  class Parser {
    const tokens: seq<Token>
    var pos: nat

    /** The position is on a token, at most on the EOF. */
    ghost predicate Valid()
      reads this
    {
      Ends(tokens) && pos < |tokens|
    }

    constructor (ts: seq<Token>)
      requires Ends(ts)
      ensures Valid() && tokens == ts && pos == 0
    {
      tokens, pos := ts, 0;
    }

    method Match(kind: TokenType) returns (ok: bool)
      requires Valid() && kind != EOF_TOKEN
      modifies this`pos
      ensures Valid() && ok == (tokens[old(pos)].kind == kind)
      ensures pos == if ok then old(pos) + 1 else old(pos)
    {
      ok := tokens[pos].kind == kind;
      if ok { pos := pos + 1; }
    }

    /** `ParseExpr`, said in terms of the grammar: it returns the tree of the tokens it consumes,
        which the next token cannot continue, and throws if there are no such tokens. */
    method ParseExpr() returns (e: Option<Expr>)
      requires Valid()
      modifies this`pos
      ensures Valid() && pos >= old(pos)
      ensures e.Some? ==> IsOr(tokens, e.value, old(pos), pos) && !OrGoesOn(tokens, old(pos), pos)
      ensures e.None? <==> !exists t: Expr, j: nat :: old(pos) <= j < |tokens| && IsOr(tokens, t, old(pos), j) && !OrGoesOn(tokens, old(pos), j)
    {
      OrThrowsIff(tokens, pos);
      ghost var start := pos;
      e := ParseOr();
      if e.Some? { OrIff(tokens, start, e.value, pos); }
    }

    /** Every level either throws or leaves the position behind what it consumed, and never
        passes the EOF. */
    method ParseOr() returns (e: Option<Expr>)
      requires Valid()
      modifies this`pos
      ensures Valid() && pos >= old(pos) && Agrees(e, pos, OrFrom(tokens, old(pos)))
      decreases |tokens| - pos, 5
    {
      e := ParseAnd();
      if e.None? { return; }
      var left := e.value;
      while true
        invariant Valid() && pos > old(pos) && OrTail(tokens, left, pos) == OrFrom(tokens, old(pos))
        decreases |tokens| - pos
      {
        var more := Match(OR);
        if !more { return Some(left); }
        var right := ParseAnd();
        if right.None? { return None; }
        left := Or(left, right.value);
      }
    }

    method ParseAnd() returns (e: Option<Expr>)
      requires Valid()
      modifies this`pos
      ensures Valid() && pos >= old(pos) && Agrees(e, pos, AndFrom(tokens, old(pos)))
      decreases |tokens| - pos, 4
    {
      e := ParseNot();
      if e.None? { return; }
      var left := e.value;
      while true
        invariant Valid() && pos > old(pos) && AndTail(tokens, left, pos) == AndFrom(tokens, old(pos))
        decreases |tokens| - pos
      {
        var more := Match(AND);
        if !more { return Some(left); }
        var right := ParseNot();
        if right.None? { return None; }
        left := And(left, right.value);
      }
    }

    method ParseNot() returns (e: Option<Expr>)
      requires Valid()
      modifies this`pos
      ensures Valid() && pos >= old(pos) && Agrees(e, pos, NotFrom(tokens, old(pos)))
      decreases |tokens| - pos, 3
    {
      var negated := Match(NOT);
      e := ParseComparison();
      if negated && e.Some? { e := Some(Not(e.value)); }
    }

    method ParseComparison() returns (e: Option<Expr>)
      requires Valid()
      modifies this`pos
      ensures Valid() && pos >= old(pos) && Agrees(e, pos, CompareFrom(tokens, old(pos)))
      decreases |tokens| - pos, 2
    {
      e := ParsePrimary();
      if e.None? || !tokens[pos].kind.CmpTok? { return; }
      var op := tokens[pos].kind.cmp;
      pos := pos + 1;
      var right := ParsePrimary();
      e := if right.None? then None else Some(Compare(op, e.value, right.value));
    }

    method ParsePrimary() returns (e: Option<Expr>)
      requires Valid()
      modifies this`pos
      ensures Valid() && pos >= old(pos) && Agrees(e, pos, PrimaryFrom(tokens, old(pos)))
      decreases |tokens| - pos, 1
    {
      var here := tokens[pos];
      match here.kind
      case LPAREN =>
        pos := pos + 1;
        e := ParseOr();
        e := Close(e);
      case STAR =>
        pos := pos + 1;
        e := Some(Star);
      case INT_LITERAL =>
        pos := pos + 1;
        var n := Stoi(here.value);
        e := if n.None? then None else Some(IntLit(n.value));
      case STRING_LITERAL =>
        pos := pos + 1;
        e := Some(StrLit(here.value));
      case FuncTok(f) =>
        pos := pos + 1;
        e := ParseAggregate(f);
      case IDENTIFIER =>
        pos := pos + 1;
        e := ParseColumn(here.value);
      case _ =>
        e := None;
    }

    /** `Expect` of a closing parenthesis behind an expression. */
    method Close(inner: Option<Expr>) returns (e: Option<Expr>)
      requires Valid()
      modifies this`pos
      ensures Valid() && old(pos) <= pos
      ensures inner.Some? ==> Agrees(e, pos, Closed(tokens, Done(inner.value, old(pos))))
      ensures inner.None? ==> e.None?
    {
      if inner.None? { return None; }
      var ok := Match(RPAREN);
      e := if ok then inner else None;
    }

    method ParseAggregate(f: Func) returns (e: Option<Expr>)
      requires Valid()
      modifies this`pos
      ensures Valid() && pos >= old(pos) && Agrees(e, pos, AggFrom(tokens, f, old(pos)))
      decreases |tokens| - pos, 0
    {
      var open := Match(LPAREN);
      if !open { return None; }
      var star := Match(STAR);
      if star {
        e := Close(Some(AggStar(f)));
      } else {
        e := ParseOr();
        e := Close(e);
        if e.Some? { e := Some(Agg(f, e.value)); }
      }
    }

    method ParseColumn(name: string) returns (e: Option<Expr>)
      requires Valid() && pos > 0 && tokens[pos - 1] == Token(IDENTIFIER, name)
      modifies this`pos
      ensures Valid() && pos >= old(pos) && Agrees(e, pos, PrimaryFrom(tokens, old(pos) - 1))
    {
      var dot := Match(DOT);
      if !dot { return Some(ColumnRef("", name)); }
      if tokens[pos].kind != IDENTIFIER { return None; }
      e := Some(ColumnRef(name, tokens[pos].value));
      pos := pos + 1;
    }
  }
}
