/** Writing expression trees as tokens, with parentheses only where the precedence levels
  demand them, and reading them back.
 */
module Rendering {
  import opened Decimal
  import opened Grammar
  import opened Parsers

  /** The precedence level of the outermost operator: OR, AND, NOT, comparison, primary. */
  function Level(e: Expr): nat {
    match e
    case Or(_, _) => 0
    case And(_, _) => 1
    case Not(_) => 2
    case Compare(_, _, _) => 3
    case _ => 4
  }

  function Sym(kind: TokenType): Token {
    Token(kind, "")
  }

  function Parens(ts: seq<Token>): seq<Token> {
    [Sym(LPAREN)] + ts + [Sym(RPAREN)]
  }

  /** The tokens of a tree, without parentheses around the whole. */
  function Natural(e: Expr): (r: seq<Token>)
    ensures r != []
    decreases e, 0
  {
    match e
    case Or(l, r) => Render(l, 0) + [Sym(OR)] + Render(r, 1)
    case And(l, r) => Render(l, 1) + [Sym(AND)] + Render(r, 2)
    case Not(c) => [Sym(NOT)] + Render(c, 3)
    case Compare(op, l, r) => Render(l, 4) + [Sym(CmpTok(op))] + Render(r, 4)
    case Agg(f, a) => [Sym(FuncTok(f)), Sym(LPAREN)] + Argument(a) + [Sym(RPAREN)]
    case AggStar(f) => [Sym(FuncTok(f)), Sym(LPAREN), Sym(STAR), Sym(RPAREN)]
    case Star => [Sym(STAR)]
    case IntLit(n) => [Token(INT_LITERAL, ToString(n))]
    case StrLit(s) => [Token(STRING_LITERAL, s)]
    case ColumnRef(t, c) =>
      if t == "" then [Token(IDENTIFIER, c)] else [Token(IDENTIFIER, t), Sym(DOT), Token(IDENTIFIER, c)]
  }

  /** The tokens of a tree where at least the given level is expected. */
  function Render(e: Expr, level: nat): (r: seq<Token>)
    ensures r != []
    decreases e, 1
  {
    if Level(e) >= level then Natural(e) else Parens(Natural(e))
  }

  /** An argument that begins with a star is put in parentheses. */
  function Argument(e: Expr): (r: seq<Token>)
    ensures r != []
    decreases e, 1
  {
    if Natural(e)[0].kind == STAR then Parens(Natural(e)) else Natural(e)
  }

  /** Trees whose literals are 32-bit integers. */
  predicate WellFormed(e: Expr) {
    match e
    case Or(l, r) => WellFormed(l) && WellFormed(r)
    case And(l, r) => WellFormed(l) && WellFormed(r)
    case Not(c) => WellFormed(c)
    case Compare(_, l, r) => WellFormed(l) && WellFormed(r)
    case Agg(_, a) => WellFormed(a)
    case IntLit(n) => IsInt32(n)
    case _ => true
  }

  /** The grammar at each level. */
  ghost predicate Stands(ts: seq<Token>, e: Expr, i: nat, j: nat, level: nat)
    requires i <= j <= |ts|
  {
    if level == 0 then IsOr(ts, e, i, j)
    else if level == 1 then IsAnd(ts, e, i, j)
    else if level == 2 then IsNot(ts, e, i, j)
    else if level == 3 then IsCompare(ts, e, i, j)
    else IsPrimary(ts, e, i, j)
  }

  lemma {:induction false} Lower(ts: seq<Token>, e: Expr, i: nat, j: nat, level: nat, to: nat)
    requires i <= j <= |ts| && Stands(ts, e, i, j, level) && to <= level <= 4
    ensures Stands(ts, e, i, j, to)
    decreases level - to
  {
    if to < level { Lower(ts, e, i, j, level, to + 1); }
  }

  /** A piece keeps its meaning inside a longer list. */
  lemma Inside(piece: seq<Token>, us: seq<Token>, e: Expr, d: nat, level: nat)
    requires Stands(piece, e, 0, |piece|, level) && d + |piece| <= |us| && us[d..d + |piece|] == piece
    ensures Stands(us, e, d, d + |piece|, level)
  {
    assert SameTokens(piece, us, 0, |piece|, d) by {
      forall k | 0 <= k < |piece| ensures us[k + d] == piece[k] {
        assert us[d..d + |piece|][k] == us[d + k];
      }
    }
    if level == 0 { MoveOr(piece, us, e, 0, |piece|, d); }
    else if level == 1 { MoveAnd(piece, us, e, 0, |piece|, d); }
    else if level == 2 { MoveNot(piece, us, e, 0, |piece|, d); }
    else if level == 3 { MoveCompare(piece, us, e, 0, |piece|, d); }
    else { MovePrimary(piece, us, e, 0, |piece|, d); }
  }

  lemma ParensStand(ts: seq<Token>, e: Expr)
    requires ts != [] && Stands(ts, e, 0, |ts|, 0)
    ensures Stands(Parens(ts), e, 0, |Parens(ts)|, 4)
  {
    Inside(ts, Parens(ts), e, 1, 0);
    assert InParens(Parens(ts), e, 0, |Parens(ts)|);
  }

  lemma {:induction false} RenderStands(e: Expr, level: nat)
    requires WellFormed(e) && level <= 4
    ensures Stands(Render(e, level), e, 0, |Render(e, level)|, level)
    decreases e, 1
  {
    NaturalStands(e);
    var ts := Natural(e);
    if Level(e) >= level {
      Lower(ts, e, 0, |ts|, Level(e), level);
    } else {
      Lower(ts, e, 0, |ts|, Level(e), 0);
      ParensStand(ts, e);
      Lower(Parens(ts), e, 0, |Parens(ts)|, 4, level);
    }
  }

  lemma {:induction false} ArgumentStands(e: Expr)
    requires WellFormed(e)
    ensures Stands(Argument(e), e, 0, |Argument(e)|, 0) && Argument(e)[0].kind != STAR
    decreases e, 1
  {
    NaturalStands(e);
    var ts := Natural(e);
    Lower(ts, e, 0, |ts|, Level(e), 0);
    if ts[0].kind == STAR {
      ParensStand(ts, e);
      Lower(Parens(ts), e, 0, |Parens(ts)|, 4, 0);
    }
  }

  lemma {:induction false} NaturalStands(e: Expr)
    requires WellFormed(e)
    ensures Stands(Natural(e), e, 0, |Natural(e)|, Level(e))
    decreases e, 0
  {
    match e
    case Or(l, r) =>
      RenderStands(l, 0);
      RenderStands(r, 1);
      Infix(Render(l, 0), Sym(OR), Render(r, 1), l, r, 0, 1);
      assert OrAt(Natural(e), l, r, 0, |Render(l, 0)|, |Natural(e)|);
    case And(l, r) =>
      RenderStands(l, 1);
      RenderStands(r, 2);
      Infix(Render(l, 1), Sym(AND), Render(r, 2), l, r, 1, 2);
      assert AndAt(Natural(e), l, r, 0, |Render(l, 1)|, |Natural(e)|);
    case Not(c) =>
      RenderStands(c, 3);
      Inside(Render(c, 3), Natural(e), c, 1, 3);
    case Compare(op, l, r) =>
      RenderStands(l, 4);
      RenderStands(r, 4);
      Infix(Render(l, 4), Sym(CmpTok(op)), Render(r, 4), l, r, 4, 4);
      assert CompareAt(Natural(e), e, 0, |Render(l, 4)|, |Natural(e)|);
    case Agg(f, a) =>
      ArgumentStands(a);
      Inside(Argument(a), Natural(e), a, 2, 0);
      assert IsAgg(Natural(e), e, 0, |Natural(e)|);
    case _ =>
      AtomStands(e);
  }

  lemma AtomStands(e: Expr)
    requires WellFormed(e) && Level(e) == 4 && !e.Agg?
    ensures Stands(Natural(e), e, 0, |Natural(e)|, 4)
  {
    if e.IntLit? { StoiToString(e.int_); }
    assert IsAtom(Natural(e), e, 0, |Natural(e)|);
  }

  lemma Infix(a: seq<Token>, op: Token, b: seq<Token>, l: Expr, r: Expr, la: nat, lb: nat)
    requires Stands(a, l, 0, |a|, la) && Stands(b, r, 0, |b|, lb)
    ensures var ts := a + [op] + b;
            |a| < |ts| && ts[|a|] == op && Stands(ts, l, 0, |a|, la) && Stands(ts, r, |a| + 1, |ts|, lb)
  {
    var ts := a + [op] + b;
    assert ts[0..|a|] == a && ts[|a| + 1..|a| + 1 + |b|] == b;
    Inside(a, ts, l, 0, la);
    Inside(b, ts, r, |a| + 1, lb);
  }

  /** The rendering of a tree, anywhere in a token list, is parsed as that tree and consumed
      exactly, when the token behind it does not continue an expression. */
  lemma RoundTrip(e: Expr, before: seq<Token>, behind: seq<Token>)
    requires WellFormed(e) && Ends(behind)
    requires EndsCompare(behind[0]) && behind[0].kind != AND && behind[0].kind != OR
    ensures var ts := before + Render(e, 0) + behind;
            OrFrom(ts, |before|) == Done(e, |before| + |Render(e, 0)|)
  {
    var body := Render(e, 0);
    var ts := before + body + behind;
    RenderStands(e, 0);
    assert ts[|before|..|before| + |body|] == body;
    Inside(body, ts, e, |before|, 0);
    OrComplete(ts, e, |before|, |before| + |body|);
  }

  // -------------------------------------------------------------- well-formedness

  /** Only well-formed trees are ever parsed. */
  lemma {:induction false} OrWellFormed(ts: seq<Token>, e: Expr, i: nat, j: nat)
    requires i <= j <= |ts| && IsOr(ts, e, i, j)
    ensures WellFormed(e)
    decreases j - i, 4
  {
    if IsAnd(ts, e, i, j) {
      AndWellFormed(ts, e, i, j);
    } else {
      var k: nat :| i <= k < j && OrAt(ts, e.left, e.right, i, k, j);
      OrWellFormed(ts, e.left, i, k);
      AndWellFormed(ts, e.right, k + 1, j);
    }
  }

  lemma {:induction false} AndWellFormed(ts: seq<Token>, e: Expr, i: nat, j: nat)
    requires i <= j <= |ts| && IsAnd(ts, e, i, j)
    ensures WellFormed(e)
    decreases j - i, 3
  {
    if IsNot(ts, e, i, j) {
      NotWellFormed(ts, e, i, j);
    } else {
      var k: nat :| i <= k < j && AndAt(ts, e.left, e.right, i, k, j);
      AndWellFormed(ts, e.left, i, k);
      NotWellFormed(ts, e.right, k + 1, j);
    }
  }

  lemma {:induction false} NotWellFormed(ts: seq<Token>, e: Expr, i: nat, j: nat)
    requires i <= j <= |ts| && IsNot(ts, e, i, j)
    ensures WellFormed(e)
    decreases j - i, 2
  {
    if IsCompare(ts, e, i, j) { CompareWellFormed(ts, e, i, j); } else { CompareWellFormed(ts, e.child, i + 1, j); }
  }

  lemma {:induction false} CompareWellFormed(ts: seq<Token>, e: Expr, i: nat, j: nat)
    requires i <= j <= |ts| && IsCompare(ts, e, i, j)
    ensures WellFormed(e)
    decreases j - i, 1
  {
    if IsPrimary(ts, e, i, j) {
      PrimaryWellFormed(ts, e, i, j);
    } else {
      var k: nat :| i <= k < j && CompareAt(ts, e, i, k, j);
      PrimaryWellFormed(ts, e.left, i, k);
      PrimaryWellFormed(ts, e.right, k + 1, j);
    }
  }

  lemma {:induction false} PrimaryWellFormed(ts: seq<Token>, e: Expr, i: nat, j: nat)
    requires i <= j <= |ts| && IsPrimary(ts, e, i, j)
    ensures WellFormed(e)
    decreases j - i, 0
  {
    if InParens(ts, e, i, j) {
      OrWellFormed(ts, e, i + 1, j - 1);
    } else if e.Agg? && IsAgg(ts, e, i, j) {
      OrWellFormed(ts, e.arg, i + 2, j - 1);
    } else {
      assert IsAtom(ts, e, i, j);
    }
  }

  /** The trees the parser can return are exactly the well-formed ones. */
  lemma ParseableIff(e: Expr)
    ensures WellFormed(e) <==> exists ts :: Ends(ts) && OrFrom(ts, 0) == Done(e, |ts| - 1)
  {
    if WellFormed(e) {
      var end := [Sym(EOF_TOKEN)];
      var ts := [] + Render(e, 0) + end;
      RoundTrip(e, [], end);
      assert Ends(ts) && OrFrom(ts, 0) == Done(e, |ts| - 1);
    } else {
      forall ts | Ends(ts) ensures OrFrom(ts, 0) != Done(e, |ts| - 1) {
        ParsesIff(ts, e);
        if IsOr(ts, e, 0, |ts| - 1) { OrWellFormed(ts, e, 0, |ts| - 1); }
      }
    }
  }
}
