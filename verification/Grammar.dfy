/** The expression grammar of the SQL dialect: tokens (`src/parser/token.h`), expression trees
  (`src/parser/ast.h`), and which stretches of tokens stand for which tree. The grammar is
  stated without reference to the parser.
 */
module Grammar {
  import opened Page
  import opened Decimal

  datatype Cmp = EQ | LT | GT | LEQ | GEQ | NEQ
  datatype Func = COUNT | SUM | AVG | MIN | MAX

  datatype TokenType =
    | AND | OR | NOT | LPAREN | RPAREN | STAR | DOT | COMMA | SEMICOLON
    | INT_LITERAL | STRING_LITERAL | IDENTIFIER
    | CmpTok(cmp: Cmp) | FuncTok(func: Func)
    | OTHER_KEYWORD | EOF_TOKEN

  datatype Token = Token(kind: TokenType, value: string)

  datatype Expr =
    | ColumnRef(table: string, col: string)
    | IntLit(int_: int)
    | StrLit(str: string)
    | Star
    | AggStar(func: Func)
    | Agg(func: Func, arg: Expr)
    | Or(left: Expr, right: Expr)
    | And(left: Expr, right: Expr)
    | Compare(cmp: Cmp, left: Expr, right: Expr)
    | Not(child: Expr)

  // -------------------------------------------------------------------- grammar

  /** Tokens `i` to `j` are disjunctions: `or := and | or OR and`. */
  ghost predicate IsOr(ts: seq<Token>, e: Expr, i: nat, j: nat)
    requires i <= j <= |ts|
    ensures IsOr(ts, e, i, j) ==> i < j
    decreases j - i, 4
  {
    IsAnd(ts, e, i, j) || (e.Or? && exists k: nat :: i <= k < j && OrAt(ts, e.left, e.right, i, k, j))
  }

  ghost predicate OrAt(ts: seq<Token>, l: Expr, r: Expr, i: nat, k: nat, j: nat)
    requires i <= k < j <= |ts|
    decreases j - i, 0
  {
    ts[k].kind == OR && IsOr(ts, l, i, k) && IsAnd(ts, r, k + 1, j)
  }

  /** `and := not | and AND not`. */
  ghost predicate IsAnd(ts: seq<Token>, e: Expr, i: nat, j: nat)
    requires i <= j <= |ts|
    ensures IsAnd(ts, e, i, j) ==> i < j
    decreases j - i, 3
  {
    IsNot(ts, e, i, j) || (e.And? && exists k: nat :: i <= k < j && AndAt(ts, e.left, e.right, i, k, j))
  }

  ghost predicate AndAt(ts: seq<Token>, l: Expr, r: Expr, i: nat, k: nat, j: nat)
    requires i <= k < j <= |ts|
    decreases j - i, 0
  {
    ts[k].kind == AND && IsAnd(ts, l, i, k) && IsNot(ts, r, k + 1, j)
  }

  /** `not := cmp | NOT cmp`. */
  ghost predicate IsNot(ts: seq<Token>, e: Expr, i: nat, j: nat)
    requires i <= j <= |ts|
    ensures IsNot(ts, e, i, j) ==> i < j
    decreases j - i, 2
  {
    IsCompare(ts, e, i, j) || (e.Not? && i < j && ts[i].kind == NOT && IsCompare(ts, e.child, i + 1, j))
  }

  /** `cmp := primary | primary op primary`. */
  ghost predicate IsCompare(ts: seq<Token>, e: Expr, i: nat, j: nat)
    requires i <= j <= |ts|
    ensures IsCompare(ts, e, i, j) ==> i < j
    decreases j - i, 1
  {
    IsPrimary(ts, e, i, j) || (e.Compare? && exists k: nat :: i <= k < j && CompareAt(ts, e, i, k, j))
  }

  ghost predicate CompareAt(ts: seq<Token>, e: Expr, i: nat, k: nat, j: nat)
    requires i <= k < j <= |ts| && e.Compare?
    decreases j - i, 0
  {
    ts[k].kind == CmpTok(e.cmp) && IsPrimary(ts, e.left, i, k) && IsPrimary(ts, e.right, k + 1, j)
  }

  /** A parenthesised expression, a literal, a star, an aggregate or a column. */
  ghost predicate IsPrimary(ts: seq<Token>, e: Expr, i: nat, j: nat)
    requires i <= j <= |ts|
    ensures IsPrimary(ts, e, i, j) ==> i < j
    decreases j - i, 0
  {
    InParens(ts, e, i, j) || IsAtom(ts, e, i, j) || (e.Agg? && IsAgg(ts, e, i, j))
  }

  ghost predicate InParens(ts: seq<Token>, e: Expr, i: nat, j: nat)
    requires i <= j <= |ts|
    decreases j - i, 0, 0
  {
    i + 2 < j && ts[i].kind == LPAREN && ts[j - 1].kind == RPAREN && IsOr(ts, e, i + 1, j - 1)
  }

  /** An aggregate of an expression; a leading star belongs to the form with a star argument. */
  ghost predicate IsAgg(ts: seq<Token>, e: Expr, i: nat, j: nat)
    requires i <= j <= |ts| && e.Agg?
    decreases j - i, 0, 0
  {
    && i + 3 < j && ts[i].kind == FuncTok(e.func) && ts[i + 1].kind == LPAREN && ts[i + 2].kind != STAR
    && ts[j - 1].kind == RPAREN && IsOr(ts, e.arg, i + 2, j - 1)
  }

  predicate IsAtom(ts: seq<Token>, e: Expr, i: nat, j: nat)
    requires i <= j <= |ts|
  {
    match e
    case Star => j == i + 1 && ts[i].kind == STAR
    case IntLit(n) => j == i + 1 && ts[i].kind == INT_LITERAL && Stoi(ts[i].value) == Some(n)
    case StrLit(s) => j == i + 1 && ts[i] == Token(STRING_LITERAL, s)
    case AggStar(f) => j == i + 4 && ts[i].kind == FuncTok(f) && ts[i + 1].kind == LPAREN && ts[i + 2].kind == STAR && ts[i + 3].kind == RPAREN
    case ColumnRef(t, c) =>
      || (j == i + 1 && t == "" && ts[i] == Token(IDENTIFIER, c))
      || (j == i + 3 && ts[i] == Token(IDENTIFIER, t) && ts[i + 1].kind == DOT && ts[i + 2] == Token(IDENTIFIER, c))
    case _ => false
  }

  // ----------------------------------------------------------------- relocation

  /** The same tokens elsewhere. */
  predicate SameTokens(ts: seq<Token>, us: seq<Token>, i: nat, j: nat, d: nat) {
    i <= j <= |ts| && j + d <= |us| && forall k :: i <= k < j ==> us[k + d] == ts[k]
  }

  /** Which tree a stretch of tokens stands for does not depend on what is around it. */
  lemma {:induction false} MoveOr(ts: seq<Token>, us: seq<Token>, e: Expr, i: nat, j: nat, d: nat)
    requires SameTokens(ts, us, i, j, d) && IsOr(ts, e, i, j)
    ensures IsOr(us, e, i + d, j + d)
    decreases j - i, 4
  {
    if IsAnd(ts, e, i, j) {
      MoveAnd(ts, us, e, i, j, d);
    } else {
      var k: nat :| i <= k < j && OrAt(ts, e.left, e.right, i, k, j);
      MoveOr(ts, us, e.left, i, k, d);
      MoveAnd(ts, us, e.right, k + 1, j, d);
      assert us[k + d] == ts[k];
      assert OrAt(us, e.left, e.right, i + d, k + d, j + d);
    }
  }

  lemma {:induction false} MoveAnd(ts: seq<Token>, us: seq<Token>, e: Expr, i: nat, j: nat, d: nat)
    requires SameTokens(ts, us, i, j, d) && IsAnd(ts, e, i, j)
    ensures IsAnd(us, e, i + d, j + d)
    decreases j - i, 3
  {
    if IsNot(ts, e, i, j) {
      MoveNot(ts, us, e, i, j, d);
    } else {
      var k: nat :| i <= k < j && AndAt(ts, e.left, e.right, i, k, j);
      MoveAnd(ts, us, e.left, i, k, d);
      MoveNot(ts, us, e.right, k + 1, j, d);
      assert us[k + d] == ts[k];
      assert AndAt(us, e.left, e.right, i + d, k + d, j + d);
    }
  }

  lemma {:induction false} MoveNot(ts: seq<Token>, us: seq<Token>, e: Expr, i: nat, j: nat, d: nat)
    requires SameTokens(ts, us, i, j, d) && IsNot(ts, e, i, j)
    ensures IsNot(us, e, i + d, j + d)
    decreases j - i, 2
  {
    if IsCompare(ts, e, i, j) {
      MoveCompare(ts, us, e, i, j, d);
    } else {
      MoveCompare(ts, us, e.child, i + 1, j, d);
      assert us[i + d] == ts[i];
    }
  }

  lemma {:induction false} MoveCompare(ts: seq<Token>, us: seq<Token>, e: Expr, i: nat, j: nat, d: nat)
    requires SameTokens(ts, us, i, j, d) && IsCompare(ts, e, i, j)
    ensures IsCompare(us, e, i + d, j + d)
    decreases j - i, 1
  {
    if IsPrimary(ts, e, i, j) {
      MovePrimary(ts, us, e, i, j, d);
    } else {
      var k: nat :| i <= k < j && CompareAt(ts, e, i, k, j);
      MovePrimary(ts, us, e.left, i, k, d);
      MovePrimary(ts, us, e.right, k + 1, j, d);
      assert us[k + d] == ts[k];
      assert CompareAt(us, e, i + d, k + d, j + d);
    }
  }

  lemma {:induction false} MovePrimary(ts: seq<Token>, us: seq<Token>, e: Expr, i: nat, j: nat, d: nat)
    requires SameTokens(ts, us, i, j, d) && IsPrimary(ts, e, i, j)
    ensures IsPrimary(us, e, i + d, j + d)
    decreases j - i, 0
  {
    assert us[i + d] == ts[i] && us[j - 1 + d] == ts[j - 1];
    if InParens(ts, e, i, j) {
      MoveOr(ts, us, e, i + 1, j - 1, d);
      assert InParens(us, e, i + d, j + d);
    } else if e.Agg? && IsAgg(ts, e, i, j) {
      assert us[i + 1 + d] == ts[i + 1] && us[i + 2 + d] == ts[i + 2];
      MoveOr(ts, us, e.arg, i + 2, j - 1, d);
      assert IsAgg(us, e, i + d, j + d);
    } else {
      assert j >= i + 2 ==> us[i + 1 + d] == ts[i + 1];
      assert j >= i + 3 ==> us[i + 2 + d] == ts[i + 2];
      assert IsAtom(us, e, i + d, j + d);
    }
  }
}
