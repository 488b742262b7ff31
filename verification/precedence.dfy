/** How tightly the operators bind, stated of the tokens as they are written: the classes of
    parser.go:1283-1660 one by one, and nothing of the parser's or the printer's own tables. */
module Precedence {
  import opened Wrappers
  import opened Syntax
  import opened Printing
  import opened Parsers

  /** An expression as it is written: its operators, signs and parentheses are all there. */
  datatype Written =
    | Operand(token: Token)
    | Infix(left: Written, op: Token, right: Written)
    | Sign(op: Token, operand: Written)
    | Group(open: Token, inner: Written, close: Token)

  function Tokens(w: Written): seq<Token> {
    match w
    case Operand(t) => [t]
    case Infix(l, op, r) => Tokens(l) + ([op] + Tokens(r))
    case Sign(op, x) => [op] + Tokens(x)
    case Group(open, x, close) => [open] + (Tokens(x) + [close])
  }

  /** What it means: parentheses and nothing else disappear. */
  function Tree(w: Written): Expr {
    match w
    case Operand(t) => Meaning(t)
    case Infix(l, op, r) => Binary(op.kind, Tree(l), Tree(r))
    case Sign(op, x) => Unary(op.kind, Tree(x))
    case Group(_, x, _) => Tree(x)
  }

  predicate IsOperand(t: Token) { t.kind == TOKEN_IDENT || t.kind == TOKEN_STRING || t.kind == KW_NULL }

  function Meaning(t: Token): Expr {
    if t.kind == TOKEN_IDENT then Ident("", t.text)
    else if t.kind == TOKEN_STRING then Lit(Text(t.text))
    else Lit(Null)
  }

  /** The infix operators, the loosest first; NOT stands between AND and the comparisons. */
  function Tightness(op: Kind): (t: nat)
    ensures t <= 10
  {
    if op == KW_OR then 1
    else if op == KW_AND then 2
    else if op in {TOKEN_EQ, TOKEN_NEQ, TOKEN_LT, TOKEN_LTE, TOKEN_GT, TOKEN_GTE} then 4
    else if op == TOKEN_PIPE_PIPE then 5
    else if op == TOKEN_PIPE then 6
    else if op == TOKEN_AMPERSAND then 7
    else if op in {TOKEN_LSHIFT, TOKEN_RSHIFT} then 8
    else if op in {TOKEN_PLUS, TOKEN_MINUS} then 9
    else if op in {TOKEN_STAR, TOKEN_SLASH, TOKEN_PERCENT} then 10
    else 0
  }

  const NOT_TIGHTNESS := 3
  const SIGN_TIGHTNESS := 11
  const OPERAND_TIGHTNESS := 13

  function Strength(w: Written): nat {
    match w
    case Infix(_, op, _) => Tightness(op.kind)
    case Sign(op, _) => if op.kind == KW_NOT then NOT_TIGHTNESS else SIGN_TIGHTNESS
    case _ => OPERAND_TIGHTNESS
  }

  /** Every operator's left operand binds at least as tightly as it does, its right one more
      tightly, and operands that do not stand in parentheses. */
  predicate WellBound(w: Written)
    decreases w, 0
  {
    match w
    case Operand(t) => IsOperand(t)
    case Infix(l, op, r) => Tightness(op.kind) > 0 && Fits(l, Tightness(op.kind)) && Fits(r, Tightness(op.kind) + 1)
    case Sign(op, x) =>
      if op.kind == KW_NOT then Fits(x, NOT_TIGHTNESS + 1)
      else (op.kind == TOKEN_MINUS || op.kind == TOKEN_TILDE) && Fits(x, SIGN_TIGHTNESS + 1)
    case Group(open, x, close) => open.kind == TOKEN_LPAREN && close.kind == TOKEN_RPAREN && WellBound(x)
  }

  predicate Fits(w: Written, t: nat)
    decreases w, 1
  {
    WellBound(w) && if w.Group? then !w.inner.Group? && Strength(w.inner) < t else Strength(w) >= t
  }

  // ----- Such expressions are printed forms -----

  /** Names are plain identifiers, and no comparison is written IS. */
  ghost predicate IsPlain(sp: Spelling) {
    (forall e :: !sp.byIs(e)) && forall name :: sp.column(name) == TOKEN_IDENT
  }

  ghost predicate Matches(ts: seq<Token>, s: seq<Symbol>) {
    |ts| == |s| && forall j {:trigger s[j]} :: 0 <= j < |s| ==> Same(ts[j], s[j])
  }

  lemma MatchesBoth(ts: seq<Token>, us: seq<Token>, a: seq<Symbol>, b: seq<Symbol>)
    requires Matches(ts, a) && Matches(us, b)
    ensures Matches(ts + us, a + b)
  {
  }

  lemma MatchesOne(t: Token, k: Kind)
    requires t.kind == k
    ensures Matches([t], [Word(k)])
  {
  }

  lemma {:induction false} PrintsAsWritten(w: Written, sp: Spelling)
    requires WellBound(w) && IsPlain(sp) && !w.Group?
    ensures Printable(Tree(w), sp) && Loose(Tree(w)) && Level(Tree(w), sp) + 1 == LevelOf(w)
    ensures Matches(Tokens(w), Body(Tree(w), sp))
    decreases w, 0
  {
    match w
    case Operand(t) =>
      assert Body(Tree(w), sp) == Prefix(Tree(w), sp);
    case Infix(l, op, r) =>
      BinaryLevels(op.kind);
      var k := Tightness(op.kind);
      OperandAsWritten(l, k - 1, sp);
      OperandAsWritten(r, k, sp);
      MatchesOne(op, op.kind);
      MatchesBoth([op], Tokens(r), [Word(op.kind)], Print(k, Tree(r), sp));
      MatchesBoth(Tokens(l), [op] + Tokens(r), Print(k - 1, Tree(l), sp), [Word(op.kind)] + Print(k, Tree(r), sp));
      InfixPrints(op.kind, Tree(l), Tree(r), sp);
    case Sign(op, x) =>
      var k := if op.kind == KW_NOT then COMPARISON else POSTFIX;
      OperandAsWritten(x, k, sp);
      MatchesOne(op, op.kind);
      MatchesBoth([op], Tokens(x), [Word(op.kind)], Print(k, Tree(x), sp));
      SignPrints(op.kind, Tree(x), sp);
  }

  /** The level of the tree, counted from one. */
  function LevelOf(w: Written): nat { if w.Operand? then PRIMARY + 1 else Strength(w) }

  lemma BinaryLevels(op: Kind)
    requires Tightness(op) > 0
    ensures IsBinary(op) && OpLevel(op) + 1 == Tightness(op)
  {
  }

  lemma InfixPrints(op: Kind, l: Expr, r: Expr, sp: Spelling)
    requires IsBinary(op) && IsPlain(sp)
    requires PrintableAt(OpLevel(op), l, sp) && PrintableAt(OpLevel(op) + 1, r, sp) && Loose(l)
    ensures var e := Binary(op, l, r);
            && Printable(e, sp) && Loose(e) && Level(e, sp) == OpLevel(op)
            && Body(e, sp) == Print(OpLevel(op), l, sp) + ([Word(op)] + Print(OpLevel(op) + 1, r, sp))
  {
  }

  lemma SignPrints(op: Kind, x: Expr, sp: Spelling)
    requires IsUnary(op) && PrintableAt(if op == KW_NOT then COMPARISON else POSTFIX, x, sp)
    ensures var e := Unary(op, x);
            && Printable(e, sp) && Loose(e) && Level(e, sp) == (if op == KW_NOT then NOT_LEVEL else UNARY)
            && Body(e, sp) == [Word(op)] + Print(if op == KW_NOT then COMPARISON else POSTFIX, x, sp)
  {
  }

  lemma {:induction false} OperandAsWritten(w: Written, k: nat, sp: Spelling)
    requires Fits(w, k + 1) && k <= PRIMARY && IsPlain(sp)
    ensures PrintableAt(k, Tree(w), sp) && Loose(Tree(w)) && Matches(Tokens(w), Print(k, Tree(w), sp))
    decreases w, 1
  {
    if w.Group? {
      PrintsAsWritten(w.inner, sp);
      var body := Body(Tree(w), sp);
      MatchesOne(w.open, TOKEN_LPAREN);
      MatchesOne(w.close, TOKEN_RPAREN);
      MatchesBoth(Tokens(w.inner), [w.close], body, [Word(TOKEN_RPAREN)]);
      MatchesBoth([w.open], Tokens(w.inner) + [w.close], [Word(TOKEN_LPAREN)], body + [Word(TOKEN_RPAREN)]);
    } else {
      PrintsAsWritten(w, sp);
    }
  }

  // ----- Parsing them -----

  predicate EndsExpr(k: Kind) { k in {TOKEN_EOF, TOKEN_COMMA, TOKEN_RPAREN, TOKEN_SEMICOLON} }

  /** A well-bound expression is read as it is written, up to where it ends. */
  method ParseWritten(ts: seq<Token>, ghost w: Written, floatOk: string -> bool)
    returns (r: Result<Expr>, stopped: nat)
    requires WellBound(w) && !w.Group? && Tokens(w) <= ts && EndsExpr(KindAt(ts, |Tokens(w)|))
    ensures r == Ok(Tree(w)) && stopped == |Tokens(w)|
  {
    var sp := PlainSpelling(floatOk);
    PrintsAsWritten(w, sp);
    assert Print(0, Tree(w), sp) == Body(Tree(w), sp);
    r, stopped := ParsePrintedExpr(ts, Tree(w), sp);
  }

  function PlainSpelling(floatOk: string -> bool): (sp: Spelling)
    ensures IsPlain(sp)
  {
    Spelling(floatOk, Decimal, _ => false, _ => false, _ => TOKEN_IDENT, _ => TOKEN_IDENT, _ => TOKEN_IDENT,
             _ => false, _ => false, _ => false, _ => false, _ => false)
  }

  lemma OneOperator(x: Token, op: Token, y: Token)
    requires IsOperand(x) && IsOperand(y) && Tightness(op.kind) > 0
    ensures var w := Infix(Operand(x), op, Operand(y));
            && WellBound(w) && Tokens(w) == [x, op, y] && Strength(w) == Tightness(op.kind)
            && Tree(w) == Binary(op.kind, Meaning(x), Meaning(y))
  {
    OneOperand(x, Tightness(op.kind));
    OneOperand(y, Tightness(op.kind) + 1);
  }

  lemma OneOperand(x: Token, t: nat)
    requires IsOperand(x) && t <= 12
    ensures var w := Operand(x); Fits(w, t) && Tokens(w) == [x] && Tree(w) == Meaning(x)
  {
    assert Strength(Operand(x)) == OPERAND_TIGHTNESS;
  }

  /** Two operators: the tighter one takes the operand between them, the left one if they are of
      one class. */
  method ParseTwoOperators(x: Token, o1: Token, y: Token, o2: Token, z: Token, floatOk: string -> bool)
    returns (r: Result<Expr>)
    requires IsOperand(x) && IsOperand(y) && IsOperand(z) && Tightness(o1.kind) > 0 && Tightness(o2.kind) > 0
    ensures Tightness(o1.kind) < Tightness(o2.kind) ==>
              r == Ok(Binary(o1.kind, Meaning(x), Binary(o2.kind, Meaning(y), Meaning(z))))
    ensures Tightness(o1.kind) >= Tightness(o2.kind) ==>
              r == Ok(Binary(o2.kind, Binary(o1.kind, Meaning(x), Meaning(y)), Meaning(z)))
  {
    ghost var w := if Tightness(o1.kind) < Tightness(o2.kind)
                   then Infix(Operand(x), o1, Infix(Operand(y), o2, Operand(z)))
                   else Infix(Infix(Operand(x), o1, Operand(y)), o2, Operand(z));
    OneOperator(x, o1, y);
    OneOperator(y, o2, z);
    OneOperand(x, Tightness(o1.kind));
    OneOperand(z, Tightness(o2.kind) + 1);
    assert Tokens(w) == [x, o1, y, o2, z];
    var stopped;
    r, stopped := ParseWritten([x, o1, y, o2, z], w, floatOk);
  }

  /** NOT takes comparisons and everything tighter with it, and leaves AND and OR outside. */
  method ParseNotBefore(n: Token, x: Token, op: Token, y: Token, floatOk: string -> bool) returns (r: Result<Expr>)
    requires n.kind == KW_NOT && IsOperand(x) && IsOperand(y) && Tightness(op.kind) > 0
    ensures r == Ok(if op.kind == KW_OR || op.kind == KW_AND then Binary(op.kind, Unary(KW_NOT, Meaning(x)), Meaning(y))
                    else Unary(KW_NOT, Binary(op.kind, Meaning(x), Meaning(y))))
  {
    ghost var w := if op.kind == KW_OR || op.kind == KW_AND then Infix(Sign(n, Operand(x)), op, Operand(y))
                   else Sign(n, Infix(Operand(x), op, Operand(y)));
    OneOperator(x, op, y);
    OneOperand(x, NOT_TIGHTNESS + 1);
    OneOperand(y, Tightness(op.kind) + 1);
    assert Tokens(Sign(n, Operand(x))) == [n, x] && Tree(Sign(n, Operand(x))) == Unary(KW_NOT, Meaning(x));
    assert Tokens(w) == [n, x, op, y];
    var stopped;
    r, stopped := ParseWritten([n, x, op, y], w, floatOk);
  }
}
