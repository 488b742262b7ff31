/** The recursive-descent parser (parser.go). Each method takes, besides the state it moves, a tree
    that may be printed at the current position; when it is, that tree is what the method returns,
    having read exactly the printed tokens. Every method terminates, by tokens left and then level,
    never moves backwards or past the end, and moves forward whenever it succeeds. */
module Parsers {
  import opened Wrappers
  import opened Syntax
  import opened Printing
  import opened SelectPrinting

  /** The operators each level's loop tests for. */
  predicate IsOperator(k: nat, kind: Kind) {
    match k
    case 0 => kind == KW_OR
    case 1 => kind == KW_AND
    case 4 => kind == TOKEN_PIPE_PIPE
    case 5 => kind == TOKEN_PIPE
    case 6 => kind == TOKEN_AMPERSAND
    case 7 => kind == TOKEN_LSHIFT || kind == TOKEN_RSHIFT
    case 8 => kind == TOKEN_PLUS || kind == TOKEN_MINUS
    case 9 => kind == TOKEN_STAR || kind == TOKEN_SLASH || kind == TOKEN_PERCENT
    case _ => false
  }

  lemma OperatorsOfLevel(k: nat, kind: Kind)
    requires IsLoopLevel(k)
    ensures IsOperator(k, kind) <==> Continues(kind) == k
  {
  }

  /** Moving the head of what lies ahead to what was read. */
  lemma HeadMoves<T>(list: seq<T>, ahead: seq<T>, whole: seq<T>)
    requires list + ahead == whole && ahead != []
    ensures list + [ahead[0]] + ahead[1..] == whole
    ensures ahead[1..] == [] ==> list + [ahead[0]] == whole
  {
  }

  class Parser {
    const tokens: seq<Token>
    /** How numbers are read, and written. */
    const sp: Spelling
    var pos: nat

    constructor (tokens: seq<Token>, sp: Spelling)
      ensures this.tokens == tokens && this.sp == sp && pos == 0
    {
      this.tokens, this.sp, pos := tokens, sp, 0;
    }

    ghost predicate Valid()
      reads this
    {
      pos <= |tokens|
    }

    ghost function Remaining(): nat
      requires Valid()
      reads this
    {
      |tokens| - pos
    }

    function PeekAt(offset: nat): Token
      reads this
    {
      if pos + offset < |tokens| then tokens[pos + offset] else Token(TOKEN_EOF, "")
    }

    function Peek(): Token
      reads this
    {
      PeekAt(0)
    }

    /** advance: it stays on an EOF token. */
    method Advance() returns (t: Token)
      requires Valid()
      modifies this`pos
      ensures Valid() && t == old(Peek())
      ensures pos == if t.kind == TOKEN_EOF then old(pos) else old(pos) + 1
    {
      t := Peek();
      if t.kind != TOKEN_EOF {
        pos := pos + 1;
      }
    }

    method Expect(k: Kind) returns (r: Result<Token>)
      requires Valid() && k != TOKEN_EOF
      modifies this`pos
      ensures Valid()
      ensures if old(Peek()).kind == k then r == Ok(old(Peek())) && pos == old(pos) + 1
              else r == Err(Syntax) && pos == old(pos)
    {
      if Peek().kind != k {
        return Err(Error.Syntax);
      }
      var t := Advance();
      r := Ok(t);
    }

    method ExpectIdent() returns (r: Result<string>)
      requires Valid()
      modifies this`pos
      ensures Valid()
      ensures if IsNameLike(old(Peek()).kind) then r == Ok(old(Peek()).text) && pos == old(pos) + 1
              else r == Err(Syntax) && pos == old(pos)
    {
      if !IsNameLike(Peek().kind) {
        return Err(Error.Syntax);
      }
      var t := Advance();
      r := Ok(t.text);
    }

    // ----- What is promised -----

    /** If a tree is wanted, it is printed from here to end as an operand of level k. */
    ghost predicate Ahead(k: nat, want: Option<Expr>, end: nat)
      reads this
    {
      want.Some? ==> Printed(tokens, pos, end, k, want.value, sp)
    }

    /** The wanted tree was returned, and exactly its tokens were read. */
    ghost predicate Got<T>(want: Option<T>, end: nat, r: Result<T>)
      reads this
    {
      want.Some? ==> r == Ok(want.value) && pos == end
    }

    /** No step back or past the end, and a step forward on success. */
    ghost predicate Moved<T>(start: nat, r: Result<T>)
      reads this
    {
      Valid() && start <= pos && (r.Ok? ==> start < pos)
    }

    // ----- Expressions -----

    method ParseExpr(ghost want: Option<Expr>, ghost end: nat) returns (r: Result<Expr>)
      requires Valid() && Ahead(0, want, end)
      modifies this`pos
      ensures Moved(old(pos), r) && Got(want, end, r)
      decreases Remaining(), 21
    {
      r := ParseLevel(0, want, end);
    }

    /** parseOr, parseAnd, parseConcat, parseBitOr, parseBitAnd, parseBitShift, parseAddSub and
        parseMulDiv: one loop that builds a left-associative chain. */
    method ParseLevel(k: nat, ghost want: Option<Expr>, ghost end: nat) returns (r: Result<Expr>)
      requires Valid() && IsLoopLevel(k) && Ahead(k, want, end)
      modifies this`pos
      ensures Moved(old(pos), r) && Got(want, end, r)
      decreases Remaining(), 20 - k, 2
    {
      ghost var base, mid, rest := StartChain(k, want, end);
      r := ParseOperand(k, base, mid);
      while r.Ok? && IsOperator(k, Peek().kind)
        invariant Moved(old(pos), r) && OnChain(k, end, r, rest, want)
        decreases Remaining(), r.Ok?
      {
        r := ParseOperator(k, r.value, end, rest, want);
        rest := if want.Some? then rest[1..] else [];
      }
      OperatorsOfLevel(k, Peek().kind);
      if want.Some? {
        AwaitsStop(tokens, pos, end, k, r.value, rest, want.value, sp);
      }
    }

    /** The loops of the chain levels: what was read so far is in r, and rest lies ahead. */
    ghost predicate OnChain(k: nat, end: nat, r: Result<Expr>, rest: seq<Expr>, want: Option<Expr>)
      reads this
    {
      want.Some? ==> r.Ok? && Awaits(tokens, pos, end, k, r.value, rest, want.value, sp)
    }

    ghost method StartChain(k: nat, want: Option<Expr>, end: nat)
      returns (base: Option<Expr>, mid: nat, rest: seq<Expr>)
      requires (IsLoopLevel(k) || k == COMPARISON || k == POSTFIX) && Ahead(k, want, end)
      ensures Ahead(k + 1, base, mid) && (want.Some? <==> base.Some?)
      ensures want.Some? ==> Awaits(tokens, mid, end, k, base.value, rest, want.value, sp)
    {
      if want.Some? {
        var b;
        b, mid, rest := ChainAhead(tokens, pos, end, k, want.value, sp);
        base := Some(b);
      } else {
        base, mid, rest := None, 0, [];
      }
    }

    /** One turn of the loop: an operator and its right operand. */
    method ParseOperator(k: nat, left: Expr, ghost end: nat, ghost rest: seq<Expr>, ghost want: Option<Expr>)
      returns (r: Result<Expr>)
      requires Valid() && IsLoopLevel(k) && IsOperator(k, Peek().kind)
      requires OnChain(k, end, Ok(left), rest, want)
      modifies this`pos
      ensures Moved(old(pos), r)
      ensures want.Some? ==> rest != [] && r == Ok(rest[0])
      ensures OnChain(k, end, r, if want.Some? then rest[1..] else [], want)
      decreases Remaining(), 20 - k, 0
    {
      OperatorsOfLevel(k, Peek().kind);
      ghost var right: Option<Expr>, n: nat := None, 0;
      if want.Some? {
        var e;
        e, n := OperatorAhead(k, end, left, rest, want.value);
        right := Some(e);
      }
      var op := Advance();
      r := ParseOperand(k, right, n);
      if r.Ok? {
        r := Ok(Binary(op.kind, left, r.value));
      }
    }

    /** The next operator of the chain, and its right operand behind it. */
    lemma OperatorAhead(k: nat, end: nat, left: Expr, rest: seq<Expr>, whole: Expr) returns (right: Expr, n: nat)
      requires Valid() && IsLoopLevel(k) && Awaits(tokens, pos, end, k, left, rest, whole, sp)
      requires Continues(Peek().kind) == k
      ensures pos < |tokens| && Peek().kind != TOKEN_EOF && Printed(tokens, pos + 1, n, k + 1, right, sp)
      ensures rest != [] && rest[0] == Binary(Peek().kind, left, right)
      ensures Awaits(tokens, n, end, k, rest[0], rest[1..], whole, sp)
    {
      AwaitsStop(tokens, pos, end, k, left, rest, whole, sp);
      n := AwaitsNext(tokens, pos, end, k, left, rest, whole, sp);
      right := rest[0].right;
      BinaryTail(tokens, pos, n, rest[0], sp);
    }

    /** The function one level down from a loop level. */
    method ParseOperand(k: nat, ghost want: Option<Expr>, ghost end: nat) returns (r: Result<Expr>)
      requires Valid() && IsLoopLevel(k) && Ahead(k + 1, want, end)
      modifies this`pos
      ensures Moved(old(pos), r) && Got(want, end, r)
      decreases Remaining(), 20 - k, 1
    {
      if k == 1 {
        r := ParseNot(want, end);
      } else if k == 9 {
        if want.Some? {
          UnaryAhead(tokens, pos, end, want.value, sp);
        }
        r := ParseUnary(want, end);
      } else {
        r := ParseLevel(k + 1, want, end);
      }
    }

    method ParseNot(ghost want: Option<Expr>, ghost end: nat) returns (r: Result<Expr>)
      requires Valid() && Ahead(NOT_LEVEL, want, end)
      modifies this`pos
      ensures Moved(old(pos), r) && Got(want, end, r)
      decreases Remaining(), 18
    {
      if want.Some? {
        NotAhead(tokens, pos, end, want.value, sp);
      }
      if Peek().kind == KW_NOT {
        var _ := Advance();
        r := ParseComparison(Inner(want), end);
        if r.Ok? {
          r := Ok(Unary(KW_NOT, r.value));
        }
      } else {
        r := ParseComparison(want, end);
      }
    }

    /** The operand of a wanted unary expression. */
    ghost function Inner(want: Option<Expr>): Option<Expr> {
      if want.Some? && want.value.Unary? then Some(want.value.operand) else None
    }

    /** parseUnary: a sign over a postfix expression; a plus sign leaves no trace. */
    method ParseUnary(ghost want: Option<Expr>, ghost end: nat) returns (r: Result<Expr>)
      requires Valid()
      requires if Peek().kind == TOKEN_PLUS then want.Some? ==> Printed(tokens, pos + 1, end, POSTFIX, want.value, sp)
               else Ahead(UNARY, want, end)
      modifies this`pos
      ensures Moved(old(pos), r) && Got(want, end, r)
      ensures old(Peek()).kind == TOKEN_MINUS || old(Peek()).kind == TOKEN_TILDE ==>
                r.Ok? ==> r.value.Unary? && r.value.op == old(Peek()).kind
      decreases Remaining(), 10
    {
      var kind := Peek().kind;
      if want.Some? && kind != TOKEN_PLUS {
        UnaryAhead(tokens, pos, end, want.value, sp);
      }
      if kind == TOKEN_MINUS || kind == TOKEN_TILDE {
        var _ := Advance();
        r := ParsePostfix(Inner(want), end);
        if r.Ok? {
          r := Ok(Unary(kind, r.value));
        }
      } else if kind == TOKEN_PLUS {
        var _ := Advance();
        r := ParsePostfix(want, end);
      } else {
        r := ParsePostfix(want, end);
      }
    }

    /** parseComparison: a loop over comparisons, IS, IN, LIKE, GLOB and BETWEEN, each possibly
        negated. */
    method ParseComparison(ghost want: Option<Expr>, ghost end: nat) returns (r: Result<Expr>)
      requires Valid() && Ahead(COMPARISON, want, end)
      modifies this`pos
      ensures Moved(old(pos), r) && Got(want, end, r)
      decreases Remaining(), 17
    {
      ghost var base, mid, rest := StartChain(COMPARISON, want, end);
      r := ParseLevel(4, base, mid);
      var more := r.Ok?;
      while more
        invariant Moved(old(pos), r) && (more ==> r.Ok?)
        invariant if more then OnChain(COMPARISON, end, r, rest, want) else Got(want, end, r)
        decreases Remaining(), more
      {
        r, more := ParseCompared(r.value, end, rest, want);
        more := more && r.Ok?;
        rest := if rest != [] then rest[1..] else [];
      }
    }

    /** One turn of the loop; more is false when it ends. */
    method ParseCompared(left: Expr, ghost end: nat, ghost rest: seq<Expr>, ghost want: Option<Expr>)
      returns (r: Result<Expr>, more: bool)
      requires Valid() && OnChain(COMPARISON, end, Ok(left), rest, want)
      modifies this`pos
      ensures Valid() && old(pos) <= pos && (r.Ok? && more ==> old(pos) < pos)
      ensures old(Peek()).kind == KW_NOT && !IsTest(KindAt(tokens, old(pos) + 1)) ==>
                !more && (r.Ok? ==> && r.value.Binary? && r.value.op == KW_AND && r.value.left == left
                                    && r.value.right.Unary? && r.value.right.op == KW_NOT)
      ensures want.Some? ==> if rest == [] then !more && r == Ok(want.value) && pos == end
                             else more && r == Ok(rest[0]) && OnChain(COMPARISON, end, r, rest[1..], want)
      decreases Remaining(), 16, 4
    {
      ghost var e: Option<Expr>, n: nat := None, 0;
      if want.Some? {
        e, n := ComparedAhead(end, left, rest, want.value);
      }
      more := true;
      var kind := Peek().kind;
      if kind in {TOKEN_EQ, TOKEN_NEQ, TOKEN_LT, TOKEN_LTE, TOKEN_GT, TOKEN_GTE} {
        var op := Advance();
        r := ParseLevel(4, if e.Some? then Some(e.value.right) else None, n);
        if r.Ok? {
          r := Ok(Binary(op.kind, left, r.value));
        }
      } else if kind == KW_IS {
        r := ParseIs(left, None, 0);
      } else if IsTest(kind) {
        r := ParseTest(left, false, e, n);
      } else if kind == KW_NOT {
        var _ := Advance();
        if IsTest(Peek().kind) {
          r := ParseTest(left, true, e, n);
        } else {
          r := ParseComparison(None, 0);
          if r.Ok? {
            r := Ok(Binary(KW_AND, left, Unary(KW_NOT, r.value)));
          }
          more := false;
        }
      } else {
        r, more := Ok(left), false;
      }
    }

    /** What the next turn of the loop of parseComparison meets. */
    lemma ComparedAhead(end: nat, left: Expr, rest: seq<Expr>, whole: Expr) returns (e: Option<Expr>, n: nat)
      requires Valid() && Awaits(tokens, pos, end, COMPARISON, left, rest, whole, sp)
      ensures rest == [] <==> e.None?
      ensures e.None? ==> left == whole && pos == end && Continues(Peek().kind) < 3
      ensures e.Some? ==>
                && e.value == rest[0] && LeftRecursive(e.value) && Left(e.value) == left && !e.value.IsNull?
                && Awaits(tokens, n, end, COMPARISON, rest[0], rest[1..], whole, sp)
      ensures e.Some? && e.value.Binary? ==>
                && Peek().kind in {TOKEN_EQ, TOKEN_NEQ, TOKEN_LT, TOKEN_LTE, TOKEN_GT, TOKEN_GTE}
                && Peek().kind == e.value.op
                && Printed(tokens, pos + 1, n, 4, e.value.right, sp)
      ensures e.Some? && !e.value.Binary? ==>
                if e.value.isNot
                then Peek().kind == KW_NOT && IsTest(KindAt(tokens, pos + 1))
                     && TestAhead(tokens, pos + 1, n, e.value, sp)
                else IsTest(Peek().kind) && TestAhead(tokens, pos, n, e.value, sp)
    {
      AwaitsStop(tokens, pos, end, COMPARISON, left, rest, whole, sp);
      if rest == [] {
        e, n := None, pos;
      } else {
        e := Some(rest[0]);
        n := AwaitsNext(tokens, pos, end, COMPARISON, left, rest, whole, sp);
        if rest[0].Binary? {
          BinaryTail(tokens, pos, n, rest[0], sp);
          ComparisonKinds(rest[0].op);
        } else {
          TestTail(tokens, pos, n, rest[0], sp);
        }
      }
    }

    lemma ComparisonKinds(op: Kind)
      requires IsBinary(op) && OpLevel(op) == COMPARISON
      ensures op in {TOKEN_EQ, TOKEN_NEQ, TOKEN_LT, TOKEN_LTE, TOKEN_GT, TOKEN_GTE}
    {
    }

    /** What an IS at place p makes of its left operand: a test for NULL, or a comparison by = or !=. */
    ghost predicate IsForm(left: Expr, p: nat, e: Expr) {
      var isNot := KindAt(tokens, p + 1) == KW_NOT;
      if KindAt(tokens, OperandOfIs(p)) == KW_NULL then e == IsNull(left, isNot)
      else e.Binary? && e.left == left && e.op == (if isNot then TOKEN_NEQ else TOKEN_EQ)
    }

    /** The place behind an IS or IS NOT at p. */
    ghost function OperandOfIs(p: nat): nat { if KindAt(tokens, p + 1) == KW_NOT then p + 2 else p + 1 }

    /** The IS branch of parseComparison: IS [NOT] NULL, TRUE, FALSE or an operand. Whatever operand of
        the level of || is printed behind it is the one compared with. */
    method ParseIs(left: Expr, ghost right: Option<Expr>, ghost end: nat) returns (r: Result<Expr>)
      requires Valid() && Peek().kind == KW_IS
      requires right.Some? ==> Printed(tokens, OperandOfIs(pos), end, 4, right.value, sp)
                               && KindAt(tokens, OperandOfIs(pos)) !in {KW_NULL, KW_TRUE, KW_FALSE}
      modifies this`pos
      ensures Moved(old(pos), r) && (r.Ok? ==> IsForm(left, old(pos), r.value))
      ensures var k := KindAt(tokens, OperandOfIs(old(pos)));
              && (r.Ok? && k == KW_TRUE && IsWord(tokens[OperandOfIs(old(pos))].text, "TRUE") ==>
                    r.value.right == Lit(Integer(1)))
              && (r.Ok? && k == KW_FALSE && !IsWord(tokens[OperandOfIs(old(pos))].text, "TRUE") ==>
                    r.value.right == Lit(Integer(0)))
      ensures right.Some? ==> r.Ok? && r.value.right == right.value && pos == end
      decreases Remaining(), 16, 3
    {
      var _ := Advance();
      var isNot := Peek().kind == KW_NOT;
      if isNot {
        var _ := Advance();
      }
      var op := if isNot then TOKEN_NEQ else TOKEN_EQ;
      var kind := Peek().kind;
      if kind == KW_NULL {
        var _ := Advance();
        r := Ok(IsNull(left, isNot));
      } else if kind == KW_TRUE || kind == KW_FALSE {
        var t := Advance();
        r := Ok(Binary(op, left, Lit(Integer(if IsWord(t.text, "TRUE") then 1 else 0))));
      } else {
        r := ParseLevel(4, right, end);
        if r.Ok? {
          r := Ok(Binary(op, left, r.value));
        }
      }
    }

    /** IN, LIKE, GLOB or BETWEEN, after NOT or not. */
    method ParseTest(left: Expr, isNot: bool, ghost want: Option<Expr>, ghost end: nat) returns (r: Result<Expr>)
      requires Valid() && IsTest(Peek().kind)
      requires want.Some? ==>
                 TestAhead(tokens, pos, end, want.value, sp) && Left(want.value) == left && want.value.isNot == isNot
      modifies this`pos
      ensures Moved(old(pos), r) && Got(want, end, r)
      decreases Remaining(), 16, 3
    {
      var kind := Peek().kind;
      if kind == KW_IN {
        r := ParseIn(left, isNot, want, end);
      } else if kind == KW_LIKE {
        r := ParseLike(left, isNot, want, end);
      } else if kind == KW_GLOB {
        r := ParseGlob(left, isNot, want, end);
      } else {
        r := ParseBetween(left, isNot, want, end);
      }
    }

    /** LIKE, with the pattern's optional ESCAPE; the parser takes KW_MATCH for ESCAPE. */
    method ParseLike(left: Expr, isNot: bool, ghost want: Option<Expr>, ghost end: nat) returns (r: Result<Expr>)
      requires Valid() && Peek().kind == KW_LIKE
      requires want.Some? ==>
                 TestAhead(tokens, pos, end, want.value, sp) && Left(want.value) == left && want.value.isNot == isNot
      modifies this`pos
      ensures Moved(old(pos), r) && Got(want, end, r)
      decreases Remaining(), 16, 2
    {
      ghost var m := 0;
      if want.Some? {
        TestStarts(want.value, sp);
        SpellsKind(tokens, pos, Test(want.value, sp));
        m := LikeAhead(tokens, pos, end, want.value, sp);
      }
      var _ := Advance();
      r := ParseLevel(4, if want.Some? then Some(want.value.pattern) else None, m);
      if r.Err? {
        return;
      }
      r := ParseEscape(left, r.value, isNot, want, end);
    }

    /** The escape of LIKE, behind a MATCH token. */
    method ParseEscape(left: Expr, pattern: Expr, isNot: bool, ghost want: Option<Expr>, ghost end: nat)
      returns (r: Result<Expr>)
      requires Valid()
      requires want.Some? ==>
                 && want.value.Like? && want.value == Like(left, pattern, want.value.escape, isNot)
                 && EscapeAhead(tokens, pos, end, want.value.escape, sp)
      modifies this`pos
      ensures Valid() && old(pos) <= pos && Got(want, end, r)
      decreases Remaining(), 16, 1
    {
      if Peek().kind != KW_MATCH {
        return Ok(Like(left, pattern, None, isNot));
      }
      var _ := Advance();
      r := ParseLevel(4, if want.Some? then want.value.escape else None, end);
      if r.Ok? {
        r := Ok(Like(left, pattern, Some(r.value), isNot));
      }
    }

    method ParseGlob(left: Expr, isNot: bool, ghost want: Option<Expr>, ghost end: nat) returns (r: Result<Expr>)
      requires Valid() && Peek().kind == KW_GLOB
      requires want.Some? ==>
                 TestAhead(tokens, pos, end, want.value, sp) && Left(want.value) == left && want.value.isNot == isNot
      modifies this`pos
      ensures Moved(old(pos), r) && Got(want, end, r)
      decreases Remaining(), 16, 2
    {
      if want.Some? {
        TestStarts(want.value, sp);
        SpellsKind(tokens, pos, Test(want.value, sp));
        GlobAhead(tokens, pos, end, want.value, sp);
      }
      var _ := Advance();
      r := ParseLevel(4, if want.Some? then Some(want.value.pattern) else None, end);
      if r.Ok? {
        r := Ok(Glob(left, r.value, isNot));
      }
    }

    method ParseBetween(left: Expr, isNot: bool, ghost want: Option<Expr>, ghost end: nat) returns (r: Result<Expr>)
      requires Valid() && Peek().kind == KW_BETWEEN
      requires want.Some? ==>
                 TestAhead(tokens, pos, end, want.value, sp) && Left(want.value) == left && want.value.isNot == isNot
      modifies this`pos
      ensures Moved(old(pos), r) && Got(want, end, r)
      decreases Remaining(), 16, 2
    {
      ghost var m := 0;
      if want.Some? {
        TestStarts(want.value, sp);
        SpellsKind(tokens, pos, Test(want.value, sp));
        m := BetweenAhead(tokens, pos, end, want.value, sp);
      }
      var _ := Advance();
      r := ParseLevel(4, if want.Some? then Some(want.value.low) else None, m);
      if r.Err? {
        return;
      }
      var low := r.value;
      var and := Expect(KW_AND);
      if and.Err? {
        return Err(and.error);
      }
      r := ParseLevel(4, if want.Some? then Some(want.value.high) else None, end);
      if r.Ok? {
        r := Ok(Between(left, low, r.value, isNot));
      }
    }

    /** IN, over a list or a SELECT. */
    method ParseIn(left: Expr, isNot: bool, ghost want: Option<Expr>, ghost end: nat) returns (r: Result<Expr>)
      requires Valid() && Peek().kind == KW_IN
      requires want.Some? ==>
                 TestAhead(tokens, pos, end, want.value, sp) && Left(want.value) == left && want.value.isNot == isNot
      modifies this`pos
      ensures Moved(old(pos), r) && Got(want, end, r)
      decreases Remaining(), 16, 2
    {
      ghost var list: Option<seq<Expr>>, query: Option<Select>, last: nat := None, None, 0;
      if want.Some? {
        TestStarts(want.value, sp);
        SpellsKind(tokens, pos, Test(want.value, sp));
        last := end - 1;
        if want.value.In? {
          InAhead(tokens, pos, end, want.value, sp);
          list := Some(want.value.list);
        } else {
          InSelectAhead(tokens, pos, end, want.value, sp);
          query := Some(want.value.query);
        }
      }
      var _ := Advance();
      var open := Expect(TOKEN_LPAREN);
      if open.Err? {
        return Err(open.error);
      }
      if Peek().kind == KW_SELECT {
        var q := ParseSelect(query, last);
        if q.Err? {
          return Err(q.error);
        }
        r := Ok(InSelect(left, q.value, isNot));
      } else {
        var l := ParseInList(list, last);
        if l.Err? {
          return Err(l.error);
        }
        r := Ok(In(left, l.value, isNot));
      }
      var close := Expect(TOKEN_RPAREN);
      if close.Err? {
        return Err(close.error);
      }
    }

    /** The list of IN: it may be empty, or end in a comma. */
    method ParseInList(ghost want: Option<seq<Expr>>, ghost end: nat) returns (r: Result<seq<Expr>>)
      requires Valid()
      requires want.Some? ==> ListAhead(tokens, pos, end, want.value, sp) && KindAt(tokens, end) == TOKEN_RPAREN
      modifies this`pos
      ensures Valid() && old(pos) <= pos && Got(want, end, r)
      decreases Remaining(), 22, 1
    {
      r := Ok([]);
      ghost var rest := want;
      while r.Ok? && Peek().kind != TOKEN_RPAREN && Peek().kind != TOKEN_EOF
        invariant Valid() && old(pos) <= pos && OnList(want, r, rest, end)
        invariant want.Some? ==> KindAt(tokens, end) == TOKEN_RPAREN
        decreases Remaining(), r.Ok?
      {
        ListMore(rest, end);
        r, rest := ParseItem(r.value, rest, want, end);
        if r.Err? || Peek().kind != TOKEN_COMMA {
          ListOver(r, rest, want);
          return;
        }
        var _ := Advance();
      }
      ListMore(rest, end);
      ListOver(r, rest, want);
    }

    /** The loops over comma-separated expressions: rest lies ahead, after what was read. */
    ghost predicate OnList(want: Option<seq<Expr>>, r: Result<seq<Expr>>, rest: Option<seq<Expr>>, end: nat)
      reads this
    {
      && (want.Some? <==> rest.Some?)
      && (want.Some? ==> r.Ok? && r.value + rest.value == want.value && ListAhead(tokens, pos, end, rest.value, sp))
    }

    lemma ListMore(rest: Option<seq<Expr>>, end: nat)
      requires rest.Some? ==> ListAhead(tokens, pos, end, rest.value, sp)
      ensures rest.Some? ==> if rest.value == [] then pos == end else Starts(Peek().kind)
    {
      if rest.Some? && rest.value != [] {
        var _ := ListNext(tokens, pos, end, rest.value, sp);
      }
    }

    lemma ListOver(r: Result<seq<Expr>>, rest: Option<seq<Expr>>, want: Option<seq<Expr>>)
      requires want.Some? ==> r.Ok? && rest == Some([]) && r.value + rest.value == want.value
      ensures want.Some? ==> r == Ok(want.value)
    {
      if want.Some? {
        assert r.value + [] == r.value;
      }
    }

    /** When a list is wanted, a comma and the rest of it follow what was read, or nothing. */
    ghost predicate AfterItem(want: Option<seq<Expr>>, r: Result<seq<Expr>>, rest: Option<seq<Expr>>, end: nat)
      reads this
    {
      && (want.Some? <==> rest.Some?)
      && (want.Some? ==>
            && r.Ok? && r.value + rest.value == want.value
            && if rest.value == [] then pos == end && Peek().kind != TOKEN_COMMA
               else Peek().kind == TOKEN_COMMA && ListAhead(tokens, pos + 1, end, rest.value, sp))
    }

    /** One more expression of a list. */
    method ParseItem(list: seq<Expr>, ghost ahead: Option<seq<Expr>>, ghost want: Option<seq<Expr>>, ghost end: nat)
      returns (r: Result<seq<Expr>>, ghost rest: Option<seq<Expr>>)
      requires Valid() && OnList(want, Ok(list), ahead, end) && (want.Some? ==> ahead.value != [])
      modifies this`pos
      ensures Moved(old(pos), r) && AfterItem(want, r, rest, end)
      decreases Remaining(), 22, 0
    {
      ghost var n, item: Option<Expr> := 0, None;
      if want.Some? {
        n := ListNext(tokens, pos, end, ahead.value, sp);
        item := Some(ahead.value[0]);
      }
      var x := ParseExpr(item, n);
      rest := if want.Some? then Some(ahead.value[1..]) else None;
      r := if x.Ok? then Ok(list + [x.value]) else Err(x.error);
    }

    // ----- Postfix and primary expressions -----

    method ParsePostfix(ghost want: Option<Expr>, ghost end: nat) returns (r: Result<Expr>)
      requires Valid() && Ahead(POSTFIX, want, end)
      modifies this`pos
      ensures Moved(old(pos), r) && Got(want, end, r)
      decreases Remaining(), 9
    {
      ghost var base, mid, rest := StartChain(POSTFIX, want, end);
      r := ParsePrimary(base, mid);
      while r.Ok? && Peek().kind == KW_IS
        invariant Moved(old(pos), r) && OnChain(POSTFIX, end, r, rest, want)
        decreases Remaining(), r.Ok?
      {
        r := ParseIsPostfix(r.value, end, rest, want);
        rest := if want.Some? then rest[1..] else [];
      }
      if want.Some? {
        AwaitsStop(tokens, pos, end, POSTFIX, r.value, rest, want.value, sp);
      }
    }

    /** One turn of the loop of parsePostfix: IS [NOT] NULL or a primary expression. */
    method ParseIsPostfix(left: Expr, ghost end: nat, ghost rest: seq<Expr>, ghost want: Option<Expr>)
      returns (r: Result<Expr>)
      requires Valid() && Peek().kind == KW_IS
      requires OnChain(POSTFIX, end, Ok(left), rest, want)
      modifies this`pos
      ensures Moved(old(pos), r) && (r.Ok? ==> IsForm(left, old(pos), r.value))
      ensures want.Some? ==> rest != [] && r == Ok(rest[0])
      ensures OnChain(POSTFIX, end, r, if want.Some? then rest[1..] else [], want)
      decreases Remaining(), 8, 1
    {
      ghost var right: Option<Expr>, end': nat := None, 0;
      if want.Some? {
        right, end' := IsAhead(end, left, rest, want.value);
      }
      var _ := Advance();
      var isNot := Peek().kind == KW_NOT;
      if isNot {
        var _ := Advance();
      }
      if Peek().kind == KW_NULL {
        var _ := Advance();
        r := Ok(IsNull(left, isNot));
      } else {
        r := ParsePrimary(right, end');
        if r.Ok? {
          r := Ok(Binary(if isNot then TOKEN_NEQ else TOKEN_EQ, left, r.value));
        }
      }
    }

    /** What an IS that a chain goes on with stands for: a test for NULL, or a comparison with right. */
    lemma IsAhead(end: nat, left: Expr, rest: seq<Expr>, whole: Expr) returns (right: Option<Expr>, n: nat)
      requires Valid() && Peek().kind == KW_IS && Awaits(tokens, pos, end, POSTFIX, left, rest, whole, sp)
      ensures rest != [] && Awaits(tokens, n, end, POSTFIX, rest[0], rest[1..], whole, sp)
      ensures var isNot, p := KindAt(tokens, pos + 1) == KW_NOT, OperandOfIs(pos);
              if right.None? then rest[0] == IsNull(left, isNot) && KindAt(tokens, p) == KW_NULL && n == p + 1
              else
                && rest[0] == Binary(if isNot then TOKEN_NEQ else TOKEN_EQ, left, right.value)
                && KindAt(tokens, p) != KW_NULL && Printed(tokens, p, n, PRIMARY, right.value, sp)
    {
      AwaitsStop(tokens, pos, end, POSTFIX, left, rest, whole, sp);
      n := AwaitsNext(tokens, pos, end, POSTFIX, left, rest, whole, sp);
      PostfixNode(rest[0], sp);
      if rest[0].IsNull? {
        IsNullTail(tokens, pos, n, rest[0], sp);
        right := None;
      } else {
        IsTail(tokens, pos, n, rest[0], sp);
        right := Some(rest[0].right);
      }
    }

    lemma PostfixNode(e: Expr, sp: Spelling)
      requires LeftRecursive(e) && Level(e, sp) == POSTFIX && Printable(e, sp)
      ensures e.IsNull? || WithIs(e, sp)
    {
    }

    /** parsePrimaryExpr */
    method ParsePrimary(ghost want: Option<Expr>, ghost end: nat) returns (r: Result<Expr>)
      requires Valid() && Ahead(PRIMARY, want, end)
      modifies this`pos
      ensures Moved(old(pos), r) && Got(want, end, r)
      decreases Remaining(), 8, 0
    {
      if want.Some? {
        PrimaryForm(tokens, pos, end, want.value, sp);
      }
      var kind := Peek().kind;
      if kind == TOKEN_NUMBER || kind == TOKEN_STRING || kind == KW_NULL || kind == KW_TRUE || kind == KW_FALSE
         || kind == TOKEN_STAR {
        r := ParseAtom(want, end);
      } else if kind == TOKEN_LPAREN {
        r := ParseParens(want, end);
      } else if kind == KW_CASE {
        r := ParseCase(want, end);
      } else if kind == KW_CAST {
        r := ParseCast(want, end);
      } else if kind == KW_EXISTS {
        r := ParseExists(want, end);
      } else if kind == KW_NOT {
        r := ParseNotPrimary(want, end);
      } else if kind == TOKEN_IDENT || IsIdentLike(kind) {
        r := ParseName(want, end);
      } else {
        r := Err(Error.Syntax);
      }
    }

    /** An operand of the innermost level lies ahead, and it begins with this kind of token. */
    ghost predicate PrimaryAhead(want: Option<Expr>, end: nat)
      reads this
    {
      want.Some? ==> Printed(tokens, pos, end, PRIMARY, want.value, sp) && PrimaryKind(want.value, sp) == Peek().kind
    }

    /** The literals, and the sign *. */
    method ParseAtom(ghost want: Option<Expr>, ghost end: nat) returns (r: Result<Expr>)
      requires Valid() && Peek().kind in {TOKEN_NUMBER, TOKEN_STRING, KW_NULL, KW_TRUE, KW_FALSE, TOKEN_STAR}
               && PrimaryAhead(want, end)
      modifies this`pos
      ensures Moved(old(pos), r) && Got(want, end, r)
    {
      if want.Some? {
        AtomAhead(tokens, pos, end, want.value, sp);
      }
      var t := Advance();
      if t.kind == TOKEN_NUMBER {
        match NumberValue(t.text, sp.floatOk) {
          case Some(lit) => r := Ok(Lit(lit));
          case None => r := Err(Error.Syntax);
        }
      } else if t.kind == TOKEN_STRING {
        r := Ok(Lit(Text(t.text)));
      } else if t.kind == KW_NULL {
        r := Ok(Lit(Null));
      } else if t.kind == KW_TRUE {
        r := Ok(Lit(Integer(1)));
      } else if t.kind == KW_FALSE {
        r := Ok(Lit(Integer(0)));
      } else {
        r := Ok(Star);
      }
    }

    /** A parenthesised expression, a row of values, or a subquery. */
    method ParseParens(ghost want: Option<Expr>, ghost end: nat) returns (r: Result<Expr>)
      requires Valid() && Peek().kind == TOKEN_LPAREN && PrimaryAhead(want, end)
      modifies this`pos
      ensures Moved(old(pos), r) && Got(want, end, r)
      decreases Remaining(), 7
    {
      ghost var last: nat := 0;
      if want.Some? {
        ParensAhead(tokens, pos, end, want.value, sp);
        last := end - 1;
      }
      var _ := Advance();
      if Peek().kind == KW_SELECT {
        var q := ParseSelect(if want.Some? then Some(want.value.query) else None, last);
        r := if q.Ok? then Ok(Subquery(q.value)) else Err(q.error);
      } else {
        r := ParseGroup(want, last);
      }
      if r.Ok? {
        var close := Expect(TOKEN_RPAREN);
        r := if close.Ok? then r else Err(close.error);
      }
    }

    /** What the parentheses hold, when it is no subquery: one expression, or several. */
    method ParseGroup(ghost want: Option<Expr>, ghost last: nat) returns (r: Result<Expr>)
      requires Valid()
      requires want.Some? ==> GroupAhead(tokens, pos, last, want.value, sp)
      modifies this`pos
      ensures Moved(old(pos), r) && Got(want, last, r)
      decreases Remaining(), 23
    {
      ghost var first, n, row, rest := want, last, None, None;
      if want.Some? && want.value.RowValue? {
        n := ListNext(tokens, pos, last, want.value.values, sp);
        row, rest := Some(want.value.values), Some(want.value.values[1..]);
        first := Some(want.value.values[0]);
      }
      r := ParseExpr(first, n);
      if r.Ok? && Peek().kind == TOKEN_COMMA {
        var l := ParseMoreItems([r.value], rest, row, last);
        r := if l.Ok? then Ok(RowValue(l.value)) else Err(l.error);
      }
    }

    /** The loop that goes on as long as a comma follows. */
    method ParseMoreItems(list: seq<Expr>, ghost ahead: Option<seq<Expr>>, ghost want: Option<seq<Expr>>,
                          ghost end: nat)
      returns (r: Result<seq<Expr>>)
      requires Valid() && AfterItem(want, Ok(list), ahead, end)
      modifies this`pos
      ensures Valid() && old(pos) <= pos && Got(want, end, r)
      decreases Remaining(), 22, 1
    {
      r := Ok(list);
      ghost var rest := ahead;
      while r.Ok? && Peek().kind == TOKEN_COMMA
        invariant Valid() && old(pos) <= pos && AfterItem(want, r, rest, end)
        decreases Remaining(), r.Ok?
      {
        var _ := Advance();
        r, rest := ParseItem(r.value, rest, want, end);
      }
      ListOver(r, rest, want);
    }

    /** parseCaseExpr */
    method ParseCase(ghost want: Option<Expr>, ghost end: nat) returns (r: Result<Expr>)
      requires Valid() && Peek().kind == KW_CASE && PrimaryAhead(want, end)
      modifies this`pos
      ensures Moved(old(pos), r) && Got(want, end, r)
      decreases Remaining(), 7
    {
      ghost var m, base, whens, els := 0, None, None, None;
      if want.Some? {
        PrimaryForm(tokens, pos, end, want.value, sp);
        m := CaseAhead(tokens, pos, end, want.value, sp);
        base, whens, els := want.value.base, Some(want.value.whens), want.value.els;
      }
      var _ := Advance();
      var b := ParseBase(base, whens.Some?, m);
      if b.Err? {
        return Err(b.error);
      }
      var ws := ParseWhens(whens, els, end);
      if ws.Err? {
        return Err(ws.error);
      }
      var e := ParseElse(els, whens.Some?, end);
      r := if e.Ok? then Ok(Case(b.value, ws.value, e.value)) else Err(e.error);
    }

    /** The expression a CASE compares, if it has one. */
    method ParseBase(ghost want: Option<Expr>, ghost wanted: bool, ghost end: nat) returns (r: Result<Option<Expr>>)
      requires Valid() && (wanted ==> BaseAhead(tokens, pos, end, want, sp))
      modifies this`pos
      ensures Valid() && old(pos) <= pos && (wanted ==> r == Ok(want) && pos == end)
      decreases Remaining(), 22
    {
      if Peek().kind == KW_WHEN {
        return Ok(None);
      }
      var x := ParseExpr(if wanted then want else None, end);
      r := if x.Ok? then Ok(Some(x.value)) else Err(x.error);
    }

    method ParseWhens(ghost want: Option<seq<When>>, ghost els: Option<Expr>, ghost end: nat)
      returns (r: Result<seq<When>>)
      requires Valid()
      requires want.Some? ==> WhensAhead(tokens, pos, end, want.value, els, sp)
      modifies this`pos
      ensures Valid() && old(pos) <= pos
      ensures want.Some? ==> r == Ok(want.value) && ElseAhead(tokens, pos, end, els, sp)
      decreases Remaining(), 22, 1
    {
      r := Ok([]);
      ghost var rest := want;
      while r.Ok? && Peek().kind == KW_WHEN
        invariant Valid() && old(pos) <= pos && OnWhens(want, r, rest, els, end)
        decreases Remaining(), r.Ok?
      {
        r, rest := ParseWhen(r.value, rest, want, els, end);
      }
      if want.Some? {
        WhensStop(tokens, pos, end, rest.value, els, sp);
        assert r.value + [] == r.value;
      }
    }

    ghost predicate OnWhens(want: Option<seq<When>>, r: Result<seq<When>>, rest: Option<seq<When>>, els: Option<Expr>,
                            end: nat)
      reads this
    {
      && (want.Some? <==> rest.Some?)
      && (want.Some? ==>
            r.Ok? && r.value + rest.value == want.value && WhensAhead(tokens, pos, end, rest.value, els, sp))
    }

    method ParseWhen(list: seq<When>, ghost ahead: Option<seq<When>>, ghost want: Option<seq<When>>,
                     ghost els: Option<Expr>, ghost end: nat)
      returns (r: Result<seq<When>>, ghost rest: Option<seq<When>>)
      requires Valid() && Peek().kind == KW_WHEN && OnWhens(want, Ok(list), ahead, els, end)
      modifies this`pos
      ensures Moved(old(pos), r) && OnWhens(want, r, rest, els, end)
      decreases Remaining(), 22, 0
    {
      ghost var n, w: Option<When> := 0, None;
      rest := want;
      if want.Some? {
        WhensStop(tokens, pos, end, ahead.value, els, sp);
        n := WhensNext(tokens, pos, end, ahead.value, els, sp);
        HeadMoves(list, ahead.value, want.value);
        w, rest := Some(ahead.value[0]), Some(ahead.value[1..]);
      }
      var x := ParseOneWhen(w, n);
      r := if x.Ok? then Ok(list + [x.value]) else Err(x.error);
    }

    /** WHEN condition THEN result */
    method ParseOneWhen(ghost want: Option<When>, ghost end: nat) returns (r: Result<When>)
      requires Valid() && Peek().kind == KW_WHEN && (want.Some? ==> WhenAhead(tokens, pos, end, want.value, sp))
      modifies this`pos
      ensures Moved(old(pos), r) && Got(want, end, r)
      decreases Remaining(), 21
    {
      ghost var m := 0;
      if want.Some? {
        m := WhenNext(tokens, pos, end, want.value, sp);
      }
      var _ := Advance();
      var cond := ParseExpr(if want.Some? then Some(want.value.cond) else None, m);
      if cond.Err? {
        return Err(cond.error);
      }
      var thenToken := Expect(KW_THEN);
      if thenToken.Err? {
        return Err(thenToken.error);
      }
      var x := ParseExpr(if want.Some? then Some(want.value.result) else None, end);
      r := if x.Ok? then Ok(When(cond.value, x.value)) else Err(x.error);
    }

    /** The ELSE of a CASE, and its END. */
    method ParseElse(ghost want: Option<Expr>, ghost wanted: bool, ghost end: nat) returns (r: Result<Option<Expr>>)
      requires Valid()
      requires wanted ==> ElseAhead(tokens, pos, end, want, sp)
      modifies this`pos
      ensures Valid() && old(pos) <= pos
      ensures wanted ==> r == Ok(want) && pos == end
      decreases Remaining(), 22
    {
      if wanted {
        ElseNext(tokens, pos, end, want, sp);
      }
      r := Ok(None);
      if Peek().kind == KW_ELSE {
        var _ := Advance();
        var x := ParseExpr(if wanted then want else None, if wanted then end - 1 else 0);
        if x.Err? {
          return Err(x.error);
        }
        r := Ok(Some(x.value));
      }
      var close := Expect(KW_END);
      r := if close.Ok? then r else Err(close.error);
    }

    method ParseCast(ghost want: Option<Expr>, ghost end: nat) returns (r: Result<Expr>)
      requires Valid() && Peek().kind == KW_CAST && PrimaryAhead(want, end)
      modifies this`pos
      ensures Moved(old(pos), r) && Got(want, end, r)
      decreases Remaining(), 7
    {
      ghost var m := 0;
      if want.Some? {
        PrimaryForm(tokens, pos, end, want.value, sp);
        m := CastAhead(tokens, pos, end, want.value, sp);
      }
      var _ := Advance();
      var open := Expect(TOKEN_LPAREN);
      if open.Err? {
        return Err(open.error);
      }
      r := ParseExpr(if want.Some? then Some(want.value.operand) else None, m);
      if r.Err? {
        return;
      }
      var asToken := Expect(KW_AS);
      if asToken.Err? {
        return Err(asToken.error);
      }
      var t := ParseTypeName();
      var close := Expect(TOKEN_RPAREN);
      r := if close.Ok? then Ok(Cast(r.value, t)) else Err(close.error);
    }

    /** parseTypeName: it never fails. */
    method ParseTypeName() returns (t: string)
      requires Valid()
      modifies this`pos
      ensures Valid() && old(pos) <= pos
      ensures t == (if IsTypeWord(old(Peek()).kind) then old(Peek()).text
                    else if old(Peek()).kind != TOKEN_IDENT then "TEXT"
                    else if IsWord(old(Peek()).text, "UNSIGNED") then "INTEGER"
                    else old(Peek()).text)
      ensures !IsTypeWord(old(Peek()).kind) && old(Peek()).kind != TOKEN_IDENT ==> pos == old(pos)
      ensures IsTypeWord(old(Peek()).kind) || old(Peek()).kind == TOKEN_IDENT ==>
                old(pos) < pos && (KindAt(tokens, old(pos) + 1) == TOKEN_RPAREN ==> pos == old(pos) + 1)
    {
      var kind := Peek().kind;
      if IsTypeWord(kind) {
        var tok := Advance();
        SkipBrackets();
        t := tok.text;
      } else if kind == TOKEN_IDENT {
        var tok := Advance();
        if IsWord(tok.text, "UNSIGNED") {
          if Peek().kind == TOKEN_IDENT && IsWord(Peek().text, "BIG") {
            var _ := Advance();
            if Peek().kind == KW_INTEGER || (Peek().kind == TOKEN_IDENT && IsWord(Peek().text, "INT")) {
              var _ := Advance();
            }
          }
          return "INTEGER";
        }
        if (IsWord(tok.text, "DOUBLE") || IsWord(tok.text, "VARYING") || IsWord(tok.text, "NATIVE"))
           && Peek().kind == TOKEN_IDENT {
          var _ := Advance();
        }
        SkipBrackets();
        t := tok.text;
      } else {
        t := "TEXT";
      }
    }

    /** A length in parentheses behind a type name. */
    method SkipBrackets()
      requires Valid()
      modifies this`pos
      ensures Valid() && old(pos) <= pos
      ensures old(Peek()).kind != TOKEN_LPAREN ==> pos == old(pos)
    {
      if Peek().kind == TOKEN_LPAREN {
        var _ := Advance();
        while Peek().kind != TOKEN_RPAREN && Peek().kind != TOKEN_EOF
          invariant Valid() && old(pos) <= pos
          decreases Remaining()
        {
          var _ := Advance();
        }
        if Peek().kind == TOKEN_RPAREN {
          var _ := Advance();
        }
      }
    }

    method ParseExists(ghost want: Option<Expr>, ghost end: nat) returns (r: Result<Expr>)
      requires Valid() && Peek().kind == KW_EXISTS && PrimaryAhead(want, end)
      modifies this`pos
      ensures Moved(old(pos), r) && Got(want, end, r)
      decreases Remaining(), 7
    {
      ghost var query, last: nat := None, 0;
      if want.Some? {
        PrimaryForm(tokens, pos, end, want.value, sp);
        ExistsAhead(tokens, pos, end, want.value, sp);
        query, last := Some(want.value.query), end - 1;
      }
      var _ := Advance();
      var q := ParseBracketedSelect(query, last);
      r := if q.Ok? then Ok(Exists(q.value, false)) else Err(q.error);
    }

    method ParseBracketedSelect(ghost want: Option<Select>, ghost last: nat) returns (r: Result<Select>)
      requires Valid()
      requires want.Some? ==>
                 Peek().kind == TOKEN_LPAREN && SelectAhead(tokens, pos + 1, last, want.value, sp)
                 && KindAt(tokens, last) == TOKEN_RPAREN
      modifies this`pos
      ensures Moved(old(pos), r) && Got(want, last + 1, r)
      decreases Remaining(), 31
    {
      var open := Expect(TOKEN_LPAREN);
      if open.Err? {
        return Err(open.error);
      }
      r := ParseSelect(want, last);
      if r.Ok? {
        var close := Expect(TOKEN_RPAREN);
        r := if close.Ok? then r else Err(close.error);
      }
    }

    /** NOT EXISTS, or NOT over a primary expression, met inside an operand. */
    method ParseNotPrimary(ghost want: Option<Expr>, ghost end: nat) returns (r: Result<Expr>)
      requires Valid() && Peek().kind == KW_NOT && PrimaryAhead(want, end)
      modifies this`pos
      ensures Moved(old(pos), r) && Got(want, end, r)
      ensures r.Ok? ==> if KindAt(tokens, old(pos) + 1) == KW_EXISTS then r.value.Exists? && r.value.isNot
                        else r.value.Unary? && r.value.op == KW_NOT
      decreases Remaining(), 7
    {
      if want.Some? {
        PrimaryForm(tokens, pos, end, want.value, sp);
        NotExistsAhead(tokens, pos, end, want.value, sp);
      }
      var next := PeekAt(1);
      var _ := Advance();
      if next.kind == KW_EXISTS {
        var _ := Advance();
        var q := ParseBracketedSelect(if want.Some? then Some(want.value.query) else None,
                                      if want.Some? then end - 1 else 0);
        r := if q.Ok? then Ok(Exists(q.value, true)) else Err(q.error);
      } else {
        r := ParsePrimary(None, 0);
        r := if r.Ok? then Ok(Unary(KW_NOT, r.value)) else r;
      }
    }

    /** A column, possibly qualified, or a function call. */
    method ParseName(ghost want: Option<Expr>, ghost end: nat) returns (r: Result<Expr>)
      requires Valid() && (Peek().kind == TOKEN_IDENT || IsIdentLike(Peek().kind)) && PrimaryAhead(want, end)
      modifies this`pos
      ensures Moved(old(pos), r) && Got(want, end, r)
      decreases Remaining(), 7
    {
      if want.Some? {
        NameAhead(tokens, pos, end, want.value, sp);
      }
      var t := Advance();
      if Peek().kind == TOKEN_DOT {
        var _ := Advance();
        var field := ExpectIdent();
        r := if field.Ok? then Ok(Ident(t.text, field.value)) else Err(field.error);
      } else if Peek().kind == TOKEN_LPAREN {
        r := ParseFuncCall(t.text, want, end);
      } else {
        r := Ok(Ident("", t.text));
      }
    }

    /** parseFuncCall */
    method ParseFuncCall(name: string, ghost want: Option<Expr>, ghost end: nat) returns (r: Result<Expr>)
      requires Valid() && Peek().kind == TOKEN_LPAREN
      requires want.Some? ==> CallAhead(tokens, pos, end, want.value, sp) && want.value.name == name
      modifies this`pos
      ensures Moved(old(pos), r) && Got(want, end, r)
      decreases Remaining(), 7
    {
      var _ := Advance();
      if Peek().kind == TOKEN_RPAREN {
        var _ := Advance();
        return Ok(Func(name, [], false, false));
      }
      if Peek().kind == TOKEN_STAR {
        var _ := Advance();
        var close := Expect(TOKEN_RPAREN);
        r := if close.Ok? then Ok(Func(name, [], false, true)) else Err(close.error);
        return;
      }
      var distinct := Peek().kind == KW_DISTINCT;
      if distinct {
        var _ := Advance();
      }
      var args := ParseArgs(if want.Some? then Some(want.value.args) else None, end - 1);
      r := if args.Ok? then Ok(Func(name, args.value, distinct, false)) else Err(args.error);
    }

    /** Arguments up to and with the closing parenthesis. */
    method ParseArgs(ghost want: Option<seq<Expr>>, ghost last: int) returns (r: Result<seq<Expr>>)
      requires Valid()
      requires want.Some? ==>
                 last >= 0 && want.value != [] && ListAhead(tokens, pos, last, want.value, sp)
                 && KindAt(tokens, last) == TOKEN_RPAREN
      modifies this`pos
      ensures Valid() && old(pos) <= pos && (want.Some? ==> r == Ok(want.value) && pos == last + 1)
      decreases Remaining(), 22, 1
    {
      ghost var end: nat := if want.Some? then last else 0;
      r := Ok([]);
      ghost var rest := want;
      while true
        invariant Valid() && old(pos) <= pos && r.Ok? && OnList(want, r, rest, end)
        invariant want.Some? ==> rest.value != [] && end == last && KindAt(tokens, end) == TOKEN_RPAREN
        decreases Remaining()
      {
        r, rest := ParseItem(r.value, rest, want, end);
        if r.Err? {
          return;
        }
        var more := ParseArgEnd(r.value, rest, want, end);
        if more.Err? {
          return Err(more.error);
        }
        if !more.value {
          return;
        }
      }
    }

    /** The closing parenthesis, or a comma and more. */
    method ParseArgEnd(list: seq<Expr>, ghost rest: Option<seq<Expr>>, ghost want: Option<seq<Expr>>, ghost end: nat)
      returns (more: Result<bool>)
      requires Valid() && AfterItem(want, Ok(list), rest, end) && (want.Some? ==> KindAt(tokens, end) == TOKEN_RPAREN)
      modifies this`pos
      ensures Valid() && old(pos) <= pos && (more.Err? ==> want.None?)
      ensures more == Ok(true) ==> OnList(want, Ok(list), rest, end) && (want.Some? ==> rest.value != [])
      ensures more == Ok(false) && want.Some? ==> list == want.value && pos == end + 1
    {
      if Peek().kind == TOKEN_RPAREN {
        ListOver(Ok(list), rest, want);
        var _ := Advance();
        return Ok(false);
      }
      var comma := Expect(TOKEN_COMMA);
      more := if comma.Ok? then Ok(true) else Err(comma.error);
    }

    // ----- SELECT -----

    /** parseSelect: it skips the token it begins at, SELECT or not. */
    method ParseSelect(ghost want: Option<Select>, ghost end: nat) returns (r: Result<Select>)
      requires Valid()
      requires want.Some? ==> SelectAhead(tokens, pos, end, want.value, sp)
      modifies this`pos
      ensures Moved(old(pos), r) && Got(want, end, r)
      decreases Remaining(), 30
    {
      var distinct, b := ParseDistinct(want, end);
      var columns := ParseColumns(if want.Some? then Some(want.value.columns) else None, b);
      if columns.Err? {
        return Err(columns.error);
      }
      r := ParseClauses(distinct, columns.value, want, end);
    }

    /** SELECT, and DISTINCT or ALL behind it. */
    method ParseDistinct(ghost want: Option<Select>, ghost end: nat) returns (distinct: bool, ghost b: nat)
      requires Valid()
      requires want.Some? ==> SelectAhead(tokens, pos, end, want.value, sp)
      modifies this`pos
      ensures Valid() && old(pos) <= pos
      ensures old(Peek()).kind != TOKEN_EOF ==>
                var k := KindAt(tokens, old(pos) + 1);
                && (distinct <==> k == KW_DISTINCT)
                && pos == old(pos) + (if distinct || k == KW_ALL then 2 else 1)
      ensures want.Some? ==>
                && want.value.distinct == distinct && want.value.columns != []
                && ColumnsAhead(tokens, pos, b, want.value.columns, sp)
                && ClausesAhead(tokens, b, end, 0, want.value, sp)
    {
      b := 0;
      if want.Some? {
        ghost var a;
        a, b := SelectNext(tokens, pos, end, want.value, sp);
      }
      var _ := Advance();
      distinct := Peek().kind == KW_DISTINCT;
      if distinct || Peek().kind == KW_ALL {
        var _ := Advance();
      }
    }

    method ParseColumns(ghost want: Option<seq<Column>>, ghost end: nat) returns (r: Result<seq<Column>>)
      requires Valid()
      requires want.Some? ==> want.value != [] && ColumnsAhead(tokens, pos, end, want.value, sp)
      modifies this`pos
      ensures Moved(old(pos), r) && Got(want, end, r)
      decreases Remaining(), 29
    {
      r := Ok([]);
      ghost var rest := want;
      var more := true;
      while more
        invariant Valid() && old(pos) <= pos && (more ==> r.Ok?) && (!more && r.Ok? ==> old(pos) < pos)
        invariant if more then OnColumns(want, r, rest, end) else Got(want, end, r)
        decreases Remaining(), more
      {
        r, rest := ParseColumn(r.value, rest, want, end);
        more := r.Ok? && Peek().kind == TOKEN_COMMA;
        if more {
          var _ := Advance();
        }
      }
    }

    ghost predicate OnColumns(want: Option<seq<Column>>, r: Result<seq<Column>>, rest: Option<seq<Column>>, end: nat)
      reads this
    {
      && (want.Some? <==> rest.Some?)
      && (want.Some? ==> r.Ok? && r.value + rest.value == want.value && rest.value != []
                         && ColumnsAhead(tokens, pos, end, rest.value, sp))
    }

    method ParseColumn(list: seq<Column>, ghost ahead: Option<seq<Column>>, ghost want: Option<seq<Column>>,
                       ghost end: nat)
      returns (r: Result<seq<Column>>, ghost rest: Option<seq<Column>>)
      requires Valid() && OnColumns(want, Ok(list), ahead, end)
      modifies this`pos
      ensures Moved(old(pos), r) && (want.Some? <==> rest.Some?)
      ensures want.Some? ==>
                r.Ok? && if Peek().kind == TOKEN_COMMA
                         then r.value + rest.value == want.value && rest.value != []
                              && ColumnsAhead(tokens, pos + 1, end, rest.value, sp)
                         else r == Ok(want.value) && pos == end
      decreases Remaining(), 28
    {
      ghost var n, c: Option<Column> := 0, None;
      rest := want;
      if want.Some? {
        n := ColumnsNext(tokens, pos, end, ahead.value, sp);
        HeadMoves(list, ahead.value, want.value);
        c, rest := Some(ahead.value[0]), Some(ahead.value[1..]);
      }
      var x := ParseOneColumn(c, n);
      r := if x.Ok? then Ok(list + [x.value]) else Err(x.error);
    }

    /** An expression and its alias; a star stands for all columns. */
    method ParseOneColumn(ghost want: Option<Column>, ghost end: nat) returns (r: Result<Column>)
      requires Valid() && (want.Some? ==> ColumnAhead(tokens, pos, end, want.value, sp))
      modifies this`pos
      ensures Moved(old(pos), r) && Got(want, end, r)
      decreases Remaining(), 27
    {
      ghost var m := 0;
      if want.Some? {
        m := ColumnNext(tokens, pos, end, want.value, sp);
      }
      if Peek().kind == TOKEN_STAR {
        var _ := Advance();
        return Ok(StarColumn);
      }
      var x := ParseExpr(if want.Some? then Some(want.value.expr) else None, m);
      if x.Err? {
        return Err(x.error);
      }
      var alias := ParseAlias(if want.Some? then Some(want.value.alias) else None, end);
      r := if alias.Ok? then Ok(Column(x.value, alias.value)) else Err(alias.error);
    }

    /** AS and a name, a bare identifier, or no alias. */
    method ParseAlias(ghost want: Option<string>, ghost end: nat) returns (r: Result<string>)
      requires Valid()
      requires want.Some? ==> AliasAhead(tokens, pos, end, want.value)
      modifies this`pos
      ensures Valid() && old(pos) <= pos && Got(want, end, r)
    {
      if Peek().kind == KW_AS {
        var _ := Advance();
        r := ExpectIdent();
      } else if Peek().kind == TOKEN_IDENT {
        var t := Advance();
        r := Ok(t.text);
      } else {
        r := Ok("");
      }
    }

    /** FROM, WHERE, GROUP BY and HAVING, in that order. */
    method ParseClauses(distinct: bool, columns: seq<Column>, ghost want: Option<Select>, ghost end: nat)
      returns (r: Result<Select>)
      requires Valid() && ClausesOf(0, want, end)
      requires want.Some? ==> want.value.distinct == distinct && want.value.columns == columns
      modifies this`pos
      ensures Valid() && old(pos) <= pos && Got(want, end, r)
      decreases Remaining(), 28
    {
      var from := ParseFrom(want, end);
      if from.Err? {
        return Err(from.error);
      }
      var where := ParseOptional(1, KW_WHERE, WhereOf(want), want, end);
      if where.Err? {
        return Err(where.error);
      }
      var groupBy := ParseGroupBy(want, end);
      if groupBy.Err? {
        return Err(groupBy.error);
      }
      var having := ParseOptional(3, KW_HAVING, HavingOf(want), want, end);
      if having.Err? {
        return Err(having.error);
      }
      var head := Select(distinct, columns, from.value.0, from.value.1, where.value, groupBy.value, having.value,
                         None, [], None, None);
      r := ParseLastClauses(head, want, end);
    }

    /** A compound, ORDER BY, LIMIT and OFFSET, in that order. */
    method ParseLastClauses(head: Select, ghost want: Option<Select>, ghost end: nat) returns (r: Result<Select>)
      requires Valid() && ClausesOf(4, want, end)
      requires want.Some? ==> head == want.value.(compound := None, orderBy := [], limit := None, offset := None)
      modifies this`pos
      ensures Valid() && old(pos) <= pos && Got(want, end, r)
      decreases Remaining(), 27, 1
    {
      var compound := ParseCompound(want, end);
      if compound.Err? {
        return Err(compound.error);
      }
      var orderBy := ParseOrderBy(want, end);
      if orderBy.Err? {
        return Err(orderBy.error);
      }
      var limit := ParseOptional(6, KW_LIMIT, LimitOf(want), want, end);
      if limit.Err? {
        return Err(limit.error);
      }
      var offset := ParseOptional(7, KW_OFFSET, OffsetOf(want), want, end);
      if offset.Err? {
        return Err(offset.error);
      }
      r := Ok(head.(compound := compound.value, orderBy := orderBy.value, limit := limit.value,
                    offset := offset.value));
    }

    /** The clauses from number j on lie ahead. */
    ghost predicate ClausesOf(j: nat, want: Option<Select>, end: nat)
      reads this
    {
      want.Some? ==> PrintableSelect(want.value, sp) && ClausesAhead(tokens, pos, end, j, want.value, sp)
    }

    ghost function WhereOf(q: Option<Select>): Option<Expr> { if q.Some? then q.value.where else None }
    ghost function HavingOf(q: Option<Select>): Option<Expr> { if q.Some? then q.value.having else None }
    ghost function LimitOf(q: Option<Select>): Option<Expr> { if q.Some? then q.value.limit else None }
    ghost function OffsetOf(q: Option<Select>): Option<Expr> { if q.Some? then q.value.offset else None }

    /** WHERE, HAVING, LIMIT and OFFSET: a keyword and an expression, or nothing. */
    method ParseOptional(ghost j: nat, k: Kind, ghost e: Option<Expr>, ghost want: Option<Select>, ghost end: nat)
      returns (r: Result<Option<Expr>>)
      requires Valid() && j < 8 && ClausesOf(j, want, end) && ClauseRank(k) == j + 1 && k != TOKEN_EOF
      requires want.Some? ==> PrintableOpt(e, sp) && Clause(j, want.value, sp) == PrintOpt(k, e, sp)
      modifies this`pos
      ensures Valid() && old(pos) <= pos && ClausesOf(j + 1, want, end)
      ensures want.Some? ==> r == Ok(e)
      decreases Remaining(), 27, 0
    {
      ghost var n := 0;
      if want.Some? {
        n := ClauseNext(tokens, pos, end, j, want.value, sp);
        RanksApart(KindAt(tokens, n));
        OptNext(tokens, pos, n, k, e, sp);
      }
      r := ParseOpt(k, e, want.Some?, n);
    }

    method ParseOpt(k: Kind, ghost e: Option<Expr>, ghost wanted: bool, ghost n: nat) returns (r: Result<Option<Expr>>)
      requires Valid() && k != TOKEN_EOF && (wanted ==> OptAhead(tokens, pos, n, k, e, sp))
      modifies this`pos
      ensures Valid() && old(pos) <= pos && (wanted ==> r == Ok(e) && pos == n)
      decreases Remaining(), 26
    {
      if Peek().kind != k {
        return Ok(None);
      }
      var _ := Advance();
      var x := ParseExpr(if wanted then e else None, n);
      r := if x.Ok? then Ok(Some(x.value)) else Err(x.error);
    }

    /** FROM, its tables and its joins. */
    method ParseFrom(ghost want: Option<Select>, ghost end: nat) returns (r: Result<(seq<TableRef>, seq<Join>)>)
      requires Valid() && ClausesOf(0, want, end)
      modifies this`pos
      ensures Valid() && old(pos) <= pos && ClausesOf(1, want, end)
      ensures want.Some? ==> r == Ok((want.value.from, want.value.joins))
      decreases Remaining(), 27, 0
    {
      ghost var n, tables: Option<(seq<TableRef>, seq<Join>)> := 0, None;
      if want.Some? {
        n := FromClause(tokens, pos, end, want.value, sp);
        tables := Some((want.value.from, want.value.joins));
      }
      r := ParseTables(tables, n);
    }

    method ParseTables(ghost want: Option<(seq<TableRef>, seq<Join>)>, ghost n: nat)
      returns (r: Result<(seq<TableRef>, seq<Join>)>)
      requires Valid()
      requires want.Some? ==> FromAhead(tokens, pos, n, want.value.0, want.value.1, sp)
      modifies this`pos
      ensures Valid() && old(pos) <= pos && Got(want, n, r)
      decreases Remaining(), 26
    {
      ghost var m := 0;
      if want.Some? && want.value.0 != [] {
        m := FromNext(tokens, pos, n, want.value.0, want.value.1, sp);
      }
      if Peek().kind != KW_FROM {
        return Ok(([], []));
      }
      var _ := Advance();
      var refs := ParseTableRefs(if want.Some? then Some(want.value.0) else None, m);
      if refs.Err? {
        return Err(refs.error);
      }
      var joins := ParseJoins(if want.Some? then Some(want.value.1) else None, n);
      r := if joins.Ok? then Ok((refs.value, joins.value)) else Err(joins.error);
    }

    /** parseTableRefs: it stops short of a parenthesis. */
    method ParseTableRefs(ghost want: Option<seq<TableRef>>, ghost end: nat) returns (r: Result<seq<TableRef>>)
      requires Valid()
      requires want.Some? ==> want.value != [] && RefsAhead(tokens, pos, end, want.value, sp)
      modifies this`pos
      ensures Valid() && old(pos) <= pos && Got(want, end, r)
    {
      r := Ok([]);
      ghost var rest := want;
      NameFirst(rest, end);
      var more := true;
      while more && Peek().kind != TOKEN_LPAREN
        invariant Valid() && old(pos) <= pos && (more ==> r.Ok?)
        invariant if more then OnRefs(want, r, rest, end) && RefsGoOn(want, rest) else Got(want, end, r)
        decreases Remaining(), more
      {
        r, rest := ParseListedRef(r.value, rest, want, end);
        more := r.Ok? && Peek().kind == TOKEN_COMMA;
        if more {
          var _ := Advance();
          NameFirst(rest, end);
        }
      }
    }

    ghost predicate OnRefs(want: Option<seq<TableRef>>, r: Result<seq<TableRef>>, rest: Option<seq<TableRef>>, end: nat)
      reads this
    {
      && (want.Some? <==> rest.Some?)
      && (want.Some? ==> r.Ok? && r.value + rest.value == want.value && rest.value != []
                         && RefsAhead(tokens, pos, end, rest.value, sp))
    }

    ghost predicate RefsGoOn(want: Option<seq<TableRef>>, rest: Option<seq<TableRef>>)
      reads this
    {
      want.Some? ==> Peek().kind != TOKEN_LPAREN
    }

    lemma NameFirst(rest: Option<seq<TableRef>>, end: nat)
      requires rest.Some? ==> rest.value != [] && RefsAhead(tokens, pos, end, rest.value, sp)
      ensures rest.Some? ==> Peek().kind != TOKEN_LPAREN
    {
      if rest.Some? {
        var _ := RefsNext(tokens, pos, end, rest.value, sp);
      }
    }

    method ParseListedRef(list: seq<TableRef>, ghost ahead: Option<seq<TableRef>>, ghost want: Option<seq<TableRef>>,
                          ghost end: nat)
      returns (r: Result<seq<TableRef>>, ghost rest: Option<seq<TableRef>>)
      requires Valid() && OnRefs(want, Ok(list), ahead, end)
      modifies this`pos
      ensures Moved(old(pos), r) && (want.Some? <==> rest.Some?)
      ensures want.Some? ==>
                r.Ok? && if Peek().kind == TOKEN_COMMA
                         then r.value + rest.value == want.value && rest.value != []
                              && RefsAhead(tokens, pos + 1, end, rest.value, sp)
                         else r == Ok(want.value) && pos == end
    {
      ghost var n, t: Option<TableRef> := 0, None;
      rest := want;
      if want.Some? {
        n := RefsNext(tokens, pos, end, ahead.value, sp);
        HeadMoves(list, ahead.value, want.value);
        t, rest := Some(ahead.value[0]), Some(ahead.value[1..]);
      }
      var x := ParseTableRef(t, n);
      r := if x.Ok? then Ok(list + [x.value]) else Err(x.error);
    }

    /** A table name and its alias. */
    method ParseTableRef(ghost want: Option<TableRef>, ghost end: nat) returns (r: Result<TableRef>)
      requires Valid()
      requires want.Some? ==> RefAhead(tokens, pos, end, want.value)
      modifies this`pos
      ensures Moved(old(pos), r) && Got(want, end, r)
    {
      var name := ExpectIdent();
      if name.Err? {
        return Err(name.error);
      }
      var alias := ParseAlias(if want.Some? then Some(want.value.alias) else None, end);
      r := if alias.Ok? then Ok(TableRef(name.value, alias.value)) else Err(alias.error);
    }

    method ParseJoins(ghost want: Option<seq<Join>>, ghost end: nat) returns (r: Result<seq<Join>>)
      requires Valid()
      requires want.Some? ==> JoinsAhead(tokens, pos, end, want.value, sp)
      modifies this`pos
      ensures Valid() && old(pos) <= pos && Got(want, end, r)
      decreases Remaining(), 26
    {
      r := Ok([]);
      ghost var rest := want;
      while r.Ok? && IsJoinStart(Peek().kind)
        invariant Valid() && old(pos) <= pos && OnJoins(want, r, rest, end)
        decreases Remaining(), r.Ok?
      {
        r, rest := ParseListedJoin(r.value, rest, want, end);
      }
      if want.Some? {
        JoinsStop(tokens, pos, end, rest.value, sp);
        assert r.value + [] == r.value;
      }
    }

    ghost predicate OnJoins(want: Option<seq<Join>>, r: Result<seq<Join>>, rest: Option<seq<Join>>, end: nat)
      reads this
    {
      && (want.Some? <==> rest.Some?)
      && (want.Some? ==> r.Ok? && r.value + rest.value == want.value && JoinsAhead(tokens, pos, end, rest.value, sp))
    }

    method ParseListedJoin(list: seq<Join>, ghost ahead: Option<seq<Join>>, ghost want: Option<seq<Join>>,
                           ghost end: nat)
      returns (r: Result<seq<Join>>, ghost rest: Option<seq<Join>>)
      requires Valid() && OnJoins(want, Ok(list), ahead, end) && IsJoinStart(Peek().kind)
      modifies this`pos
      ensures Moved(old(pos), r) && OnJoins(want, r, rest, end)
      decreases Remaining(), 25
    {
      ghost var n, j: Option<Join> := 0, None;
      rest := want;
      if want.Some? {
        JoinsStop(tokens, pos, end, ahead.value, sp);
        n := JoinsNext(tokens, pos, end, ahead.value, sp);
        HeadMoves(list, ahead.value, want.value);
        j, rest := Some(ahead.value[0]), Some(ahead.value[1..]);
      }
      var x := ParseOneJoin(j, n);
      r := if x.Ok? then Ok(list + [x.value]) else Err(x.error);
    }

    method ParseOneJoin(ghost want: Option<Join>, ghost end: nat) returns (r: Result<Join>)
      requires Valid() && IsJoinStart(Peek().kind)
      requires want.Some? ==> JoinAhead(tokens, pos, end, want.value, sp)
      modifies this`pos
      ensures Moved(old(pos), r) && Got(want, end, r)
      decreases Remaining(), 24
    {
      ghost var p, a, b := 0, 0, 0;
      if want.Some? {
        p, a, b := JoinNext(tokens, pos, end, want.value, sp);
      }
      var how := ParseJoinKind(if want.Some? then Some(want.value.how) else None, p);
      if how.Err? {
        return Err(how.error);
      }
      var table := ParseTableRef(if want.Some? then Some(want.value.table) else None, a);
      if table.Err? {
        return Err(table.error);
      }
      r := ParseJoinCondition(how.value, table.value, want, b, end);
    }

    /** The words of a join, up to JOIN. */
    method ParseJoinKind(ghost want: Option<Kind>, ghost end: nat) returns (r: Result<Kind>)
      requires Valid() && IsJoinStart(Peek().kind)
      requires want.Some? ==> WordsAhead(tokens, pos, end, want.value)
      modifies this`pos
      ensures Moved(old(pos), r) && Got(want, end, r)
      ensures r.Ok? ==> WordsAhead(tokens, old(pos), pos, r.value)
    {
      var kind := Peek().kind;
      if kind != KW_JOIN {
        var _ := Advance();
      }
      if (kind == KW_LEFT || kind == KW_RIGHT || kind == KW_FULL) && Peek().kind == KW_OUTER {
        var _ := Advance();
      }
      var join := Expect(KW_JOIN);
      if join.Err? {
        return Err(join.error);
      }
      r := Ok(if kind == KW_JOIN then KW_INNER else kind);
    }

    /** ON a condition, USING columns, or neither. */
    method ParseJoinCondition(how: Kind, table: TableRef, ghost want: Option<Join>, ghost b: nat, ghost end: nat)
      returns (r: Result<Join>)
      requires Valid()
      requires want.Some? ==>
                 && want.value.how == how && want.value.table == table
                 && OptAhead(tokens, pos, b, KW_ON, want.value.on, sp)
                 && UsingAhead(tokens, b, end, want.value.using, sp)
                 && (want.value.on.Some? ==> want.value.using == [])
      modifies this`pos
      ensures Valid() && old(pos) <= pos && Got(want, end, r)
      decreases Remaining(), 23
    {
      if Peek().kind == KW_ON {
        var _ := Advance();
        var on := ParseExpr(if want.Some? then want.value.on else None, b);
        r := if on.Ok? then Ok(Join(how, table, Some(on.value), [])) else Err(on.error);
      } else if Peek().kind == KW_USING {
        var names := ParseUsing(if want.Some? then Some(want.value.using) else None, end);
        r := if names.Ok? then Ok(Join(how, table, None, names.value)) else Err(names.error);
      } else {
        r := Ok(Join(how, table, None, []));
      }
    }

    method ParseUsing(ghost want: Option<seq<string>>, ghost end: nat) returns (r: Result<seq<string>>)
      requires Valid() && Peek().kind == KW_USING
      requires want.Some? ==> UsingAhead(tokens, pos, end, want.value, sp)
      modifies this`pos
      ensures Valid() && old(pos) <= pos && Got(want, end, r)
    {
      var _ := Advance();
      var open := Expect(TOKEN_LPAREN);
      if open.Err? {
        return Err(open.error);
      }
      ghost var last: nat := if want.Some? then end - 1 else 0;
      ghost var rest := want;
      r := Ok([]);
      var more := true;
      while more
        invariant Valid() && old(pos) <= pos && (more ==> r.Ok?)
        invariant if more then OnNames(want, r, rest, last) else want.Some? ==> r == Ok(want.value) && pos == last + 1
        decreases Remaining(), more
      {
        r, rest, more := ParseUsingName(r.value, rest, want, last);
      }
    }

    /** A column of USING, and the comma or parenthesis behind it. */
    method ParseUsingName(list: seq<string>, ghost ahead: Option<seq<string>>, ghost want: Option<seq<string>>,
                          ghost last: nat)
      returns (r: Result<seq<string>>, ghost rest: Option<seq<string>>, more: bool)
      requires Valid() && OnNames(want, Ok(list), ahead, last)
      modifies this`pos
      ensures Valid() && old(pos) <= pos && (more ==> r.Ok? && old(pos) < pos)
      ensures if more then OnNames(want, r, rest, last) else want.Some? ==> r == Ok(want.value) && pos == last + 1
    {
      rest, more := ahead, false;
      if want.Some? {
        NamesNext(tokens, pos, last, ahead.value, sp);
        HeadMoves(list, ahead.value, want.value);
        rest := Some(ahead.value[1..]);
      }
      var name := ExpectIdent();
      if name.Err? {
        return Err(name.error), rest, false;
      }
      r := Ok(list + [name.value]);
      if Peek().kind == TOKEN_RPAREN {
        var _ := Advance();
        return;
      }
      var comma := Expect(TOKEN_COMMA);
      if comma.Err? {
        return Err(comma.error), rest, false;
      }
      more := true;
    }

    ghost predicate OnNames(want: Option<seq<string>>, r: Result<seq<string>>, rest: Option<seq<string>>, last: nat)
      reads this
    {
      && (want.Some? <==> rest.Some?)
      && (want.Some? ==>
            r.Ok? && r.value + rest.value == want.value && rest.value != []
            && NamesAhead(tokens, pos, last, rest.value, sp))
    }

    method ParseGroupBy(ghost want: Option<Select>, ghost end: nat) returns (r: Result<seq<Expr>>)
      requires Valid() && ClausesOf(2, want, end)
      modifies this`pos
      ensures Valid() && old(pos) <= pos && ClausesOf(3, want, end)
      ensures want.Some? ==> r == Ok(want.value.groupBy)
      decreases Remaining(), 27, 0
    {
      ghost var n, list: Option<seq<Expr>> := 0, None;
      if want.Some? {
        n := ClauseNext(tokens, pos, end, 2, want.value, sp);
        list := Some(want.value.groupBy);
        GroupByNext(tokens, pos, n, want.value.groupBy, sp);
      }
      r := ParseGroupList(list, n);
    }

    method ParseGroupList(ghost want: Option<seq<Expr>>, ghost end: nat) returns (r: Result<seq<Expr>>)
      requires Valid() && (want.Some? ==> GroupByAhead(tokens, pos, end, want.value, sp))
      modifies this`pos
      ensures Valid() && old(pos) <= pos && Got(want, end, r)
      decreases Remaining(), 26
    {
      if Peek().kind != KW_GROUP {
        return Ok([]);
      }
      var _ := Advance();
      var byToken := Expect(KW_BY);
      if byToken.Err? {
        return Err(byToken.error);
      }
      r := ParseItems(want, end);
    }

    /** An expression, and more behind commas. */
    method ParseItems(ghost want: Option<seq<Expr>>, ghost end: nat) returns (r: Result<seq<Expr>>)
      requires Valid() && OnList(want, Ok([]), want, end) && (want.Some? ==> want.value != [])
      modifies this`pos
      ensures Valid() && old(pos) <= pos && Got(want, end, r)
      decreases Remaining(), 25
    {
      ghost var rest;
      r, rest := ParseItem([], want, want, end);
      if r.Ok? {
        r := ParseMoreItems(r.value, rest, want, end);
      }
    }

    /** UNION, INTERSECT or EXCEPT, and the whole of what follows as the right side. */
    method ParseCompound(ghost want: Option<Select>, ghost end: nat) returns (r: Result<Option<Compound>>)
      requires Valid() && ClausesOf(4, want, end)
      modifies this`pos
      ensures Valid() && old(pos) <= pos && ClausesOf(5, want, end)
      ensures want.Some? ==> r == Ok(want.value.compound)
      decreases Remaining(), 27, 0
    {
      ghost var n, c: Option<Compound> := 0, None;
      if want.Some? {
        n := ClauseNext(tokens, pos, end, 4, want.value, sp);
        c := want.value.compound;
        CompoundLast(tokens, pos, n, end, want.value, sp);
      }
      r := ParseCompoundSelect(c, want.Some?, n);
    }

    method ParseCompoundSelect(ghost want: Option<Compound>, ghost wanted: bool, ghost end: nat)
      returns (r: Result<Option<Compound>>)
      requires Valid() && (wanted ==> CompoundAhead(tokens, pos, end, want, sp))
      modifies this`pos
      ensures Valid() && old(pos) <= pos && (wanted ==> r == Ok(want) && pos == end)
      decreases Remaining(), 26
    {
      var kind := Peek().kind;
      if kind != KW_UNION && kind != KW_INTERSECT && kind != KW_EXCEPT {
        return Ok(None);
      }
      var op := Advance();
      var all := Peek().kind == KW_ALL;
      if all {
        var _ := Advance();
      }
      var right := ParseSelect(if wanted then Some(want.value.right) else None, end);
      r := if right.Ok? then Ok(Some(Compound(op.kind, all, right.value))) else Err(right.error);
    }

    method ParseOrderBy(ghost want: Option<Select>, ghost end: nat) returns (r: Result<seq<Ordering>>)
      requires Valid() && ClausesOf(5, want, end)
      modifies this`pos
      ensures Valid() && old(pos) <= pos && ClausesOf(6, want, end)
      ensures want.Some? ==> r == Ok(want.value.orderBy)
      decreases Remaining(), 27, 0
    {
      ghost var n, list: Option<seq<Ordering>> := 0, None;
      if want.Some? {
        n := ClauseNext(tokens, pos, end, 5, want.value, sp);
        list := Some(want.value.orderBy);
        OrderByNext(tokens, pos, n, want.value.orderBy, sp);
      }
      r := ParseOrderings(list, n);
    }

    method ParseOrderings(ghost want: Option<seq<Ordering>>, ghost end: nat) returns (r: Result<seq<Ordering>>)
      requires Valid() && (want.Some? ==> OrderByAhead(tokens, pos, end, want.value, sp))
      modifies this`pos
      ensures Valid() && old(pos) <= pos && Got(want, end, r)
      decreases Remaining(), 26
    {
      if Peek().kind != KW_ORDER {
        return Ok([]);
      }
      var _ := Advance();
      var byToken := Expect(KW_BY);
      if byToken.Err? {
        return Err(byToken.error);
      }
      r := Ok([]);
      ghost var rest := want;
      var more := true;
      while more
        invariant Valid() && old(pos) <= pos && (more ==> r.Ok?)
        invariant if more then OnOrderings(want, r, rest, end) else Got(want, end, r)
        decreases Remaining(), more
      {
        r, rest := ParseListedOrdering(r.value, rest, want, end);
        more := r.Ok? && Peek().kind == TOKEN_COMMA;
        if more {
          var _ := Advance();
        }
      }
    }

    ghost predicate OnOrderings(want: Option<seq<Ordering>>, r: Result<seq<Ordering>>, rest: Option<seq<Ordering>>,
                                end: nat)
      reads this
    {
      && (want.Some? <==> rest.Some?)
      && (want.Some? ==> r.Ok? && r.value + rest.value == want.value && rest.value != []
                         && OrderingsAhead(tokens, pos, end, rest.value, sp))
    }

    method ParseListedOrdering(list: seq<Ordering>, ghost ahead: Option<seq<Ordering>>,
                               ghost want: Option<seq<Ordering>>, ghost end: nat)
      returns (r: Result<seq<Ordering>>, ghost rest: Option<seq<Ordering>>)
      requires Valid() && OnOrderings(want, Ok(list), ahead, end)
      modifies this`pos
      ensures Moved(old(pos), r) && (want.Some? <==> rest.Some?)
      ensures want.Some? ==>
                r.Ok? && if Peek().kind == TOKEN_COMMA
                         then r.value + rest.value == want.value && rest.value != []
                              && OrderingsAhead(tokens, pos + 1, end, rest.value, sp)
                         else r == Ok(want.value) && pos == end
      decreases Remaining(), 25
    {
      ghost var n, o: Option<Ordering> := 0, None;
      rest := want;
      if want.Some? {
        n := OrderingsNext(tokens, pos, end, ahead.value, sp);
        HeadMoves(list, ahead.value, want.value);
        o, rest := Some(ahead.value[0]), Some(ahead.value[1..]);
      }
      var x := ParseOneOrdering(o, n);
      r := if x.Ok? then Ok(list + [x.value]) else Err(x.error);
    }

    /** An expression and its direction. */
    method ParseOneOrdering(ghost want: Option<Ordering>, ghost end: nat) returns (r: Result<Ordering>)
      requires Valid() && (want.Some? ==> OrderingItem(tokens, pos, end, want.value, sp))
      modifies this`pos
      ensures Moved(old(pos), r) && Got(want, end, r)
      decreases Remaining(), 24
    {
      ghost var m := 0;
      if want.Some? {
        m := OrderingNext(tokens, pos, end, want.value, sp);
      }
      var x := ParseExpr(if want.Some? then Some(want.value.expr) else None, m);
      if x.Err? {
        return Err(x.error);
      }
      var desc, nulls := ParseDirection(want, end);
      r := Ok(Ordering(x.value, desc, nulls));
    }

    /** ASC or DESC, and where NULLs go. */
    method ParseDirection(ghost want: Option<Ordering>, ghost end: nat) returns (desc: bool, nulls: NullsOrder)
      requires Valid()
      requires want.Some? ==> DirectionAhead(tokens, pos, end, want.value.desc, want.value.nulls)
      modifies this`pos
      ensures Valid() && old(pos) <= pos
      ensures desc <==> old(Peek()).kind == KW_DESC
      ensures var p := if old(Peek()).kind in {KW_ASC, KW_DESC} then old(pos) + 1 else old(pos);
              if KindAt(tokens, p) != KW_NULLS then nulls == NullsDefault && pos == p
              else if KindAt(tokens, p + 1) == KW_FIRST then nulls == NullsFirst && pos == p + 2
              else if KindAt(tokens, p + 1) == KW_LAST then nulls == NullsLast && pos == p + 2
              else nulls == NullsDefault && pos == p + 1
      ensures want.Some? ==> desc == want.value.desc && nulls == want.value.nulls && pos == end
    {
      desc := Peek().kind == KW_DESC;
      if desc || Peek().kind == KW_ASC {
        var _ := Advance();
      }
      nulls := NullsDefault;
      if Peek().kind == KW_NULLS {
        var _ := Advance();
        if Peek().kind == KW_FIRST {
          var _ := Advance();
          nulls := NullsFirst;
        } else if Peek().kind == KW_LAST {
          var _ := Advance();
          nulls := NullsLast;
        }
      }
    }
  }

  /** Wherever the printed form of a tree stands in front of a token that ends an expression,
      whatever the text of its keywords and operators, parsing from there gives that tree back and
      stops exactly behind it. */
  method ParsePrintedExpr(ts: seq<Token>, ghost e: Expr, sp: Spelling) returns (r: Result<Expr>, stopped: nat)
    requires PrintableAt(0, e, sp) && Spells(ts, 0, Print(0, e, sp)) && Stops(0, KindAt(ts, |Print(0, e, sp)|))
    ensures r == Ok(e) && stopped == |Print(0, e, sp)|
  {
    var parser := new Parser(ts, sp);
    r := parser.ParseExpr(Some(e), |Print(0, e, sp)|);
    stopped := parser.pos;
  }

  /** The same for a whole SELECT. */
  method ParsePrintedSelect(ts: seq<Token>, ghost q: Select, sp: Spelling) returns (r: Result<Select>, stopped: nat)
    requires PrintableSelect(q, sp) && Spells(ts, 0, PrintSelect(q, sp))
             && EndsAfter(q, KindAt(ts, |PrintSelect(q, sp)|))
    ensures r == Ok(q) && stopped == |PrintSelect(q, sp)|
  {
    var parser := new Parser(ts, sp);
    r := parser.ParseSelect(Some(q), |PrintSelect(q, sp)|);
    stopped := parser.pos;
  }
}
