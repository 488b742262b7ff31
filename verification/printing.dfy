/** Facts about printed expressions that the parser relies on: which token comes first, and how a
    left-associative chain lies in the token list. */
module Printing {
  import opened Wrappers
  import opened Syntax

  // ----- Printed tokens inside a token list -----

  /** The token t is printed as s. */
  predicate Same(t: Token, s: Symbol) {
    t.kind == s.kind && (s.Lexeme? ==> t.text == s.text)
  }

  predicate Spells(ts: seq<Token>, i: nat, s: seq<Symbol>) {
    i + |s| <= |ts| && forall j {:trigger s[j]} :: 0 <= j < |s| ==> Same(ts[i + j], s[j])
  }

  /** The type of the token at i; the parser sees EOF past the end. */
  function KindAt(ts: seq<Token>, i: nat): Kind {
    if i < |ts| then ts[i].kind else TOKEN_EOF
  }

  lemma SpellsBoth(ts: seq<Token>, i: nat, a: seq<Symbol>, b: seq<Symbol>)
    requires Spells(ts, i, a + b)
    ensures Spells(ts, i, a) && Spells(ts, i + |a|, b)
  {
    assert forall j :: 0 <= j < |a| ==> a[j] == (a + b)[j];
    assert forall j :: 0 <= j < |b| ==> b[j] == (a + b)[|a| + j];
  }

  lemma SpellsFirst(ts: seq<Token>, i: nat, t: Symbol, b: seq<Symbol>)
    requires Spells(ts, i, [t] + b)
    ensures i < |ts| && Same(ts[i], t) && KindAt(ts, i) == t.kind && Spells(ts, i + 1, b)
  {
    SpellsBoth(ts, i, [t], b);
    assert [t][0] == t;
  }

  lemma SpellsKind(ts: seq<Token>, i: nat, s: seq<Symbol>)
    requires Spells(ts, i, s) && s != []
    ensures KindAt(ts, i) == FirstKind(s) && i < |ts| && Same(ts[i], s[0])
  {
    assert Same(ts[i + 0], s[0]);
  }

  /** e is printed from i to end as an operand of level k, and what follows ends level k. */
  ghost predicate Printed(ts: seq<Token>, i: nat, end: nat, k: nat, e: Expr, sp: Spelling) {
    PrintableAt(k, e, sp) && Spells(ts, i, Print(k, e, sp)) && end == i + |Print(k, e, sp)|
    && Stops(k, KindAt(ts, end))
  }

  // ----- First tokens -----

  /** The tokens a printed expression can begin with. */
  predicate Starts(k: Kind) {
    k in {TOKEN_NUMBER, TOKEN_STRING, KW_NULL, TOKEN_LPAREN, TOKEN_IDENT, TOKEN_STAR, TOKEN_MINUS, TOKEN_TILDE,
          KW_NOT, KW_CASE, KW_CAST, KW_EXISTS, KW_TRUE, KW_FALSE, KW_COUNT, KW_SUM, KW_AVG, KW_MIN, KW_MAX, KW_REPLACE,
          KW_IGNORE, KW_ROWID}
  }

  /** An operand never begins with a token that its level's function would take for an operator
      of its own. */
  lemma {:induction false} PrintStarts(k: nat, e: Expr, sp: Spelling)
    requires Printable(e, sp)
    ensures Print(k, e, sp) != [] && Starts(FirstKind(Print(k, e, sp)))
    ensures k >= COMPARISON && Loose(e) ==> FirstKind(Print(k, e, sp)) != KW_NOT
    ensures k >= POSTFIX ==> FirstKind(Print(k, e, sp)) != TOKEN_MINUS && FirstKind(Print(k, e, sp)) != TOKEN_TILDE
    decreases e, sp
  {
    if Level(e, sp) < k {
    } else if LeftRecursive(e) {
      PrintStarts(Level(e, sp), Left(e), sp);
      assert Body(e, sp)[0] == Print(Level(e, sp), Left(e), sp)[0];
    } else {
      PrefixStarts(e, sp);
    }
  }

  lemma PrefixStarts(e: Expr, sp: Spelling)
    requires Printable(e, sp) && !LeftRecursive(e)
    ensures Prefix(e, sp) != [] && Starts(FirstKind(Prefix(e, sp)))
    ensures FirstKind(Prefix(e, sp)) == KW_NOT && Loose(e) ==> Level(e, sp) == NOT_LEVEL
    ensures FirstKind(Prefix(e, sp)) == TOKEN_MINUS || FirstKind(Prefix(e, sp)) == TOKEN_TILDE ==> Level(e, sp) == UNARY
  {
    match e
    case Exists(q, n) => assert Prefix(e, sp)[0] == Word(if n then KW_NOT else KW_EXISTS);
    case Ident(table, name) =>
      assert Prefix(e, sp)[0].kind == ColumnKind(if |table| == 0 then name else table, sp);
    case _ =>
  }

  lemma OpContinues(op: Kind)
    requires IsBinary(op)
    ensures Continues(op) == OpLevel(op) && op != KW_MATCH && (IsLoopLevel(OpLevel(op)) || OpLevel(op) == COMPARISON)
  {
  }

  lemma TestStarts(e: Expr, sp: Spelling)
    requires LeftRecursive(e) && !e.Binary? && !e.IsNull?
    ensures Test(e, sp) != []
    ensures Test(e, sp)[0] == Word(if e.Like? then KW_LIKE else if e.Glob? then KW_GLOB
                                     else if e.Between? then KW_BETWEEN else KW_IN)
  {
  }

  lemma TailFirst(e: Expr, sp: Spelling)
    requires LeftRecursive(e)
    ensures Tail(e, sp) != []
    ensures FirstKind(Tail(e, sp)) == (if e.IsNull? || WithIs(e, sp) then KW_IS else if e.Binary? then e.op
                                   else if e.isNot then KW_NOT else Test(e, sp)[0].kind)
  {
    if !e.Binary? && !e.IsNull? {
      TestStarts(e, sp);
    }
  }

  /** The first token after a left operand belongs to the level of the whole. */
  lemma TailStarts(e: Expr, sp: Spelling)
    requires Printable(e, sp) && LeftRecursive(e)
    ensures Tail(e, sp) != [] && Continues(FirstKind(Tail(e, sp))) == Level(e, sp)
            && FirstKind(Tail(e, sp)) != KW_MATCH
  {
    TailFirst(e, sp);
    if WithIs(e, sp) {
    } else if e.Binary? {
      OpContinues(e.op);
    } else if !e.IsNull? {
      TestStarts(e, sp);
    }
  }

  // ----- Chains of operators -----

  /** The operand a chain of level k begins with. */
  function Base(k: nat, e: Expr, sp: Spelling): Expr {
    if LeftRecursive(e) && Level(e, sp) == k then Base(k, Left(e), sp) else e
  }

  /** The expressions that applying each operator of the chain in turn gives, the last being e. */
  function Spine(k: nat, e: Expr, sp: Spelling): seq<Expr> {
    if LeftRecursive(e) && Level(e, sp) == k then Spine(k, Left(e), sp) + [e] else []
  }

  function Tails(rest: seq<Expr>, sp: Spelling): seq<Symbol>
    requires forall i :: 0 <= i < |rest| ==> LeftRecursive(rest[i])
    decreases rest, sp
  {
    if rest == [] then [] else Tail(rest[0], sp) + Tails(rest[1..], sp)
  }

  /** From left on, each expression of rest is the left operand of the next; the last is whole. */
  ghost predicate Chain(k: nat, left: Expr, rest: seq<Expr>, whole: Expr, sp: Spelling)
    decreases rest, sp
  {
    if rest == [] then left == whole
    else Link(k, left, rest[0], sp) && Chain(k, rest[0], rest[1..], whole, sp)
  }

  ghost predicate Link(k: nat, left: Expr, e: Expr, sp: Spelling) {
    LeftRecursive(e) && Level(e, sp) == k && Left(e) == left && Printable(e, sp)
  }

  lemma {:induction false} ChainEnd(k: nat, left: Expr, rest: seq<Expr>, mid: Expr, e: Expr, sp: Spelling)
    requires Chain(k, left, rest, mid, sp) && Link(k, mid, e, sp)
    ensures Chain(k, left, rest + [e], e, sp)
    decreases rest, sp
  {
    if rest == [] {
      assert [e][1..] == [];
      assert Chain(k, e, [], e, sp);
    } else {
      ChainEnd(k, rest[0], rest[1..], mid, e, sp);
      assert (rest + [e])[1..] == rest[1..] + [e];
    }
  }

  lemma {:induction false} TailsEnd(rest: seq<Expr>, e: Expr, sp: Spelling)
    requires LeftRecursive(e) && forall i :: 0 <= i < |rest| ==> LeftRecursive(rest[i])
    ensures Tails(rest + [e], sp) == Tails(rest, sp) + Tail(e, sp)
    decreases rest, sp
  {
    if rest == [] {
      assert [e][1..] == [];
    } else {
      TailsEnd(rest[1..], e, sp);
      assert (rest + [e])[1..] == rest[1..] + [e];
      Associate(Tail(rest[0], sp), Tails(rest[1..], sp), Tail(e, sp));
    }
  }

  lemma Associate(a: seq<Symbol>, b: seq<Symbol>, c: seq<Symbol>)
    ensures a + (b + c) == a + b + c
  {
  }

  lemma ChainGrows(k: nat, base: Expr, spine: seq<Expr>, e: Expr, sp: Spelling)
    requires LeftRecursive(e) && Link(k, Left(e), e, sp) && Chain(k, base, spine, Left(e), sp)
    requires forall i :: 0 <= i < |spine| ==> LeftRecursive(spine[i])
    requires PrintableAt(k + 1, base, sp) && PrintableAt(k, Left(e), sp)
    requires Print(k, Left(e), sp) == Print(k + 1, base, sp) + Tails(spine, sp)
    ensures Chain(k, base, spine + [e], e, sp)
    ensures forall i :: 0 <= i < |spine + [e]| ==> LeftRecursive((spine + [e])[i])
    ensures Print(k, Left(e), sp) + Tail(e, sp) == Print(k + 1, base, sp) + Tails(spine + [e], sp)
  {
    ChainEnd(k, base, spine, Left(e), e, sp);
    TailsEnd(spine, e, sp);
    Associate(Print(k + 1, base, sp), Tails(spine, sp), Tail(e, sp));
  }

  /** An expression of level k prints as its base, then the tails of its chain. */
  lemma {:induction false} ChainTokens(k: nat, e: Expr, sp: Spelling)
    requires PrintableAt(k, e, sp) && (IsLoopLevel(k) || k == COMPARISON || k == POSTFIX)
    ensures PrintableAt(k + 1, Base(k, e, sp), sp) && Chain(k, Base(k, e, sp), Spine(k, e, sp), e, sp)
    ensures forall i :: 0 <= i < |Spine(k, e, sp)| ==> LeftRecursive(Spine(k, e, sp)[i])
    ensures Print(k, e, sp) == Print(k + 1, Base(k, e, sp), sp) + Tails(Spine(k, e, sp), sp)
    decreases e, sp
  {
    if LeftRecursive(e) && Level(e, sp) == k {
      ChainTokens(k, Left(e), sp);
      ChainGrows(k, Base(k, Left(e), sp), Spine(k, Left(e), sp), e, sp);
    } else {
      assert Level(e, sp) != k;
      assert Tails([], sp) == [];
    }
  }

  /** A parser at i has read left, and the rest of the chain lies ahead, up to a token that ends
      level k. */
  ghost predicate Awaits(ts: seq<Token>, i: nat, end: nat, k: nat, left: Expr, rest: seq<Expr>, whole: Expr,
                         sp: Spelling) {
    && Chain(k, left, rest, whole, sp)
    && (forall j :: 0 <= j < |rest| ==> LeftRecursive(rest[j]))
    && Spells(ts, i, Tails(rest, sp)) && end == i + |Tails(rest, sp)|
    && Stops(k, KindAt(ts, end))
  }

  /** Where the chain begins: its base is printed at i. */
  lemma ChainAhead(ts: seq<Token>, i: nat, end: nat, k: nat, e: Expr, sp: Spelling)
    returns (base: Expr, mid: nat, rest: seq<Expr>)
    requires (IsLoopLevel(k) || k == COMPARISON || k == POSTFIX) && Printed(ts, i, end, k, e, sp)
    ensures Printed(ts, i, mid, k + 1, base, sp)
    ensures Awaits(ts, mid, end, k, base, rest, e, sp)
  {
    ChainTokens(k, e, sp);
    base, rest := Base(k, e, sp), Spine(k, e, sp);
    mid := i + |Print(k + 1, base, sp)|;
    ChainSplit(ts, i, mid, end, k, e, base, rest, Print(k + 1, base, sp), Tails(rest, sp), sp);
    AwaitsStop(ts, mid, end, k, base, rest, e, sp);
  }

  lemma ChainSplit(ts: seq<Token>, i: nat, mid: nat, end: nat, k: nat, e: Expr, b: Expr, rest: seq<Expr>,
                   head: seq<Symbol>, tails: seq<Symbol>, sp: Spelling)
    requires Chain(k, b, rest, e, sp) && forall j :: 0 <= j < |rest| ==> LeftRecursive(rest[j])
    requires tails == Tails(rest, sp) && Spells(ts, i, head + tails)
    requires mid == i + |head| && end == mid + |tails| && Stops(k, KindAt(ts, end))
    ensures Spells(ts, i, head) && Awaits(ts, mid, end, k, b, rest, e, sp)
  {
    SpellsBoth(ts, i, head, tails);
  }

  /** Whatever is left of the chain, the next token ends level k + 1. */
  lemma AwaitsStop(ts: seq<Token>, i: nat, end: nat, k: nat, left: Expr, rest: seq<Expr>, whole: Expr, sp: Spelling)
    requires Awaits(ts, i, end, k, left, rest, whole, sp)
    ensures Stops(k + 1, KindAt(ts, i)) && (k == COMPARISON ==> KindAt(ts, i) != KW_MATCH)
    ensures rest != [] <==> Continues(KindAt(ts, i)) == k
  {
    if rest != [] {
      TailStarts(rest[0], sp);
      SpellsBoth(ts, i, Tail(rest[0], sp), Tails(rest[1..], sp));
      SpellsKind(ts, i, Tail(rest[0], sp));
    }
  }

  /** One operator of the chain: its tail runs from i to n. */
  lemma AwaitsNext(ts: seq<Token>, i: nat, end: nat, k: nat, left: Expr, rest: seq<Expr>, whole: Expr, sp: Spelling)
    returns (n: nat)
    requires Awaits(ts, i, end, k, left, rest, whole, sp) && rest != []
    ensures Link(k, left, rest[0], sp)
    ensures TailAhead(ts, i, n, rest[0], sp) && Stops(k + 1, KindAt(ts, n))
            && (k == COMPARISON ==> KindAt(ts, n) != KW_MATCH)
    ensures Awaits(ts, n, end, k, rest[0], rest[1..], whole, sp)
  {
    n := i + |Tail(rest[0], sp)|;
    AwaitsSplit(ts, i, n, end, k, left, rest[0], rest[1..], whole, Tail(rest[0], sp), Tails(rest[1..], sp), sp);
    AwaitsStop(ts, n, end, k, rest[0], rest[1..], whole, sp);
  }

  /** What follows e's left operand runs from i to n. */
  ghost predicate TailAhead(ts: seq<Token>, i: nat, n: nat, e: Expr, sp: Spelling)
    requires LeftRecursive(e)
  {
    Spells(ts, i, Tail(e, sp)) && n == i + |Tail(e, sp)|
  }

  lemma AwaitsSplit(ts: seq<Token>, i: nat, n: nat, end: nat, k: nat, left: Expr, e: Expr, more: seq<Expr>, whole: Expr,
                    tail: seq<Symbol>, tails: seq<Symbol>, sp: Spelling)
    requires Chain(k, e, more, whole, sp) && forall j :: 0 <= j < |more| ==> LeftRecursive(more[j])
    requires tails == Tails(more, sp) && Spells(ts, i, tail + tails) && n == i + |tail| && end == n + |tails|
    requires Stops(k, KindAt(ts, end))
    ensures Spells(ts, i, tail) && Awaits(ts, n, end, k, e, more, whole, sp)
  {
    SpellsBoth(ts, i, tail, tails);
  }

  /** An operator and its right operand. */
  lemma BinaryTail(ts: seq<Token>, i: nat, n: nat, e: Expr, sp: Spelling)
    requires e.Binary? && !WithIs(e, sp) && Printable(e, sp) && TailAhead(ts, i, n, e, sp)
             && Stops(Level(e, sp) + 1, KindAt(ts, n))
    ensures i < |ts| && KindAt(ts, i) == e.op && Printed(ts, i + 1, n, Level(e, sp) + 1, e.right, sp)
  {
    SpellsFirst(ts, i, Word(e.op), Print(Level(e, sp) + 1, e.right, sp));
  }

  lemma PrintPrefix(k: nat, e: Expr, sp: Spelling)
    requires !LeftRecursive(e) && Level(e, sp) >= k
    ensures Print(k, e, sp) == Prefix(e, sp)
  {
  }

  lemma NotAhead(ts: seq<Token>, i: nat, end: nat, e: Expr, sp: Spelling)
    requires Printed(ts, i, end, NOT_LEVEL, e, sp)
    ensures if Level(e, sp) == NOT_LEVEL
            then e.Unary? && e.op == KW_NOT && KindAt(ts, i) == KW_NOT
                 && Printed(ts, i + 1, end, COMPARISON, e.operand, sp)
            else KindAt(ts, i) != KW_NOT && Printed(ts, i, end, COMPARISON, e, sp)
  {
    if Level(e, sp) == NOT_LEVEL {
      NoBinaryThere(e, sp);
      PrintPrefix(NOT_LEVEL, e, sp);
      SpellsFirst(ts, i, Word(KW_NOT), Print(COMPARISON, e.operand, sp));
    } else {
      PrintStarts(COMPARISON, e, sp);
      SpellsKind(ts, i, Print(COMPARISON, e, sp));
    }
  }

  lemma NoBinaryThere(e: Expr, sp: Spelling)
    requires Level(e, sp) == NOT_LEVEL || Level(e, sp) == UNARY
    ensures e.Unary?
  {
  }

  lemma UnaryAhead(ts: seq<Token>, i: nat, end: nat, e: Expr, sp: Spelling)
    requires Printed(ts, i, end, UNARY, e, sp)
    ensures if Level(e, sp) == UNARY
            then e.Unary? && (e.op == TOKEN_MINUS || e.op == TOKEN_TILDE) && KindAt(ts, i) == e.op
                 && Printed(ts, i + 1, end, POSTFIX, e.operand, sp)
            else KindAt(ts, i) !in {TOKEN_MINUS, TOKEN_TILDE, TOKEN_PLUS} && Printed(ts, i, end, POSTFIX, e, sp)
  {
    if Level(e, sp) == UNARY {
      NoBinaryThere(e, sp);
      PrintPrefix(UNARY, e, sp);
      SpellsFirst(ts, i, Word(e.op), Print(POSTFIX, e.operand, sp));
    } else {
      PrintStarts(POSTFIX, e, sp);
      SpellsKind(ts, i, Print(POSTFIX, e, sp));
    }
  }

  /** The first item of a list, and the others behind a comma. */
  lemma ItemAndMore(ts: seq<Token>, i: nat, n: nat, end: nat, item: seq<Symbol>, more: seq<Symbol>, rest: seq<Symbol>)
    requires Spells(ts, i, item + more) && n == i + |item| && end == n + |more|
    requires more == [] || more == [Word(TOKEN_COMMA)] + rest
    ensures Spells(ts, i, item)
    ensures if more == [] then n == end
            else KindAt(ts, n) == TOKEN_COMMA && Spells(ts, n + 1, rest) && end == n + 1 + |rest|
  {
    SpellsBoth(ts, i, item, more);
    if more != [] {
      SpellsFirst(ts, n, Word(TOKEN_COMMA), rest);
    }
  }

  /** A list is printed from i to end, where neither a comma nor an operator follows. */
  ghost predicate ListAhead(ts: seq<Token>, i: nat, end: nat, list: seq<Expr>, sp: Spelling) {
    && PrintableList(list, sp) && Spells(ts, i, PrintList(list, sp)) && end == i + |PrintList(list, sp)|
    && Stops(0, KindAt(ts, end)) && KindAt(ts, end) != TOKEN_COMMA
  }

  lemma ListNext(ts: seq<Token>, i: nat, end: nat, list: seq<Expr>, sp: Spelling) returns (n: nat)
    requires ListAhead(ts, i, end, list, sp) && list != []
    ensures Printed(ts, i, n, 0, list[0], sp) && Starts(KindAt(ts, i))
    ensures if |list| == 1 then n == end else KindAt(ts, n) == TOKEN_COMMA && ListAhead(ts, n + 1, end, list[1..], sp)
  {
    var e, rest := list[0], list[1..];
    assert PrintableList(rest, sp) && Printable(e, sp);
    n := i + |Print(0, e, sp)|;
    MoreIsList(rest, sp);
    ItemAndMore(ts, i, n, end, Print(0, e, sp), PrintMore(rest, sp), PrintList(rest, sp));
    PrintStarts(0, e, sp);
    SpellsKind(ts, i, Print(0, e, sp));
  }

  lemma MoreIsList(list: seq<Expr>, sp: Spelling)
    ensures PrintMore(list, sp) == if list == [] then [] else [Word(TOKEN_COMMA)] + PrintList(list, sp)
  {
  }

  // ----- The operators that are not infix -----

  lemma IsNullTail(ts: seq<Token>, i: nat, n: nat, e: Expr, sp: Spelling)
    requires e.IsNull? && TailAhead(ts, i, n, e, sp)
    ensures KindAt(ts, i) == KW_IS
    ensures if e.isNot then KindAt(ts, i + 1) == KW_NOT && KindAt(ts, i + 2) == KW_NULL && n == i + 3
            else KindAt(ts, i + 1) == KW_NULL && n == i + 2
    ensures n <= |ts|
  {
    var rest := Words(e.isNot, KW_NOT) + [Word(KW_NULL)];
    assert Tail(e, sp) == [Word(KW_IS)] + rest;
    SpellsFirst(ts, i, Word(KW_IS), rest);
    SpellsBoth(ts, i + 1, Words(e.isNot, KW_NOT), [Word(KW_NULL)]);
    SpellsFirst(ts, n - 1, Word(KW_NULL), []);
    if e.isNot {
      SpellsFirst(ts, i + 1, Word(KW_NOT), []);
    }
  }

  /** IS or IS NOT and its operand. */
  lemma IsTail(ts: seq<Token>, i: nat, n: nat, e: Expr, sp: Spelling)
    requires WithIs(e, sp) && Printable(e, sp) && TailAhead(ts, i, n, e, sp) && Stops(PRIMARY, KindAt(ts, n))
    ensures KindAt(ts, i) == KW_IS
    ensures var p := if e.op == TOKEN_NEQ then i + 2 else i + 1;
            && (KindAt(ts, i + 1) == KW_NOT <==> e.op == TOKEN_NEQ)
            && KindAt(ts, p) != KW_NULL && Printed(ts, p, n, PRIMARY, e.right, sp)
  {
    var isNot, right := e.op == TOKEN_NEQ, Print(PRIMARY, e.right, sp);
    SpellsFirst(ts, i, Word(KW_IS), Words(isNot, KW_NOT) + right);
    SpellsBoth(ts, i + 1, Words(isNot, KW_NOT), right);
    PrintStarts(PRIMARY, e.right, sp);
    SpellsKind(ts, if isNot then i + 2 else i + 1, right);
    if isNot {
      SpellsFirst(ts, i + 1, Word(KW_NOT), []);
    }
  }

  predicate IsTest(k: Kind) { k == KW_IN || k == KW_LIKE || k == KW_GLOB || k == KW_BETWEEN }

  predicate IsTestNode(e: Expr) { LeftRecursive(e) && !e.Binary? && !e.IsNull? }

  /** An IN, LIKE, GLOB or BETWEEN is printed from its keyword at i to n. */
  ghost predicate TestAhead(ts: seq<Token>, i: nat, n: nat, e: Expr, sp: Spelling) {
    && IsTestNode(e) && Printable(e, sp) && Spells(ts, i, Test(e, sp)) && n == i + |Test(e, sp)|
    && Stops(4, KindAt(ts, n)) && KindAt(ts, n) != KW_MATCH
  }

  lemma TestTail(ts: seq<Token>, i: nat, n: nat, e: Expr, sp: Spelling)
    requires IsTestNode(e) && Printable(e, sp) && TailAhead(ts, i, n, e, sp)
    requires Stops(4, KindAt(ts, n)) && KindAt(ts, n) != KW_MATCH
    ensures var m := if e.isNot then i + 1 else i;
            (e.isNot ==> KindAt(ts, i) == KW_NOT) && IsTest(KindAt(ts, m)) && TestAhead(ts, m, n, e, sp)
  {
    SpellsBoth(ts, i, Words(e.isNot, KW_NOT), Test(e, sp));
    if e.isNot {
      SpellsFirst(ts, i, Word(KW_NOT), []);
    }
    TestStarts(e, sp);
    SpellsKind(ts, if e.isNot then i + 1 else i, Test(e, sp));
  }

  /** A MATCH token and the escape of LIKE, or neither. */
  ghost predicate EscapeAhead(ts: seq<Token>, m: nat, n: nat, escape: Option<Expr>, sp: Spelling) {
    if escape.None? then m == n && KindAt(ts, m) != KW_MATCH
    else KindAt(ts, m) == KW_MATCH && Printed(ts, m + 1, n, 4, escape.value, sp)
  }

  lemma LikeAhead(ts: seq<Token>, i: nat, n: nat, e: Expr, sp: Spelling) returns (m: nat)
    requires e.Like? && TestAhead(ts, i, n, e, sp)
    ensures KindAt(ts, i) == KW_LIKE && Printed(ts, i + 1, m, 4, e.pattern, sp)
    ensures EscapeAhead(ts, m, n, e.escape, sp)
  {
    m := i + 1 + |Print(4, e.pattern, sp)|;
    KeywordThen(ts, i, KW_LIKE, Print(4, e.pattern, sp), PrintEscape(e.escape, sp));
    if e.escape.Some? {
      SpellsFirst(ts, m, Word(KW_MATCH), Print(4, e.escape.value, sp));
    }
  }

  lemma KeywordThen(ts: seq<Token>, i: nat, k: Kind, a: seq<Symbol>, b: seq<Symbol>)
    requires Spells(ts, i, [Word(k)] + (a + b))
    ensures KindAt(ts, i) == k && Spells(ts, i + 1, a) && Spells(ts, i + 1 + |a|, b)
  {
    SpellsFirst(ts, i, Word(k), a + b);
    SpellsBoth(ts, i + 1, a, b);
  }

  lemma GlobAhead(ts: seq<Token>, i: nat, n: nat, e: Expr, sp: Spelling)
    requires e.Glob? && TestAhead(ts, i, n, e, sp)
    ensures KindAt(ts, i) == KW_GLOB && Printed(ts, i + 1, n, 4, e.pattern, sp)
  {
    SpellsFirst(ts, i, Word(KW_GLOB), Print(4, e.pattern, sp));
  }

  lemma BetweenAhead(ts: seq<Token>, i: nat, n: nat, e: Expr, sp: Spelling) returns (m: nat)
    requires e.Between? && TestAhead(ts, i, n, e, sp)
    ensures KindAt(ts, i) == KW_BETWEEN && Printed(ts, i + 1, m, 4, e.low, sp)
    ensures KindAt(ts, m) == KW_AND && Printed(ts, m + 1, n, 4, e.high, sp)
  {
    m := i + 1 + |Print(4, e.low, sp)|;
    KeywordPair(ts, i, KW_BETWEEN, Print(4, e.low, sp), KW_AND, Print(4, e.high, sp));
  }

  lemma KeywordPair(ts: seq<Token>, i: nat, k: Kind, a: seq<Symbol>, l: Kind, b: seq<Symbol>)
    requires Spells(ts, i, [Word(k)] + (a + ([Word(l)] + b)))
    ensures KindAt(ts, i) == k && Spells(ts, i + 1, a)
    ensures KindAt(ts, i + 1 + |a|) == l && Spells(ts, i + 2 + |a|, b)
  {
    SpellsFirst(ts, i, Word(k), a + ([Word(l)] + b));
    SpellsBoth(ts, i + 1, a, [Word(l)] + b);
    SpellsFirst(ts, i + 1 + |a|, Word(l), b);
  }

  /** A SELECT is printed from i to end, and what follows is not taken for a clause of it. */
  ghost predicate SelectAhead(ts: seq<Token>, i: nat, end: nat, q: Select, sp: Spelling) {
    PrintableSelect(q, sp) && Spells(ts, i, PrintSelect(q, sp)) && end == i + |PrintSelect(q, sp)|
    && EndsAfter(q, KindAt(ts, end))
  }

  lemma Brackets(ts: seq<Token>, i: nat, n: nat, inner: seq<Symbol>)
    requires Spells(ts, i, [Word(TOKEN_LPAREN)] + (inner + [Word(TOKEN_RPAREN)])) && n == i + |inner| + 2
    ensures KindAt(ts, i) == TOKEN_LPAREN && KindAt(ts, n - 1) == TOKEN_RPAREN && n <= |ts|
    ensures Spells(ts, i + 1, inner)
  {
    SpellsFirst(ts, i, Word(TOKEN_LPAREN), inner + [Word(TOKEN_RPAREN)]);
    SpellsBoth(ts, i + 1, inner, [Word(TOKEN_RPAREN)]);
    SpellsFirst(ts, n - 1, Word(TOKEN_RPAREN), []);
  }

  lemma KeywordBrackets(ts: seq<Token>, i: nat, n: nat, k: Kind, inner: seq<Symbol>)
    requires Spells(ts, i, [Word(k)] + ([Word(TOKEN_LPAREN)] + (inner + [Word(TOKEN_RPAREN)]))) && n == i + |inner| + 3
    ensures KindAt(ts, i) == k && KindAt(ts, i + 1) == TOKEN_LPAREN && KindAt(ts, n - 1) == TOKEN_RPAREN && n <= |ts|
    ensures Spells(ts, i + 2, inner)
  {
    SpellsFirst(ts, i, Word(k), [Word(TOKEN_LPAREN)] + (inner + [Word(TOKEN_RPAREN)]));
    Brackets(ts, i + 1, n, inner);
  }

  lemma InAhead(ts: seq<Token>, i: nat, n: nat, e: Expr, sp: Spelling)
    requires e.In? && TestAhead(ts, i, n, e, sp)
    ensures n >= i + 3 && KindAt(ts, i) == KW_IN && KindAt(ts, i + 1) == TOKEN_LPAREN
            && KindAt(ts, n - 1) == TOKEN_RPAREN
    ensures ListAhead(ts, i + 2, n - 1, e.list, sp) && KindAt(ts, i + 2) != KW_SELECT
  {
    KeywordBrackets(ts, i, n, KW_IN, PrintList(e.list, sp));
    if e.list != [] {
      var _ := ListNext(ts, i + 2, n - 1, e.list, sp);
    }
  }

  lemma InSelectAhead(ts: seq<Token>, i: nat, n: nat, e: Expr, sp: Spelling)
    requires e.InSelect? && TestAhead(ts, i, n, e, sp)
    ensures n >= i + 3 && KindAt(ts, i) == KW_IN && KindAt(ts, i + 1) == TOKEN_LPAREN
            && KindAt(ts, n - 1) == TOKEN_RPAREN
    ensures SelectAhead(ts, i + 2, n - 1, e.query, sp) && KindAt(ts, i + 2) == KW_SELECT
  {
    var q := PrintSelect(e.query, sp);
    KeywordBrackets(ts, i, n, KW_IN, q);
    SelectStarts(e.query, sp);
    SpellsKind(ts, i + 2, q);
  }

  lemma SelectStarts(q: Select, sp: Spelling)
    ensures PrintSelect(q, sp) != [] && FirstKind(PrintSelect(q, sp)) == KW_SELECT
  {
  }

  // ----- Primary expressions -----

  /** The first token of an operand of the innermost level. */
  function PrimaryKind(e: Expr, sp: Spelling): Kind {
    if Level(e, sp) < PRIMARY || LeftRecursive(e) then TOKEN_LPAREN
    else match e
      case Lit(Integer(n)) => if IsTruth(n, sp) then if n == 1 then KW_TRUE else KW_FALSE else TOKEN_NUMBER
      case Lit(Float(_)) => TOKEN_NUMBER
      case Lit(Text(_)) => TOKEN_STRING
      case Lit(Null) => KW_NULL
      case Ident(table, name) => ColumnKind(if |table| == 0 then name else table, sp)
      case Star => TOKEN_STAR
      case Case(_, _, _) => KW_CASE
      case Cast(_, _) => KW_CAST
      case Exists(_, n) => if n then KW_NOT else KW_EXISTS
      case Subquery(_) => TOKEN_LPAREN
      case RowValue(_) => TOKEN_LPAREN
      case Func(f, _, _, _) => ColumnKind(f, sp)
      case _ => TOKEN_EOF
  }

  lemma PrimaryForm(ts: seq<Token>, i: nat, end: nat, e: Expr, sp: Spelling)
    requires Printed(ts, i, end, PRIMARY, e, sp)
    ensures KindAt(ts, i) == PrimaryKind(e, sp) && i < |ts|
    ensures Level(e, sp) == PRIMARY ==> !LeftRecursive(e) && Spells(ts, i, Prefix(e, sp)) && end == i + |Prefix(e, sp)|
  {
    if LeftRecursive(e) && e.Binary? {
      OpContinues(e.op);
    }
    if Level(e, sp) < PRIMARY {
      SpellsFirst(ts, i, Word(TOKEN_LPAREN), Body(e, sp) + [Word(TOKEN_RPAREN)]);
    } else {
      PrintPrefix(PRIMARY, e, sp);
      PrefixFirst(e, sp);
      SpellsKind(ts, i, Prefix(e, sp));
    }
  }

  lemma PrefixFirst(e: Expr, sp: Spelling)
    requires Printable(e, sp) && !LeftRecursive(e) && Level(e, sp) == PRIMARY
    ensures Prefix(e, sp) != [] && FirstKind(Prefix(e, sp)) == PrimaryKind(e, sp)
  {
    match e
    case Exists(q, n) => assert Prefix(e, sp)[0] == Word(if n then KW_NOT else KW_EXISTS);
    case Ident(table, name) =>
      assert Prefix(e, sp)[0].kind == ColumnKind(if |table| == 0 then name else table, sp);
    case _ =>
  }

  lemma AtomAhead(ts: seq<Token>, i: nat, end: nat, e: Expr, sp: Spelling)
    requires Printed(ts, i, end, PRIMARY, e, sp)
    requires PrimaryKind(e, sp) in {TOKEN_NUMBER, TOKEN_STRING, KW_NULL, TOKEN_STAR, KW_TRUE, KW_FALSE}
    ensures end == i + 1 && i < |ts|
    ensures e.Star? || (e.Lit? && match e.lit
                                  case Integer(n) =>
                                    if IsTruth(n, sp) then KindAt(ts, i) == (if n == 1 then KW_TRUE else KW_FALSE)
                                    else KindAt(ts, i) == TOKEN_NUMBER
                                         && NumberValue(ts[i].text, sp.floatOk) == Some(e.lit)
                                  case Float(_) => NumberValue(ts[i].text, sp.floatOk) == Some(e.lit)
                                  case Text(s) => ts[i].text == s
                                  case Null => true)
  {
    PrimaryForm(ts, i, end, e, sp);
    assert Level(e, sp) == PRIMARY;
    assert |Prefix(e, sp)| == 1;
    SpellsKind(ts, i, Prefix(e, sp));
  }

  lemma PrintLoose(e: Expr, sp: Spelling)
    ensures Print(0, e, sp) == Body(e, sp)
    ensures Level(e, sp) < PRIMARY ==>
              Print(PRIMARY, e, sp) == [Word(TOKEN_LPAREN)] + (Body(e, sp) + [Word(TOKEN_RPAREN)])
  {
  }

  lemma ParenAhead(ts: seq<Token>, i: nat, end: nat, e: Expr, sp: Spelling)
    requires Printed(ts, i, end, PRIMARY, e, sp) && Level(e, sp) < PRIMARY
    ensures end >= i + 2 && KindAt(ts, i) == TOKEN_LPAREN && KindAt(ts, end - 1) == TOKEN_RPAREN
    ensures Printed(ts, i + 1, end - 1, 0, e, sp) && KindAt(ts, i + 1) != KW_SELECT
  {
    PrintLoose(e, sp);
    PrintStarts(0, e, sp);
    Brackets(ts, i, end, Print(0, e, sp));
    SpellsKind(ts, i + 1, Print(0, e, sp));
  }

  /** A bracketed form is printed from i to end. */
  ghost predicate PrefixAhead(ts: seq<Token>, i: nat, end: nat, e: Expr, sp: Spelling) {
    !LeftRecursive(e) && Printable(e, sp) && Spells(ts, i, Prefix(e, sp)) && end == i + |Prefix(e, sp)|
  }

  lemma SubqueryAhead(ts: seq<Token>, i: nat, end: nat, e: Expr, sp: Spelling)
    requires e.Subquery? && PrefixAhead(ts, i, end, e, sp)
    ensures end >= i + 2 && KindAt(ts, end - 1) == TOKEN_RPAREN
    ensures SelectAhead(ts, i + 1, end - 1, e.query, sp) && KindAt(ts, i + 1) == KW_SELECT
  {
    Brackets(ts, i, end, PrintSelect(e.query, sp));
    SelectStarts(e.query, sp);
    SpellsKind(ts, i + 1, PrintSelect(e.query, sp));
  }

  lemma RowAhead(ts: seq<Token>, i: nat, end: nat, e: Expr, sp: Spelling)
    requires e.RowValue? && PrefixAhead(ts, i, end, e, sp)
    ensures end >= i + 2 && KindAt(ts, end - 1) == TOKEN_RPAREN
    ensures ListAhead(ts, i + 1, end - 1, e.values, sp) && |e.values| >= 2 && KindAt(ts, i + 1) != KW_SELECT
  {
    Brackets(ts, i, end, PrintList(e.values, sp));
    var _ := ListNext(ts, i + 1, end - 1, e.values, sp);
  }

  lemma ExistsAhead(ts: seq<Token>, i: nat, end: nat, e: Expr, sp: Spelling)
    requires e.Exists? && !e.isNot && PrefixAhead(ts, i, end, e, sp)
    ensures end >= i + 3 && KindAt(ts, i + 1) == TOKEN_LPAREN && KindAt(ts, end - 1) == TOKEN_RPAREN
    ensures SelectAhead(ts, i + 2, end - 1, e.query, sp)
  {
    var q := PrintSelect(e.query, sp);
    assert Prefix(e, sp) == [Word(KW_EXISTS)] + ([Word(TOKEN_LPAREN)] + (q + [Word(TOKEN_RPAREN)]));
    KeywordBrackets(ts, i, end, KW_EXISTS, q);
  }

  lemma NotExistsAhead(ts: seq<Token>, i: nat, end: nat, e: Expr, sp: Spelling)
    requires e.Exists? && e.isNot && PrefixAhead(ts, i, end, e, sp)
    ensures end >= i + 4 && KindAt(ts, i + 1) == KW_EXISTS
    ensures KindAt(ts, i + 2) == TOKEN_LPAREN && KindAt(ts, end - 1) == TOKEN_RPAREN
    ensures SelectAhead(ts, i + 3, end - 1, e.query, sp)
  {
    var q := PrintSelect(e.query, sp);
    var rest := [Word(KW_EXISTS)] + ([Word(TOKEN_LPAREN)] + (q + [Word(TOKEN_RPAREN)]));
    assert Prefix(e, sp) == [Word(KW_NOT)] + rest;
    SpellsFirst(ts, i, Word(KW_NOT), rest);
    KeywordBrackets(ts, i + 1, end, KW_EXISTS, q);
  }

  lemma CastAhead(ts: seq<Token>, i: nat, end: nat, e: Expr, sp: Spelling) returns (m: nat)
    requires e.Cast? && PrefixAhead(ts, i, end, e, sp)
    ensures KindAt(ts, i + 1) == TOKEN_LPAREN && Printed(ts, i + 2, m, 0, e.operand, sp)
    ensures end == m + 3 && m + 2 < |ts| && KindAt(ts, m) == KW_AS
            && ts[m + 1] == Token(TypeKind(e.typeName, sp), e.typeName) && KindAt(ts, m + 2) == TOKEN_RPAREN
  {
    m := i + 2 + |Print(0, e.operand, sp)|;
    CastParts(ts, i, m, Print(0, e.operand, sp), Lexeme(TypeKind(e.typeName, sp), e.typeName));
  }

  lemma CastParts(ts: seq<Token>, i: nat, m: nat, x: seq<Symbol>, t: Symbol)
    requires Spells(ts, i, [Word(KW_CAST)]
                    + ([Word(TOKEN_LPAREN)]
                       + (x + ([Word(KW_AS)] + ([t] + [Word(TOKEN_RPAREN)])))))
    requires m == i + 2 + |x|
    ensures KindAt(ts, i + 1) == TOKEN_LPAREN && Spells(ts, i + 2, x)
    ensures m + 2 < |ts| && KindAt(ts, m) == KW_AS && Same(ts[m + 1], t)
            && KindAt(ts, m + 2) == TOKEN_RPAREN
  {
    var t2 := [t] + [Word(TOKEN_RPAREN)];
    SpellsFirst(ts, i, Word(KW_CAST), [Word(TOKEN_LPAREN)] + (x + ([Word(KW_AS)] + t2)));
    SpellsFirst(ts, i + 1, Word(TOKEN_LPAREN), x + ([Word(KW_AS)] + t2));
    SpellsBoth(ts, i + 2, x, [Word(KW_AS)] + t2);
    SpellsFirst(ts, m, Word(KW_AS), t2);
    SpellsFirst(ts, m + 1, t, [Word(TOKEN_RPAREN)]);
    SpellsFirst(ts, m + 2, Word(TOKEN_RPAREN), []);
  }

  lemma IdentAhead(ts: seq<Token>, i: nat, end: nat, e: Expr, sp: Spelling)
    requires e.Ident? && PrefixAhead(ts, i, end, e, sp)
    ensures end <= |ts|
    ensures if |e.table| == 0 then end == i + 1 && ts[i] == Token(ColumnKind(e.name, sp), e.name)
            else end == i + 3 && ts[i] == Token(ColumnKind(e.table, sp), e.table) && KindAt(ts, i + 1) == TOKEN_DOT
                 && ts[i + 2] == Token(NameKind(e.name, sp), e.name)
  {
    if |e.table| == 0 {
      SpellsFirst(ts, i, Lexeme(ColumnKind(e.name, sp), e.name), []);
    } else {
      var name := Lexeme(NameKind(e.name, sp), e.name);
      SpellsFirst(ts, i, Lexeme(ColumnKind(e.table, sp), e.table), [Word(TOKEN_DOT)] + [name]);
      SpellsFirst(ts, i + 1, Word(TOKEN_DOT), [name]);
      SpellsFirst(ts, i + 2, name, []);
    }
  }

  /** The argument list of a call is printed from its ( at i to end. */
  ghost predicate CallAhead(ts: seq<Token>, i: nat, end: nat, e: Expr, sp: Spelling) {
    && e.Func? && Printable(e, sp) && KindAt(ts, i) == TOKEN_LPAREN && end >= i + 2
    && KindAt(ts, end - 1) == TOKEN_RPAREN
    && if e.star then KindAt(ts, i + 1) == TOKEN_STAR && end == i + 3
       else if e.distinct then KindAt(ts, i + 1) == KW_DISTINCT && ListAhead(ts, i + 2, end - 1, e.args, sp)
       else if e.args == [] then end == i + 2
       else KindAt(ts, i + 1) !in {TOKEN_RPAREN, TOKEN_STAR, KW_DISTINCT} && ListAhead(ts, i + 1, end - 1, e.args, sp)
  }

  lemma FuncAhead(ts: seq<Token>, i: nat, end: nat, e: Expr, sp: Spelling)
    requires e.Func? && PrefixAhead(ts, i, end, e, sp)
    ensures i < |ts| && ts[i].text == e.name && CallAhead(ts, i + 1, end, e, sp)
  {
    var list := PrintList(e.args, sp);
    FuncParts(ts, i, end, Lexeme(ColumnKind(e.name, sp), e.name), e.star, e.distinct, list);
    if !e.star && !e.distinct && e.args != [] {
      var _ := ListNext(ts, i + 2, end - 1, e.args, sp);
      SpellsKind(ts, i + 2, list);
    }
  }

  lemma FuncParts(ts: seq<Token>, i: nat, end: nat, f: Symbol, star: bool, distinct: bool, list: seq<Symbol>)
    requires var s, d := Words(star, TOKEN_STAR), Words(distinct, KW_DISTINCT);
             && Spells(ts, i, [f]
                       + ([Word(TOKEN_LPAREN)] + (s + (d + (list + [Word(TOKEN_RPAREN)])))))
             && end == i + |s| + |d| + |list| + 3
    requires !(star && distinct)
    ensures i < |ts| && Same(ts[i], f) && KindAt(ts, i + 1) == TOKEN_LPAREN
            && KindAt(ts, end - 1) == TOKEN_RPAREN
    ensures star ==> KindAt(ts, i + 2) == TOKEN_STAR
    ensures distinct ==> KindAt(ts, i + 2) == KW_DISTINCT
    ensures Spells(ts, if star || distinct then i + 3 else i + 2, list)
  {
    var s, d := Words(star, TOKEN_STAR), Words(distinct, KW_DISTINCT);
    var inner := s + (d + (list + [Word(TOKEN_RPAREN)]));
    SpellsFirst(ts, i, f, [Word(TOKEN_LPAREN)] + inner);
    SpellsFirst(ts, i + 1, Word(TOKEN_LPAREN), inner);
    SpellsBoth(ts, i + 2, s, d + (list + [Word(TOKEN_RPAREN)]));
    SpellsBoth(ts, i + 2 + |s|, d, list + [Word(TOKEN_RPAREN)]);
    SpellsBoth(ts, i + 2 + |s| + |d|, list, [Word(TOKEN_RPAREN)]);
    SpellsFirst(ts, end - 1, Word(TOKEN_RPAREN), []);
    if star {
      SpellsFirst(ts, i + 2, Word(TOKEN_STAR), []);
    } else if distinct {
      SpellsFirst(ts, i + 2, Word(KW_DISTINCT), []);
    }
  }

  lemma NameAhead(ts: seq<Token>, i: nat, end: nat, e: Expr, sp: Spelling)
    requires Printed(ts, i, end, PRIMARY, e, sp)
    requires PrimaryKind(e, sp) == TOKEN_IDENT || IsIdentLike(PrimaryKind(e, sp))
    ensures i < |ts| && end <= |ts|
    ensures e.Ident? || e.Func?
    ensures e.Func? ==> ts[i].text == e.name && CallAhead(ts, i + 1, end, e, sp)
    ensures e.Ident? && |e.table| == 0 ==>
              end == i + 1 && ts[i].text == e.name && KindAt(ts, end) != TOKEN_DOT && KindAt(ts, end) != TOKEN_LPAREN
    ensures e.Ident? && |e.table| > 0 ==>
              end == i + 3 && ts[i].text == e.table && KindAt(ts, i + 1) == TOKEN_DOT
              && ts[i + 2] == Token(NameKind(e.name, sp), e.name)
  {
    PrimaryForm(ts, i, end, e, sp);
    if e.Func? {
      FuncAhead(ts, i, end, e, sp);
    } else {
      IdentAhead(ts, i, end, e, sp);
    }
  }

  /** What the parentheses of a primary expression hold, when it is no subquery. */
  ghost predicate GroupAhead(ts: seq<Token>, i: nat, last: nat, e: Expr, sp: Spelling) {
    && KindAt(ts, last) == TOKEN_RPAREN
    && if e.RowValue? then |e.values| >= 2 && ListAhead(ts, i, last, e.values, sp)
       else Printed(ts, i, last, 0, e, sp)
  }

  lemma ParensAhead(ts: seq<Token>, i: nat, end: nat, e: Expr, sp: Spelling)
    requires Printed(ts, i, end, PRIMARY, e, sp) && PrimaryKind(e, sp) == TOKEN_LPAREN
    ensures end >= i + 2 && KindAt(ts, end - 1) == TOKEN_RPAREN
    ensures KindAt(ts, i + 1) == KW_SELECT ==> e.Subquery? && SelectAhead(ts, i + 1, end - 1, e.query, sp)
    ensures KindAt(ts, i + 1) != KW_SELECT ==> GroupAhead(ts, i + 1, end - 1, e, sp)
  {
    PrimaryForm(ts, i, end, e, sp);
    if Level(e, sp) < PRIMARY {
      ParenAhead(ts, i, end, e, sp);
    } else if e.Subquery? {
      SubqueryAhead(ts, i, end, e, sp);
    } else {
      RowAhead(ts, i, end, e, sp);
    }
  }

  // ----- CASE -----

  /** The branches of a CASE are printed from i on, its END just before end. */
  ghost predicate WhensAhead(ts: seq<Token>, i: nat, end: nat, whens: seq<When>, els: Option<Expr>, sp: Spelling) {
    && (forall j :: 0 <= j < |whens| ==> PrintableWhen(whens[j], sp))
    && Spells(ts, i, PrintWhens(whens, sp)) && ElseAhead(ts, i + |PrintWhens(whens, sp)|, end, els, sp)
  }

  ghost predicate ElseAhead(ts: seq<Token>, i: nat, end: nat, els: Option<Expr>, sp: Spelling) {
    && PrintableOpt(els, sp) && Spells(ts, i, PrintOpt(KW_ELSE, els, sp))
    && end == i + |PrintOpt(KW_ELSE, els, sp)| + 1 && KindAt(ts, end - 1) == KW_END
  }

  lemma ElseNext(ts: seq<Token>, i: nat, end: nat, els: Option<Expr>, sp: Spelling)
    requires ElseAhead(ts, i, end, els, sp)
    ensures if els.Some? then KindAt(ts, i) == KW_ELSE && Printed(ts, i + 1, end - 1, 0, els.value, sp)
            else KindAt(ts, i) == KW_END && i == end - 1
  {
    if els.Some? {
      SpellsFirst(ts, i, Word(KW_ELSE), Print(0, els.value, sp));
    }
  }

  lemma WhensStop(ts: seq<Token>, i: nat, end: nat, whens: seq<When>, els: Option<Expr>, sp: Spelling)
    requires WhensAhead(ts, i, end, whens, els, sp)
    ensures whens != [] ==> KindAt(ts, i) == KW_WHEN
    ensures whens == [] ==> ElseAhead(ts, i, end, els, sp)
    ensures KindAt(ts, i) in (if whens == [] then {KW_ELSE, KW_END} else {KW_WHEN})
  {
    if whens == [] {
      ElseNext(ts, i, end, els, sp);
    } else {
      WhenStarts(whens[0], sp);
      SpellsBoth(ts, i, PrintWhen(whens[0], sp), PrintWhens(whens[1..], sp));
      SpellsKind(ts, i, PrintWhen(whens[0], sp));
    }
  }

  lemma WhenStarts(w: When, sp: Spelling)
    ensures PrintWhen(w, sp) != [] && FirstKind(PrintWhen(w, sp)) == KW_WHEN
  {
  }

  lemma WhensNext(ts: seq<Token>, i: nat, end: nat, whens: seq<When>, els: Option<Expr>, sp: Spelling)
    returns (n: nat)
    requires WhensAhead(ts, i, end, whens, els, sp) && whens != []
    ensures WhenAhead(ts, i, n, whens[0], sp) && WhensAhead(ts, n, end, whens[1..], els, sp)
  {
    n := i + |PrintWhen(whens[0], sp)|;
    SpellsBoth(ts, i, PrintWhen(whens[0], sp), PrintWhens(whens[1..], sp));
    WhensStop(ts, n, end, whens[1..], els, sp);
  }

  ghost predicate WhenAhead(ts: seq<Token>, i: nat, n: nat, w: When, sp: Spelling) {
    PrintableWhen(w, sp) && Spells(ts, i, PrintWhen(w, sp)) && n == i + |PrintWhen(w, sp)|
    && Stops(0, KindAt(ts, n))
  }

  lemma WhenNext(ts: seq<Token>, i: nat, n: nat, w: When, sp: Spelling) returns (m: nat)
    requires WhenAhead(ts, i, n, w, sp)
    ensures KindAt(ts, i) == KW_WHEN && Printed(ts, i + 1, m, 0, w.cond, sp)
    ensures KindAt(ts, m) == KW_THEN && Printed(ts, m + 1, n, 0, w.result, sp)
  {
    m := i + 1 + |Print(0, w.cond, sp)|;
    KeywordPair(ts, i, KW_WHEN, Print(0, w.cond, sp), KW_THEN, Print(0, w.result, sp));
  }

  lemma CaseAhead(ts: seq<Token>, i: nat, end: nat, e: Expr, sp: Spelling) returns (m: nat)
    requires e.Case? && PrefixAhead(ts, i, end, e, sp)
    ensures WhensAhead(ts, m, end, e.whens, e.els, sp) && BaseAhead(ts, i + 1, m, e.base, sp)
  {
    m := CaseParts(ts, i, end, PrintBase(e.base, sp), PrintWhens(e.whens, sp), PrintOpt(KW_ELSE, e.els, sp));
    WhensStop(ts, m, end, e.whens, e.els, sp);
    BaseStarts(ts, i + 1, m, e.base, sp);
  }

  /** The expression a CASE compares, from i to m; without one, WHEN follows at once. */
  ghost predicate BaseAhead(ts: seq<Token>, i: nat, m: nat, base: Option<Expr>, sp: Spelling) {
    if base.Some? then Printed(ts, i, m, 0, base.value, sp) && KindAt(ts, i) != KW_WHEN
    else m == i && KindAt(ts, i) == KW_WHEN
  }

  lemma BaseStarts(ts: seq<Token>, i: nat, m: nat, base: Option<Expr>, sp: Spelling)
    requires PrintableOpt(base, sp) && Spells(ts, i, PrintBase(base, sp)) && m == i + |PrintBase(base, sp)|
             && Stops(0, KindAt(ts, m))
    requires base.None? ==> KindAt(ts, m) == KW_WHEN
    ensures BaseAhead(ts, i, m, base, sp)
  {
    if base.Some? {
      PrintStarts(0, base.value, sp);
      SpellsKind(ts, i, PrintBase(base, sp));
    }
  }

  lemma CaseParts(ts: seq<Token>, i: nat, end: nat, base: seq<Symbol>, whens: seq<Symbol>, els: seq<Symbol>)
    returns (m: nat)
    requires Spells(ts, i, [Word(KW_CASE)] + (base + (whens + (els + [Word(KW_END)]))))
             && end == i + |base| + |whens| + |els| + 2
    ensures m == i + 1 + |base| && Spells(ts, i + 1, base) && Spells(ts, m, whens) && Spells(ts, m + |whens|, els)
    ensures KindAt(ts, end - 1) == KW_END
  {
    m := i + 1 + |base|;
    SpellsFirst(ts, i, Word(KW_CASE), base + (whens + (els + [Word(KW_END)])));
    SpellsBoth(ts, i + 1, base, whens + (els + [Word(KW_END)]));
    SpellsBoth(ts, m, whens, els + [Word(KW_END)]);
    SpellsBoth(ts, m + |whens|, els, [Word(KW_END)]);
    SpellsFirst(ts, end - 1, Word(KW_END), []);
  }
}
