/** Which part of a sentence ends up where in its tree, construct by construct: the tokens are listed
    by type, and every name in them may be any name (parser.go:257-536, 1283-1952). */
module Sentences {
  import opened Wrappers
  import opened Syntax
  import opened Printing
  import opened SelectPrinting
  import opened Parsers
  import opened CompoundOrder
  import opened Precedence

  function Kinds(ts: seq<Token>): (ks: seq<Kind>)
    ensures |ks| == |ts|
  {
    seq(|ts|, i requires 0 <= i < |ts| => ts[i].kind)
  }

  /** The column that token number i names. */
  function Name(ts: seq<Token>, i: nat): Expr
    requires i < |ts|
  {
    Ident("", ts[i].text)
  }

  lemma NamePrints(ts: seq<Token>, i: nat, k: nat, sp: Spelling)
    requires i < |ts| && ts[i].kind == TOKEN_IDENT && sp.column(ts[i].text) == TOKEN_IDENT && k <= PRIMARY
    ensures PrintableAt(k, Name(ts, i), sp) && Loose(Name(ts, i))
    ensures Print(k, Name(ts, i), sp) == [Lexeme(TOKEN_IDENT, ts[i].text)] && Spells(ts, i, Print(k, Name(ts, i), sp))
  {
    var e := Name(ts, i);
    assert Body(e, sp) == Prefix(e, sp);
  }

  lemma SpellsJoin(ts: seq<Token>, i: nat, a: seq<Symbol>, b: seq<Symbol>)
    requires Spells(ts, i, a) && Spells(ts, i + |a|, b)
    ensures Spells(ts, i, a + b)
  {
    forall j | 0 <= j < |a + b|
      ensures Same(ts[i + j], (a + b)[j])
    {
      if j < |a| {
        assert (a + b)[j] == a[j];
      } else {
        assert (a + b)[j] == b[j - |a|];
        assert Same(ts[i + |a| + (j - |a|)], b[j - |a|]);
      }
    }
  }

  lemma WordSpells(ts: seq<Token>, i: nat, k: Kind)
    requires KindAt(ts, i) == k && i < |ts|
    ensures Spells(ts, i, [Word(k)])
  {
  }

  /** A word, and more behind it. */
  lemma WordJoin(ts: seq<Token>, i: nat, k: Kind, b: seq<Symbol>)
    requires KindAt(ts, i) == k && i < |ts| && Spells(ts, i + 1, b)
    ensures Spells(ts, i, [Word(k)] + b)
  {
    WordSpells(ts, i, k);
    SpellsJoin(ts, i, [Word(k)], b);
  }

  /** The whole list is one printed expression. */
  method ParseAll(ts: seq<Token>, ghost e: Expr, sp: Spelling) returns (r: Result<Expr>)
    requires PrintableAt(0, e, sp) && Spells(ts, 0, Body(e, sp)) && |Body(e, sp)| == |ts|
    ensures r == Ok(e)
  {
    PrintLoose(e, sp);
    var stopped;
    r, stopped := ParsePrintedExpr(ts, e, sp);
  }

  lemma KindsAre(ts: seq<Token>, ks: seq<Kind>)
    requires Kinds(ts) == ks
    ensures forall i :: 0 <= i < |ts| ==> ts[i].kind == ks[i] && KindAt(ts, i) == ks[i]
  {
    forall i | 0 <= i < |ts|
      ensures ts[i].kind == ks[i]
    {
      assert Kinds(ts)[i] == ts[i].kind;
    }
  }

  // ----- Tests -----

  method ParseBetween(ts: seq<Token>, floatOk: string -> bool) returns (r: Result<Expr>)
    requires Kinds(ts) == [TOKEN_IDENT, KW_BETWEEN, TOKEN_IDENT, KW_AND, TOKEN_IDENT]
    ensures r == Ok(Between(Name(ts, 0), Name(ts, 2), Name(ts, 4), false))
  {
    var sp := PlainSpelling(floatOk);
    ghost var e := Between(Name(ts, 0), Name(ts, 2), Name(ts, 4), false);
    KindsAre(ts, [TOKEN_IDENT, KW_BETWEEN, TOKEN_IDENT, KW_AND, TOKEN_IDENT]);
    NamePrints(ts, 0, COMPARISON, sp);
    NamePrints(ts, 2, 4, sp);
    NamePrints(ts, 4, 4, sp);
    ghost var low, high := Print(4, e.low, sp), Print(4, e.high, sp);
    WordJoin(ts, 3, KW_AND, high);
    SpellsJoin(ts, 2, low, [Word(KW_AND)] + high);
    WordJoin(ts, 1, KW_BETWEEN, low + ([Word(KW_AND)] + high));
    TestSpells(ts, e, false, [Word(KW_BETWEEN)] + (low + ([Word(KW_AND)] + high)), sp);
    r := ParseAll(ts, e, sp);
  }

  /** A test of the name at 0, negated by the token at 1 or not. */
  lemma TestSpells(ts: seq<Token>, e: Expr, isNot: bool, test: seq<Symbol>, sp: Spelling)
    requires ts != [] && IsTestNode(e) && e.operand == Name(ts, 0) && e.isNot == isNot && Test(e, sp) == test
    requires Spells(ts, 0, Print(COMPARISON, e.operand, sp)) && |Print(COMPARISON, e.operand, sp)| == 1
    requires Spells(ts, if isNot then 2 else 1, test) && (isNot ==> KindAt(ts, 1) == KW_NOT)
    ensures Spells(ts, 0, Body(e, sp)) && |Body(e, sp)| == (if isNot then 2 else 1) + |test|
  {
    if isNot {
      WordJoin(ts, 1, KW_NOT, test);
    } else {
      assert Words(false, KW_NOT) + test == test;
    }
    SpellsJoin(ts, 0, Print(COMPARISON, e.operand, sp), Words(isNot, KW_NOT) + test);
  }

  method ParseNotLike(ts: seq<Token>, floatOk: string -> bool) returns (r: Result<Expr>)
    requires Kinds(ts) == [TOKEN_IDENT, KW_NOT, KW_LIKE, TOKEN_IDENT, KW_MATCH, TOKEN_IDENT]
    ensures r == Ok(Like(Name(ts, 0), Name(ts, 3), Some(Name(ts, 5)), true))
  {
    var sp := PlainSpelling(floatOk);
    ghost var e := Like(Name(ts, 0), Name(ts, 3), Some(Name(ts, 5)), true);
    KindsAre(ts, [TOKEN_IDENT, KW_NOT, KW_LIKE, TOKEN_IDENT, KW_MATCH, TOKEN_IDENT]);
    NamePrints(ts, 0, COMPARISON, sp);
    NamePrints(ts, 3, 4, sp);
    NamePrints(ts, 5, 4, sp);
    ghost var pattern, escape := Print(4, e.pattern, sp), Print(4, e.escape.value, sp);
    WordJoin(ts, 4, KW_MATCH, escape);
    SpellsJoin(ts, 3, pattern, [Word(KW_MATCH)] + escape);
    WordJoin(ts, 2, KW_LIKE, pattern + ([Word(KW_MATCH)] + escape));
    TestSpells(ts, e, true, [Word(KW_LIKE)] + (pattern + ([Word(KW_MATCH)] + escape)), sp);
    r := ParseAll(ts, e, sp);
  }

  method ParseGlobbed(ts: seq<Token>, floatOk: string -> bool) returns (r: Result<Expr>)
    requires Kinds(ts) == [TOKEN_IDENT, KW_GLOB, TOKEN_IDENT]
    ensures r == Ok(Glob(Name(ts, 0), Name(ts, 2), false))
  {
    var sp := PlainSpelling(floatOk);
    ghost var e := Glob(Name(ts, 0), Name(ts, 2), false);
    KindsAre(ts, [TOKEN_IDENT, KW_GLOB, TOKEN_IDENT]);
    NamePrints(ts, 0, COMPARISON, sp);
    NamePrints(ts, 2, 4, sp);
    WordJoin(ts, 1, KW_GLOB, Print(4, e.pattern, sp));
    TestSpells(ts, e, false, [Word(KW_GLOB)] + Print(4, e.pattern, sp), sp);
    r := ParseAll(ts, e, sp);
  }

  /** Two names with a comma between them. */
  lemma PairSpells(ts: seq<Token>, i: nat, sp: Spelling)
    requires i + 2 < |ts| && KindAt(ts, i) == KindAt(ts, i + 2) == TOKEN_IDENT && KindAt(ts, i + 1) == TOKEN_COMMA
    requires IsPlain(sp)
    ensures var list := [Name(ts, i), Name(ts, i + 2)];
            PrintableList(list, sp) && Spells(ts, i, PrintList(list, sp)) && |PrintList(list, sp)| == 3
            && FirstKind(PrintList(list, sp)) == TOKEN_IDENT
  {
    var list := [Name(ts, i), Name(ts, i + 2)];
    NamePrints(ts, i, 0, sp);
    NamePrints(ts, i + 2, 0, sp);
    assert list[1..] == [Name(ts, i + 2)] && list[1..][1..] == [];
    var last := Print(0, list[1], sp);
    assert PrintMore([], sp) == [] && last + [] == last;
    assert PrintMore(list[1..], sp) == [Word(TOKEN_COMMA)] + last;
    WordJoin(ts, i + 1, TOKEN_COMMA, last);
    SpellsJoin(ts, i, Print(0, list[0], sp), [Word(TOKEN_COMMA)] + last);
  }

  /** Something in parentheses. */
  lemma BracketsSpell(ts: seq<Token>, i: nat, inner: seq<Symbol>)
    requires i < |ts| && KindAt(ts, i) == TOKEN_LPAREN && Spells(ts, i + 1, inner)
    requires i + 1 + |inner| < |ts| && KindAt(ts, i + 1 + |inner|) == TOKEN_RPAREN
    ensures Spells(ts, i, [Word(TOKEN_LPAREN)] + (inner + [Word(TOKEN_RPAREN)]))
  {
    WordSpells(ts, i + 1 + |inner|, TOKEN_RPAREN);
    SpellsJoin(ts, i + 1, inner, [Word(TOKEN_RPAREN)]);
    WordJoin(ts, i, TOKEN_LPAREN, inner + [Word(TOKEN_RPAREN)]);
  }

  method ParseNotIn(ts: seq<Token>, floatOk: string -> bool) returns (r: Result<Expr>)
    requires Kinds(ts) ==
             [TOKEN_IDENT, KW_NOT, KW_IN, TOKEN_LPAREN, TOKEN_IDENT, TOKEN_COMMA, TOKEN_IDENT, TOKEN_RPAREN]
    ensures r == Ok(In(Name(ts, 0), [Name(ts, 4), Name(ts, 6)], true))
  {
    var sp := PlainSpelling(floatOk);
    ghost var e := In(Name(ts, 0), [Name(ts, 4), Name(ts, 6)], true);
    KindsAre(ts, [TOKEN_IDENT, KW_NOT, KW_IN, TOKEN_LPAREN, TOKEN_IDENT, TOKEN_COMMA, TOKEN_IDENT, TOKEN_RPAREN]);
    NamePrints(ts, 0, COMPARISON, sp);
    PairSpells(ts, 4, sp);
    ghost var list := PrintList(e.list, sp);
    BracketsSpell(ts, 3, list);
    WordJoin(ts, 2, KW_IN, [Word(TOKEN_LPAREN)] + (list + [Word(TOKEN_RPAREN)]));
    TestSpells(ts, e, true, [Word(KW_IN)] + ([Word(TOKEN_LPAREN)] + (list + [Word(TOKEN_RPAREN)])), sp);
    r := ParseAll(ts, e, sp);
  }

  method ParseIsNotNull(ts: seq<Token>, floatOk: string -> bool) returns (r: Result<Expr>)
    requires Kinds(ts) == [TOKEN_IDENT, KW_IS, KW_NOT, KW_NULL]
    ensures r == Ok(IsNull(Name(ts, 0), true))
  {
    var sp := PlainSpelling(floatOk);
    ghost var e := IsNull(Name(ts, 0), true);
    KindsAre(ts, [TOKEN_IDENT, KW_IS, KW_NOT, KW_NULL]);
    NamePrints(ts, 0, POSTFIX, sp);
    WordSpells(ts, 3, KW_NULL);
    WordJoin(ts, 2, KW_NOT, [Word(KW_NULL)]);
    WordJoin(ts, 1, KW_IS, [Word(KW_NOT)] + [Word(KW_NULL)]);
    assert Tail(e, sp) == [Word(KW_IS)] + ([Word(KW_NOT)] + [Word(KW_NULL)]);
    SpellsJoin(ts, 0, Print(POSTFIX, e.operand, sp), Tail(e, sp));
    r := ParseAll(ts, e, sp);
  }

  /** IS and IS NOT compare for equality. */
  method ParseIsName(ts: seq<Token>, floatOk: string -> bool) returns (r: Result<Expr>)
    requires Kinds(ts) == [TOKEN_IDENT, KW_IS, TOKEN_IDENT] || Kinds(ts) == [TOKEN_IDENT, KW_IS, KW_NOT, TOKEN_IDENT]
    ensures r == Ok(if |ts| == 3 then Binary(TOKEN_EQ, Name(ts, 0), Name(ts, 2))
                    else Binary(TOKEN_NEQ, Name(ts, 0), Name(ts, 3)))
  {
    var sp := PlainSpelling(floatOk).(byIs := _ => true);
    ghost var isNot, last := |ts| == 4, |ts| - 1;
    ghost var e := Binary(if isNot then TOKEN_NEQ else TOKEN_EQ, Name(ts, 0), Name(ts, last));
    KindsAre(ts, Kinds(ts));
    NamePrints(ts, 0, POSTFIX, sp);
    NamePrints(ts, last, PRIMARY, sp);
    ghost var right := Print(PRIMARY, e.right, sp);
    if isNot {
      WordJoin(ts, 2, KW_NOT, right);
    } else {
      assert Words(false, KW_NOT) + right == right;
    }
    WordJoin(ts, 1, KW_IS, Words(isNot, KW_NOT) + right);
    SpellsJoin(ts, 0, Print(POSTFIX, e.left, sp), Tail(e, sp));
    r := ParseAll(ts, e, sp);
  }

  // ----- Primary expressions -----

  method ParseCaseWhen(ts: seq<Token>, floatOk: string -> bool) returns (r: Result<Expr>)
    requires Kinds(ts) ==
             [KW_CASE, TOKEN_IDENT, KW_WHEN, TOKEN_IDENT, KW_THEN, TOKEN_IDENT, KW_ELSE, TOKEN_IDENT, KW_END]
    ensures r == Ok(Case(Some(Name(ts, 1)), [When(Name(ts, 3), Name(ts, 5))], Some(Name(ts, 7))))
  {
    var sp := PlainSpelling(floatOk);
    ghost var e := Case(Some(Name(ts, 1)), [When(Name(ts, 3), Name(ts, 5))], Some(Name(ts, 7)));
    KindsAre(ts, [KW_CASE, TOKEN_IDENT, KW_WHEN, TOKEN_IDENT, KW_THEN, TOKEN_IDENT, KW_ELSE, TOKEN_IDENT, KW_END]);
    CaseSpells(ts, e, sp);
    r := ParseAll(ts, e, sp);
  }

  lemma CaseSpells(ts: seq<Token>, e: Expr, sp: Spelling)
    requires |ts| == 9 && IsPlain(sp) && ts[0].kind == KW_CASE && ts[2].kind == KW_WHEN && ts[4].kind == KW_THEN
    requires ts[6].kind == KW_ELSE && ts[8].kind == KW_END
    requires ts[1].kind == ts[3].kind == ts[5].kind == ts[7].kind == TOKEN_IDENT
    requires e == Case(Some(Name(ts, 1)), [When(Name(ts, 3), Name(ts, 5))], Some(Name(ts, 7)))
    ensures PrintableAt(0, e, sp) && Spells(ts, 0, Body(e, sp)) && |Body(e, sp)| == 9
  {
    NamePrints(ts, 1, 0, sp);
    OptSpells(ts, 6, KW_ELSE, sp);
    WhenSpells(ts, e.whens[0], sp);
    CaseJoins(ts, PrintBase(e.base, sp), PrintWhens(e.whens, sp), PrintOpt(KW_ELSE, e.els, sp));
    CasePrints(e, sp);
  }

  lemma CasePrints(e: Expr, sp: Spelling)
    requires e.Case?
    ensures Body(e, sp) ==
            [Word(KW_CASE)]
            + (PrintBase(e.base, sp) + (PrintWhens(e.whens, sp) + (PrintOpt(KW_ELSE, e.els, sp) + [Word(KW_END)])))
  {
  }

  lemma CaseJoins(ts: seq<Token>, base: seq<Symbol>, whens: seq<Symbol>, els: seq<Symbol>)
    requires |ts| == 9 && ts[0].kind == KW_CASE && ts[8].kind == KW_END && |base| == 1 && |whens| == 4 && |els| == 2
    requires Spells(ts, 1, base) && Spells(ts, 2, whens) && Spells(ts, 6, els)
    ensures Spells(ts, 0, [Word(KW_CASE)] + (base + (whens + (els + [Word(KW_END)]))))
  {
    WordSpells(ts, 8, KW_END);
    SpellsJoin(ts, 6, els, [Word(KW_END)]);
    SpellsJoin(ts, 2, whens, els + [Word(KW_END)]);
    SpellsJoin(ts, 1, base, whens + (els + [Word(KW_END)]));
    WordJoin(ts, 0, KW_CASE, base + (whens + (els + [Word(KW_END)])));
  }

  lemma WhenSpells(ts: seq<Token>, w: When, sp: Spelling)
    requires |ts| == 9 && KindAt(ts, 2) == KW_WHEN && KindAt(ts, 4) == KW_THEN && w == When(Name(ts, 3), Name(ts, 5))
    requires ts[3].kind == ts[5].kind == TOKEN_IDENT && IsPlain(sp)
    ensures PrintableWhen(w, sp) && Spells(ts, 2, PrintWhens([w], sp)) && |PrintWhens([w], sp)| == 4
  {
    NamePrints(ts, 3, 0, sp);
    NamePrints(ts, 5, 0, sp);
    var cond, result := Print(0, w.cond, sp), Print(0, w.result, sp);
    WordJoin(ts, 4, KW_THEN, result);
    SpellsJoin(ts, 3, cond, [Word(KW_THEN)] + result);
    WordJoin(ts, 2, KW_WHEN, cond + ([Word(KW_THEN)] + result));
    OneWhen(w, sp);
  }

  lemma OneWhen(w: When, sp: Spelling)
    ensures PrintWhens([w], sp) ==
            [Word(KW_WHEN)] + (Print(0, w.cond, sp) + ([Word(KW_THEN)] + Print(0, w.result, sp)))
  {
    assert [w][1..] == [] && PrintWhens([], sp) == [];
    assert PrintWhen(w, sp) + [] == PrintWhen(w, sp);
  }

  method ParseCastAs(ts: seq<Token>, floatOk: string -> bool) returns (r: Result<Expr>)
    requires Kinds(ts) == [KW_CAST, TOKEN_LPAREN, TOKEN_IDENT, KW_AS, TOKEN_IDENT, TOKEN_RPAREN]
    requires !IsWord(ts[4].text, "UNSIGNED")
    ensures r == Ok(Cast(Name(ts, 2), ts[4].text))
  {
    var sp := PlainSpelling(floatOk);
    ghost var e := Cast(Name(ts, 2), ts[4].text);
    KindsAre(ts, [KW_CAST, TOKEN_LPAREN, TOKEN_IDENT, KW_AS, TOKEN_IDENT, TOKEN_RPAREN]);
    NamePrints(ts, 2, 0, sp);
    ghost var x, t := Print(0, e.operand, sp), [Lexeme(TOKEN_IDENT, ts[4].text)];
    assert Spells(ts, 4, t);
    WordSpells(ts, 5, TOKEN_RPAREN);
    SpellsJoin(ts, 4, t, [Word(TOKEN_RPAREN)]);
    WordJoin(ts, 3, KW_AS, t + [Word(TOKEN_RPAREN)]);
    SpellsJoin(ts, 2, x, [Word(KW_AS)] + (t + [Word(TOKEN_RPAREN)]));
    WordJoin(ts, 1, TOKEN_LPAREN, x + ([Word(KW_AS)] + (t + [Word(TOKEN_RPAREN)])));
    WordJoin(ts, 0, KW_CAST, [Word(TOKEN_LPAREN)] + (x + ([Word(KW_AS)] + (t + [Word(TOKEN_RPAREN)]))));
    assert Body(e, sp) == [Word(KW_CAST)] + ([Word(TOKEN_LPAREN)] + (x + ([Word(KW_AS)] + (t + [Word(TOKEN_RPAREN)]))));
    r := ParseAll(ts, e, sp);
  }

  method ParseCall(ts: seq<Token>, floatOk: string -> bool) returns (r: Result<Expr>)
    requires Kinds(ts) ==
             [TOKEN_IDENT, TOKEN_LPAREN, KW_DISTINCT, TOKEN_IDENT, TOKEN_COMMA, TOKEN_IDENT, TOKEN_RPAREN]
    ensures r == Ok(Func(ts[0].text, [Name(ts, 3), Name(ts, 5)], true, false))
  {
    var sp := PlainSpelling(floatOk);
    ghost var e := Func(ts[0].text, [Name(ts, 3), Name(ts, 5)], true, false);
    KindsAre(ts, [TOKEN_IDENT, TOKEN_LPAREN, KW_DISTINCT, TOKEN_IDENT, TOKEN_COMMA, TOKEN_IDENT, TOKEN_RPAREN]);
    PairSpells(ts, 3, sp);
    ghost var f, list := [Lexeme(TOKEN_IDENT, ts[0].text)], PrintList(e.args, sp);
    assert Spells(ts, 0, f);
    WordSpells(ts, 6, TOKEN_RPAREN);
    SpellsJoin(ts, 3, list, [Word(TOKEN_RPAREN)]);
    WordJoin(ts, 2, KW_DISTINCT, list + [Word(TOKEN_RPAREN)]);
    ghost var inner := [Word(KW_DISTINCT)] + (list + [Word(TOKEN_RPAREN)]);
    assert Words(false, TOKEN_STAR) + inner == inner;
    WordJoin(ts, 1, TOKEN_LPAREN, inner);
    SpellsJoin(ts, 0, f, [Word(TOKEN_LPAREN)] + inner);
    assert Body(e, sp) == f + ([Word(TOKEN_LPAREN)] + (Words(false, TOKEN_STAR) + inner));
    r := ParseAll(ts, e, sp);
  }

  method ParseQualified(ts: seq<Token>, floatOk: string -> bool) returns (r: Result<Expr>)
    requires Kinds(ts) == [TOKEN_IDENT, TOKEN_DOT, TOKEN_IDENT] && |ts[0].text| > 0
    ensures r == Ok(Ident(ts[0].text, ts[2].text))
  {
    var sp := PlainSpelling(floatOk);
    ghost var e := Ident(ts[0].text, ts[2].text);
    KindsAre(ts, [TOKEN_IDENT, TOKEN_DOT, TOKEN_IDENT]);
    ghost var table, name := [Lexeme(TOKEN_IDENT, ts[0].text)], [Lexeme(TOKEN_IDENT, ts[2].text)];
    assert Spells(ts, 0, table) && Spells(ts, 2, name);
    WordJoin(ts, 1, TOKEN_DOT, name);
    SpellsJoin(ts, 0, table, [Word(TOKEN_DOT)] + name);
    assert Body(e, sp) == table + ([Word(TOKEN_DOT)] + name);
    r := ParseAll(ts, e, sp);
  }

  // ----- SELECT -----

  /** A name stands at i, to be printed where any name may. */
  lemma LexemeSpells(ts: seq<Token>, i: nat)
    requires i < |ts| && ts[i].kind == TOKEN_IDENT
    ensures Spells(ts, i, [Lexeme(TOKEN_IDENT, ts[i].text)])
  {
  }

  /** Names are plain identifiers; AS stands before an alias, LEFT without OUTER, INNER before JOIN,
      and ASC where NULLS does not follow. */
  ghost predicate IsWritten(sp: Spelling) {
    && IsPlain(sp) && (forall name :: sp.name(name) == TOKEN_IDENT && !sp.bare(name))
    && (forall j :: !sp.plain(j) && !sp.outer(j)) && (forall cs :: !sp.all(cs))
    && forall o :: sp.asc(o) == o.nulls.NullsDefault?
  }

  /** The kinds of tokens from i on. */
  ghost predicate KindsFrom(ts: seq<Token>, i: nat, ks: seq<Kind>) {
    i + |ks| <= |ts| && forall j {:trigger ks[j]} :: 0 <= j < |ks| ==> ts[i + j].kind == ks[j]
  }

  /** SELECT DISTINCT a AS b, c FROM d AS e, f LEFT JOIN g ON h INNER JOIN i USING (j, k) WHERE l
      GROUP BY m, n HAVING o ORDER BY p DESC NULLS LAST, q ASC, r NULLS FIRST LIMIT s OFFSET t */
  ghost predicate IsFullSelect(ts: seq<Token>) {
    && |ts| == 53 && KindsFrom(ts, 0, [KW_SELECT, KW_DISTINCT])
    && KindsFrom(ts, 2, [TOKEN_IDENT, KW_AS, TOKEN_IDENT, TOKEN_COMMA, TOKEN_IDENT])
    && KindsFrom(ts, 7, [KW_FROM])
    && KindsFrom(ts, 8, [TOKEN_IDENT, KW_AS, TOKEN_IDENT, TOKEN_COMMA, TOKEN_IDENT])
    && KindsFrom(ts, 13, [KW_LEFT, KW_JOIN, TOKEN_IDENT, KW_ON, TOKEN_IDENT])
    && KindsFrom(ts, 18, [KW_INNER, KW_JOIN, TOKEN_IDENT, KW_USING, TOKEN_LPAREN, TOKEN_IDENT, TOKEN_COMMA,
                          TOKEN_IDENT, TOKEN_RPAREN])
    && KindsFrom(ts, 27, [KW_WHERE, TOKEN_IDENT])
    && KindsFrom(ts, 29, [KW_GROUP, KW_BY, TOKEN_IDENT, TOKEN_COMMA, TOKEN_IDENT])
    && KindsFrom(ts, 34, [KW_HAVING, TOKEN_IDENT])
    && KindsFrom(ts, 36, [KW_ORDER, KW_BY])
    && KindsFrom(ts, 38, [TOKEN_IDENT, KW_DESC, KW_NULLS, KW_LAST, TOKEN_COMMA, TOKEN_IDENT, KW_ASC, TOKEN_COMMA,
                          TOKEN_IDENT, KW_NULLS, KW_FIRST])
    && KindsFrom(ts, 49, [KW_LIMIT, TOKEN_IDENT])
    && KindsFrom(ts, 51, [KW_OFFSET, TOKEN_IDENT])
    && |ts[4].text| > 0 && |ts[10].text| > 0
  }

  /** What it means. */
  ghost function FullSelect(ts: seq<Token>): Select
    requires |ts| == 53
  {
    Select(true, [Column(Name(ts, 2), ts[4].text), Column(Name(ts, 6), "")],
           [TableRef(ts[8].text, ts[10].text), TableRef(ts[12].text, "")],
           [Join(KW_LEFT, TableRef(ts[15].text, ""), Some(Name(ts, 17)), []),
            Join(KW_INNER, TableRef(ts[20].text, ""), None, [ts[23].text, ts[25].text])],
           Some(Name(ts, 28)), [Name(ts, 31), Name(ts, 33)], Some(Name(ts, 35)), None,
           [Ordering(Name(ts, 38), true, NullsLast), Ordering(Name(ts, 43), false, NullsDefault),
            Ordering(Name(ts, 46), false, NullsFirst)],
           Some(Name(ts, 50)), Some(Name(ts, 52)))
  }

  /** A column with AS, and a plain one. */
  lemma ColumnsSpell(ts: seq<Token>, i: nat, sp: Spelling)
    requires IsWritten(sp) && KindsFrom(ts, i, [TOKEN_IDENT, KW_AS, TOKEN_IDENT, TOKEN_COMMA, TOKEN_IDENT])
    requires |ts[i + 2].text| > 0
    ensures var cs := [Column(Name(ts, i), ts[i + 2].text), Column(Name(ts, i + 4), "")];
            && Spells(ts, i, PrintColumns(cs, sp)) && |PrintColumns(cs, sp)| == 5
            && forall j :: 0 <= j < 2 ==> PrintableColumn(cs[j], sp)
  {
    var ks := [TOKEN_IDENT, KW_AS, TOKEN_IDENT, TOKEN_COMMA, TOKEN_IDENT];
    assert ks[0] == ts[i].kind && ks[1] == ts[i + 1].kind && ks[2] == ts[i + 2].kind;
    assert ks[3] == ts[i + 3].kind && ks[4] == ts[i + 4].kind;
    var cs := [Column(Name(ts, i), ts[i + 2].text), Column(Name(ts, i + 4), "")];
    NamePrints(ts, i, 0, sp);
    NamePrints(ts, i + 4, 0, sp);
    AliasSpells(ts, i + 1, sp);
    SpellsJoin(ts, i, Print(0, cs[0].expr, sp), PrintAlias(cs[0].alias, sp));
    var last := Print(0, cs[1].expr, sp);
    assert cs[1..] == [cs[1]] && cs[1..][1..] == [] && MoreColumns([], sp) == [];
    assert PrintColumn(cs[1], sp) == last + [] == last;
    assert MoreColumns(cs[1..], sp) == [Word(TOKEN_COMMA)] + (last + []) == [Word(TOKEN_COMMA)] + last;
    WordJoin(ts, i + 3, TOKEN_COMMA, last);
    SpellsJoin(ts, i, PrintColumn(cs[0], sp), MoreColumns(cs[1..], sp));
  }

  lemma AliasSpells(ts: seq<Token>, i: nat, sp: Spelling)
    requires IsWritten(sp) && i + 1 < |ts| && ts[i].kind == KW_AS && ts[i + 1].kind == TOKEN_IDENT
    requires |ts[i + 1].text| > 0
    ensures Spells(ts, i, PrintAlias(ts[i + 1].text, sp)) && |PrintAlias(ts[i + 1].text, sp)| == 2
  {
    LexemeSpells(ts, i + 1);
    WordJoin(ts, i, KW_AS, [Lexeme(TOKEN_IDENT, ts[i + 1].text)]);
  }

  lemma TablesSpell(ts: seq<Token>, i: nat, sp: Spelling)
    requires IsWritten(sp) && KindsFrom(ts, i, [TOKEN_IDENT, KW_AS, TOKEN_IDENT, TOKEN_COMMA, TOKEN_IDENT])
    requires |ts[i + 2].text| > 0
    ensures var refs := [TableRef(ts[i].text, ts[i + 2].text), TableRef(ts[i + 4].text, "")];
            Spells(ts, i, PrintRefs(refs, sp)) && |PrintRefs(refs, sp)| == 5
  {
    var ks := [TOKEN_IDENT, KW_AS, TOKEN_IDENT, TOKEN_COMMA, TOKEN_IDENT];
    assert ks[0] == ts[i].kind && ks[1] == ts[i + 1].kind && ks[2] == ts[i + 2].kind;
    assert ks[3] == ts[i + 3].kind && ks[4] == ts[i + 4].kind;
    var refs := [TableRef(ts[i].text, ts[i + 2].text), TableRef(ts[i + 4].text, "")];
    LexemeSpells(ts, i);
    AliasSpells(ts, i + 1, sp);
    SpellsJoin(ts, i, [Lexeme(TOKEN_IDENT, ts[i].text)], PrintAlias(refs[0].alias, sp));
    TableSpells(ts, i + 4, sp);
    var last := PrintRef(refs[1], sp);
    assert refs[1..] == [refs[1]] && refs[1..][1..] == [] && MoreRefs([], sp) == [];
    assert MoreRefs(refs[1..], sp) == [Word(TOKEN_COMMA)] + (last + []) == [Word(TOKEN_COMMA)] + last;
    WordJoin(ts, i + 3, TOKEN_COMMA, last);
    SpellsJoin(ts, i, PrintRef(refs[0], sp), MoreRefs(refs[1..], sp));
  }

  /** A table without an alias. */
  lemma TableSpells(ts: seq<Token>, i: nat, sp: Spelling)
    requires IsWritten(sp) && i < |ts| && ts[i].kind == TOKEN_IDENT
    ensures var t := TableRef(ts[i].text, ""); Spells(ts, i, PrintRef(t, sp)) && |PrintRef(t, sp)| == 1
  {
    var name := [Lexeme(TOKEN_IDENT, ts[i].text)];
    LexemeSpells(ts, i);
    assert PrintRef(TableRef(ts[i].text, ""), sp) == name + [] == name;
  }

  lemma JoinWordsSpell(ts: seq<Token>, i: nat, j: Join, sp: Spelling)
    requires IsWritten(sp) && i + 1 < |ts| && ts[i].kind == j.how && ts[i + 1].kind == KW_JOIN
    ensures Spells(ts, i, JoinWords(j, sp)) && |JoinWords(j, sp)| == 2
  {
    WordSpells(ts, i + 1, KW_JOIN);
    WordJoin(ts, i, j.how, [Word(KW_JOIN)]);
    assert Words(false, KW_OUTER) + [Word(KW_JOIN)] == [Word(KW_JOIN)];
  }

  lemma OnSpells(ts: seq<Token>, i: nat, sp: Spelling)
    requires IsWritten(sp) && KindsFrom(ts, i, [KW_LEFT, KW_JOIN, TOKEN_IDENT, KW_ON, TOKEN_IDENT])
    ensures var j := Join(KW_LEFT, TableRef(ts[i + 2].text, ""), Some(Name(ts, i + 4)), []);
            PrintableJoin(j, sp) && Spells(ts, i, PrintJoin(j, sp)) && |PrintJoin(j, sp)| == 5
  {
    var ks := [KW_LEFT, KW_JOIN, TOKEN_IDENT, KW_ON, TOKEN_IDENT];
    assert ks[0] == ts[i].kind && ks[1] == ts[i + 1].kind && ks[2] == ts[i + 2].kind;
    assert ks[3] == ts[i + 3].kind && ks[4] == ts[i + 4].kind;
    var j := Join(KW_LEFT, TableRef(ts[i + 2].text, ""), Some(Name(ts, i + 4)), []);
    JoinWordsSpell(ts, i, j, sp);
    TableSpells(ts, i + 2, sp);
    OptSpells(ts, i + 3, KW_ON, sp);
    var on := PrintOpt(KW_ON, j.on, sp);
    assert PrintUsing([], sp) == [] && on + [] == on;
    SpellsJoin(ts, i + 2, PrintRef(j.table, sp), on);
    SpellsJoin(ts, i, JoinWords(j, sp), PrintRef(j.table, sp) + on);
    assert PrintJoin(j, sp) == JoinWords(j, sp) + (PrintRef(j.table, sp) + (on + []));
  }

  /** A keyword and a name. */
  lemma OptSpells(ts: seq<Token>, i: nat, k: Kind, sp: Spelling)
    requires IsPlain(sp) && i + 1 < |ts| && ts[i].kind == k && ts[i + 1].kind == TOKEN_IDENT
    ensures var e := Some(Name(ts, i + 1));
            PrintableOpt(e, sp) && Spells(ts, i, PrintOpt(k, e, sp)) && |PrintOpt(k, e, sp)| == 2
  {
    NamePrints(ts, i + 1, 0, sp);
    WordJoin(ts, i, k, Print(0, Name(ts, i + 1), sp));
  }

  lemma UsingSpells(ts: seq<Token>, i: nat, sp: Spelling)
    requires IsWritten(sp)
    requires KindsFrom(ts, i, [KW_INNER, KW_JOIN, TOKEN_IDENT, KW_USING, TOKEN_LPAREN, TOKEN_IDENT, TOKEN_COMMA,
                               TOKEN_IDENT, TOKEN_RPAREN])
    ensures var j := Join(KW_INNER, TableRef(ts[i + 2].text, ""), None, [ts[i + 5].text, ts[i + 7].text]);
            PrintableJoin(j, sp) && Spells(ts, i, PrintJoin(j, sp)) && |PrintJoin(j, sp)| == 9
  {
    var ks := [KW_INNER, KW_JOIN, TOKEN_IDENT, KW_USING, TOKEN_LPAREN, TOKEN_IDENT, TOKEN_COMMA, TOKEN_IDENT,
               TOKEN_RPAREN];
    assert ks[0] == ts[i].kind && ks[1] == ts[i + 1].kind && ks[2] == ts[i + 2].kind && ks[3] == ts[i + 3].kind;
    assert ks[4] == ts[i + 4].kind && ks[5] == ts[i + 5].kind && ks[6] == ts[i + 6].kind;
    assert ks[7] == ts[i + 7].kind && ks[8] == ts[i + 8].kind;
    var j := Join(KW_INNER, TableRef(ts[i + 2].text, ""), None, [ts[i + 5].text, ts[i + 7].text]);
    JoinWordsSpell(ts, i, j, sp);
    TableSpells(ts, i + 2, sp);
    NamesSpell(ts, i + 5, sp);
    var names := PrintNames(j.using, sp);
    BracketsSpell(ts, i + 4, names);
    WordJoin(ts, i + 3, KW_USING, [Word(TOKEN_LPAREN)] + (names + [Word(TOKEN_RPAREN)]));
    var using := PrintUsing(j.using, sp);
    assert PrintOpt(KW_ON, None, sp) == [] && [] + using == using;
    SpellsJoin(ts, i + 2, PrintRef(j.table, sp), using);
    SpellsJoin(ts, i, JoinWords(j, sp), PrintRef(j.table, sp) + using);
    assert PrintJoin(j, sp) == JoinWords(j, sp) + (PrintRef(j.table, sp) + ([] + using));
  }

  lemma NamesSpell(ts: seq<Token>, i: nat, sp: Spelling)
    requires IsWritten(sp) && i + 2 < |ts| && ts[i].kind == ts[i + 2].kind == TOKEN_IDENT
             && ts[i + 1].kind == TOKEN_COMMA
    ensures var names := [ts[i].text, ts[i + 2].text];
            Spells(ts, i, PrintNames(names, sp)) && |PrintNames(names, sp)| == 3
  {
    var names := [ts[i].text, ts[i + 2].text];
    var first, last := [Lexeme(TOKEN_IDENT, names[0])], [Lexeme(TOKEN_IDENT, names[1])];
    LexemeSpells(ts, i);
    LexemeSpells(ts, i + 2);
    assert names[1..] == [names[1]] && names[1..][1..] == [] && MoreNames([], sp) == [];
    assert MoreNames(names[1..], sp) == [Word(TOKEN_COMMA)] + (last + []) == [Word(TOKEN_COMMA)] + last;
    WordJoin(ts, i + 1, TOKEN_COMMA, last);
    SpellsJoin(ts, i, first, MoreNames(names[1..], sp));
  }

  /** Three orderings: with DESC and NULLS LAST, with ASC, with NULLS FIRST. */
  lemma OrderingsSpell(ts: seq<Token>, i: nat, sp: Spelling)
    requires IsWritten(sp)
    requires KindsFrom(ts, i, [TOKEN_IDENT, KW_DESC, KW_NULLS, KW_LAST, TOKEN_COMMA, TOKEN_IDENT, KW_ASC, TOKEN_COMMA,
                               TOKEN_IDENT, KW_NULLS, KW_FIRST])
    ensures var list := [Ordering(Name(ts, i), true, NullsLast), Ordering(Name(ts, i + 5), false, NullsDefault),
                         Ordering(Name(ts, i + 8), false, NullsFirst)];
            && Spells(ts, i, PrintOrderings(list, sp)) && |PrintOrderings(list, sp)| == 11
            && forall j :: 0 <= j < 3 ==> PrintableOrdering(list[j], sp)
  {
    var ks := [TOKEN_IDENT, KW_DESC, KW_NULLS, KW_LAST, TOKEN_COMMA, TOKEN_IDENT, KW_ASC, TOKEN_COMMA, TOKEN_IDENT,
               KW_NULLS, KW_FIRST];
    assert ks[0] == ts[i].kind && ks[1] == ts[i + 1].kind && ks[2] == ts[i + 2].kind && ks[3] == ts[i + 3].kind;
    assert ks[4] == ts[i + 4].kind && ks[5] == ts[i + 5].kind && ks[6] == ts[i + 6].kind && ks[7] == ts[i + 7].kind;
    assert ks[8] == ts[i + 8].kind && ks[9] == ts[i + 9].kind && ks[10] == ts[i + 10].kind;
    EachOrderingSpells(ts, i, sp);
    var a, b := Ordering(Name(ts, i), true, NullsLast), Ordering(Name(ts, i + 5), false, NullsDefault);
    var c := Ordering(Name(ts, i + 8), false, NullsFirst);
    var x, y, z := PrintOrdering(a, sp), PrintOrdering(b, sp), PrintOrdering(c, sp);
    WordJoin(ts, i + 7, TOKEN_COMMA, z);
    SpellsJoin(ts, i + 5, y, [Word(TOKEN_COMMA)] + z);
    WordJoin(ts, i + 4, TOKEN_COMMA, y + ([Word(TOKEN_COMMA)] + z));
    SpellsJoin(ts, i, x, [Word(TOKEN_COMMA)] + (y + ([Word(TOKEN_COMMA)] + z)));
    ThreeOrderings(a, b, c, sp);
  }

  lemma EachOrderingSpells(ts: seq<Token>, i: nat, sp: Spelling)
    requires IsWritten(sp) && i + 10 < |ts|
    requires ts[i].kind == ts[i + 5].kind == ts[i + 8].kind == TOKEN_IDENT && ts[i + 1].kind == KW_DESC
    requires ts[i + 2].kind == ts[i + 9].kind == KW_NULLS && ts[i + 3].kind == KW_LAST
    requires ts[i + 6].kind == KW_ASC && ts[i + 10].kind == KW_FIRST
    ensures var o := Ordering(Name(ts, i), true, NullsLast);
            PrintableOrdering(o, sp) && Spells(ts, i, PrintOrdering(o, sp)) && |PrintOrdering(o, sp)| == 4
    ensures var o := Ordering(Name(ts, i + 5), false, NullsDefault);
            PrintableOrdering(o, sp) && Spells(ts, i + 5, PrintOrdering(o, sp)) && |PrintOrdering(o, sp)| == 2
    ensures var o := Ordering(Name(ts, i + 8), false, NullsFirst);
            PrintableOrdering(o, sp) && Spells(ts, i + 8, PrintOrdering(o, sp)) && |PrintOrdering(o, sp)| == 3
  {
    NamePrints(ts, i, 0, sp);
    NamePrints(ts, i + 5, 0, sp);
    NamePrints(ts, i + 8, 0, sp);
    var a, b := Ordering(Name(ts, i), true, NullsLast), Ordering(Name(ts, i + 5), false, NullsDefault);
    var c := Ordering(Name(ts, i + 8), false, NullsFirst);
    OrderingSpells(ts, i, a, [Word(KW_DESC)], [Word(KW_NULLS), Word(KW_LAST)], sp);
    OrderingSpells(ts, i + 5, b, [Word(KW_ASC)], [], sp);
    OrderingSpells(ts, i + 8, c, [], [Word(KW_NULLS), Word(KW_FIRST)], sp);
  }

  lemma OrderingSpells(ts: seq<Token>, i: nat, o: Ordering, d: seq<Symbol>, n: seq<Symbol>, sp: Spelling)
    requires d == PrintDirection(o, sp) && n == PrintNulls(o.nulls)
    requires Spells(ts, i, Print(0, o.expr, sp)) && |Print(0, o.expr, sp)| == 1
    requires Spells(ts, i + 1, d) && Spells(ts, i + 1 + |d|, n)
    ensures Spells(ts, i, PrintOrdering(o, sp)) && |PrintOrdering(o, sp)| == 1 + |d| + |n|
  {
    SpellsJoin(ts, i + 1, d, n);
    SpellsJoin(ts, i, Print(0, o.expr, sp), d + n);
  }

  lemma ThreeOrderings(a: Ordering, b: Ordering, c: Ordering, sp: Spelling)
    ensures PrintOrderings([a, b, c], sp) ==
            PrintOrdering(a, sp)
            + ([Word(TOKEN_COMMA)] + (PrintOrdering(b, sp) + ([Word(TOKEN_COMMA)] + PrintOrdering(c, sp))))
  {
    assert [a, b, c][1..] == [b, c] && [b, c][1..] == [c] && [c][1..] == [] && MoreOrderings([], sp) == [];
    assert PrintOrdering(c, sp) + [] == PrintOrdering(c, sp);
    assert MoreOrderings([c], sp) == [Word(TOKEN_COMMA)] + PrintOrdering(c, sp);
    assert MoreOrderings([b, c], sp) == [Word(TOKEN_COMMA)] + (PrintOrdering(b, sp) + MoreOrderings([c], sp));
  }

  lemma FromSpells(ts: seq<Token>, q: Select, sp: Spelling)
    requires IsFullSelect(ts) && IsWritten(sp) && q == FullSelect(ts)
    ensures Spells(ts, 7, PrintFrom(q.from, q.joins, sp)) && |PrintFrom(q.from, q.joins, sp)| == 20
    ensures forall j :: 0 <= j < 2 ==> PrintableJoin(q.joins[j], sp)
  {
    TablesSpell(ts, 8, sp);
    OnSpells(ts, 13, sp);
    UsingSpells(ts, 18, sp);
    TwoJoins(q.joins[0], q.joins[1], sp);
    SpellsJoin(ts, 13, PrintJoin(q.joins[0], sp), PrintJoin(q.joins[1], sp));
    SpellsJoin(ts, 8, PrintRefs(q.from, sp), PrintJoins(q.joins, sp));
    assert ts[7].kind == [KW_FROM][0];
    WordJoin(ts, 7, KW_FROM, PrintRefs(q.from, sp) + PrintJoins(q.joins, sp));
  }

  lemma TwoJoins(a: Join, b: Join, sp: Spelling)
    ensures PrintJoins([a, b], sp) == PrintJoin(a, sp) + PrintJoin(b, sp)
  {
    assert [a, b][1..] == [b] && [b][1..] == [] && PrintJoins([], sp) == [];
    assert PrintJoins([b], sp) == PrintJoin(b, sp) + [] == PrintJoin(b, sp);
  }

  /** WHERE, GROUP BY and HAVING. */
  lemma MiddleSpells(ts: seq<Token>, q: Select, sp: Spelling)
    requires IsFullSelect(ts) && IsWritten(sp) && q == FullSelect(ts)
    ensures Spells(ts, 27, PrintOpt(KW_WHERE, q.where, sp)) && |PrintOpt(KW_WHERE, q.where, sp)| == 2
    ensures Spells(ts, 29, PrintGroupBy(q.groupBy, sp)) && |PrintGroupBy(q.groupBy, sp)| == 5
    ensures Spells(ts, 34, PrintOpt(KW_HAVING, q.having, sp)) && |PrintOpt(KW_HAVING, q.having, sp)| == 2
    ensures PrintableOpt(q.where, sp) && PrintableList(q.groupBy, sp) && PrintableOpt(q.having, sp)
  {
    assert [KW_WHERE, TOKEN_IDENT][0] == ts[27].kind && [KW_WHERE, TOKEN_IDENT][1] == ts[28].kind;
    assert [KW_HAVING, TOKEN_IDENT][0] == ts[34].kind && [KW_HAVING, TOKEN_IDENT][1] == ts[35].kind;
    var ks := [KW_GROUP, KW_BY, TOKEN_IDENT, TOKEN_COMMA, TOKEN_IDENT];
    assert ks[0] == ts[29].kind && ks[1] == ts[30].kind && ks[2] == ts[31].kind && ks[3] == ts[32].kind;
    assert ks[4] == ts[33].kind;
    OptSpells(ts, 27, KW_WHERE, sp);
    OptSpells(ts, 34, KW_HAVING, sp);
    PairSpells(ts, 31, sp);
    WordJoin(ts, 30, KW_BY, PrintList(q.groupBy, sp));
    WordJoin(ts, 29, KW_GROUP, [Word(KW_BY)] + PrintList(q.groupBy, sp));
  }

  /** ORDER BY, LIMIT and OFFSET. */
  lemma LastSpells(ts: seq<Token>, q: Select, sp: Spelling)
    requires IsFullSelect(ts) && IsWritten(sp) && q == FullSelect(ts)
    ensures Spells(ts, 36, PrintOrderBy(q.orderBy, sp)) && |PrintOrderBy(q.orderBy, sp)| == 13
    ensures Spells(ts, 49, PrintOpt(KW_LIMIT, q.limit, sp)) && |PrintOpt(KW_LIMIT, q.limit, sp)| == 2
    ensures Spells(ts, 51, PrintOpt(KW_OFFSET, q.offset, sp)) && |PrintOpt(KW_OFFSET, q.offset, sp)| == 2
    ensures (forall j :: 0 <= j < 3 ==> PrintableOrdering(q.orderBy[j], sp))
            && PrintableOpt(q.limit, sp) && PrintableOpt(q.offset, sp)
  {
    assert [KW_LIMIT, TOKEN_IDENT][0] == ts[49].kind && [KW_LIMIT, TOKEN_IDENT][1] == ts[50].kind;
    assert [KW_OFFSET, TOKEN_IDENT][0] == ts[51].kind && [KW_OFFSET, TOKEN_IDENT][1] == ts[52].kind;
    assert [KW_ORDER, KW_BY][0] == ts[36].kind && [KW_ORDER, KW_BY][1] == ts[37].kind;
    OptSpells(ts, 49, KW_LIMIT, sp);
    OptSpells(ts, 51, KW_OFFSET, sp);
    OrderingsSpell(ts, 38, sp);
    WordJoin(ts, 37, KW_BY, PrintOrderings(q.orderBy, sp));
    WordJoin(ts, 36, KW_ORDER, [Word(KW_BY)] + PrintOrderings(q.orderBy, sp));
  }

  /** One more clause in front of those printed behind it. */
  lemma ClauseJoins(ts: seq<Token>, i: nat, j: nat, q: Select, clause: seq<Symbol>, n: nat, sp: Spelling)
    requires j < 8 && clause == Clause(j, q, sp) && Spells(ts, i, clause)
    requires Spells(ts, i + |clause|, Clauses(j + 1, q, sp)) && n == |clause| + |Clauses(j + 1, q, sp)|
    ensures Spells(ts, i, Clauses(j, q, sp)) && |Clauses(j, q, sp)| == n
  {
    SpellsJoin(ts, i, clause, Clauses(j + 1, q, sp));
  }

  lemma ClausesSpell(ts: seq<Token>, q: Select, sp: Spelling)
    requires IsFullSelect(ts) && IsWritten(sp) && q == FullSelect(ts)
    ensures Spells(ts, 7, Clauses(0, q, sp)) && |Clauses(0, q, sp)| == 46
  {
    FromSpells(ts, q, sp);
    MiddleSpells(ts, q, sp);
    LateClausesSpell(ts, q, sp);
    ClauseJoins(ts, 34, 3, q, PrintOpt(KW_HAVING, q.having, sp), 19, sp);
    ClauseJoins(ts, 29, 2, q, PrintGroupBy(q.groupBy, sp), 24, sp);
    ClauseJoins(ts, 27, 1, q, PrintOpt(KW_WHERE, q.where, sp), 26, sp);
    ClauseJoins(ts, 7, 0, q, PrintFrom(q.from, q.joins, sp), 46, sp);
  }

  lemma LateClausesSpell(ts: seq<Token>, q: Select, sp: Spelling)
    requires IsFullSelect(ts) && IsWritten(sp) && q == FullSelect(ts)
    ensures Spells(ts, 36, Clauses(4, q, sp)) && |Clauses(4, q, sp)| == 17
  {
    LastSpells(ts, q, sp);
    assert Clauses(8, q, sp) == [];
    ClauseJoins(ts, 51, 7, q, PrintOpt(KW_OFFSET, q.offset, sp), 2, sp);
    ClauseJoins(ts, 49, 6, q, PrintOpt(KW_LIMIT, q.limit, sp), 4, sp);
    ClauseJoins(ts, 36, 5, q, PrintOrderBy(q.orderBy, sp), 17, sp);
    ClauseJoins(ts, 36, 4, q, [], 17, sp);
  }

  lemma SelectSpells(ts: seq<Token>, q: Select, sp: Spelling)
    requires IsFullSelect(ts) && IsWritten(sp) && q == FullSelect(ts)
    ensures PrintableSelect(q, sp) && Spells(ts, 0, PrintSelect(q, sp)) && |PrintSelect(q, sp)| == 53
  {
    assert [KW_SELECT, KW_DISTINCT][0] == ts[0].kind && [KW_SELECT, KW_DISTINCT][1] == ts[1].kind;
    ColumnsSpell(ts, 2, sp);
    FromSpells(ts, q, sp);
    MiddleSpells(ts, q, sp);
    LastSpells(ts, q, sp);
    ClausesSpell(ts, q, sp);
    var columns, clauses := PrintColumns(q.columns, sp), Clauses(0, q, sp);
    SpellsJoin(ts, 2, columns, clauses);
    WordJoin(ts, 1, KW_DISTINCT, columns + clauses);
    WordJoin(ts, 0, KW_SELECT, [Word(KW_DISTINCT)] + (columns + clauses));
  }

  /** A SELECT with every clause but a compound, read part by part. */
  method ParseFullSelect(ts: seq<Token>, floatOk: string -> bool) returns (r: Result<Select>)
    requires IsFullSelect(ts)
    ensures r == Ok(FullSelect(ts))
  {
    var sp := PlainSpelling(floatOk).(asc := (o: Ordering) => o.nulls.NullsDefault?);
    SelectSpells(ts, FullSelect(ts), sp);
    var stopped;
    r, stopped := ParsePrintedSelect(ts, FullSelect(ts), sp);
  }

  // ----- SELECT inside SELECT -----

  /** SELECT and one expression. */
  function Selecting(e: Expr): Select { Select(false, [Column(e, "")], [], [], None, [], None, None, [], None, None) }

  lemma SelectingSpells(ts: seq<Token>, i: nat, sp: Spelling)
    requires IsWritten(sp) && i + 1 < |ts| && ts[i].kind == KW_SELECT && ts[i + 1].kind == TOKEN_IDENT
    ensures var q := Selecting(Name(ts, i + 1));
            PrintableSelect(q, sp) && Spells(ts, i, PrintSelect(q, sp)) && |PrintSelect(q, sp)| == 2
  {
    var e := Name(ts, i + 1);
    var q, x := Selecting(e), Print(0, e, sp);
    NamePrints(ts, i + 1, 0, sp);
    NoClauses(e, q, 0, sp);
    OneColumn(e, sp);
    WordJoin(ts, i, KW_SELECT, x);
    assert [] + (x + []) == x;
    assert PrintSelect(q, sp) == [Word(KW_SELECT)] + ([] + (x + []));
  }

  lemma OneColumn(e: Expr, sp: Spelling)
    ensures PrintColumns([Column(e, "")], sp) == Print(0, e, sp)
  {
    assert [Column(e, "")][1..] == [] && MoreColumns([], sp) == [] && PrintAlias("", sp) == [];
    assert PrintColumn(Column(e, ""), sp) == Print(0, e, sp) + [] == Print(0, e, sp);
  }

  lemma {:induction false} NoClauses(e: Expr, q: Select, j: nat, sp: Spelling)
    requires j <= 8 && q == Selecting(e)
    ensures Clauses(j, q, sp) == []
    decreases 8 - j
  {
    if j < 8 {
      NoClauses(e, q, j + 1, sp);
      assert Clause(j, q, sp) == [];
    }
  }

  /** Two queries with UNION, INTERSECT or EXCEPT between them. */
  method ParseUnionAll(ts: seq<Token>, floatOk: string -> bool) returns (r: Result<Select>)
    requires |ts| == 6 && KindsFrom(ts, 0, [KW_SELECT, TOKEN_IDENT]) && IsCompound(ts[2].kind) && ts[3].kind == KW_ALL
    requires KindsFrom(ts, 4, [KW_SELECT, TOKEN_IDENT])
    ensures r == Ok(Selecting(Name(ts, 1)).(compound := Some(Compound(ts[2].kind, true, Selecting(Name(ts, 5))))))
  {
    var sp := PlainSpelling(floatOk).(asc := (o: Ordering) => o.nulls.NullsDefault?);
    ghost var left, right := Selecting(Name(ts, 1)), Selecting(Name(ts, 5));
    ghost var q := left.(compound := Some(Compound(ts[2].kind, true, right)));
    assert [KW_SELECT, TOKEN_IDENT][0] == ts[0].kind == ts[4].kind;
    assert [KW_SELECT, TOKEN_IDENT][1] == ts[1].kind == ts[5].kind;
    SelectingSpells(ts, 0, sp);
    SelectingSpells(ts, 4, sp);
    CompoundSpells(ts, q, Name(ts, 1), right, sp);
    var stopped;
    r, stopped := ParsePrintedSelect(ts, q, sp);
  }

  lemma CompoundSpells(ts: seq<Token>, q: Select, e: Expr, right: Select, sp: Spelling)
    requires |ts| == 6 && IsCompound(ts[2].kind) && ts[3].kind == KW_ALL
    requires q == Selecting(e).(compound := Some(Compound(ts[2].kind, true, right)))
    requires PrintableSelect(Selecting(e), sp) && Spells(ts, 0, PrintSelect(Selecting(e), sp))
             && |PrintSelect(Selecting(e), sp)| == 2
    requires PrintableSelect(right, sp) && Spells(ts, 4, PrintSelect(right, sp)) && |PrintSelect(right, sp)| == 2
    ensures PrintableSelect(q, sp) && Spells(ts, 0, PrintSelect(q, sp)) && |PrintSelect(q, sp)| == 6
  {
    var left, compound := Selecting(e), PrintCompound(q.compound, sp);
    WordJoin(ts, 3, KW_ALL, PrintSelect(right, sp));
    WordJoin(ts, 2, ts[2].kind, [Word(KW_ALL)] + PrintSelect(right, sp));
    SpellsJoin(ts, 0, PrintSelect(left, sp), compound);
    CompoundPrints(e, q, sp);
  }

  lemma CompoundPrints(e: Expr, q: Select, sp: Spelling)
    requires q == Selecting(e).(compound := q.compound)
    ensures PrintSelect(q, sp) == PrintSelect(Selecting(e), sp) + PrintCompound(q.compound, sp)
  {
    var compound := PrintCompound(q.compound, sp);
    SelectApart(q, sp);
    assert Plain(q) == Selecting(e);
    LastClauses(q, sp);
    assert Clauses(5, q, sp) == [];
    assert compound + [] == compound;
  }

  /** NOT EXISTS behind an operator is one node, and not a NOT over EXISTS. */
  method ParseEqualsNotExists(ts: seq<Token>, floatOk: string -> bool) returns (r: Result<Expr>)
    requires |ts| == 8 && KindsFrom(ts, 0, [TOKEN_IDENT, TOKEN_EQ, KW_NOT, KW_EXISTS, TOKEN_LPAREN])
    requires KindsFrom(ts, 5, [KW_SELECT, TOKEN_IDENT, TOKEN_RPAREN])
    ensures r == Ok(Binary(TOKEN_EQ, Name(ts, 0), Exists(Selecting(Name(ts, 6)), true)))
  {
    var sp := PlainSpelling(floatOk).(asc := (o: Ordering) => o.nulls.NullsDefault?);
    ghost var q := Selecting(Name(ts, 6));
    ghost var e := Binary(TOKEN_EQ, Name(ts, 0), Exists(q, true));
    ghost var ks := [TOKEN_IDENT, TOKEN_EQ, KW_NOT, KW_EXISTS, TOKEN_LPAREN];
    ghost var ls := [KW_SELECT, TOKEN_IDENT, TOKEN_RPAREN];
    assert ks[0] == ts[0].kind && ks[1] == ts[1].kind && ks[2] == ts[2].kind && ks[3] == ts[3].kind;
    assert ks[4] == ts[4].kind && ls[0] == ts[5].kind && ls[1] == ts[6].kind && ls[2] == ts[7].kind;
    NamePrints(ts, 0, COMPARISON, sp);
    SelectingSpells(ts, 5, sp);
    ghost var query := PrintSelect(q, sp);
    BracketsSpell(ts, 4, query);
    ghost var brackets := [Word(TOKEN_LPAREN)] + (query + [Word(TOKEN_RPAREN)]);
    WordJoin(ts, 3, KW_EXISTS, brackets);
    WordJoin(ts, 2, KW_NOT, [Word(KW_EXISTS)] + brackets);
    ghost var right := [Word(KW_NOT)] + ([Word(KW_EXISTS)] + brackets);
    assert Body(e.right, sp) == Prefix(e.right, sp) == right;
    assert Print(4, e.right, sp) == right;
    WordJoin(ts, 1, TOKEN_EQ, right);
    SpellsJoin(ts, 0, Print(COMPARISON, e.left, sp), [Word(TOKEN_EQ)] + right);
    InfixPrints(TOKEN_EQ, e.left, e.right, sp);
    r := ParseAll(ts, e, sp);
  }
}
