/** Facts about printed SELECT statements that the parser relies on. */
module SelectPrinting {
  import opened Wrappers
  import opened Syntax
  import opened Printing

  // ----- The order of the clauses -----

  /** What ends a clause continues nothing before it. */
  lemma RanksApart(k: Kind)
    requires ClauseRank(k) > 0
    ensures Stops(0, k) && k != TOKEN_COMMA && k != KW_AS && k != TOKEN_IDENT && k != KW_ON && k != KW_USING
    ensures k != KW_DESC && k != KW_ASC && k != KW_NULLS && !IsJoinStart(k)
    ensures EndsSelect(k) <==> ClauseRank(k) == 9
  {
  }

  lemma JoinsApart(k: Kind)
    requires IsJoinStart(k)
    ensures Stops(0, k) && k != TOKEN_COMMA && k != KW_AS && k != TOKEN_IDENT && k != KW_ON && k != KW_USING
            && ClauseRank(k) == 0
  {
  }

  /** The clauses from number j on are printed from i to end. */
  ghost predicate ClausesAhead(ts: seq<Token>, i: nat, end: nat, j: nat, q: Select, sp: Spelling) {
    j <= 8 && Spells(ts, i, Clauses(j, q, sp)) && end == i + |Clauses(j, q, sp)| && EndsAfter(q, KindAt(ts, end))
  }

  /** A token that clauses number j and later of q can begin with, or that follows them. */
  predicate Follows(q: Select, j: nat, k: Kind) { ClauseRank(k) > j || 6 <= ClauseRank(k) <= LastRank(q) <= j }

  /** The last of the clauses is not missing. */
  lemma LastIsPrinted(j: nat, q: Select, sp: Spelling)
    ensures j < 8 && LastRank(q) == j + 1 ==> Clause(j, q, sp) != []
  {
  }

  lemma ClauseStarts(j: nat, q: Select, sp: Spelling)
    requires j < 8 && PrintableSelect(q, sp)
    ensures Clause(j, q, sp) == [] || ClauseRank(FirstKind(Clause(j, q, sp))) == j + 1
  {
  }

  /** No clause before number j begins here. */
  lemma {:induction false} ClausesFirst(ts: seq<Token>, i: nat, end: nat, j: nat, q: Select, sp: Spelling)
    requires ClausesAhead(ts, i, end, j, q, sp) && PrintableSelect(q, sp)
    ensures Follows(q, j, KindAt(ts, i))
    decreases 8 - j
  {
    LastIsPrinted(j, q, sp);
    if j < 8 {
      var n := i + |Clause(j, q, sp)|;
      SpellsBoth(ts, i, Clause(j, q, sp), Clauses(j + 1, q, sp));
      ClausesFirst(ts, n, end, j + 1, q, sp);
      ClauseStarts(j, q, sp);
      if Clause(j, q, sp) != [] {
        SpellsKind(ts, i, Clause(j, q, sp));
      }
    }
  }

  /** Clause number j runs from i to n, and the later ones from there. */
  lemma ClauseNext(ts: seq<Token>, i: nat, end: nat, j: nat, q: Select, sp: Spelling) returns (n: nat)
    requires ClausesAhead(ts, i, end, j, q, sp) && PrintableSelect(q, sp) && j < 8
    ensures Spells(ts, i, Clause(j, q, sp)) && n == i + |Clause(j, q, sp)|
            && ClausesAhead(ts, n, end, j + 1, q, sp)
    ensures Follows(q, j + 1, KindAt(ts, n))
  {
    n := i + |Clause(j, q, sp)|;
    SpellsBoth(ts, i, Clause(j, q, sp), Clauses(j + 1, q, sp));
    ClausesFirst(ts, n, end, j + 1, q, sp);
  }

  /** An optional clause with one expression. */
  ghost predicate OptAhead(ts: seq<Token>, i: nat, n: nat, k: Kind, e: Option<Expr>, sp: Spelling) {
    if e.Some? then KindAt(ts, i) == k && Printed(ts, i + 1, n, 0, e.value, sp) else n == i && KindAt(ts, i) != k
  }

  lemma OptNext(ts: seq<Token>, i: nat, n: nat, k: Kind, e: Option<Expr>, sp: Spelling)
    requires PrintableOpt(e, sp) && Spells(ts, i, PrintOpt(k, e, sp)) && n == i + |PrintOpt(k, e, sp)|
    requires Stops(0, KindAt(ts, n)) && (e.None? ==> KindAt(ts, n) != k)
    ensures OptAhead(ts, i, n, k, e, sp)
  {
    if e.Some? {
      SpellsFirst(ts, i, Word(k), Print(0, e.value, sp));
    }
  }

  // ----- Columns -----

  ghost predicate ColumnsAhead(ts: seq<Token>, i: nat, end: nat, cs: seq<Column>, sp: Spelling) {
    && (forall j :: 0 <= j < |cs| ==> PrintableColumn(cs[j], sp))
    && Spells(ts, i, PrintColumns(cs, sp)) && end == i + |PrintColumns(cs, sp)| && ClauseRank(KindAt(ts, end)) > 0
  }

  /** A column is printed from i to n, where a comma or a clause follows. */
  ghost predicate ColumnAhead(ts: seq<Token>, i: nat, n: nat, c: Column, sp: Spelling) {
    && PrintableColumn(c, sp) && Spells(ts, i, PrintColumn(c, sp)) && n == i + |PrintColumn(c, sp)|
    && (KindAt(ts, n) == TOKEN_COMMA || ClauseRank(KindAt(ts, n)) > 0)
  }

  lemma ColumnsNext(ts: seq<Token>, i: nat, end: nat, cs: seq<Column>, sp: Spelling) returns (n: nat)
    requires ColumnsAhead(ts, i, end, cs, sp) && cs != []
    ensures ColumnAhead(ts, i, n, cs[0], sp)
    ensures if |cs| == 1 then n == end && KindAt(ts, n) != TOKEN_COMMA
            else KindAt(ts, n) == TOKEN_COMMA && ColumnsAhead(ts, n + 1, end, cs[1..], sp)
  {
    n := i + |PrintColumn(cs[0], sp)|;
    ItemAndMore(ts, i, n, end, PrintColumn(cs[0], sp), MoreColumns(cs[1..], sp), PrintColumns(cs[1..], sp));
    RanksApart(KindAt(ts, end));
  }

  /** An alias, or none, from i to n. */
  ghost predicate AliasAhead(ts: seq<Token>, i: nat, n: nat, alias: string) {
    if |alias| == 0 then n == i && KindAt(ts, i) != KW_AS && KindAt(ts, i) != TOKEN_IDENT
    else if KindAt(ts, i) == KW_AS then NameAt(ts, i + 1, alias) && n == i + 2
    else i < |ts| && ts[i] == Token(TOKEN_IDENT, alias) && n == i + 1
  }

  /** A name stands at i, where any token that can be one is taken. */
  predicate NameAt(ts: seq<Token>, i: nat, name: string) {
    i < |ts| && IsNameLike(ts[i].kind) && ts[i].text == name
  }

  lemma AliasNext(ts: seq<Token>, i: nat, n: nat, alias: string, sp: Spelling)
    requires Spells(ts, i, PrintAlias(alias, sp)) && n == i + |PrintAlias(alias, sp)|
    requires KindAt(ts, n) != KW_AS && KindAt(ts, n) != TOKEN_IDENT
    ensures AliasAhead(ts, i, n, alias)
  {
    if |alias| == 0 {
    } else if sp.bare(alias) {
      SpellsFirst(ts, i, Lexeme(TOKEN_IDENT, alias), []);
    } else {
      SpellsFirst(ts, i, Word(KW_AS), [Lexeme(NameKind(alias, sp), alias)]);
      SpellsFirst(ts, i + 1, Lexeme(NameKind(alias, sp), alias), []);
    }
  }

  lemma ColumnNext(ts: seq<Token>, i: nat, n: nat, c: Column, sp: Spelling) returns (m: nat)
    requires ColumnAhead(ts, i, n, c, sp)
    ensures c.StarColumn? ==> KindAt(ts, i) == TOKEN_STAR && n == i + 1
    ensures c.Column? ==>
              KindAt(ts, i) != TOKEN_STAR && Printed(ts, i, m, 0, c.expr, sp) && AliasAhead(ts, m, n, c.alias)
  {
    if ClauseRank(KindAt(ts, n)) > 0 {
      RanksApart(KindAt(ts, n));
    }
    match c
    case StarColumn =>
      m := n;
      SpellsFirst(ts, i, Word(TOKEN_STAR), []);
    case Column(e, alias) =>
      m := i + |Print(0, e, sp)|;
      ExprAndAlias(ts, i, m, n, Print(0, e, sp), alias, sp);
      PrintStarts(0, e, sp);
      SpellsKind(ts, i, Print(0, e, sp));
  }

  lemma ExprAndAlias(ts: seq<Token>, i: nat, m: nat, n: nat, x: seq<Symbol>, alias: string, sp: Spelling)
    requires Spells(ts, i, x + PrintAlias(alias, sp)) && m == i + |x| && n == m + |PrintAlias(alias, sp)|
    requires Stops(0, KindAt(ts, n)) && KindAt(ts, n) != KW_AS && KindAt(ts, n) != TOKEN_IDENT
    ensures Spells(ts, i, x) && AliasAhead(ts, m, n, alias) && Stops(0, KindAt(ts, m))
  {
    SpellsBoth(ts, i, x, PrintAlias(alias, sp));
    AliasNext(ts, m, n, alias, sp);
  }

  // ----- Tables and joins -----

  predicate EndsTables(k: Kind) { IsJoinStart(k) || ClauseRank(k) > 1 }

  lemma EndsTablesApart(k: Kind)
    requires EndsTables(k)
    ensures Stops(0, k) && k != TOKEN_COMMA && k != KW_AS && k != TOKEN_IDENT && k != KW_ON && k != KW_USING
  {
    if IsJoinStart(k) {
      JoinsApart(k);
    } else {
      RanksApart(k);
    }
  }

  ghost predicate RefsAhead(ts: seq<Token>, i: nat, end: nat, refs: seq<TableRef>, sp: Spelling) {
    Spells(ts, i, PrintRefs(refs, sp)) && end == i + |PrintRefs(refs, sp)| && EndsTables(KindAt(ts, end))
  }

  /** A table name and its alias are printed from i to n. */
  ghost predicate RefAhead(ts: seq<Token>, i: nat, n: nat, t: TableRef) {
    NameAt(ts, i, t.name) && AliasAhead(ts, i + 1, n, t.alias)
  }

  lemma RefNext(ts: seq<Token>, i: nat, n: nat, t: TableRef, sp: Spelling)
    requires Spells(ts, i, PrintRef(t, sp)) && n == i + |PrintRef(t, sp)| && KindAt(ts, n) != KW_AS
             && KindAt(ts, n) != TOKEN_IDENT
    ensures RefAhead(ts, i, n, t)
  {
    SpellsFirst(ts, i, Lexeme(NameKind(t.name, sp), t.name), PrintAlias(t.alias, sp));
    AliasNext(ts, i + 1, n, t.alias, sp);
  }

  lemma RefsNext(ts: seq<Token>, i: nat, end: nat, refs: seq<TableRef>, sp: Spelling) returns (n: nat)
    requires RefsAhead(ts, i, end, refs, sp) && refs != []
    ensures RefAhead(ts, i, n, refs[0])
    ensures if |refs| == 1 then n == end && KindAt(ts, n) != TOKEN_COMMA
            else KindAt(ts, n) == TOKEN_COMMA && RefsAhead(ts, n + 1, end, refs[1..], sp)
  {
    n := i + |PrintRef(refs[0], sp)|;
    ItemAndMore(ts, i, n, end, PrintRef(refs[0], sp), MoreRefs(refs[1..], sp), PrintRefs(refs[1..], sp));
    EndsTablesApart(KindAt(ts, end));
    RefNext(ts, i, n, refs[0], sp);
  }

  ghost predicate JoinsAhead(ts: seq<Token>, i: nat, end: nat, joins: seq<Join>, sp: Spelling) {
    && (forall j :: 0 <= j < |joins| ==> PrintableJoin(joins[j], sp))
    && Spells(ts, i, PrintJoins(joins, sp)) && end == i + |PrintJoins(joins, sp)| && ClauseRank(KindAt(ts, end)) > 1
  }

  ghost predicate JoinAhead(ts: seq<Token>, i: nat, n: nat, j: Join, sp: Spelling) {
    PrintableJoin(j, sp) && Spells(ts, i, PrintJoin(j, sp)) && n == i + |PrintJoin(j, sp)|
    && EndsTables(KindAt(ts, n))
  }

  lemma JoinStarts(j: Join, sp: Spelling)
    ensures PrintJoin(j, sp) != []
    ensures FirstKind(PrintJoin(j, sp)) == (if j.how == KW_INNER && sp.plain(j) then KW_JOIN else j.how)
  {
  }

  lemma JoinsStop(ts: seq<Token>, i: nat, end: nat, joins: seq<Join>, sp: Spelling)
    requires JoinsAhead(ts, i, end, joins, sp)
    ensures if joins == [] then i == end && ClauseRank(KindAt(ts, i)) > 1 else IsJoinStart(KindAt(ts, i))
  {
    if joins != [] {
      SpellsBoth(ts, i, PrintJoin(joins[0], sp), PrintJoins(joins[1..], sp));
      JoinStarts(joins[0], sp);
      assert PrintableJoin(joins[0], sp);
      SpellsKind(ts, i, PrintJoin(joins[0], sp));
    }
  }

  lemma JoinsNext(ts: seq<Token>, i: nat, end: nat, joins: seq<Join>, sp: Spelling) returns (n: nat)
    requires JoinsAhead(ts, i, end, joins, sp) && joins != []
    ensures JoinAhead(ts, i, n, joins[0], sp) && JoinsAhead(ts, n, end, joins[1..], sp)
  {
    var j, rest := joins[0], joins[1..];
    assert PrintableJoin(j, sp);
    assert forall k :: 0 <= k < |rest| ==> rest[k] == joins[k + 1];
    n := i + |PrintJoin(j, sp)|;
    JoinsSplit(ts, i, n, end, rest, PrintJoin(j, sp), sp);
    EndsJoin(ts, n, end, rest, sp);
  }

  lemma JoinsSplit(ts: seq<Token>, i: nat, n: nat, end: nat, rest: seq<Join>, first: seq<Symbol>, sp: Spelling)
    requires forall k :: 0 <= k < |rest| ==> PrintableJoin(rest[k], sp)
    requires Spells(ts, i, first + PrintJoins(rest, sp)) && n == i + |first| && end == n + |PrintJoins(rest, sp)|
    requires ClauseRank(KindAt(ts, end)) > 1
    ensures Spells(ts, i, first) && JoinsAhead(ts, n, end, rest, sp)
  {
    SpellsBoth(ts, i, first, PrintJoins(rest, sp));
  }

  /** What follows a join ends it. */
  lemma EndsJoin(ts: seq<Token>, n: nat, end: nat, rest: seq<Join>, sp: Spelling)
    requires JoinsAhead(ts, n, end, rest, sp)
    ensures EndsTables(KindAt(ts, n))
  {
    JoinsStop(ts, n, end, rest, sp);
  }

  /** The words of a join are printed from i to p. */
  ghost predicate WordsAhead(ts: seq<Token>, i: nat, p: nat, how: Kind) {
    var k := KindAt(ts, i);
    && (if k == KW_JOIN then how == KW_INNER else IsJoinType(k) && how == k)
    && if k == KW_JOIN then p == i + 1
       else if TakesOuter(k) && KindAt(ts, i + 1) == KW_OUTER then KindAt(ts, i + 2) == KW_JOIN && p == i + 3
       else KindAt(ts, i + 1) == KW_JOIN && p == i + 2
  }

  lemma WordsNext(ts: seq<Token>, i: nat, p: nat, j: Join, sp: Spelling)
    requires IsJoinType(j.how) && Spells(ts, i, JoinWords(j, sp)) && p == i + |JoinWords(j, sp)|
    ensures WordsAhead(ts, i, p, j.how)
  {
    if j.how == KW_INNER && sp.plain(j) {
      SpellsFirst(ts, i, Word(KW_JOIN), []);
    } else {
      var outer := Words(TakesOuter(j.how) && sp.outer(j), KW_OUTER);
      SpellsFirst(ts, i, Word(j.how), outer + [Word(KW_JOIN)]);
      SpellsBoth(ts, i + 1, outer, [Word(KW_JOIN)]);
      SpellsFirst(ts, p - 1, Word(KW_JOIN), []);
      if outer != [] {
        SpellsFirst(ts, i + 1, Word(KW_OUTER), []);
      }
    }
  }

  /** The parts of a join: its words to p, its table to a, its ON to b, its USING to n. */
  lemma JoinNext(ts: seq<Token>, i: nat, n: nat, j: Join, sp: Spelling) returns (p: nat, a: nat, b: nat)
    requires JoinAhead(ts, i, n, j, sp)
    ensures WordsAhead(ts, i, p, j.how)
    ensures RefAhead(ts, p, a, j.table) && OptAhead(ts, a, b, KW_ON, j.on, sp)
    ensures j.on.Some? ==> j.using == [] && b == n
    ensures UsingAhead(ts, b, n, j.using, sp)
  {
    var w, t, o, u := JoinWords(j, sp), PrintRef(j.table, sp), PrintOpt(KW_ON, j.on, sp), PrintUsing(j.using, sp);
    EndsTablesApart(KindAt(ts, n));
    p := i + |w|;
    a, b := p + |t|, p + |t| + |o|;
    JoinParts(ts, i, w, t, o, u);
    WordsNext(ts, i, p, j, sp);
    UsingNext(ts, b, n, j.using, sp);
    OnNext(ts, a, b, n, j, sp);
    RefNext(ts, p, a, j.table, sp);
  }

  lemma OnNext(ts: seq<Token>, a: nat, b: nat, n: nat, j: Join, sp: Spelling)
    requires PrintableJoin(j, sp) && Spells(ts, a, PrintOpt(KW_ON, j.on, sp))
             && b == a + |PrintOpt(KW_ON, j.on, sp)|
    requires UsingAhead(ts, b, n, j.using, sp) && EndsTables(KindAt(ts, n))
    ensures OptAhead(ts, a, b, KW_ON, j.on, sp) && (j.on.Some? ==> b == n)
    ensures KindAt(ts, a) != KW_AS && KindAt(ts, a) != TOKEN_IDENT
  {
    EndsTablesApart(KindAt(ts, n));
    UsingApart(ts, b, n, j.using, sp);
    OptNext(ts, a, b, KW_ON, j.on, sp);
  }

  /** What USING, or the end of a join without it, begins with. */
  lemma UsingApart(ts: seq<Token>, b: nat, n: nat, names: seq<string>, sp: Spelling)
    requires UsingAhead(ts, b, n, names, sp) && EndsTables(KindAt(ts, n))
    ensures names == [] ==> b == n
    ensures var k := KindAt(ts, b); Stops(0, k) && k != KW_ON && k != KW_AS && k != TOKEN_IDENT
  {
    if names == [] {
      EndsTablesApart(KindAt(ts, n));
    } else {
      assert KindAt(ts, b) == KW_USING;
    }
  }

  lemma JoinParts(ts: seq<Token>, i: nat, w: seq<Symbol>, t: seq<Symbol>, o: seq<Symbol>, u: seq<Symbol>)
    requires Spells(ts, i, w + (t + (o + u)))
    ensures Spells(ts, i, w) && Spells(ts, i + |w|, t) && Spells(ts, i + |w| + |t|, o)
    ensures Spells(ts, i + |w| + |t| + |o|, u)
  {
    SpellsBoth(ts, i, w, t + (o + u));
    SpellsBoth(ts, i + |w|, t, o + u);
    SpellsBoth(ts, i + |w| + |t|, o, u);
  }

  ghost predicate NamesAhead(ts: seq<Token>, i: nat, end: nat, names: seq<string>, sp: Spelling) {
    Spells(ts, i, PrintNames(names, sp)) && end == i + |PrintNames(names, sp)| && KindAt(ts, end) == TOKEN_RPAREN
  }

  /** USING and its columns in parentheses, or nothing. */
  ghost predicate UsingAhead(ts: seq<Token>, i: nat, n: nat, names: seq<string>, sp: Spelling) {
    if names == [] then n == i && KindAt(ts, i) != KW_USING
    else n >= 1 && KindAt(ts, i) == KW_USING && KindAt(ts, i + 1) == TOKEN_LPAREN
         && NamesAhead(ts, i + 2, n - 1, names, sp)
  }

  lemma UsingNext(ts: seq<Token>, i: nat, n: nat, names: seq<string>, sp: Spelling)
    requires Spells(ts, i, PrintUsing(names, sp)) && n == i + |PrintUsing(names, sp)| && KindAt(ts, n) != KW_USING
    ensures UsingAhead(ts, i, n, names, sp)
    ensures names != [] ==> KindAt(ts, i) == KW_USING
  {
    if names != [] {
      KeywordBrackets(ts, i, n, KW_USING, PrintNames(names, sp));
    }
  }

  lemma NamesNext(ts: seq<Token>, i: nat, end: nat, names: seq<string>, sp: Spelling)
    requires NamesAhead(ts, i, end, names, sp) && names != []
    ensures NameAt(ts, i, names[0])
    ensures if |names| == 1 then i + 1 == end
            else KindAt(ts, i + 1) == TOKEN_COMMA && NamesAhead(ts, i + 2, end, names[1..], sp)
  {
    var rest := names[1..];
    SpellsFirst(ts, i, Lexeme(NameKind(names[0], sp), names[0]), MoreNames(rest, sp));
    if rest != [] {
      assert MoreNames(rest, sp) == [Word(TOKEN_COMMA)] + PrintNames(rest, sp);
      SpellsFirst(ts, i + 1, Word(TOKEN_COMMA), PrintNames(rest, sp));
    }
  }

  /** FROM, tables and joins are printed from i to n, or nothing. */
  ghost predicate FromAhead(ts: seq<Token>, i: nat, n: nat, refs: seq<TableRef>, joins: seq<Join>, sp: Spelling) {
    && (forall j :: 0 <= j < |joins| ==> PrintableJoin(joins[j], sp)) && ClauseRank(KindAt(ts, n)) > 1
    && if refs == [] then joins == [] && n == i
       else Spells(ts, i, [Word(KW_FROM)] + (PrintRefs(refs, sp) + PrintJoins(joins, sp)))
            && n == i + 1 + |PrintRefs(refs, sp)| + |PrintJoins(joins, sp)|
  }

  lemma FromStarts(ts: seq<Token>, i: nat, n: nat, refs: seq<TableRef>, joins: seq<Join>, sp: Spelling)
    requires Spells(ts, i, PrintFrom(refs, joins, sp)) && n == i + |PrintFrom(refs, joins, sp)|
             && ClauseRank(KindAt(ts, n)) > 1
    requires (refs == [] ==> joins == []) && forall j :: 0 <= j < |joins| ==> PrintableJoin(joins[j], sp)
    ensures FromAhead(ts, i, n, refs, joins, sp)
  {
  }

  /** The first clause: FROM runs to n. */
  lemma FromClause(ts: seq<Token>, i: nat, end: nat, q: Select, sp: Spelling) returns (n: nat)
    requires ClausesAhead(ts, i, end, 0, q, sp) && PrintableSelect(q, sp)
    ensures FromAhead(ts, i, n, q.from, q.joins, sp) && ClausesAhead(ts, n, end, 1, q, sp)
  {
    FromOf(q, sp);
    n := ClauseNext(ts, i, end, 0, q, sp);
    assert Spells(ts, i, PrintFrom(q.from, q.joins, sp)) && n == i + |PrintFrom(q.from, q.joins, sp)|;
    AfterFrom(q, KindAt(ts, n));
    FromStarts(ts, i, n, q.from, q.joins, sp);
  }

  lemma FromOf(q: Select, sp: Spelling)
    requires PrintableSelect(q, sp)
    ensures Clause(0, q, sp) == PrintFrom(q.from, q.joins, sp) && (q.from == [] ==> q.joins == [])
    ensures forall j :: 0 <= j < |q.joins| ==> PrintableJoin(q.joins[j], sp)
  {
  }

  lemma AfterFrom(q: Select, k: Kind)
    requires Follows(q, 1, k)
    ensures ClauseRank(k) > 1
  {
  }

  /** FROM: the tables run to m, the joins to n. */
  lemma FromNext(ts: seq<Token>, i: nat, n: nat, refs: seq<TableRef>, joins: seq<Join>, sp: Spelling) returns (m: nat)
    requires FromAhead(ts, i, n, refs, joins, sp) && refs != []
    ensures KindAt(ts, i) == KW_FROM && RefsAhead(ts, i + 1, m, refs, sp) && JoinsAhead(ts, m, n, joins, sp)
  {
    var rs, js := PrintRefs(refs, sp), PrintJoins(joins, sp);
    m := i + 1 + |rs|;
    KeywordThen(ts, i, KW_FROM, rs, js);
    assert JoinsAhead(ts, m, n, joins, sp);
    JoinsStop(ts, m, n, joins, sp);
  }

  // ----- Ordering and compounds -----

  ghost predicate OrderingsAhead(ts: seq<Token>, i: nat, end: nat, list: seq<Ordering>, sp: Spelling) {
    && (forall j :: 0 <= j < |list| ==> PrintableOrdering(list[j], sp))
    && Spells(ts, i, PrintOrderings(list, sp)) && end == i + |PrintOrderings(list, sp)|
    && ClauseRank(KindAt(ts, end)) > 0
  }

  /** An ordering: its expression from i to m, its direction there, NULLS behind that. */
  ghost predicate OrderingAhead(ts: seq<Token>, i: nat, m: nat, n: nat, o: Ordering, sp: Spelling) {
    Printed(ts, i, m, 0, o.expr, sp) && DirectionAhead(ts, m, n, o.desc, o.nulls)
  }

  lemma OrderingsNext(ts: seq<Token>, i: nat, end: nat, list: seq<Ordering>, sp: Spelling) returns (n: nat)
    requires OrderingsAhead(ts, i, end, list, sp) && list != []
    ensures OrderingItem(ts, i, n, list[0], sp)
    ensures if |list| == 1 then n == end && KindAt(ts, n) != TOKEN_COMMA
            else KindAt(ts, n) == TOKEN_COMMA && OrderingsAhead(ts, n + 1, end, list[1..], sp)
  {
    n := i + |PrintOrdering(list[0], sp)|;
    ItemAndMore(ts, i, n, end, PrintOrdering(list[0], sp), MoreOrderings(list[1..], sp),
                PrintOrderings(list[1..], sp));
    RanksApart(KindAt(ts, end));
  }

  ghost predicate OrderingItem(ts: seq<Token>, i: nat, n: nat, o: Ordering, sp: Spelling) {
    && PrintableOrdering(o, sp) && Spells(ts, i, PrintOrdering(o, sp)) && n == i + |PrintOrdering(o, sp)|
    && (KindAt(ts, n) == TOKEN_COMMA || ClauseRank(KindAt(ts, n)) > 0)
  }

  lemma OrderingNext(ts: seq<Token>, i: nat, n: nat, o: Ordering, sp: Spelling) returns (m: nat)
    requires OrderingItem(ts, i, n, o, sp)
    ensures OrderingAhead(ts, i, m, n, o, sp)
  {
    m := i + |Print(0, o.expr, sp)|;
    if ClauseRank(KindAt(ts, n)) > 0 {
      RanksApart(KindAt(ts, n));
    }
    OrderingParts(ts, i, m, n, Print(0, o.expr, sp), o, sp);
  }

  /** A direction, or none, and NULLS FIRST or NULLS LAST, or neither, from m to n. */
  ghost predicate DirectionAhead(ts: seq<Token>, m: nat, n: nat, desc: bool, nulls: NullsOrder) {
    var p := if KindAt(ts, m) == KW_DESC || KindAt(ts, m) == KW_ASC then m + 1 else m;
    && (desc <==> KindAt(ts, m) == KW_DESC)
    && if nulls.NullsDefault? then n == p && KindAt(ts, p) != KW_NULLS
       else n == p + 2 && KindAt(ts, p) == KW_NULLS
            && KindAt(ts, p + 1) == (if nulls.NullsFirst? then KW_FIRST else KW_LAST)
  }

  lemma OrderingParts(ts: seq<Token>, i: nat, m: nat, n: nat, x: seq<Symbol>, o: Ordering, sp: Spelling)
    requires Spells(ts, i, x + (PrintDirection(o, sp) + PrintNulls(o.nulls)))
    requires m == i + |x| && n == m + |PrintDirection(o, sp)| + |PrintNulls(o.nulls)|
    requires Stops(0, KindAt(ts, n)) && KindAt(ts, n) != KW_ASC && KindAt(ts, n) != KW_DESC && KindAt(ts, n) != KW_NULLS
    ensures Spells(ts, i, x) && Stops(0, KindAt(ts, m)) && DirectionAhead(ts, m, n, o.desc, o.nulls)
  {
    var d := PrintDirection(o, sp);
    SpellsBoth(ts, i, x, d + PrintNulls(o.nulls));
    SpellsBoth(ts, m, d, PrintNulls(o.nulls));
    if d != [] {
      SpellsFirst(ts, m, d[0], []);
    }
    if !o.nulls.NullsDefault? {
      NullsParts(ts, m + |d|, if o.nulls.NullsFirst? then KW_FIRST else KW_LAST);
    }
  }

  lemma NullsParts(ts: seq<Token>, p: nat, k: Kind)
    requires Spells(ts, p, [Word(KW_NULLS), Word(k)])
    ensures KindAt(ts, p) == KW_NULLS && KindAt(ts, p + 1) == k
  {
    assert [Word(KW_NULLS), Word(k)] == [Word(KW_NULLS)] + [Word(k)];
    SpellsFirst(ts, p, Word(KW_NULLS), [Word(k)]);
    SpellsFirst(ts, p + 1, Word(k), []);
  }

  /** A compound operator, ALL, and the right side up to end. */
  ghost predicate CompoundAhead(ts: seq<Token>, i: nat, end: nat, c: Option<Compound>, sp: Spelling) {
    if c.None? then end == i && !IsCompound(KindAt(ts, i))
    else
      && IsCompound(KindAt(ts, i)) && KindAt(ts, i) == c.value.op
      && (c.value.all <==> KindAt(ts, i + 1) == KW_ALL)
      && SelectAhead(ts, if c.value.all then i + 2 else i + 1, end, c.value.right, sp)
  }

  lemma CompoundNext(ts: seq<Token>, i: nat, n: nat, c: Compound, sp: Spelling)
    requires PrintableCompound(c, sp) && Spells(ts, i, PrintCompound(Some(c), sp))
             && n == i + |PrintCompound(Some(c), sp)|
    requires EndsAfter(c.right, KindAt(ts, n))
    ensures CompoundAhead(ts, i, n, Some(c), sp)
  {
    var right := PrintSelect(c.right, sp);
    SpellsFirst(ts, i, Word(c.op), Words(c.all, KW_ALL) + right);
    SpellsBoth(ts, i + 1, Words(c.all, KW_ALL), right);
    if c.all {
      SpellsFirst(ts, i + 1, Word(KW_ALL), []);
    } else {
      SelectStarts(c.right, sp);
      SpellsKind(ts, i + 1, right);
    }
  }

  /** GROUP BY and its expressions from i to n, or nothing. */
  ghost predicate GroupByAhead(ts: seq<Token>, i: nat, n: nat, list: seq<Expr>, sp: Spelling) {
    if list == [] then n == i && KindAt(ts, i) != KW_GROUP
    else KindAt(ts, i) == KW_GROUP && KindAt(ts, i + 1) == KW_BY && ListAhead(ts, i + 2, n, list, sp)
  }

  lemma GroupByNext(ts: seq<Token>, i: nat, n: nat, list: seq<Expr>, sp: Spelling)
    requires PrintableList(list, sp) && Spells(ts, i, PrintGroupBy(list, sp)) && n == i + |PrintGroupBy(list, sp)|
    requires ClauseRank(KindAt(ts, n)) > 3
    ensures GroupByAhead(ts, i, n, list, sp)
  {
    RanksApart(KindAt(ts, n));
    if list != [] {
      SpellsFirst(ts, i, Word(KW_GROUP), [Word(KW_BY)] + PrintList(list, sp));
      SpellsFirst(ts, i + 1, Word(KW_BY), PrintList(list, sp));
    }
  }

  /** ORDER BY and its orderings from i to n, or nothing. */
  ghost predicate OrderByAhead(ts: seq<Token>, i: nat, n: nat, list: seq<Ordering>, sp: Spelling) {
    if list == [] then n == i && KindAt(ts, i) != KW_ORDER
    else KindAt(ts, i) == KW_ORDER && KindAt(ts, i + 1) == KW_BY && OrderingsAhead(ts, i + 2, n, list, sp)
  }

  lemma OrderByNext(ts: seq<Token>, i: nat, n: nat, list: seq<Ordering>, sp: Spelling)
    requires forall j :: 0 <= j < |list| ==> PrintableOrdering(list[j], sp)
    requires Spells(ts, i, PrintOrderBy(list, sp)) && n == i + |PrintOrderBy(list, sp)|
             && ClauseRank(KindAt(ts, n)) > 0
    requires list == [] ==> KindAt(ts, n) != KW_ORDER
    ensures OrderByAhead(ts, i, n, list, sp)
  {
    if list != [] {
      SpellsFirst(ts, i, Word(KW_ORDER), [Word(KW_BY)] + PrintOrderings(list, sp));
      SpellsFirst(ts, i + 1, Word(KW_BY), PrintOrderings(list, sp));
    }
  }

  /** What is printed behind a compound's right side, the right side has passed. */
  lemma CompoundLast(ts: seq<Token>, i: nat, n: nat, end: nat, q: Select, sp: Spelling)
    requires PrintableSelect(q, sp) && Spells(ts, i, Clause(4, q, sp)) && n == i + |Clause(4, q, sp)|
    requires ClausesAhead(ts, n, end, 5, q, sp) && Follows(q, 5, KindAt(ts, n))
    ensures CompoundAhead(ts, i, n, q.compound, sp)
  {
    if q.compound.Some? {
      FirstClause(ts, n, end, q, sp);
      CompoundNext(ts, i, n, q.compound.value, sp);
    }
  }

  /** The ORDER BY, LIMIT and OFFSET of q, one after another. */
  lemma LastClauses(q: Select, sp: Spelling)
    ensures Clauses(5, q, sp) ==
            PrintOrderBy(q.orderBy, sp) + (PrintOpt(KW_LIMIT, q.limit, sp) + PrintOpt(KW_OFFSET, q.offset, sp))
  {
    assert Clause(5, q, sp) == PrintOrderBy(q.orderBy, sp);
    assert Clause(6, q, sp) == PrintOpt(KW_LIMIT, q.limit, sp);
    assert Clause(7, q, sp) == PrintOpt(KW_OFFSET, q.offset, sp);
    assert Clauses(8, q, sp) == [];
    assert Clauses(7, q, sp) == Clause(7, q, sp) + Clauses(8, q, sp) == Clause(7, q, sp);
    assert Clauses(6, q, sp) == Clause(6, q, sp) + Clauses(7, q, sp);
    assert Clauses(5, q, sp) == Clause(5, q, sp) + Clauses(6, q, sp);
  }

  /** The first token of the last clauses has the first rank of q. */
  lemma FirstClause(ts: seq<Token>, i: nat, end: nat, q: Select, sp: Spelling)
    requires ClausesAhead(ts, i, end, 5, q, sp)
    ensures FirstRank(q) < 9 ==> ClauseRank(KindAt(ts, i)) == FirstRank(q)
    ensures FirstRank(q) == 9 ==> EndsSelect(KindAt(ts, i))
  {
    LastClauses(q, sp);
    var all := Clauses(5, q, sp);
    LastFirst(q, sp);
    if FirstRank(q) < 9 {
      SpellsKind(ts, i, all);
    }
  }

  lemma LastFirst(q: Select, sp: Spelling)
    ensures var all := PrintOrderBy(q.orderBy, sp)
                       + (PrintOpt(KW_LIMIT, q.limit, sp) + PrintOpt(KW_OFFSET, q.offset, sp));
            if FirstRank(q) == 9 then all == [] else all != [] && ClauseRank(FirstKind(all)) == FirstRank(q)
  {
  }

  // ----- The beginning of the statement -----

  /** SELECT [DISTINCT], the columns from a to b, the clauses from there. */
  lemma SelectNext(ts: seq<Token>, i: nat, end: nat, q: Select, sp: Spelling) returns (a: nat, b: nat)
    requires SelectAhead(ts, i, end, q, sp)
    ensures KindAt(ts, i) == KW_SELECT && (q.distinct <==> KindAt(ts, i + 1) == KW_DISTINCT)
    ensures a == (if q.distinct || KindAt(ts, i + 1) == KW_ALL then i + 2 else i + 1)
    ensures q.columns != [] && ColumnsAhead(ts, a, b, q.columns, sp) && ClausesAhead(ts, b, end, 0, q, sp)
  {
    var d, cs := PrintDistinct(q.distinct, q.columns, sp), PrintColumns(q.columns, sp);
    SpellsFirst(ts, i, Word(KW_SELECT), d + (cs + Clauses(0, q, sp)));
    SpellsBoth(ts, i + 1, d, cs + Clauses(0, q, sp));
    a := i + 1 + |d|;
    SpellsBoth(ts, a, cs, Clauses(0, q, sp));
    b := a + |cs|;
    ClausesFirst(ts, b, end, 0, q, sp);
    if d != [] {
      SpellsFirst(ts, i + 1, d[0], []);
    } else {
      FirstColumn(ts, a, b, q.columns, sp);
    }
  }

  lemma FirstColumn(ts: seq<Token>, a: nat, b: nat, cs: seq<Column>, sp: Spelling)
    requires ColumnsAhead(ts, a, b, cs, sp) && cs != []
    ensures KindAt(ts, a) != KW_DISTINCT && KindAt(ts, a) != KW_ALL
  {
    var n := ColumnsNext(ts, a, b, cs, sp);
    var m := ColumnNext(ts, a, n, cs[0], sp);
    if cs[0].Column? {
      PrintStarts(0, cs[0].expr, sp);
      SpellsKind(ts, a, Print(0, cs[0].expr, sp));
    }
  }
}
