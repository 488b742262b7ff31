/** Tokens, syntax trees, and the printer that the parser inverts (abstract.go, lexer.go:9-203). */
module Syntax {
  import opened Wrappers

  // ----- Tokens -----

  /** TokenType: the token types parseExpr and parseSelect look at. KW_OTHER_NAME stands for the other
      keywords that expectIdent takes as names, KW_OTHER for the keywords and characters left. */
  type Kind = int

  const TOKEN_EOF: Kind := 0

  const TOKEN_IDENT: Kind := 1   const TOKEN_NUMBER: Kind := 2   const TOKEN_STRING: Kind := 3
  const TOKEN_STAR: Kind := 4   const TOKEN_EQ: Kind := 5   const TOKEN_NEQ: Kind := 6
  const TOKEN_LT: Kind := 7   const TOKEN_LTE: Kind := 8   const TOKEN_GT: Kind := 9
  const TOKEN_GTE: Kind := 10   const TOKEN_PLUS: Kind := 11   const TOKEN_MINUS: Kind := 12
  const TOKEN_SLASH: Kind := 13   const TOKEN_PERCENT: Kind := 14   const TOKEN_LSHIFT: Kind := 15
  const TOKEN_RSHIFT: Kind := 16   const KW_UNION: Kind := 17   const KW_INTERSECT: Kind := 18
  const KW_EXCEPT: Kind := 19
  const TOKEN_COMMA: Kind := 20   const TOKEN_SEMICOLON: Kind := 21   const TOKEN_LPAREN: Kind := 22
  const TOKEN_RPAREN: Kind := 23   const TOKEN_DOT: Kind := 24   const TOKEN_PIPE_PIPE: Kind := 25
  const TOKEN_AMPERSAND: Kind := 26   const TOKEN_PIPE: Kind := 27   const TOKEN_TILDE: Kind := 28
  const KW_SELECT: Kind := 29   const KW_FROM: Kind := 30   const KW_WHERE: Kind := 31
  const KW_ON: Kind := 32   const KW_NULL: Kind := 33   const KW_NOT: Kind := 34
  const KW_AND: Kind := 35   const KW_OR: Kind := 36   const KW_IS: Kind := 37
  const KW_IN: Kind := 38   const KW_LIKE: Kind := 39   const KW_GLOB: Kind := 40
  const KW_BETWEEN: Kind := 41   const KW_ORDER: Kind := 42   const KW_BY: Kind := 43
  const KW_ASC: Kind := 44   const KW_DESC: Kind := 45   const KW_LIMIT: Kind := 46
  const KW_OFFSET: Kind := 47   const KW_AS: Kind := 48   const KW_INNER: Kind := 49
  const KW_LEFT: Kind := 50   const KW_RIGHT: Kind := 51   const KW_FULL: Kind := 52
  const KW_OUTER: Kind := 53   const KW_CROSS: Kind := 54   const KW_NATURAL: Kind := 55
  const KW_JOIN: Kind := 56   const KW_USING: Kind := 57   const KW_GROUP: Kind := 58
  const KW_HAVING: Kind := 59   const KW_DISTINCT: Kind := 60   const KW_ALL: Kind := 61
  const KW_EXISTS: Kind := 62   const KW_COUNT: Kind := 63   const KW_SUM: Kind := 64
  const KW_AVG: Kind := 65   const KW_MIN: Kind := 66   const KW_MAX: Kind := 67
  const KW_INTEGER: Kind := 68   const KW_TEXT: Kind := 69   const KW_REAL: Kind := 70
  const KW_BLOB: Kind := 71   const KW_CASE: Kind := 72   const KW_WHEN: Kind := 73
  const KW_THEN: Kind := 74   const KW_ELSE: Kind := 75   const KW_END: Kind := 76
  const KW_CAST: Kind := 77   const KW_REPLACE: Kind := 78   const KW_IGNORE: Kind := 79
  const KW_ROWID: Kind := 80   const KW_MATCH: Kind := 81   const KW_NULLS: Kind := 82
  const KW_FIRST: Kind := 83   const KW_LAST: Kind := 84   const KW_TRUE: Kind := 85
  const KW_FALSE: Kind := 86   const KW_OTHER_NAME: Kind := 87   const KW_OTHER: Kind := 88

  /** A token of the source text. */
  datatype Token = Token(kind: Kind, text: string)

  /** A token as the printer writes it: a keyword or sign, whose text goes without saying, or a
      name, number or string with its text. */
  datatype Symbol = Word(kind: Kind) | Lexeme(kind: Kind, text: string)

  /** expectIdent's list. */
  predicate IsNameLike(k: Kind) {
    k in {TOKEN_IDENT, KW_SELECT, KW_FROM, KW_WHERE, KW_AS, KW_JOIN, KW_ON, KW_REPLACE, KW_IGNORE, KW_MATCH, KW_ROWID,
          KW_NULLS, KW_FIRST, KW_LAST, KW_OUTER, KW_FULL, KW_NATURAL, KW_CROSS, KW_USING, KW_RIGHT, KW_OTHER_NAME}
  }

  /** isIdentLike */
  predicate IsIdentLike(k: Kind) {
    k in {KW_COUNT, KW_SUM, KW_AVG, KW_MIN, KW_MAX, KW_REPLACE, KW_IGNORE, KW_ROWID}
  }

  // ----- Trees -----

  datatype Literal = Integer(v: int) | Float(text: string) | Text(s: string) | Null

  datatype Expr =
    | Lit(lit: Literal)
    | Ident(table: string, name: string)
    | Star
    | Binary(op: Kind, left: Expr, right: Expr)
    | Unary(op: Kind, operand: Expr)
    | IsNull(operand: Expr, isNot: bool)
    | In(operand: Expr, list: seq<Expr>, isNot: bool)
    | InSelect(operand: Expr, query: Select, isNot: bool)
    | Like(operand: Expr, pattern: Expr, escape: Option<Expr>, isNot: bool)
    | Glob(operand: Expr, pattern: Expr, isNot: bool)
    | Between(operand: Expr, low: Expr, high: Expr, isNot: bool)
    | Case(base: Option<Expr>, whens: seq<When>, els: Option<Expr>)
    | Cast(operand: Expr, typeName: string)
    | Exists(query: Select, isNot: bool)
    | Subquery(query: Select)
    | RowValue(values: seq<Expr>)
    | Func(name: string, args: seq<Expr>, distinct: bool, star: bool)

  datatype When = When(cond: Expr, result: Expr)

  datatype Select = Select(distinct: bool, columns: seq<Column>, from: seq<TableRef>, joins: seq<Join>,
                           where: Option<Expr>, groupBy: seq<Expr>, having: Option<Expr>,
                           compound: Option<Compound>, orderBy: seq<Ordering>,
                           limit: Option<Expr>, offset: Option<Expr>)
  datatype Column = StarColumn | Column(expr: Expr, alias: string)
  datatype TableRef = TableRef(name: string, alias: string)
  datatype Join = Join(how: Kind, table: TableRef, on: Option<Expr>, using: seq<string>)
  datatype Compound = Compound(op: Kind, all: bool, right: Select)
  datatype Ordering = Ordering(expr: Expr, desc: bool, nulls: NullsOrder)
  datatype NullsOrder = NullsDefault | NullsFirst | NullsLast

  // ----- Ways to write a tree -----

  /** Which texts strconv.ParseFloat accepts, and, where a tree can be written in more than one way,
      which way is taken: the text of an integer; TRUE and FALSE for 1 and 0; IS for = and !=; the
      token type of a name, of a column or function name, and of a type name; SELECT ALL; an alias
      without AS; JOIN without INNER; LEFT, RIGHT and FULL with OUTER; ASC. */
  datatype Spelling = Spelling(
    floatOk: string -> bool, number: nat -> string, truth: nat -> bool, byIs: Expr -> bool,
    name: string -> Kind, column: string -> Kind, typeName: string -> Kind,
    all: seq<Column> -> bool, bare: string -> bool, plain: Join -> bool, outer: Join -> bool,
    asc: Ordering -> bool)

  /** The token type a name is written with, where expectIdent reads it. */
  function NameKind(name: string, sp: Spelling): (k: Kind)
    ensures IsNameLike(k)
  {
    if IsNameLike(sp.name(name)) then sp.name(name) else TOKEN_IDENT
  }

  /** The token type of a column or a function that begins an expression. */
  function ColumnKind(name: string, sp: Spelling): (k: Kind)
    ensures k == TOKEN_IDENT || IsIdentLike(k)
  {
    if IsIdentLike(sp.column(name)) then sp.column(name) else TOKEN_IDENT
  }

  predicate IsTypeWord(k: Kind) { k == KW_INTEGER || k == KW_TEXT || k == KW_REAL || k == KW_BLOB }

  function TypeKind(name: string, sp: Spelling): (k: Kind)
    ensures k == TOKEN_IDENT || IsTypeWord(k)
  {
    if IsTypeWord(sp.typeName(name)) then sp.typeName(name) else TOKEN_IDENT
  }

  /** An integer written TRUE or FALSE. */
  predicate IsTruth(n: int, sp: Spelling) { 0 <= n <= 1 && sp.truth(n) }

  // ----- Precedence -----

  /** The levels of the descent: 0 OR, 1 AND, 2 NOT, 3 comparison, 4 ||, 5 |, 6 &, 7 shift,
      8 additive, 9 multiplicative, 10 unary, 11 postfix, 12 primary. */
  const NOT_LEVEL := 2
  const COMPARISON := 3
  const UNARY := 10
  const POSTFIX := 11
  const PRIMARY := 12

  /** The levels whose parse function is one loop over binary operators. */
  predicate IsLoopLevel(k: nat) { k in {0, 1, 4, 5, 6, 7, 8, 9} }

  /** The deepest level whose function goes on when it meets this token; -1 for a token that
      ends every expression. */
  function Continues(k: Kind): int {
    if k == KW_OR then 0
    else if k == KW_AND then 1
    else if k == TOKEN_EQ || k == TOKEN_NEQ || k == TOKEN_LT || k == TOKEN_LTE || k == TOKEN_GT || k == TOKEN_GTE then 3
    else if k == KW_NOT || k == KW_IN || k == KW_LIKE || k == KW_GLOB || k == KW_BETWEEN || k == KW_MATCH then 3
    else if k == TOKEN_PIPE_PIPE then 4
    else if k == TOKEN_PIPE then 5
    else if k == TOKEN_AMPERSAND then 6
    else if k == TOKEN_LSHIFT || k == TOKEN_RSHIFT then 7
    else if k == TOKEN_PLUS || k == TOKEN_MINUS then 8
    else if k == TOKEN_STAR || k == TOKEN_SLASH || k == TOKEN_PERCENT then 9
    else if k == KW_IS then 11
    else if k == TOKEN_DOT || k == TOKEN_LPAREN then 12
    else -1
  }

  /** Parsing at level k stops before this token. */
  predicate Stops(k: nat, kind: Kind) { Continues(kind) < k }

  predicate IsBinary(op: Kind) {
    || op == KW_OR || op == KW_AND
    || op == TOKEN_EQ || op == TOKEN_NEQ || op == TOKEN_LT || op == TOKEN_LTE || op == TOKEN_GT || op == TOKEN_GTE
    || op == TOKEN_PIPE_PIPE || op == TOKEN_PIPE || op == TOKEN_AMPERSAND || op == TOKEN_LSHIFT || op == TOKEN_RSHIFT
    || op == TOKEN_PLUS || op == TOKEN_MINUS || op == TOKEN_STAR || op == TOKEN_SLASH || op == TOKEN_PERCENT
  }

  predicate IsUnary(op: Kind) { op == KW_NOT || op == TOKEN_MINUS || op == TOKEN_TILDE }

  function OpLevel(op: Kind): (l: nat)
    ensures l != NOT_LEVEL && l != UNARY && l != POSTFIX
  {
    if IsBinary(op) then Continues(op) else PRIMARY
  }

  /** A comparison for equality written IS or IS NOT. */
  predicate WithIs(e: Expr, sp: Spelling) {
    e.Binary? && (e.op == TOKEN_EQ || e.op == TOKEN_NEQ) && sp.byIs(e)
  }

  function Level(e: Expr, sp: Spelling): nat {
    match e
    case Binary(op, _, _) => if WithIs(e, sp) then POSTFIX else OpLevel(op)
    case Unary(op, _) => if op == KW_NOT then NOT_LEVEL else UNARY
    case IsNull(_, _) => POSTFIX
    case In(_, _, _) => COMPARISON
    case InSelect(_, _, _) => COMPARISON
    case Like(_, _, _, _) => COMPARISON
    case Glob(_, _, _) => COMPARISON
    case Between(_, _, _, _) => COMPARISON
    case _ => PRIMARY
  }

  /** Forms that begin with an operand of their own level. */
  predicate LeftRecursive(e: Expr) {
    e.Binary? || e.IsNull? || e.In? || e.InSelect? || e.Like? || e.Glob? || e.Between?
  }

  function Left(e: Expr): Expr
    requires LeftRecursive(e)
  {
    if e.Binary? then e.left else e.operand
  }

  // ----- Spelling -----

  function Digit(d: nat): char
    requires d < 10
  {
    '0' + d as char
  }

  function Decimal(n: nat): (s: string)
    ensures |s| > 0 && forall c :: c in s ==> '0' <= c <= '9'
  {
    if n < 10 then [Digit(n)] else Decimal(n / 10) + [Digit(n % 10)]
  }

  function DigitValue(c: char): int {
    if '0' <= c <= '9' then c as int - '0' as int
    else if 'a' <= c <= 'f' then c as int - 'a' as int + 10
    else if 'A' <= c <= 'F' then c as int - 'A' as int + 10
    else 16
  }

  /** The digits of strconv.ParseInt; None for a bad digit or no digits. */
  function Digits(s: string, radix: nat): Option<nat>
    requires radix <= 16
  {
    if s == [] || DigitValue(s[|s| - 1]) >= radix then None
    else if |s| == 1 then Some(DigitValue(s[0]))
    else match Digits(s[..|s| - 1], radix)
      case None => None
      case Some(n) => Some(n * radix + DigitValue(s[|s| - 1]))
  }

  function ParseInt(s: string, radix: nat): Option<int>
    requires radix <= 16
  {
    match Digits(s, radix)
    case None => None
    case Some(n) => if n < 0x8000_0000_0000_0000 then Some(n) else None
  }

  /** A number token's value; floatOk says what strconv.ParseFloat accepts. */
  function NumberValue(text: string, floatOk: string -> bool): Option<Literal> {
    if '.' in text || 'e' in text || 'E' in text then
      if floatOk(text) then Some(Float(text)) else None
    else if |text| >= 2 && text[0] == '0' && (text[1] == 'x' || text[1] == 'X') then
      match ParseInt(text[2..], 16)
      case Some(n) => Some(Integer(n))
      case None => None
    else
      match ParseInt(text, 10)
      case Some(n) => Some(Integer(n))
      case None => if floatOk(text) then Some(Float(text)) else None
  }

  lemma {:induction false} DigitsDecimal(n: nat)
    ensures Digits(Decimal(n), 10) == Some(n)
  {
    var s := Decimal(n);
    if n >= 10 {
      DigitsDecimal(n / 10);
      assert s[..|s| - 1] == Decimal(n / 10);
    }
  }

  /** A number in base 16, with small or capital letters. */
  function Hex(n: nat, capitals: bool): (s: string)
    ensures |s| > 0 && '.' !in s
  {
    if n < 16 then [HexDigit(n, capitals)] else Hex(n / 16, capitals) + [HexDigit(n % 16, capitals)]
  }

  function HexDigit(d: nat, capitals: bool): char
    requires d < 16
  {
    if d < 10 then Digit(d) else if capitals then ['A', 'B', 'C', 'D', 'E', 'F'][d - 10]
    else ['a', 'b', 'c', 'd', 'e', 'f'][d - 10]
  }

  lemma {:induction false} DigitsHex(n: nat, capitals: bool)
    ensures Digits(Hex(n, capitals), 16) == Some(n)
  {
    var s := Hex(n, capitals);
    if n >= 16 {
      DigitsHex(n / 16, capitals);
      assert s[..|s| - 1] == Hex(n / 16, capitals);
    }
  }

  /** A number behind 0x or 0X is read in base 16 exactly when it is below 2^63 and no digit is an E,
      which would make it a floating-point number. */
  lemma HexExact(n: nat, capitals: bool, floatOk: string -> bool)
    ensures var digits := Hex(n, capitals);
            var s := (if capitals then "0X" else "0x") + digits;
            && (NumberValue(s, floatOk) == Some(Integer(n)) <==>
                n < 0x8000_0000_0000_0000 && 'e' !in digits && 'E' !in digits)
            && ('e' in digits || 'E' in digits ==>
                  NumberValue(s, floatOk) == if floatOk(s) then Some(Float(s)) else None)
  {
    var digits := Hex(n, capitals);
    var s := (if capitals then "0X" else "0x") + digits;
    DigitsHex(n, capitals);
    assert s[2..] == digits;
    assert forall c :: c in s <==> c == s[0] || c == s[1] || c in digits;
  }

  /** 254 in base 16 is no integer. */
  lemma HexWithE(floatOk: string -> bool)
    ensures NumberValue("0xfe", floatOk) == if floatOk("0xfe") then Some(Float("0xfe")) else None
  {
    assert "0xfe"[3] == 'e';
  }

  /** In decimal a number of 2^63 or more becomes a floating-point number. */
  lemma DecimalExact(n: nat, floatOk: string -> bool)
    ensures NumberValue(Decimal(n), floatOk) ==
            if n < 0x8000_0000_0000_0000 then Some(Integer(n))
            else if floatOk(Decimal(n)) then Some(Float(Decimal(n))) else None
  {
    DigitsDecimal(n);
    var d := Decimal(n);
    assert |d| >= 2 ==> d[1] in d;
  }

  // ----- The printer -----

  function Words(b: bool, k: Kind): seq<Symbol> { if b then [Word(k)] else [] }

  /** e where an operand of level k belongs, in parentheses when it binds less tightly. */
  function Print(k: nat, e: Expr, sp: Spelling): seq<Symbol>
    decreases e, 2, sp
  {
    if Level(e, sp) < k then [Word(TOKEN_LPAREN)] + (Body(e, sp) + [Word(TOKEN_RPAREN)]) else Body(e, sp)
  }

  function Body(e: Expr, sp: Spelling): seq<Symbol>
    decreases e, 1, sp
  {
    if LeftRecursive(e) then Print(Level(e, sp), Left(e), sp) + Tail(e, sp) else Prefix(e, sp)
  }

  /** What follows the left operand. */
  function Tail(e: Expr, sp: Spelling): seq<Symbol>
    requires LeftRecursive(e)
    decreases e, 0, 1, sp
  {
    if WithIs(e, sp) then [Word(KW_IS)] + (Words(e.op == TOKEN_NEQ, KW_NOT) + Print(PRIMARY, e.right, sp))
    else if e.Binary? then [Word(e.op)] + Print(OpLevel(e.op) + 1, e.right, sp)
    else if e.IsNull? then [Word(KW_IS)] + Words(e.isNot, KW_NOT) + [Word(KW_NULL)]
    else Words(e.isNot, KW_NOT) + Test(e, sp)
  }

  /** The keyword of an IN, LIKE, GLOB or BETWEEN, and what follows it. */
  function Test(e: Expr, sp: Spelling): seq<Symbol>
    requires LeftRecursive(e) && !e.Binary? && !e.IsNull?
    decreases e, 0, 0, sp
  {
    match e
    case In(_, list, _) => [Word(KW_IN)] + ([Word(TOKEN_LPAREN)] + (PrintList(list, sp) + [Word(TOKEN_RPAREN)]))
    case InSelect(_, q, _) => [Word(KW_IN)] + ([Word(TOKEN_LPAREN)] + (PrintSelect(q, sp) + [Word(TOKEN_RPAREN)]))
    case Like(_, p, esc, _) => [Word(KW_LIKE)] + (Print(4, p, sp) + PrintEscape(esc, sp))
    case Glob(_, p, _) => [Word(KW_GLOB)] + Print(4, p, sp)
    case Between(_, lo, hi, _) => [Word(KW_BETWEEN)] + (Print(4, lo, sp) + ([Word(KW_AND)] + Print(4, hi, sp)))
  }

  function PrintEscape(esc: Option<Expr>, sp: Spelling): seq<Symbol>
    decreases esc, sp
  {
    match esc
    case None => []
    case Some(c) => [Word(KW_MATCH)] + Print(4, c, sp)
  }

  /** Forms that begin with a token of their own. */
  function Prefix(e: Expr, sp: Spelling): seq<Symbol>
    requires !LeftRecursive(e)
    decreases e, 0, sp
  {
    match e
    case Lit(Integer(n)) =>
      if IsTruth(n, sp) then [Word(if n == 1 then KW_TRUE else KW_FALSE)]
      else [Lexeme(TOKEN_NUMBER, if n < 0 then "" else sp.number(n))]
    case Lit(Float(text)) => [Lexeme(TOKEN_NUMBER, text)]
    case Lit(Text(s)) => [Lexeme(TOKEN_STRING, s)]
    case Lit(Null) => [Word(KW_NULL)]
    case Ident(table, name) =>
      if |table| == 0 then [Lexeme(ColumnKind(name, sp), name)]
      else [Lexeme(ColumnKind(table, sp), table)] + ([Word(TOKEN_DOT)] + [Lexeme(NameKind(name, sp), name)])
    case Star => [Word(TOKEN_STAR)]
    case Unary(op, x) => [Word(op)] + Print(if op == KW_NOT then COMPARISON else POSTFIX, x, sp)
    case Case(base, whens, els) =>
      [Word(KW_CASE)]
      + (PrintBase(base, sp) + (PrintWhens(whens, sp) + (PrintOpt(KW_ELSE, els, sp) + [Word(KW_END)])))
    case Cast(x, t) =>
      [Word(KW_CAST)]
      + ([Word(TOKEN_LPAREN)]
         + (Print(0, x, sp) + ([Word(KW_AS)] + ([Lexeme(TypeKind(t, sp), t)] + [Word(TOKEN_RPAREN)]))))
    case Exists(q, n) =>
      Words(n, KW_NOT) + ([Word(KW_EXISTS)] + ([Word(TOKEN_LPAREN)] + (PrintSelect(q, sp) + [Word(TOKEN_RPAREN)])))
    case Subquery(q) => [Word(TOKEN_LPAREN)] + (PrintSelect(q, sp) + [Word(TOKEN_RPAREN)])
    case RowValue(vs) => [Word(TOKEN_LPAREN)] + (PrintList(vs, sp) + [Word(TOKEN_RPAREN)])
    case Func(f, args, d, s) =>
      [Lexeme(ColumnKind(f, sp), f)]
      + ([Word(TOKEN_LPAREN)]
         + (Words(s, TOKEN_STAR) + (Words(d, KW_DISTINCT) + (PrintList(args, sp) + [Word(TOKEN_RPAREN)]))))
  }

  function PrintBase(base: Option<Expr>, sp: Spelling): seq<Symbol>
    decreases base, sp
  {
    match base
    case None => []
    case Some(b) => Print(0, b, sp)
  }

  /** Expressions separated by commas. */
  function PrintList(list: seq<Expr>, sp: Spelling): seq<Symbol>
    decreases list, 0, sp
  {
    if list == [] then [] else Print(0, list[0], sp) + PrintMore(list[1..], sp)
  }

  /** Expressions, each after a comma. */
  function PrintMore(list: seq<Expr>, sp: Spelling): seq<Symbol>
    decreases list, 0, sp
  {
    if list == [] then [] else [Word(TOKEN_COMMA)] + (Print(0, list[0], sp) + PrintMore(list[1..], sp))
  }

  function PrintWhen(w: When, sp: Spelling): seq<Symbol> {
    [Word(KW_WHEN)] + (Print(0, w.cond, sp) + ([Word(KW_THEN)] + Print(0, w.result, sp)))
  }

  function PrintWhens(whens: seq<When>, sp: Spelling): seq<Symbol> {
    if whens == [] then [] else PrintWhen(whens[0], sp) + PrintWhens(whens[1..], sp)
  }

  function PrintOpt(k: Kind, e: Option<Expr>, sp: Spelling): seq<Symbol>
    decreases e, sp
  {
    match e
    case None => []
    case Some(x) => [Word(k)] + Print(0, x, sp)
  }

  function PrintSelect(q: Select, sp: Spelling): seq<Symbol>
    decreases q, 1, sp
  {
    [Word(KW_SELECT)] + (PrintDistinct(q.distinct, q.columns, sp) + (PrintColumns(q.columns, sp) + Clauses(0, q, sp)))
  }

  function PrintDistinct(distinct: bool, columns: seq<Column>, sp: Spelling): seq<Symbol> {
    if distinct then [Word(KW_DISTINCT)] else Words(sp.all(columns), KW_ALL)
  }

  /** The clauses behind the columns, from number j on; each is nothing when it is absent. */
  function Clauses(j: nat, q: Select, sp: Spelling): seq<Symbol>
    requires j <= 8
    decreases q, 0, 8 - j, 1, sp
  {
    if j == 8 then [] else Clause(j, q, sp) + Clauses(j + 1, q, sp)
  }

  function Clause(j: nat, q: Select, sp: Spelling): seq<Symbol>
    requires j < 8
    decreases q, 0, 8 - j, 0, sp
  {
    match j
    case 0 => PrintFrom(q.from, q.joins, sp)
    case 1 => PrintOpt(KW_WHERE, q.where, sp)
    case 2 => PrintGroupBy(q.groupBy, sp)
    case 3 => PrintOpt(KW_HAVING, q.having, sp)
    case 4 => PrintCompound(q.compound, sp)
    case 5 => PrintOrderBy(q.orderBy, sp)
    case 6 => PrintOpt(KW_LIMIT, q.limit, sp)
    case 7 => PrintOpt(KW_OFFSET, q.offset, sp)
  }

  function PrintAlias(alias: string, sp: Spelling): seq<Symbol> {
    if |alias| == 0 then []
    else if sp.bare(alias) then [Lexeme(TOKEN_IDENT, alias)]
    else [Word(KW_AS)] + [Lexeme(NameKind(alias, sp), alias)]
  }

  function PrintColumn(c: Column, sp: Spelling): seq<Symbol> {
    match c
    case StarColumn => [Word(TOKEN_STAR)]
    case Column(e, alias) => Print(0, e, sp) + PrintAlias(alias, sp)
  }

  function PrintColumns(cs: seq<Column>, sp: Spelling): seq<Symbol> {
    if cs == [] then [] else PrintColumn(cs[0], sp) + MoreColumns(cs[1..], sp)
  }

  function MoreColumns(cs: seq<Column>, sp: Spelling): seq<Symbol> {
    if cs == [] then [] else [Word(TOKEN_COMMA)] + (PrintColumn(cs[0], sp) + MoreColumns(cs[1..], sp))
  }

  function PrintRef(t: TableRef, sp: Spelling): seq<Symbol> {
    [Lexeme(NameKind(t.name, sp), t.name)] + PrintAlias(t.alias, sp)
  }

  function PrintRefs(refs: seq<TableRef>, sp: Spelling): seq<Symbol> {
    if refs == [] then [] else PrintRef(refs[0], sp) + MoreRefs(refs[1..], sp)
  }

  function MoreRefs(refs: seq<TableRef>, sp: Spelling): seq<Symbol> {
    if refs == [] then [] else [Word(TOKEN_COMMA)] + (PrintRef(refs[0], sp) + MoreRefs(refs[1..], sp))
  }

  function PrintFrom(refs: seq<TableRef>, joins: seq<Join>, sp: Spelling): seq<Symbol>
    decreases joins, 1, sp
  {
    if refs == [] then [] else [Word(KW_FROM)] + (PrintRefs(refs, sp) + PrintJoins(joins, sp))
  }

  predicate IsJoinType(k: Kind) {
    k == KW_INNER || k == KW_LEFT || k == KW_RIGHT || k == KW_FULL || k == KW_CROSS || k == KW_NATURAL
  }

  predicate IsJoinStart(k: Kind) { IsJoinType(k) || k == KW_JOIN }

  predicate TakesOuter(k: Kind) { k == KW_LEFT || k == KW_RIGHT || k == KW_FULL }

  /** The type of a join is the token it begins with; a plain JOIN is an inner one. */
  function JoinWords(j: Join, sp: Spelling): seq<Symbol> {
    if j.how == KW_INNER && sp.plain(j) then [Word(KW_JOIN)]
    else [Word(j.how)] + (Words(TakesOuter(j.how) && sp.outer(j), KW_OUTER) + [Word(KW_JOIN)])
  }

  function PrintNames(names: seq<string>, sp: Spelling): seq<Symbol> {
    if names == [] then [] else [Lexeme(NameKind(names[0], sp), names[0])] + MoreNames(names[1..], sp)
  }

  function MoreNames(names: seq<string>, sp: Spelling): seq<Symbol> {
    if names == [] then []
    else [Word(TOKEN_COMMA)] + ([Lexeme(NameKind(names[0], sp), names[0])] + MoreNames(names[1..], sp))
  }

  function PrintJoin(j: Join, sp: Spelling): seq<Symbol>
    decreases j, sp
  {
    JoinWords(j, sp) + (PrintRef(j.table, sp) + (PrintOpt(KW_ON, j.on, sp) + PrintUsing(j.using, sp)))
  }

  function PrintUsing(names: seq<string>, sp: Spelling): seq<Symbol> {
    if names == [] then []
    else [Word(KW_USING)] + ([Word(TOKEN_LPAREN)] + (PrintNames(names, sp) + [Word(TOKEN_RPAREN)]))
  }

  function PrintJoins(joins: seq<Join>, sp: Spelling): seq<Symbol>
    decreases joins, 0, sp
  {
    if joins == [] then [] else PrintJoin(joins[0], sp) + PrintJoins(joins[1..], sp)
  }

  function PrintGroupBy(list: seq<Expr>, sp: Spelling): seq<Symbol>
    decreases list, 1, sp
  {
    if list == [] then [] else [Word(KW_GROUP)] + ([Word(KW_BY)] + PrintList(list, sp))
  }

  predicate IsCompound(k: Kind) { k == KW_UNION || k == KW_INTERSECT || k == KW_EXCEPT }

  function PrintCompound(c: Option<Compound>, sp: Spelling): seq<Symbol> {
    match c
    case None => []
    case Some(Compound(op, all, right)) => [Word(op)] + (Words(all, KW_ALL) + PrintSelect(right, sp))
  }

  function PrintOrdering(o: Ordering, sp: Spelling): seq<Symbol> {
    Print(0, o.expr, sp) + (PrintDirection(o, sp) + PrintNulls(o.nulls))
  }

  function PrintDirection(o: Ordering, sp: Spelling): seq<Symbol> {
    if o.desc then [Word(KW_DESC)] else Words(sp.asc(o), KW_ASC)
  }

  function PrintNulls(nulls: NullsOrder): seq<Symbol> {
    if nulls.NullsDefault? then [] else [Word(KW_NULLS), Word(if nulls.NullsFirst? then KW_FIRST else KW_LAST)]
  }

  function PrintOrderings(list: seq<Ordering>, sp: Spelling): seq<Symbol>
    decreases list, 0, sp
  {
    if list == [] then [] else PrintOrdering(list[0], sp) + MoreOrderings(list[1..], sp)
  }

  function MoreOrderings(list: seq<Ordering>, sp: Spelling): seq<Symbol>
    decreases list, 0, sp
  {
    if list == [] then [] else [Word(TOKEN_COMMA)] + (PrintOrdering(list[0], sp) + MoreOrderings(list[1..], sp))
  }

  function PrintOrderBy(list: seq<Ordering>, sp: Spelling): seq<Symbol>
    decreases list, 1, sp
  {
    if list == [] then [] else [Word(KW_ORDER)] + ([Word(KW_BY)] + PrintOrderings(list, sp))
  }

  // ----- Which trees print to tokens that parse back -----

  function FirstKind(s: seq<Symbol>): Kind { if s == [] then TOKEN_EOF else s[0].kind }

  function UpperChar(c: char): char { if 'a' <= c <= 'z' then c - 'a' + 'A' else c }

  /** strings.ToUpper(s) == word, for ASCII letters. */
  predicate IsWord(s: string, word: string) {
    |s| == |word| && forall i :: 0 <= i < |s| ==> UpperChar(s[i]) == word[i]
  }

  /** The operand an expression begins with, through all left operands. */
  function Leftmost(e: Expr): Expr { if LeftRecursive(e) then Leftmost(Left(e)) else e }

  /** e may begin where a leading NOT is an operator: it does not begin with NOT EXISTS as one
      node. */
  predicate Loose(e: Expr) { !(Leftmost(e).Exists? && Leftmost(e).isNot) }

  /** e may stand where an operand of level k belongs: up to the level of NOT, and in the
      parentheses that a lower level needs, a leading NOT is an operator. */
  predicate Sits(k: nat, e: Expr, sp: Spelling) { k <= NOT_LEVEL || Level(e, sp) < k ==> Loose(e) }

  /** Where a clause's first token stands among the clauses; what ends the statement comes last,
      and 0 is for the tokens that begin no clause. */
  function ClauseRank(k: Kind): nat {
    if k == KW_FROM then 1
    else if k == KW_WHERE then 2
    else if k == KW_GROUP then 3
    else if k == KW_HAVING then 4
    else if k == KW_UNION || k == KW_INTERSECT || k == KW_EXCEPT then 5
    else if k == KW_ORDER then 6
    else if k == KW_LIMIT then 7
    else if k == KW_OFFSET then 8
    else if k == TOKEN_RPAREN || k == TOKEN_EOF || k == TOKEN_SEMICOLON then 9
    else 0
  }

  predicate EndsSelect(k: Kind) { k == TOKEN_RPAREN || k == TOKEN_EOF || k == TOKEN_SEMICOLON }

  /** The ranks of the first and the last of a SELECT's own ORDER BY, LIMIT and OFFSET. */
  function FirstRank(q: Select): nat {
    if q.orderBy != [] then 6 else if q.limit.Some? then 7 else if q.offset.Some? then 8 else 9
  }

  function LastRank(q: Select): nat {
    if q.offset.Some? then 8 else if q.limit.Some? then 7 else if q.orderBy != [] then 6 else 0
  }

  /** A SELECT whose last clause is read stops before this token: the end of the statement, or an
      ORDER BY, LIMIT or OFFSET that its own clauses have passed. */
  predicate EndsAfter(q: Select, k: Kind) { EndsSelect(k) || 6 <= ClauseRank(k) <= LastRank(q) }

  /** A compound's own ORDER BY, LIMIT and OFFSET come to it exactly when the right side has passed
      the first of them. */
  predicate InOrder(q: Select) {
    q.compound.Some? ==> FirstRank(q) == 9 || FirstRank(q) <= LastRank(q.compound.value.right)
  }

  /** What IS or IS NOT compares with does not begin like a test for NULL, nor is a NOT taken for
      its own. */
  predicate MayFollowIs(op: Kind, k: Kind) { k != KW_NULL && (op == TOKEN_EQ ==> k != KW_NOT) }

  /** The trees that have a printed form. What this leaves out: negative integers (the sign is an
      operator), the argument lists and columns whose first token would be taken for the sign *
      alone, and a CASE with nothing in it. */
  predicate Printable(e: Expr, sp: Spelling)
    decreases e, 0, sp
  {
    match e
    case Lit(Integer(n)) => n >= 0 && (IsTruth(n, sp) || NumberValue(sp.number(n), sp.floatOk) == Some(Integer(n)))
    case Lit(Float(text)) => NumberValue(text, sp.floatOk) == Some(Float(text))
    case Lit(_) => true
    case Ident(_, _) => true
    case Star => true
    case Binary(op, l, r) =>
      && IsBinary(op) && Printable(l, sp) && Sits(Level(e, sp), l, sp) && Printable(r, sp)
      && if WithIs(e, sp) then Sits(PRIMARY, r, sp) && MayFollowIs(op, FirstKind(Print(PRIMARY, r, sp)))
         else Sits(OpLevel(op) + 1, r, sp)
    case Unary(op, x) => IsUnary(op) && Printable(x, sp) && Sits(if op == KW_NOT then COMPARISON else POSTFIX, x, sp)
    case IsNull(x, _) => Printable(x, sp) && Sits(POSTFIX, x, sp)
    case In(x, list, _) => Printable(x, sp) && Sits(COMPARISON, x, sp) && PrintableList(list, sp)
    case InSelect(x, q, _) => Printable(x, sp) && Sits(COMPARISON, x, sp) && PrintableSelect(q, sp)
    case Like(x, p, esc, _) =>
      Printable(x, sp) && Sits(COMPARISON, x, sp) && Printable(p, sp) && Sits(4, p, sp)
      && (esc.Some? ==> Printable(esc.value, sp) && Sits(4, esc.value, sp))
    case Glob(x, p, _) => Printable(x, sp) && Sits(COMPARISON, x, sp) && Printable(p, sp) && Sits(4, p, sp)
    case Between(x, lo, hi, _) =>
      Printable(x, sp) && Sits(COMPARISON, x, sp) && Printable(lo, sp) && Sits(4, lo, sp) && Printable(hi, sp)
      && Sits(4, hi, sp)
    case Case(base, whens, els) =>
      (base.Some? || whens != []) && PrintableOpt(base, sp) && PrintableOpt(els, sp)
      && forall i :: 0 <= i < |whens| ==> PrintableWhen(whens[i], sp)
    case Cast(x, t) => Printable(x, sp) && Sits(0, x, sp) && (TypeKind(t, sp) == TOKEN_IDENT ==> !IsWord(t, "UNSIGNED"))
    case Exists(q, _) => PrintableSelect(q, sp)
    case Subquery(q) => PrintableSelect(q, sp)
    case RowValue(vs) => |vs| >= 2 && PrintableList(vs, sp)
    case Func(_, args, d, s) =>
      && (s ==> args == [] && !d) && (d ==> args != [])
      && (args != [] && !d ==> FirstKind(PrintList(args, sp)) != TOKEN_STAR)
      && PrintableList(args, sp)
  }

  predicate PrintableOpt(e: Option<Expr>, sp: Spelling)
    decreases e, 0, sp
  {
    e.Some? ==> Printable(e.value, sp) && Sits(0, e.value, sp)
  }

  predicate PrintableList(list: seq<Expr>, sp: Spelling)
    decreases list, 0, sp
  {
    forall i :: 0 <= i < |list| ==> Printable(list[i], sp) && Sits(0, list[i], sp)
  }

  predicate PrintableWhen(w: When, sp: Spelling)
    decreases w, 0, sp
  {
    Printable(w.cond, sp) && Sits(0, w.cond, sp) && Printable(w.result, sp) && Sits(0, w.result, sp)
  }

  predicate PrintableSelect(q: Select, sp: Spelling)
    decreases q, 0, sp
  {
    && q.columns != [] && (forall i :: 0 <= i < |q.columns| ==> PrintableColumn(q.columns[i], sp))
    && (q.from == [] ==> q.joins == []) && (forall i :: 0 <= i < |q.joins| ==> PrintableJoin(q.joins[i], sp))
    && PrintableOpt(q.where, sp) && PrintableList(q.groupBy, sp) && PrintableOpt(q.having, sp)
    && (q.compound.Some? ==> PrintableCompound(q.compound.value, sp)) && InOrder(q)
    && (forall i :: 0 <= i < |q.orderBy| ==> PrintableOrdering(q.orderBy[i], sp))
    && PrintableOpt(q.limit, sp) && PrintableOpt(q.offset, sp)
  }

  predicate PrintableColumn(c: Column, sp: Spelling)
    decreases c, 0, sp
  {
    c.Column? ==> Printable(c.expr, sp) && Sits(0, c.expr, sp) && FirstKind(Print(0, c.expr, sp)) != TOKEN_STAR
  }

  predicate PrintableJoin(j: Join, sp: Spelling)
    decreases j, 0, sp
  {
    IsJoinType(j.how) && PrintableOpt(j.on, sp) && (j.on.None? || j.using == [])
  }

  predicate PrintableCompound(c: Compound, sp: Spelling)
    decreases c, 0, sp
  {
    IsCompound(c.op) && PrintableSelect(c.right, sp)
  }

  predicate PrintableOrdering(o: Ordering, sp: Spelling)
    decreases o, 0, sp
  {
    Printable(o.expr, sp) && Sits(0, o.expr, sp)
  }

  predicate PrintableAt(k: nat, e: Expr, sp: Spelling) { Printable(e, sp) && Sits(k, e, sp) }

  /** Decimal spelling prints every integer a literal can hold. */
  lemma DecimalPrints(n: nat, sp: Spelling)
    requires n < 0x8000_0000_0000_0000 && sp.number(n) == Decimal(n)
    ensures PrintableAt(0, Lit(Integer(n)), sp)
  {
    DecimalExact(n, sp.floatOk);
  }
}
