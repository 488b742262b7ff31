/** The string side of the lexer (lexer.go:364-481, 518-545) and the QUOTE function it undoes
    (eval.go:969-978). */
module Lexers {
  import opened Wrappers

  // ----- QUOTE -----

  /** strings.ReplaceAll(s, q, q + q) for a one-character q. */
  function Double(s: string, q: char): string {
    if s == "" then "" else (if s[0] == q then [q, q] else [s[0]]) + Double(s[1..], q)
  }

  /** QUOTE of a text value. */
  function Quote(s: string): string { ['\''] + Double(s, '\'') + ['\''] }

  // ----- What a string token says -----

  /** A backslash escape inside double quotes. */
  function Unescape(c: char): string {
    match c
    case 'n' => "\n"
    case 't' => "\t"
    case 'r' => "\r"
    case '\\' => "\\"
    case '"' => "\""
    case _ => ['\\', c]
  }

  /** The value of the string whose opening quote precedes t, and the number of characters up to
      and with the closing quote; None when it is not closed. */
  function Scan(t: string, q: char): Option<(string, nat)> {
    if t == "" then None
    else if t[0] == q then
      if |t| > 1 && t[1] == q then Prepend([q], 2, Scan(t[2..], q)) else Some(("", 1))
    else if t[0] == '\\' && q == '"' then
      if |t| > 1 then Prepend(Unescape(t[1]), 2, Scan(t[2..], q)) else None
    else Prepend([t[0]], 1, Scan(t[1..], q))
  }

  function Prepend(head: string, n: nat, r: Option<(string, nat)>): Option<(string, nat)> {
    match r
    case None => None
    case Some((value, read)) => Some((head + value, n + read))
  }

  /** A quoted text reads back exactly when no further quote follows it. */
  lemma {:induction false} ScanDoubled(s: string, q: char, rest: string)
    requires q != '"'
    ensures Scan(Double(s, q) + [q] + rest, q) == Some((s, |Double(s, q)| + 1)) <==> rest == "" || rest[0] != q
  {
    var t := Double(s, q) + [q] + rest;
    if s == "" {
      assert t == [q] + rest;
      if rest != "" && rest[0] == q {
        assert t[1] == q;
      }
    } else {
      ScanDoubled(s[1..], q, rest);
      var more := Double(s[1..], q) + [q] + rest;
      if s[0] == q {
        assert t == [q, q] + more;
        assert t[2..] == more;
      } else {
        assert t == [s[0]] + more;
        assert t[1..] == more;
      }
      assert s == [s[0]] + s[1..];
      assert forall v: string :: [s[0]] + v == s ==> v == s[1..] by {
        forall v: string | [s[0]] + v == s
          ensures v == s[1..]
        {
          assert ([s[0]] + v)[1..] == v;
        }
      }
    }
  }

  /** Whatever a string token without backslashes was read from is the quoted form of its value. */
  lemma {:induction false} ScanIsDoubled(t: string, q: char)
    requires q != '"' && Scan(t, q).Some?
    ensures var (value, n) := Scan(t, q).value; 1 <= n <= |t| && t[..n] == Double(value, q) + [q]
    decreases |t|
  {
    var (value, n) := Scan(t, q).value;
    if t[0] == q {
      if |t| > 1 && t[1] == q {
        ScanIsDoubled(t[2..], q);
        var v2, n2 := Scan(t[2..], q).value.0, Scan(t[2..], q).value.1;
        assert value == [q] + v2 && n == 2 + n2;
        assert value[1..] == v2;
        assert t[..n] == [q, q] + t[2..][..n2];
      } else {
        assert t[..1] == [q];
      }
    } else {
      ScanIsDoubled(t[1..], q);
      var v1, n1 := Scan(t[1..], q).value.0, Scan(t[1..], q).value.1;
      assert value == [t[0]] + v1 && n == 1 + n1;
      assert value[1..] == v1;
      assert t[..n] == [t[0]] + t[1..][..n1];
    }
  }

  /** The escapes that make any text readable between double quotes. */
  function Escape(s: string): string {
    if s == "" then "" else (if s[0] == '"' || s[0] == '\\' then ['\\', s[0]] else [s[0]]) + Escape(s[1..])
  }

  /** Any text, escaped between double quotes, reads back, when no further quote follows it. */
  lemma {:induction false} ScanEscaped(s: string, rest: string)
    requires rest == "" || rest[0] != '"'
    ensures Scan(Escape(s) + ['"'] + rest, '"') == Some((s, |Escape(s)| + 1))
  {
    var t := Escape(s) + ['"'] + rest;
    if s == "" {
      assert t == ['"'] + rest;
    } else {
      ScanEscaped(s[1..], rest);
      var more := Escape(s[1..]) + ['"'] + rest;
      if s[0] == '"' || s[0] == '\\' {
        assert t == ['\\', s[0]] + more;
        assert t[2..] == more;
      } else {
        assert t == [s[0]] + more;
        assert t[1..] == more;
      }
      assert s == [s[0]] + s[1..];
    }
  }

  // ----- Lines and columns -----

  function Newlines(s: string): nat {
    if s == "" then 0 else Newlines(s[..|s| - 1]) + (if s[|s| - 1] == '\n' then 1 else 0)
  }

  /** Characters since the last newline. */
  function LastLine(s: string): nat {
    if s == "" || s[|s| - 1] == '\n' then 0 else LastLine(s[..|s| - 1]) + 1
  }

  datatype StringToken = StringToken(value: string, line: nat, col: nat)

  class Lexer {
    const input: string
    var pos: nat
    var line: nat
    var col: nat

    /** The position is inside the input, and line and column say where it is. */
    ghost predicate Valid()
      reads this
    {
      pos <= |input| && line == 1 + Newlines(input[..pos]) && col == 1 + LastLine(input[..pos])
    }

    constructor (input: string)
      ensures this.input == input && pos == 0 && Valid()
    {
      this.input := input;
      pos, line, col := 0, 1, 1;
    }

    /** advance: the next character, or 0 at the end of the input. */
    method Advance() returns (ch: char)
      requires Valid()
      modifies this
      ensures Valid()
      ensures if old(pos) < |input| then pos == old(pos) + 1 && ch == input[old(pos)]
              else ch == '\0' && pos == old(pos) && line == old(line) && col == old(col)
    {
      if pos >= |input| {
        return '\0';
      }
      ch := input[pos];
      assert input[..pos + 1][..pos] == input[..pos];
      pos := pos + 1;
      if ch == '\n' {
        line, col := line + 1, 1;
      } else {
        col := col + 1;
      }
    }

    /** readString, at an opening quote. */
    method ReadString(quote: char) returns (r: Result<StringToken>)
      requires Valid() && pos < |input| && input[pos] == quote
      modifies this
      ensures Valid()
      ensures match Scan(input[old(pos) + 1..], quote)
              case None => r == Err(Unterminated) && pos == |input|
              case Some((value, n)) => r == Ok(StringToken(value, old(line), old(col))) && pos == old(pos) + 1 + n
    {
      var startLine, startCol := line, col;
      var _ := Advance();
      ghost var start := pos;
      ghost var whole := Scan(input[pos..], quote);
      var sb := "";
      PrependNothing(whole);
      while pos < |input|
        invariant Valid() && start <= pos
        invariant whole == Prepend(sb, pos - start, Scan(input[pos..], quote))
        decreases |input| - pos
      {
        var closed;
        sb, closed := ReadChar(quote, sb, start, whole);
        if closed {
          return Ok(StringToken(sb, startLine, startCol));
        }
      }
      r := Err(Unterminated);
    }

    /** One turn of the loop: a character, a doubled quote, an escape, or the closing quote. */
    method ReadChar(quote: char, sb0: string, ghost start: nat, ghost whole: Option<(string, nat)>)
      returns (sb: string, closed: bool)
      requires Valid() && start <= pos < |input|
      requires whole == Prepend(sb0, pos - start, Scan(input[pos..], quote))
      modifies this
      ensures Valid() && old(pos) < pos
      ensures if closed then whole == Some((sb, pos - start))
              else whole == Prepend(sb, pos - start, Scan(input[pos..], quote))
    {
      ghost var t, p := input[pos..], pos;
      ScanStep(t, quote, whole, sb0, pos - start);
      assert t[1..] == input[p + 1..];
      assert |t| > 1 ==> t[2..] == input[p + 2..] && t[1] == input[p + 1];
      sb := sb0;
      var ch := input[pos];
      if ch == quote {
        if pos + 1 < |input| && input[pos + 1] == quote {
          sb := sb + [quote];
          var _ := Advance();
          var _ := Advance();
          return sb, false;
        }
        var _ := Advance();
        return sb, true;
      }
      if ch == '\\' && quote == '"' {
        var _ := Advance();
        if pos < |input| {
          var esc := Advance();
          sb := sb + Unescape(esc);
        }
        return sb, false;
      }
      sb := sb + [ch];
      var _ := Advance();
      closed := false;
    }

    lemma PrependNothing(r: Option<(string, nat)>)
      ensures Prepend("", 0, r) == r
    {
      if r.Some? {
        assert "" + r.value.0 == r.value.0;
      }
    }

    /** What one turn of the loop moves from the rest of the input to the builder. */
    lemma ScanStep(t: string, q: char, whole: Option<(string, nat)>, sb: string, n: nat)
      requires t != "" && whole == Prepend(sb, n, Scan(t, q))
      ensures if t[0] == q then
                if |t| > 1 && t[1] == q then whole == Prepend(sb + [q], n + 2, Scan(t[2..], q))
                else whole == Some((sb, n + 1))
              else if t[0] == '\\' && q == '"' then
                if |t| > 1 then whole == Prepend(sb + Unescape(t[1]), n + 2, Scan(t[2..], q)) else whole == None
              else whole == Prepend(sb + [t[0]], n + 1, Scan(t[1..], q))
    {
      if t[0] == q {
        if |t| > 1 && t[1] == q {
          Prepended(sb, [q], n, 2, Scan(t[2..], q));
        } else {
          assert sb + "" == sb;
        }
      } else if t[0] == '\\' && q == '"' {
        if |t| > 1 {
          Prepended(sb, Unescape(t[1]), n, 2, Scan(t[2..], q));
        }
      } else {
        Prepended(sb, [t[0]], n, 1, Scan(t[1..], q));
      }
    }

    lemma Prepended(a: string, b: string, m: nat, n: nat, r: Option<(string, nat)>)
      ensures Prepend(a, m, Prepend(b, n, r)) == Prepend(a + b, m + n, r)
    {
      if r.Some? {
        assert a + (b + r.value.0) == a + b + r.value.0;
      }
    }

    /** readQuotedIdent, at an opening backquote or bracket; it knows no escapes. */
    method ReadQuotedIdent(quote: char) returns (r: Result<StringToken>)
      requires Valid() && pos < |input|
      modifies this
      ensures Valid()
      ensures r.Ok? ==>
                && old(pos) + 1 < pos && input[old(pos) + 1..pos] == r.value.value + [quote] && quote !in r.value.value
                && r.value.line == old(line) && r.value.col == old(col)
      ensures r.Err? ==> r == Err(Unterminated) && quote !in input[old(pos) + 1..] && pos == |input|
    {
      var startLine, startCol := line, col;
      var _ := Advance();
      ghost var start := pos;
      var sb := "";
      while pos < |input|
        invariant Valid() && start <= pos && sb == input[start..pos] && quote !in sb
        decreases |input| - pos
      {
        var ch := input[pos];
        if ch == quote {
          var _ := Advance();
          return Ok(StringToken(sb, startLine, startCol));
        }
        sb := sb + [ch];
        var _ := Advance();
      }
      r := Err(Unterminated);
    }
  }

  /** For every text and every rest, lexing QUOTE of the text reads one token with that value and
      stops at the rest, exactly when the rest does not begin with a quote. */
  method LexQuoted(s: string, rest: string) returns (r: Result<StringToken>, stopped: nat)
    ensures (r == Ok(StringToken(s, 1, 1)) && stopped == |Quote(s)|) <==> rest == "" || rest[0] != '\''
  {
    var lexer := new Lexer(Quote(s) + rest);
    ghost var after := Double(s, '\'') + ['\''] + rest;
    assert lexer.input == ['\''] + after;
    assert lexer.input[1..] == after;
    ScanDoubled(s, '\'', rest);
    r := lexer.ReadString('\'');
    stopped := lexer.pos;
  }

  /** No quote and no backslash. */
  predicate IsOrdinary(s: string) { '"' !in s && '\\' !in s }

  lemma {:induction false} ScanOrdinary(s: string, rest: string)
    requires IsOrdinary(s)
    ensures Scan(s + rest, '"') == Prepend(s, |s|, Scan(rest, '"'))
  {
    var t := s + rest;
    if s == "" {
      assert t == rest;
      assert Scan(rest, '"').Some? ==> "" + Scan(rest, '"').value.0 == Scan(rest, '"').value.0;
    } else {
      assert t[0] == s[0] && s[0] in s;
      assert t[1..] == s[1..] + rest;
      ScanOrdinary(s[1..], rest);
      var more := Scan(rest, '"');
      assert [s[0]] + s[1..] == s;
      assert more.Some? ==> [s[0]] + (s[1..] + more.value.0) == s + more.value.0;
    }
  }

  /** One escape among ordinary characters between double quotes: n, t and r stand for a newline, a
      tab and a carriage return, a backslash and a quote for themselves, and before any other
      character the backslash stays. */
  method LexEscape(before: string, c: char, after: string) returns (r: Result<StringToken>, stopped: nat)
    requires IsOrdinary(before) && IsOrdinary(after)
    ensures stopped == |before| + |after| + 4
    ensures c == 'n' ==> r == Ok(StringToken(before + ['\n'] + after, 1, 1))
    ensures c == 't' ==> r == Ok(StringToken(before + ['\t'] + after, 1, 1))
    ensures c == 'r' ==> r == Ok(StringToken(before + ['\r'] + after, 1, 1))
    ensures c == '\\' || c == '"' ==> r == Ok(StringToken(before + [c] + after, 1, 1))
    ensures c !in {'n', 't', 'r', '\\', '"'} ==> r == Ok(StringToken(before + ['\\', c] + after, 1, 1))
  {
    ghost var end := after + ['"'];
    ghost var escape := ['\\', c] + end;
    var lexer := new Lexer(['"'] + before + ['\\', c] + after + ['"']);
    assert lexer.input[1..] == before + escape;
    ScanOrdinary(before, escape);
    assert escape[2..] == end;
    ScanOrdinary(after, ['"']);
    assert after + "" == after;
    assert before + (Unescape(c) + after) == before + Unescape(c) + after;
    r := lexer.ReadString('"');
    stopped := lexer.pos;
  }
}
