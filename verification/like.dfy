/** LIKE and GLOB: the backtracking matchers of eval.go against what a pattern means. */
module Wildcards {
  import opened Wrappers

  // ----- What a pattern means -----

  /** One element of a pattern: any run of characters, any one character, that character, or a
      character inside (or outside) a list of ranges. */
  datatype Element = AnyRun | AnyOne | Exactly(c: char) | Class(negated: bool, ranges: seq<(char, char)>)

  predicate Covers(ranges: seq<(char, char)>, c: char) {
    exists i :: 0 <= i < |ranges| && ranges[i].0 <= c <= ranges[i].1
  }

  predicate Fits(e: Element, piece: string) {
    match e
    case AnyRun => true
    case AnyOne => |piece| == 1
    case Exactly(c) => piece == [c]
    case Class(negated, ranges) => |piece| == 1 && Covers(ranges, piece[0]) != negated
  }

  /** Piece number i, between two cuts, fits its element. */
  predicate PieceFits(s: string, es: seq<Element>, cuts: seq<nat>, i: nat)
    requires i < |es| && |cuts| == |es| + 1
  {
    cuts[i] <= cuts[i + 1] <= |s| && Fits(es[i], s[cuts[i]..cuts[i + 1]])
  }

  /** cuts divides s into consecutive pieces, one for each element, that fit. */
  ghost predicate Divides(s: string, es: seq<Element>, cuts: seq<nat>) {
    && |cuts| == |es| + 1 && cuts[0] == 0 && cuts[|es|] == |s|
    && forall i :: 0 <= i < |es| ==> PieceFits(s, es, cuts, i)
  }

  ghost predicate Matches(s: string, es: seq<Element>) {
    exists cuts :: Divides(s, es, cuts)
  }

  lemma MatchesNothing(s: string)
    ensures Matches(s, []) <==> s == ""
  {
    if s == "" {
      assert Divides(s, [], [0]);
    }
  }

  /** The first element takes the first n characters, the others the rest. */
  lemma MatchesFirst(s: string, es: seq<Element>, n: nat)
    requires es != [] && n <= |s| && Fits(es[0], s[..n]) && Matches(s[n..], es[1..])
    ensures Matches(s, es)
  {
    var cuts :| Divides(s[n..], es[1..], cuts);
    var all := [0] + seq(|cuts|, i requires 0 <= i < |cuts| => cuts[i] + n);
    assert all[1] == n;
    assert PieceFits(s, es, all, 0);
    forall i | 0 < i < |es|
      ensures PieceFits(s, es, all, i)
    {
      assert PieceFits(s[n..], es[1..], cuts, i - 1);
      assert all[i] == cuts[i - 1] + n && all[i + 1] == cuts[i] + n;
      assert s[n..][cuts[i - 1]..cuts[i]] == s[all[i]..all[i + 1]];
    }
    assert Divides(s, es, all);
  }

  lemma MatchesRest(s: string, es: seq<Element>) returns (n: nat)
    requires es != [] && Matches(s, es)
    ensures n <= |s| && Fits(es[0], s[..n]) && Matches(s[n..], es[1..])
  {
    var cuts :| Divides(s, es, cuts);
    n := cuts[1];
    assert PieceFits(s, es, cuts, 0);
    assert s[cuts[0]..cuts[1]] == s[..n];
    CutsIncrease(s, es, cuts);
    var rest := seq(|es|, i requires 0 <= i < |es| => cuts[i + 1] - n);
    forall i | 0 <= i < |es| - 1
      ensures PieceFits(s[n..], es[1..], rest, i)
    {
      assert PieceFits(s, es, cuts, i + 1);
      assert s[n..][rest[i]..rest[i + 1]] == s[cuts[i + 1]..cuts[i + 2]];
    }
    assert Divides(s[n..], es[1..], rest);
  }

  lemma CutsIncrease(s: string, es: seq<Element>, cuts: seq<nat>)
    requires es != [] && Divides(s, es, cuts)
    ensures forall j :: 1 <= j <= |es| ==> cuts[1] <= cuts[j]
  {
    for k := 1 to |es|
      invariant forall j :: 1 <= j <= k ==> cuts[1] <= cuts[j]
    {
      assert PieceFits(s, es, cuts, k);
    }
  }

  /** A run first: some tail of s matches the others. */
  lemma RunMatches(s: string, es: seq<Element>)
    requires es != [] && es[0] == AnyRun
    ensures Matches(s, es) <==> exists i :: 0 <= i <= |s| && Matches(s[i..], es[1..])
  {
    if Matches(s, es) {
      var n := MatchesRest(s, es);
    }
    if i :| 0 <= i <= |s| && Matches(s[i..], es[1..]) {
      MatchesFirst(s, es, i);
    }
  }

  /** Any other element first: it takes one character. */
  lemma OneMatches(s: string, es: seq<Element>)
    requires es != [] && es[0] != AnyRun
    ensures Matches(s, es) <==> s != "" && Fits(es[0], s[..1]) && Matches(s[1..], es[1..])
  {
    if Matches(s, es) {
      var n := MatchesRest(s, es);
      assert n == 1 by {
        assert |s[..n]| == n;
      }
    }
    if s != "" && Fits(es[0], s[..1]) && Matches(s[1..], es[1..]) {
      MatchesFirst(s, es, 1);
    }
  }

  // ----- LIKE -----

  /** The elements of a LIKE pattern. The escape takes the next character literally; as the last
      character it means what it means without an escape. */
  function LikeElements(p: string, escape: char): seq<Element> {
    if p == "" then []
    else if p[0] == escape && |p| > 1 then [Exactly(p[1])] + LikeElements(p[2..], escape)
    else [if p[0] == '%' then AnyRun else if p[0] == '_' then AnyOne else Exactly(p[0])] + LikeElements(p[1..], escape)
  }

  /** str LIKE pattern ESCAPE escape */
  ghost predicate Like(s: string, p: string, escape: char) { Matches(s, LikeElements(p, escape)) }

  /** What LIKE does with the first character of a pattern. A percent sign takes any run, an
      underscore any character; the escape makes the next character an ordinary one, but is itself
      ordinary, or a wildcard, at the end of the pattern; any other character takes itself. */
  lemma LikeFirst(s: string, c: char, p: string, escape: char)
    ensures c == escape && p != "" ==>
              (Like(s, [c] + p, escape) <==> s != "" && s[0] == p[0] && Like(s[1..], p[1..], escape))
    ensures c == '%' && (c != escape || p == "") ==>
              (Like(s, [c] + p, escape) <==> exists i :: 0 <= i <= |s| && Like(s[i..], p, escape))
    ensures c == '_' && (c != escape || p == "") ==>
              (Like(s, [c] + p, escape) <==> s != "" && Like(s[1..], p, escape))
    ensures c != '%' && c != '_' && (c != escape || p == "") ==>
              (Like(s, [c] + p, escape) <==> s != "" && s[0] == c && Like(s[1..], p, escape))
  {
    var pattern := [c] + p;
    var es := LikeElements(pattern, escape);
    if c == escape && p != "" {
      assert pattern[2..] == p[1..];
      assert es[1..] == LikeElements(p[1..], escape);
      OneMatches(s, es);
    } else {
      assert pattern[1..] == p;
      assert es[1..] == LikeElements(p, escape);
      if c == '%' {
        RunMatches(s, es);
      } else {
        OneMatches(s, es);
      }
    }
  }

  /** The empty pattern takes the empty string alone. */
  lemma LikeEmpty(s: string, escape: char)
    ensures Like(s, "", escape) <==> s == ""
  {
    MatchesNothing(s);
  }

  /** A text as a pattern, with the escape before every wildcard and every escape. */
  function Escaped(t: string, escape: char): string {
    if t == "" then ""
    else (if t[0] in {'%', '_', escape} then [escape, t[0]] else [t[0]]) + Escaped(t[1..], escape)
  }

  /** A text with its wildcards escaped takes itself and nothing else; a text without any needs no
      escapes. */
  lemma {:induction false} LikeEscaped(s: string, t: string, escape: char)
    ensures Like(s, Escaped(t, escape), escape) <==> s == t
    ensures '%' !in t && '_' !in t && escape !in t ==> Escaped(t, escape) == t
  {
    if t == "" {
      LikeEmpty(s, escape);
    } else {
      var c, rest := t[0], Escaped(t[1..], escape);
      if s != "" {
        LikeEscaped(s[1..], t[1..], escape);
        assert s == [s[0]] + s[1..];
      } else {
        LikeEscaped(s, t[1..], escape);
      }
      assert t == [c] + t[1..];
      if c in {'%', '_', escape} {
        LikeFirst(s, escape, [c] + rest, escape);
        assert Escaped(t, escape) == [escape] + ([c] + rest);
        assert ([c] + rest)[1..] == rest;
      } else {
        LikeFirst(s, c, rest, escape);
      }
    }
  }

  /** sqlLikeMatch */
  method SqlLikeMatch(str: string, pattern: string, escape: char) returns (r: bool)
    ensures r <==> Like(str, pattern, escape)
    decreases |pattern|, 0
  {
    ghost var es := LikeElements(pattern, escape);
    var si, pi := 0, 0;
    while pi < |pattern|
      invariant 0 <= si <= |str| && 0 <= pi <= |pattern|
      invariant Matches(str, es) <==> Matches(str[si..], LikeElements(pattern[pi..], escape))
    {
      var pc := pattern[pi];
      ghost var rest := LikeElements(pattern[pi..], escape);
      ghost var s := str[si..];
      if pc == escape && pi + 1 < |pattern| {
        pi := pi + 1;
        OneMatches(s, rest);
        assert pattern[pi - 1..][2..] == pattern[pi + 1..];
        assert rest[1..] == LikeElements(pattern[pi + 1..], escape);
        if si >= |str| || str[si] != pattern[pi] {
          return false;
        }
        assert s[1..] == str[si + 1..] && s[..1] == [str[si]];
        si, pi := si + 1, pi + 1;
        continue;
      }
      assert pattern[pi..][1..] == pattern[pi + 1..];
      assert rest[1..] == LikeElements(pattern[pi + 1..], escape);
      if pc == '%' {
        RunMatches(s, rest);
        if pi + 1 == |pattern| {
          assert s[|s|..] == "";
          MatchesNothing(s[|s|..]);
          return true;
        }
        r := TailMatches(str, si, pattern[pi + 1..], escape);
        TailsOf(str, si, rest[1..]);
        return;
      }
      OneMatches(s, rest);
      if si >= |str| || (pc != '_' && str[si] != pc) {
        return false;
      }
      assert s[1..] == str[si + 1..] && s[..1] == [str[si]];
      si, pi := si + 1, pi + 1;
    }
    MatchesNothing(str[si..]);
    r := si == |str|;
  }

  lemma TailsOf(str: string, si: nat, es: seq<Element>)
    requires si <= |str|
    ensures (exists i :: si <= i <= |str| && Matches(str[i..], es)) <==>
            (exists i :: 0 <= i <= |str[si..]| && Matches(str[si..][i..], es))
  {
    if i :| si <= i <= |str| && Matches(str[i..], es) {
      assert str[si..][i - si..] == str[i..];
    }
    if i :| 0 <= i <= |str[si..]| && Matches(str[si..][i..], es) {
      assert str[si..][i..] == str[si + i..];
    }
  }

  /** The loop behind a percent sign: some tail of the string matches the rest of the pattern. */
  method TailMatches(str: string, si: nat, pattern: string, escape: char) returns (r: bool)
    requires si <= |str|
    ensures r <==> exists i :: si <= i <= |str| && Matches(str[i..], LikeElements(pattern, escape))
    decreases |pattern|, 1
  {
    for i := si to |str| + 1
      invariant forall j :: si <= j < i ==> !Matches(str[j..], LikeElements(pattern, escape))
    {
      var found := SqlLikeMatch(str[i..], pattern, escape);
      if found {
        return true;
      }
    }
    r := false;
  }

  // ----- The LIKE operator -----

  function FoldChar(c: char): char { if 'A' <= c <= 'Z' then c - 'A' + 'a' else c }

  /** strings.ToLower, for ASCII letters. */
  function Fold(s: string): (r: string)
    ensures |r| == |s| && forall i :: 0 <= i < |s| ==> r[i] == FoldChar(s[i])
  {
    if s == "" then "" else [FoldChar(s[0])] + Fold(s[1..])
  }

  predicate IsLetter(c: char) { 'a' <= c <= 'z' || 'A' <= c <= 'Z' }

  /** evalLike on the texts of its operands, None standing for NULL; the escape is the first character
      of the one given, or a backslash. The text and the pattern are folded, the escape is not. */
  method EvalLike(val: Option<string>, pat: Option<string>, escape: Option<string>, isNot: bool)
    returns (r: Option<bool>)
    ensures val.None? || pat.None? ==> r == None
    ensures val.Some? && pat.Some? ==>
              var e := if escape.Some? && escape.value != "" then escape.value[0] else '\\';
              r.Some? && (r.value <==> (Like(Fold(val.value), Fold(pat.value), e) <==> !isNot))
  {
    if val.None? || pat.None? {
      return None;
    }
    var e := '\\';
    if escape.Some? && |escape.value| > 0 {
      e := escape.value[0];
    }
    var matched := SqlLikeMatch(Fold(val.value), Fold(pat.value), e);
    r := Some(if isNot then !matched else matched);
  }

  /** t, with its wildcards escaped, takes s exactly when the two are the same text when folded. */
  ghost predicate TakesItself(s: string, t: string, escape: char) {
    Like(Fold(s), Fold(Escaped(t, escape)), escape) <==> Fold(s) == Fold(t)
  }

  /** A text with its wildcards escaped takes exactly the texts that are the same when folded: for
      every text if and only if the escape is no letter. A capital one is folded away from the
      pattern, and a small one comes to stand there for the capital. */
  lemma EscapeExact(escape: char)
    ensures (forall s, t :: TakesItself(s, t, escape)) <==> !IsLetter(escape)
  {
    if IsLetter(escape) {
      var s, t := EscapeFails(escape);
      assert !TakesItself(s, t, escape);
    } else {
      forall s, t
        ensures TakesItself(s, t, escape)
      {
        FoldEscaped(t, escape);
        LikeEscaped(Fold(s), Fold(t), escape);
      }
    }
  }

  lemma {:induction false} FoldEscaped(t: string, escape: char)
    requires !IsLetter(escape)
    ensures Fold(Escaped(t, escape)) == Escaped(Fold(t), escape)
  {
    if t != "" {
      FoldEscaped(t[1..], escape);
      var c, rest := t[0], Escaped(t[1..], escape);
      assert Fold(t) == [FoldChar(c)] + Fold(t[1..]) && Fold(t)[1..] == Fold(t[1..]);
      assert FoldChar(c) in {'%', '_', escape} <==> c in {'%', '_', escape};
      if c in {'%', '_', escape} {
        assert Fold([escape, c] + rest) == [escape, c] + Fold(rest);
      } else {
        assert Fold([c] + rest) == [FoldChar(c)] + Fold(rest);
      }
    }
  }

  /** The percent sign behind a letter used as the escape is still a wildcard. */
  lemma EscapeFails(escape: char) returns (s: string, t: string)
    requires IsLetter(escape)
    ensures Like(Fold(s), Fold(Escaped(t, escape)), escape) && Fold(s) != Fold(t)
  {
    var small := FoldChar(escape);
    s := [small, 'x'];
    assert Fold(s) == s;
    LikeFirst("x", '%', "", escape);
    assert "x"[1..] == "" && [ '%' ] + "" == "%";
    LikeEmpty("", escape);
    if 'A' <= escape <= 'Z' {
      t := "%";
      assert Escaped("", escape) == "" && Escaped(t, escape) == [escape, '%'];
      assert Fold(Escaped(t, escape)) == [small] + "%";
      LikeFirst(s, small, "%", escape);
      assert s[1..] == "x";
    } else {
      t := [escape - 'a' + 'A', '%'];
      assert t[1..] == "%" && Escaped("", escape) == "" && Escaped("%", escape) == [escape, '%'];
      assert Escaped(t, escape) == [t[0]] + [escape, '%'];
      assert Fold(Escaped(t, escape)) == [escape] + [escape, '%'];
      LikeFirst(s, escape, [escape, '%'], escape);
      assert [escape, '%'][1..] == "%" && s[1..] == "x";
    }
  }

  // ----- GLOB -----

  /** The ranges of a class, and the pattern from its closing bracket, or "" when it is unclosed.
      A hyphen makes a range of its neighbours whenever there is a character behind it, the
      closing bracket included. */
  function ClassBody(p: string): (seq<(char, char)>, string) {
    if p == "" || p[0] == ']' then ([], p)
    else if |p| > 2 && p[1] == '-' then
      var (ranges, rest) := ClassBody(p[3..]);
      ([(p[0], p[2])] + ranges, rest)
    else
      var (ranges, rest) := ClassBody(p[1..]);
      ([(p[0], p[0])] + ranges, rest)
  }

  lemma {:induction false} ClassShorter(p: string)
    ensures |ClassBody(p).1| <= |p|
    decreases |p|
  {
    if p == "" || p[0] == ']' {
    } else if |p| > 2 && p[1] == '-' {
      ClassShorter(p[3..]);
    } else {
      ClassShorter(p[1..]);
    }
  }

  function Negated(p: string): bool { p != "" && p[0] == '^' }

  function ClassStart(p: string): string { if Negated(p) then p[1..] else p }

  /** The pattern behind a class: past its closing bracket, if it has one. */
  function AfterClass(p: string): (r: string)
    ensures |r| <= |p|
  {
    ClassShorter(ClassStart(p));
    var rest := ClassBody(ClassStart(p)).1;
    if rest == "" then rest else rest[1..]
  }

  function GlobElements(p: string): seq<Element>
    decreases |p|
  {
    if p == "" then []
    else if p[0] == '*' then [AnyRun] + GlobElements(p[1..])
    else if p[0] == '?' then [AnyOne] + GlobElements(p[1..])
    else if p[0] == '[' then
      [Class(Negated(p[1..]), ClassBody(ClassStart(p[1..])).0)] + GlobElements(AfterClass(p[1..]))
    else [Exactly(p[0])] + GlobElements(p[1..])
  }

  /** s GLOB p */
  ghost predicate Glob(s: string, p: string) { Matches(s, GlobElements(p)) }

  /** What GLOB does with a first character other than an opening bracket. */
  lemma GlobFirst(s: string, c: char, p: string)
    ensures c == '*' ==> (Glob(s, [c] + p) <==> exists i :: 0 <= i <= |s| && Glob(s[i..], p))
    ensures c == '?' ==> (Glob(s, [c] + p) <==> s != "" && Glob(s[1..], p))
    ensures c != '*' && c != '?' && c != '[' ==> (Glob(s, [c] + p) <==> s != "" && s[0] == c && Glob(s[1..], p))
  {
    var pattern := [c] + p;
    var es := GlobElements(pattern);
    assert pattern[1..] == p;
    if c == '*' {
      assert es[1..] == GlobElements(p);
      RunMatches(s, es);
    } else if c != '[' {
      assert es[1..] == GlobElements(p);
      OneMatches(s, es);
    }
  }

  lemma GlobEmpty(s: string)
    ensures Glob(s, "") <==> s == ""
  {
    MatchesNothing(s);
  }

  /** A class as it is written: single characters, and ranges with a hyphen. */
  function Listed(items: seq<(char, char)>): string {
    if items == [] then ""
    else (if items[0].0 == items[0].1 then [items[0].0] else [items[0].0, '-', items[0].1]) + Listed(items[1..])
  }

  /** No item begins with a bracket that would close the class, or a hyphen that would make a range. */
  predicate Listable(items: seq<(char, char)>) {
    forall i :: 0 <= i < |items| ==> items[i].0 != ']' && items[i].0 != '-'
  }

  lemma {:induction false} ListedReads(items: seq<(char, char)>, p: string)
    requires Listable(items)
    ensures ClassBody(Listed(items) + [']'] + p) == (items, [']'] + p)
  {
    var t := Listed(items) + [']'] + p;
    if items == [] {
      assert t == [']'] + p;
    } else {
      var lo, hi, rest := items[0].0, items[0].1, Listed(items[1..]) + [']'] + p;
      ListedReads(items[1..], p);
      assert items == [items[0]] + items[1..];
      if lo == hi {
        assert t == [lo] + rest && t[1..] == rest;
        assert rest[0] != '-' by {
          if |items| > 1 {
            assert rest[0] == items[1].0;
          }
        }
      } else {
        assert t == [lo, '-', hi] + rest && t[3..] == rest;
      }
    }
  }

  /** A class takes one character: one that an item covers, or, behind ^, one that none does. */
  lemma GlobClass(s: string, negated: bool, items: seq<(char, char)>, p: string)
    requires Listable(items) && (!negated && items != [] ==> items[0].0 != '^')
    ensures Glob(s, ['['] + ((if negated then "^" else "") + (Listed(items) + [']'] + p))) <==>
            && s != "" && Glob(s[1..], p)
            && ((exists i :: 0 <= i < |items| && items[i].0 <= s[0] <= items[i].1) <==> !negated)
  {
    var body := Listed(items) + [']'] + p;
    var inner := (if negated then "^" else "") + body;
    ListedReads(items, p);
    ClassParts(negated, items, p, body, inner);
    ClassFirst(s, inner);
    if s != "" {
      assert Covers(items, s[0]) <==> exists i :: 0 <= i < |items| && items[i].0 <= s[0] <= items[i].1;
    }
  }

  lemma ClassParts(negated: bool, items: seq<(char, char)>, p: string, body: string, inner: string)
    requires body == Listed(items) + [']'] + p && inner == (if negated then "^" else "") + body
    requires ClassBody(body) == (items, [']'] + p) && (!negated && items != [] ==> items[0].0 != '^')
    ensures Negated(inner) == negated && ClassBody(ClassStart(inner)).0 == items && AfterClass(inner) == p
  {
    if items != [] {
      assert body[0] == items[0].0;
    }
    assert ClassStart(inner) == body;
    assert ([']'] + p)[1..] == p;
  }

  lemma ClassFirst(s: string, inner: string)
    ensures Glob(s, ['['] + inner) <==>
            && s != "" && Covers(ClassBody(ClassStart(inner)).0, s[0]) != Negated(inner)
            && Glob(s[1..], AfterClass(inner))
  {
    var pattern := ['['] + inner;
    assert pattern[1..] == inner;
    var es := GlobElements(pattern);
    assert es[1..] == GlobElements(AfterClass(inner));
    OneMatches(s, es);
  }

  /** globMatchRunes */
  method GlobMatchRunes(s: string, p: string) returns (r: bool)
    ensures r <==> Glob(s, p)
    decreases |p|, 0
  {
    var str, pattern := s, p;
    while |pattern| > 0
      invariant |pattern| <= |p|
      invariant Matches(s, GlobElements(p)) <==> Matches(str, GlobElements(pattern))
      decreases |pattern|
    {
      ghost var es := GlobElements(pattern);
      if pattern[0] == '*' {
        RunMatches(str, es);
        if |pattern| == 1 {
          assert str[|str|..] == "";
          MatchesNothing(str[|str|..]);
          return true;
        }
        r := GlobTailMatches(str, pattern[1..]);
        return;
      }
      OneMatches(str, es);
      if str == "" {
        return false;
      }
      assert str[..1] == [str[0]];
      if pattern[0] == '[' {
        var matched, rest := MatchClass(str[0], pattern[1..]);
        if !matched {
          return false;
        }
        str, pattern := str[1..], rest;
      } else if pattern[0] == '?' || str[0] == pattern[0] {
        str, pattern := str[1..], pattern[1..];
      } else {
        return false;
      }
    }
    MatchesNothing(str);
    r := str == "";
  }

  method GlobTailMatches(str: string, pattern: string) returns (r: bool)
    ensures r <==> exists i :: 0 <= i <= |str| && Matches(str[i..], GlobElements(pattern))
    decreases |pattern|, 1
  {
    for i := 0 to |str| + 1
      invariant forall j :: 0 <= j < i ==> !Matches(str[j..], GlobElements(pattern))
    {
      var found := GlobMatchRunes(str[i..], pattern);
      if found {
        return true;
      }
    }
    r := false;
  }

  /** The class case: whether c passes, and the pattern behind the class. */
  method MatchClass(c: char, pattern: string) returns (passes: bool, rest: string)
    ensures passes <==> Covers(ClassBody(ClassStart(pattern)).0, c) != Negated(pattern)
    ensures rest == AfterClass(pattern)
  {
    var i := 0;
    var negate := false;
    if |pattern| > 0 && pattern[0] == '^' {
      negate, i := true, 1;
    }
    ghost var body := pattern[i..];
    var matched := false;
    while i < |pattern| && pattern[i] != ']'
      invariant 0 <= i <= |pattern|
      invariant ClassBody(body).1 == ClassBody(pattern[i..]).1
      invariant Covers(ClassBody(body).0, c) <==> matched || Covers(ClassBody(pattern[i..]).0, c)
    {
      ghost var here := pattern[i..];
      if i + 2 < |pattern| && pattern[i + 1] == '-' {
        CoversMore(pattern[i], pattern[i + 2], ClassBody(here[3..]).0, c);
        assert here[3..] == pattern[i + 3..];
        if pattern[i] <= c <= pattern[i + 2] {
          matched := true;
        }
        i := i + 3;
      } else {
        CoversMore(pattern[i], pattern[i], ClassBody(here[1..]).0, c);
        assert here[1..] == pattern[i + 1..];
        if c == pattern[i] {
          matched := true;
        }
        i := i + 1;
      }
    }
    if i < |pattern| {
      i := i + 1;
      assert pattern[i - 1..][1..] == pattern[i..];
    }
    passes, rest := matched != negate, pattern[i..];
  }

  lemma CoversMore(lo: char, hi: char, ranges: seq<(char, char)>, c: char)
    ensures Covers([(lo, hi)] + ranges, c) <==> lo <= c <= hi || Covers(ranges, c)
  {
    var all := [(lo, hi)] + ranges;
    if Covers(ranges, c) {
      var i :| 0 <= i < |ranges| && ranges[i].0 <= c <= ranges[i].1;
      assert all[i + 1] == ranges[i];
    }
    if lo <= c <= hi {
      assert all[0] == (lo, hi);
    }
    if Covers(all, c) {
      var i :| 0 <= i < |all| && all[i].0 <= c <= all[i].1;
      if i > 0 {
        assert all[i] == ranges[i - 1];
      }
    }
  }
}
