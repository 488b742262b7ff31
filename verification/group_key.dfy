/** The key of a group: the texts of the GROUP BY values, joined (executor.go:783-795). */
module GroupKeys {
  import opened Bytes
  import opened Wrappers
  import opened Rows
  import opened Values

  const NUL: byte := 0

  /** strings.Join(parts, "\\x00") */
  function Join(parts: seq<Bytes>): Bytes {
    if parts == [] then []
    else if |parts| == 1 then parts[0]
    else parts[0] + [NUL] + Join(parts[1..])
  }

  predicate NoNul(s: Bytes) { NUL !in s }

  ghost predicate AllNoNul(parts: seq<Bytes>) { forall i :: 0 <= i < |parts| ==> NoNul(parts[i]) }

  /** How many NULs s holds. */
  function Nuls(s: Bytes): nat {
    if s == [] then 0 else Nuls(s[..|s| - 1]) + (if s[|s| - 1] == NUL then 1 else 0)
  }

  lemma {:induction false} NulsAppend(s: Bytes, t: Bytes)
    ensures Nuls(s + t) == Nuls(s) + Nuls(t)
  {
    if t == [] {
      assert s + t == s;
    } else {
      NulsAppend(s, t[..|t| - 1]);
      assert (s + t)[..|s + t| - 1] == s + t[..|t| - 1];
    }
  }

  lemma {:induction false} NoNulCount(s: Bytes)
    ensures Nuls(s) == 0 <==> NoNul(s)
  {
    if s != [] {
      NoNulCount(s[..|s| - 1]);
      assert s == s[..|s| - 1] + [s[|s| - 1]];
    }
  }

  lemma NulsJoined(s: Bytes, t: Bytes)
    ensures Nuls(s + [NUL] + t) == Nuls(s) + 1 + Nuls(t)
  {
    NulsAppend(s + [NUL], t);
    NulsAppend(s, [NUL]);
    assert [NUL][..0] == [];
  }

  /** A joined key holds one NUL less than it has parts, and more exactly when a part has one. */
  lemma {:induction false} NulsOfJoin(parts: seq<Bytes>)
    requires parts != []
    ensures Nuls(Join(parts)) >= |parts| - 1
    ensures Nuls(Join(parts)) == |parts| - 1 <==> AllNoNul(parts)
  {
    NoNulCount(parts[0]);
    if |parts| > 1 {
      NulsOfJoin(parts[1..]);
      NulsJoined(parts[0], Join(parts[1..]));
      assert AllNoNul(parts) <==> NoNul(parts[0]) && AllNoNul(parts[1..]) by {
        assert parts == [parts[0]] + parts[1..];
      }
    }
  }

  /** Keys of equal length, one of them free of NULs, join to the same bytes exactly when they are
      the same. */
  lemma {:induction false} JoinInjective(a: seq<Bytes>, b: seq<Bytes>)
    requires |a| == |b| && AllNoNul(a)
    ensures Join(a) == Join(b) <==> a == b
  {
    if |a| == 0 {
    } else if |a| == 1 {
      assert a == [a[0]] && b == [b[0]];
    } else if Join(a) == Join(b) {
      NulsOfJoin(a);
      NulsOfJoin(b);
      FirstNul(a[0], Join(a[1..]), b[0], Join(b[1..]));
      JoinInjective(a[1..], b[1..]);
      assert a == [a[0]] + a[1..] && b == [b[0]] + b[1..];
    }
  }

  lemma FirstNul(s: Bytes, t: Bytes, u: Bytes, v: Bytes)
    requires NoNul(s) && NoNul(u) && s + [NUL] + t == u + [NUL] + v
    ensures s == u && t == v
  {
    var all := s + [NUL] + t;
    assert all[|s|] == NUL && all[|u|] == NUL;
    assert forall i :: 0 <= i < |s| ==> all[i] == s[i] && s[i] in s;
    assert forall i :: 0 <= i < |u| ==> all[i] == u[i] && u[i] in u;
    assert s == all[..|s|] && u == all[..|u|];
    assert t == all[|s| + 1..] && v == all[|u| + 1..];
  }

  /** A key of two parts or more can be confused with another exactly when it holds a NUL. */
  lemma JoinExact(a: seq<Bytes>)
    requires |a| >= 2
    ensures (exists b :: |b| == |a| && b != a && Join(b) == Join(a)) <==> !AllNoNul(a)
  {
    if AllNoNul(a) {
      forall b: seq<Bytes> | |b| == |a| && Join(b) == Join(a)
        ensures b == a
      {
        JoinInjective(a, b);
      }
    } else {
      var b := Confused(a);
    }
  }

  /** The key that a key with a NUL is confused with: the NUL becomes the border of its part. */
  lemma {:induction false} Confused(a: seq<Bytes>) returns (b: seq<Bytes>)
    requires |a| >= 2 && !AllNoNul(a)
    ensures |b| == |a| && b != a && Join(b) == Join(a)
  {
    if !NoNul(a[0]) {
      var i :| 0 <= i < |a[0]| && a[0][i] == NUL;
      b := Shifted(a, a[0][..i], a[0][i + 1..]);
    } else if |a| == 2 {
      var i :| 0 <= i < |a[1]| && a[1][i] == NUL;
      b := [a[0] + [NUL] + a[1][..i], a[1][i + 1..]];
      assert a[1..] == [a[1]] && b[1..] == [b[1]];
      assert a[1] == a[1][..i] + [NUL] + a[1][i + 1..];
      assert |b[0]| > |a[0]|;
    } else {
      assert !AllNoNul(a[1..]) by {
        var k :| 0 <= k < |a| && !NoNul(a[k]);
        assert a[1..][k - 1] == a[k];
      }
      var more := Confused(a[1..]);
      b := [a[0]] + more;
      assert b[1..] == more;
    }
  }

  /** The first part ends at its NUL, and what follows goes to the second part. */
  lemma Shifted(a: seq<Bytes>, x: Bytes, y: Bytes) returns (b: seq<Bytes>)
    requires |a| >= 2 && a[0] == x + [NUL] + y
    ensures |b| == |a| && b != a && Join(b) == Join(a)
  {
    b := [x, y + [NUL] + a[1]] + a[2..];
    assert |b[0]| < |a[0]|;
    assert b[1..] == [y + [NUL] + a[1]] + a[2..];
    var rest := if |a| == 2 then [] else [NUL] + Join(a[2..]);
    assert a[1..][1..] == a[2..] && b[1..][1..] == a[2..];
    assert Join(a[1..]) == a[1] + rest;
    assert Join(b[1..]) == y + [NUL] + a[1] + rest;
    assert x + [NUL] + (y + [NUL] + a[1] + rest) == x + [NUL] + y + [NUL] + (a[1] + rest);
  }

  /** The texts that the GROUP BY values of a row are joined from. */
  function Texts(vs: seq<Value>, fl: Floats): (ts: seq<Bytes>)
    ensures |ts| == |vs|
  {
    seq(|vs|, i requires 0 <= i < |vs| => String(vs[i], fl))
  }

  function GroupKey(vs: seq<Value>, fl: Floats): Bytes { Join(Texts(vs, fl)) }

  predicate NoReals(vs: seq<Value>) { forall i :: 0 <= i < |vs| ==> !vs[i].Real? }

  predicate TextsNoNul(vs: seq<Value>) { forall i :: 0 <= i < |vs| && vs[i].Text? ==> NoNul(vs[i].text) }

  predicate AllAlike(vs: seq<Value>, ws: seq<Value>, fl: Floats)
    requires |vs| == |ws|
  {
    forall i :: 0 <= i < |vs| ==> SpellAlike(vs[i], ws[i], fl)
  }

  /** Only a text can put a NUL into a key. */
  lemma TextsHoldNuls(vs: seq<Value>, fl: Floats)
    requires NoReals(vs)
    ensures AllNoNul(Texts(vs, fl)) <==> TextsNoNul(vs)
  {
    forall i | 0 <= i < |vs|
      ensures NoNul(Texts(vs, fl)[i]) <==> (vs[i].Text? ==> NoNul(vs[i].text))
    {
      assert Texts(vs, fl)[i] == String(vs[i], fl);
    }
  }

  /** Values spell alike one by one exactly when their texts are the same. */
  lemma TextsExact(vs: seq<Value>, ws: seq<Value>, fl: Floats)
    requires |vs| == |ws| && NoReals(vs) && NoReals(ws)
    ensures Texts(vs, fl) == Texts(ws, fl) <==> AllAlike(vs, ws, fl)
  {
    forall i | 0 <= i < |vs|
      ensures Texts(vs, fl)[i] == Texts(ws, fl)[i] <==> SpellAlike(vs[i], ws[i], fl)
    {
      StringExact(vs[i], ws[i], fl);
    }
  }

  /** Two rows whose texts hold no NUL share a group exactly when their values spell alike. */
  lemma GroupKeyExact(vs: seq<Value>, ws: seq<Value>, fl: Floats)
    requires |vs| == |ws| && NoReals(vs) && NoReals(ws) && TextsNoNul(vs)
    ensures GroupKey(vs, fl) == GroupKey(ws, fl) <==> AllAlike(vs, ws, fl)
  {
    TextsHoldNuls(vs, fl);
    TextsExact(vs, ws, fl);
    JoinInjective(Texts(vs, fl), Texts(ws, fl));
  }

  /** Values of two expressions or more share a group with values that do not spell alike exactly
      when one of their texts holds a NUL. */
  lemma GroupKeyCollides(vs: seq<Value>, fl: Floats)
    requires |vs| >= 2 && NoReals(vs)
    ensures (exists ws :: |ws| == |vs| && NoReals(ws) && !AllAlike(vs, ws, fl) && GroupKey(ws, fl) == GroupKey(vs, fl))
            <==> !TextsNoNul(vs)
  {
    if TextsNoNul(vs) {
      forall ws | |ws| == |vs| && NoReals(ws) && GroupKey(ws, fl) == GroupKey(vs, fl)
        ensures AllAlike(vs, ws, fl)
      {
        GroupKeyExact(vs, ws, fl);
      }
    } else {
      TextsHoldNuls(vs, fl);
      var b := Confused(Texts(vs, fl));
      var ws := seq(|b|, i requires 0 <= i < |b| => Text(b[i]));
      assert Texts(ws, fl) == b;
      TextsExact(vs, ws, fl);
    }
  }
}
