/** Bytes, big-endian integers and the key order of ops.c. */
module Bytes {
  type byte = x: int | 0 <= x < 256
  type uint16 = x: int | 0 <= x < 0x1_0000
  type uint32 = x: int | 0 <= x < 0x1_0000_0000
  type uint64 = x: int | 0 <= x < 0x1_0000_0000_0000_0000
  type int64 = x: int | -0x8000_0000_0000_0000 <= x < 0x8000_0000_0000_0000

  type Bytes = seq<byte>

  const INVALID_PAGE: uint32 := 0xFFFF_FFFF

  // ----- Big-endian integers of any width -----

  function Pow256(n: nat): nat {
    if n == 0 then 1 else 256 * Pow256(n - 1)
  }

  /** The n low-order bytes of v, most significant first. */
  function EncodeBE(n: nat, v: nat): (s: Bytes)
    ensures |s| == n
  {
    if n == 0 then [] else EncodeBE(n - 1, v / 256) + [v % 256]
  }

  function DecodeBE(s: Bytes): nat {
    if s == [] then 0 else DecodeBE(s[..|s| - 1]) * 256 + s[|s| - 1]
  }

  lemma {:induction false} DecodeEncodeBE(n: nat, v: nat)
    requires v < Pow256(n)
    ensures DecodeBE(EncodeBE(n, v)) == v
  {
    if n != 0 {
      DecodeEncodeBE(n - 1, v / 256);
      assert EncodeBE(n, v)[..n - 1] == EncodeBE(n - 1, v / 256);
    }
  }

  lemma {:induction false} EncodeDecodeBE(s: Bytes)
    ensures DecodeBE(s) < Pow256(|s|)
    ensures EncodeBE(|s|, DecodeBE(s)) == s
  {
    if s != [] {
      EncodeDecodeBE(s[..|s| - 1]);
    }
  }

  lemma Pow256Widths()
    ensures Pow256(2) == 0x1_0000
    ensures Pow256(4) == 0x1_0000_0000
    ensures Pow256(8) == 0x1_0000_0000_0000_0000
  {
    assert Pow256(2) == 0x1_0000;
    assert Pow256(4) == 0x1_0000_0000;
    assert Pow256(6) == 0x1_0000_0000_0000;
  }

  /** Go's uint64(v) of an int64. */
  function ToUint64(v: int64): uint64 {
    if v < 0 then v + 0x1_0000_0000_0000_0000 else v
  }

  /** Go's int64(v) of a uint64. */
  function ToInt64(v: uint64): int64 {
    if v < 0x8000_0000_0000_0000 then v else v - 0x1_0000_0000_0000_0000
  }

  /** sqlgo_encode_uint64_be: the eight stores, written with the shifts as divisions. */
  method EncodeUint64BE(buf: array<byte>, v: uint64)
    requires buf.Length >= 8
    modifies buf
    ensures buf[..] == EncodeBE(8, v) + old(buf[8..])
  {
    buf[0] := v / 0x100_0000_0000_0000 % 256;
    buf[1] := v / 0x1_0000_0000_0000 % 256;
    buf[2] := v / 0x100_0000_0000 % 256;
    buf[3] := v / 0x1_0000_0000 % 256;
    buf[4] := v / 0x100_0000 % 256;
    buf[5] := v / 0x1_0000 % 256;
    buf[6] := v / 0x100 % 256;
    buf[7] := v % 256;
    EightShifts(v);
    assert buf[..8] == EncodeBE(8, v);
    assert buf[8..] == old(buf[8..]);
    assert buf[..] == buf[..8] + buf[8..];
  }

  lemma EightShifts(v: nat)
    ensures EncodeBE(8, v) ==
            [v / 0x100_0000_0000_0000 % 256, v / 0x1_0000_0000_0000 % 256,
             v / 0x100_0000_0000 % 256, v / 0x1_0000_0000 % 256,
             v / 0x100_0000 % 256, v / 0x1_0000 % 256, v / 0x100 % 256, v % 256]
  {
    var v1 := v / 256;
    var v2 := v1 / 256;
    var v3 := v2 / 256;
    var v4 := v3 / 256;
    var v5 := v4 / 256;
    var v6 := v5 / 256;
    var v7 := v6 / 256;
    assert EncodeBE(1, v7) == [v7 % 256];
    assert EncodeBE(2, v6) == [v7 % 256, v6 % 256];
    assert EncodeBE(3, v5) == [v7 % 256, v6 % 256, v5 % 256];
    assert EncodeBE(4, v4) == [v7 % 256, v6 % 256, v5 % 256, v4 % 256];
    assert EncodeBE(5, v3) == [v7 % 256, v6 % 256, v5 % 256, v4 % 256, v3 % 256];
    assert EncodeBE(6, v2) == [v7 % 256, v6 % 256, v5 % 256, v4 % 256, v3 % 256, v2 % 256];
    assert EncodeBE(7, v1) == [v7 % 256, v6 % 256, v5 % 256, v4 % 256, v3 % 256, v2 % 256, v1 % 256];
    assert v2 == v / 0x1_0000;
    assert v3 == v / 0x100_0000;
    assert v4 == v / 0x1_0000_0000;
    assert v5 == v / 0x100_0000_0000;
    assert v6 == v / 0x1_0000_0000_0000;
    assert v7 == v / 0x100_0000_0000_0000;
  }

  // ----- The key order -----

  /** C's memcmp over the first n bytes: the sign of the first difference. */
  function MemCmp(a: Bytes, b: Bytes, n: nat): int
    requires n <= |a| && n <= |b|
  {
    if n == 0 then 0
    else if a[0] != b[0] then a[0] as int - b[0]
    else MemCmp(a[1..], b[1..], n - 1)
  }

  /** sqlgo_key_cmp */
  function KeyCmp(a: Bytes, b: Bytes): int {
    var minlen := if |a| < |b| then |a| else |b|;
    var r := if |a| == 0 || |b| == 0 then 0 else MemCmp(a, b, minlen);
    if r != 0 then r
    else if |a| < |b| then -1
    else if |a| > |b| then 1
    else 0
  }

  /** a comes before b because of position k: they agree before k, and there a has ended or
      has the smaller byte. */
  ghost predicate DiffersAt(a: Bytes, b: Bytes, k: nat) {
    k <= |a| && k < |b| && a[..k] == b[..k] && (k < |a| ==> a[k] < b[k])
  }

  /** Byte-lexicographic order, a proper prefix first. */
  ghost predicate Less(a: Bytes, b: Bytes) {
    exists k: nat :: DiffersAt(a, b, k)
  }

  /** What memcmp returns is decided at the first position where the two differ. */
  lemma {:induction false} MemCmpFirst(a: Bytes, b: Bytes, n: nat) returns (k: nat)
    requires n <= |a| && n <= |b|
    ensures k <= n && a[..k] == b[..k]
    ensures if k == n then MemCmp(a, b, n) == 0 else a[k] != b[k] && MemCmp(a, b, n) == a[k] as int - b[k]
  {
    k := 0;
    if n != 0 && a[0] == b[0] {
      var k' := MemCmpFirst(a[1..], b[1..], n - 1);
      k := k' + 1;
      assert a[..k] == [a[0]] + a[1..][..k'] && b[..k] == [b[0]] + b[1..][..k'];
    }
  }

  lemma LessIrreflexive(a: Bytes)
    ensures !Less(a, a)
  {
  }

  lemma LessTransitive(a: Bytes, b: Bytes, c: Bytes)
    requires Less(a, b) && Less(b, c)
    ensures Less(a, c)
  {
    var j: nat :| DiffersAt(a, b, j);
    var k: nat :| DiffersAt(b, c, k);
    var m := if j < k then j else k;
    assert a[..m] == a[..j][..m] == b[..j][..m] == b[..m];
    assert b[..m] == b[..k][..m] == c[..k][..m] == c[..m];
    assert j < k ==> b[j] == b[..k][j] == c[..k][j] == c[j];
    assert k < j ==> a[k] == a[..j][k] == b[..j][k] == b[k];
    assert DiffersAt(a, c, m);
  }

  lemma LessAsymmetric(a: Bytes, b: Bytes)
    ensures !(Less(a, b) && Less(b, a))
  {
    if Less(a, b) && Less(b, a) {
      LessTransitive(a, b, a);
      LessIrreflexive(a);
    }
  }

  lemma KeyCmpIsLess(a: Bytes, b: Bytes)
    ensures KeyCmp(a, b) < 0 <==> Less(a, b)
    ensures KeyCmp(a, b) == 0 <==> a == b
    ensures KeyCmp(a, b) > 0 <==> Less(b, a)
  {
    var n := if |a| < |b| then |a| else |b|;
    var k := MemCmpFirst(a, b, n);
    if k == n {
      assert |a| < |b| ==> DiffersAt(a, b, k);
      assert |a| > |b| ==> DiffersAt(b, a, k);
      assert |a| == |b| ==> a == a[..k] == b[..k] == b;
    } else if a[k] < b[k] {
      assert DiffersAt(a, b, k);
    } else {
      assert DiffersAt(b, a, k);
    }
    LessAsymmetric(a, b);
    LessIrreflexive(a);
  }

  lemma LessTotal(a: Bytes, b: Bytes)
    ensures Less(a, b) || a == b || Less(b, a)
  {
    KeyCmpIsLess(a, b);
  }

  /** sqlgo_key_cmp is a total order: its sign is antisymmetric, it is zero only on equal
      keys, and its sign is transitive. */
  lemma KeyCmpTotalOrder(a: Bytes, b: Bytes, c: Bytes)
    ensures KeyCmp(a, b) < 0 <==> KeyCmp(b, a) > 0
    ensures KeyCmp(a, b) == 0 <==> a == b
    ensures KeyCmp(a, b) <= 0 && KeyCmp(b, c) <= 0 ==> KeyCmp(a, c) <= 0
    ensures KeyCmp(a, b) < 0 && KeyCmp(b, c) <= 0 ==> KeyCmp(a, c) < 0
  {
    KeyCmpIsLess(a, b);
    KeyCmpIsLess(b, a);
    KeyCmpIsLess(b, c);
    KeyCmpIsLess(a, c);
    if Less(a, b) && Less(b, c) {
      LessTransitive(a, b, c);
    }
  }

  lemma LessAppend(a: Bytes, b: Bytes, x: byte, y: byte)
    requires |a| == |b|
    ensures Less(a + [x], b + [y]) <==> Less(a, b) || (a == b && x < y)
  {
    var n := |a|;
    if Less(a + [x], b + [y]) {
      var k: nat :| DiffersAt(a + [x], b + [y], k);
      assert a[..k] == (a + [x])[..k] == (b + [y])[..k] == b[..k];
      assert if k < n then DiffersAt(a, b, k) else a == a[..k] == b[..k] == b;
    }
    if Less(a, b) {
      var k: nat :| DiffersAt(a, b, k);
      assert (a + [x])[..k] == a[..k] == b[..k] == (b + [y])[..k];
      assert DiffersAt(a + [x], b + [y], k);
    } else if a == b && x < y {
      assert (a + [x])[..n] == (b + [y])[..n];
      assert DiffersAt(a + [x], b + [y], n);
    }
  }

  /** Big-endian encoding embeds the unsigned order into the key order. */
  lemma {:induction false} BigEndianOrder(n: nat, v: nat, w: nat)
    requires v < Pow256(n) && w < Pow256(n)
    ensures Less(EncodeBE(n, v), EncodeBE(n, w)) <==> v < w
  {
    if n != 0 {
      BigEndianOrder(n - 1, v / 256, w / 256);
      LessAppend(EncodeBE(n - 1, v / 256), EncodeBE(n - 1, w / 256), v % 256, w % 256);
      DecodeEncodeBE(n - 1, v / 256);
      DecodeEncodeBE(n - 1, w / 256);
    } else {
      LessIrreflexive([]);
    }
  }
}
