/** The row codec (row.go:124-222). */
module Rows {
  import opened Bytes
  import opened Wrappers

  /** A value. A real is its IEEE 754 bits, a text its bytes. */
  datatype Value = Null | Integer(i: int64) | Real(bits: uint64) | Text(text: Bytes) | Blob(blob: Bytes)

  const NULL_TAG: byte := 0
  const INTEGER_TAG: byte := 1
  const REAL_TAG: byte := 2
  const TEXT_TAG: byte := 3
  const BLOB_TAG: byte := 4

  // ----- Values -----

  function Tag(v: Value): byte {
    match v
    case Null => NULL_TAG
    case Integer(_) => INTEGER_TAG
    case Real(_) => REAL_TAG
    case Text(_) => TEXT_TAG
    case Blob(_) => BLOB_TAG
  }

  function Payload(v: Value): Bytes {
    match v
    case Null => []
    case Integer(i) => EncodeBE(8, ToUint64(i))
    case Real(bits) => EncodeBE(8, bits)
    case Text(t) => t
    case Blob(b) => b
  }

  /** encodeValue: the tag, then the payload. */
  function EncodeValue(v: Value): Bytes { [Tag(v)] + Payload(v) }

  function Uint64At(d: Bytes): uint64
    requires |d| >= 8
  {
    EncodeDecodeBE(d[..8]);
    Pow256Widths();
    DecodeBE(d[..8])
  }

  /** decodeValue */
  function DecodeValue(tag: byte, d: Bytes): Result<Value> {
    if tag == NULL_TAG then Ok(Null)
    else if tag == INTEGER_TAG then
      if |d| < 8 then Err(Truncated) else Ok(Integer(ToInt64(Uint64At(d))))
    else if tag == REAL_TAG then
      if |d| < 8 then Err(Truncated) else Ok(Real(Uint64At(d)))
    else if tag == TEXT_TAG then Ok(Text(d))
    else if tag == BLOB_TAG then Ok(Blob(d))
    else Err(BadType)
  }

  lemma ValueRoundTrip(v: Value)
    ensures DecodeValue(Tag(v), Payload(v)) == Ok(v)
  {
    Pow256Widths();
    match v
    case Integer(i) =>
      DecodeEncodeBE(8, ToUint64(i));
      assert Payload(v)[..8] == Payload(v);
    case Real(bits) =>
      DecodeEncodeBE(8, bits);
      assert Payload(v)[..8] == Payload(v);
    case _ =>
  }

  // ----- Rows -----

  /** One column: tag, length of the payload in four bytes, payload. */
  function Column(v: Value): Bytes { [Tag(v)] + EncodeBE(4, |Payload(v)|) + Payload(v) }

  function Columns(vs: seq<Value>): Bytes {
    if vs == [] then [] else Column(vs[0]) + Columns(vs[1..])
  }

  /** The encoded row; the column count and the lengths keep their low-order bytes. */
  function Encoded(vs: seq<Value>): Bytes { EncodeBE(2, |vs|) + Columns(vs) }

  /** The column at the front of d, and the number of bytes it takes. */
  function DecodeColumn(d: Bytes): Result<(Value, nat)> {
    if |d| < 5 then Err(Truncated)
    else
      var n := DecodeBE(d[1..5]);
      if 5 + n > |d| then Err(Truncated)
      else match DecodeValue(d[0], d[5..5 + n])
        case Ok(v) => Ok((v, 5 + n))
        case Err(e) => Err(e)
  }

  function DecodeColumns(d: Bytes, n: nat): Result<seq<Value>> {
    if n == 0 then Ok([])
    else match DecodeColumn(d)
      case Err(e) => Err(e)
      case Ok((v, used)) =>
        if used > |d| then Err(Truncated)
        else match DecodeColumns(d[used..], n - 1)
          case Err(e) => Err(e)
          case Ok(vs) => Ok([v] + vs)
  }

  function Decoded(d: Bytes): Result<seq<Value>> {
    if |d| < 2 then Err(Truncated) else DecodeColumns(d[2..], DecodeBE(d[..2]))
  }

  /** Rows the format can hold. */
  predicate Fits(vs: seq<Value>) {
    |vs| < 0x1_0000 && forall i :: 0 <= i < |vs| ==> |Payload(vs[i])| < 0x1_0000_0000
  }

  lemma ColumnRoundTrip(v: Value, rest: Bytes)
    requires |Payload(v)| < 0x1_0000_0000
    ensures DecodeColumn(Column(v) + rest) == Ok((v, |Column(v)|))
  {
    var d := Column(v) + rest;
    var n := |Payload(v)|;
    Pow256Widths();
    DecodeEncodeBE(4, n);
    ValueRoundTrip(v);
    assert d[1..5] == EncodeBE(4, n);
    assert d[5..5 + n] == Payload(v);
  }

  lemma {:induction false} ColumnsRoundTrip(vs: seq<Value>, rest: Bytes)
    requires forall i :: 0 <= i < |vs| ==> |Payload(vs[i])| < 0x1_0000_0000
    ensures DecodeColumns(Columns(vs) + rest, |vs|) == Ok(vs)
  {
    if vs != [] {
      var v, tail := vs[0], vs[1..];
      assert vs == [v] + tail;
      ColumnsRoundTrip(tail, rest);
      NextColumn(v, Columns(tail) + rest, tail);
      Associate(Column(v), Columns(tail), rest);
    }
  }

  lemma Associate(a: Bytes, b: Bytes, c: Bytes)
    ensures a + (b + c) == a + b + c
  {
  }

  lemma NextColumn(v: Value, more: Bytes, vs: seq<Value>)
    requires |Payload(v)| < 0x1_0000_0000 && DecodeColumns(more, |vs|) == Ok(vs)
    ensures DecodeColumns(Column(v) + more, |vs| + 1) == Ok([v] + vs)
  {
    ColumnRoundTrip(v, more);
    assert (Column(v) + more)[|Column(v)|..] == more;
  }

  lemma Front(a: Bytes, b: Bytes, c: Bytes)
    ensures (a + b + c)[..|a|] == a && (a + b + c)[|a|..] == b + c
  {
  }

  /** Every row reads back from its encoding, whatever bytes follow it. */
  lemma RowRoundTrip(vs: seq<Value>, rest: Bytes)
    requires Fits(vs)
    ensures Decoded(Encoded(vs) + rest) == Ok(vs)
  {
    var d := Encoded(vs) + rest;
    Pow256Widths();
    DecodeEncodeBE(2, |vs|);
    ColumnsRoundTrip(vs, rest);
    Front(EncodeBE(2, |vs|), Columns(vs), rest);
  }

  /** No proper prefix of an encoding decodes. */
  lemma PrefixFails(vs: seq<Value>, k: nat)
    requires Fits(vs) && k < |Encoded(vs)|
    ensures Decoded(Encoded(vs)[..k]).Err?
  {
    var d := Encoded(vs);
    if k >= 2 {
      Pow256Widths();
      DecodeEncodeBE(2, |vs|);
      assert d[..k][..2] == EncodeBE(2, |vs|);
      assert d[..k][2..] == Columns(vs)[..k - 2];
      ColumnsPrefixFails(vs, k - 2);
    }
  }

  lemma {:induction false} ColumnsPrefixFails(vs: seq<Value>, k: nat)
    requires forall i :: 0 <= i < |vs| ==> |Payload(vs[i])| < 0x1_0000_0000
    requires k < |Columns(vs)|
    ensures DecodeColumns(Columns(vs)[..k], |vs|).Err?
  {
    if vs != [] {
      var c := Column(vs[0]);
      var d := Columns(vs)[..k];
      if k < |c| {
        assert d == c[..k];
        ColumnPrefixFails(vs[0], k);
      } else {
        assert d == c + Columns(vs[1..])[..k - |c|];
        ColumnRoundTrip(vs[0], Columns(vs[1..])[..k - |c|]);
        assert d[|c|..] == Columns(vs[1..])[..k - |c|];
        ColumnsPrefixFails(vs[1..], k - |c|);
      }
    }
  }

  lemma ColumnPrefixFails(v: Value, k: nat)
    requires |Payload(v)| < 0x1_0000_0000 && k < |Column(v)|
    ensures DecodeColumn(Column(v)[..k]).Err?
  {
    if k >= 5 {
      Pow256Widths();
      DecodeEncodeBE(4, |Payload(v)|);
      LengthField(Tag(v), EncodeBE(4, |Payload(v)|), Payload(v), k);
    }
  }

  lemma LengthField(tag: byte, length: Bytes, payload: Bytes, k: nat)
    requires |length| == 4 && 5 <= k <= 5 + |payload|
    ensures ([tag] + length + payload)[..k][1..5] == length
  {
  }

  /** Two rows with the same encoding are the same row. */
  lemma EncodedInjective(vs: seq<Value>, ws: seq<Value>)
    requires Fits(vs) && Fits(ws) && Encoded(vs) == Encoded(ws)
    ensures vs == ws
  {
    RowRoundTrip(vs, []);
    RowRoundTrip(ws, []);
    assert Encoded(vs) + [] == Encoded(ws) + [];
  }

  /** The columns from the i-th on are that column and the rest. */
  lemma ColumnsFrom(buf: Bytes, vs: seq<Value>, i: nat)
    requires i < |vs|
    ensures buf + Columns(vs[i..]) == buf + Column(vs[i]) + Columns(vs[i + 1..])
  {
    assert vs[i..][1..] == vs[i + 1..];
    Associate(buf, Column(vs[i]), Columns(vs[i + 1..]));
  }

  lemma AppendColumn(buf: Bytes, tag: byte, length: Bytes, payload: Bytes)
    ensures buf + ([tag] + length + payload) == buf + [tag] + length + payload
  {
  }

  /** EncodeRow: the values one by one, then the buffer out of the parts. */
  method EncodeRow(vs: seq<Value>) returns (buf: Bytes)
    ensures buf == Encoded(vs)
  {
    var parts: seq<Bytes> := [];
    for i := 0 to |vs|
      invariant |parts| == i && forall j :: 0 <= j < i ==> parts[j] == EncodeValue(vs[j])
    {
      parts := parts + [EncodeValue(vs[i])];
    }
    buf := EncodeBE(2, |vs|);
    for i := 0 to |parts|
      invariant buf + Columns(vs[i..]) == Encoded(vs)
    {
      ColumnsFrom(buf, vs, i);
      buf := AppendPart(buf, parts[i], vs[i]);
    }
    assert vs[|vs|..] == [];
  }

  /** A turn of the second loop: the tag, the length and the payload of one value. */
  method AppendPart(buf: Bytes, p: Bytes, ghost v: Value) returns (r: Bytes)
    requires p == EncodeValue(v)
    ensures r == buf + Column(v)
  {
    assert p[0] == Tag(v) && p[1..] == Payload(v);
    AppendColumn(buf, p[0], EncodeBE(4, |p| - 1), p[1..]);
    r := buf + [p[0]] + EncodeBE(4, |p| - 1) + p[1..];
  }

  /** DecodeRow: an offset that walks the columns. */
  method DecodeRow(data: Bytes) returns (r: Result<seq<Value>>)
    ensures r == Decoded(data)
  {
    if |data| < 2 {
      return Err(Truncated);
    }
    var count := DecodeBE(data[0..2]);
    assert data[0..2] == data[..2];
    var values: seq<Value> := [];
    var offset := 2;
    JoinNothing(Decoded(data));
    for i := 0 to count
      invariant |values| == i && 2 <= offset <= |data|
      invariant Decoded(data) == Join(values, DecodeColumns(data[offset..], count - i))
    {
      var v, used := DecodeNext(data, offset);
      if v.Err? {
        return Err(v.error);
      }
      assert data[offset..][used..] == data[offset + used..];
      offset := offset + used;
      Joined(values, v.value, DecodeColumns(data[offset..], count - i - 1));
      values := values + [v.value];
    }
    assert values + [] == values;
    r := Ok(values);
  }

  /** The column at an offset, and the bytes it takes. */
  method DecodeNext(data: Bytes, start: nat) returns (v: Result<Value>, used: nat)
    requires start <= |data|
    ensures match DecodeColumn(data[start..])
            case Ok((value, n)) => v == Ok(value) && used == n && start + n <= |data|
            case Err(e) => v == Err(e)
  {
    ghost var d := data[start..];
    used := 5;
    if start + 5 > |data| {
      return Err(Truncated), used;
    }
    var tag := data[start];
    var n := DecodeBE(data[start + 1..start + 5]);
    assert d[1..5] == data[start + 1..start + 5];
    used := 5 + n;
    if start + used > |data| {
      return Err(Truncated), used;
    }
    assert d[5..5 + n] == data[start + 5..start + used];
    v := DecodeValue(tag, data[start + 5..start + used]);
  }

  function Join(vs: seq<Value>, r: Result<seq<Value>>): Result<seq<Value>> {
    match r
    case Ok(ws) => Ok(vs + ws)
    case Err(e) => Err(e)
  }

  lemma JoinNothing(r: Result<seq<Value>>)
    ensures Join([], r) == r
  {
    if r.Ok? {
      assert [] + r.value == r.value;
    }
  }

  lemma Joined(vs: seq<Value>, v: Value, r: Result<seq<Value>>)
    ensures Join(vs, match r case Ok(ws) => Ok([v] + ws) case Err(e) => Err(e)) == Join(vs + [v], r)
  {
    if r.Ok? {
      assert vs + ([v] + r.value) == vs + [v] + r.value;
    }
  }
}
