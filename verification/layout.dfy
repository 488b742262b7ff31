/** The stored formats byte by byte, as offsets and numbers (pager.go:48-150, ops.c, btree.go,
    row.go:124-222). */
module Layouts {
  import opened Bytes
  import opened Wrappers
  import opened Pages
  import opened Pagers
  import opened Rows

  /** Two and four bytes from off on, the most significant first. */
  function Short(d: Bytes, off: nat): nat
    requires off + 2 <= |d|
  {
    d[off] as int * 0x100 + d[off + 1]
  }

  function Long(d: Bytes, off: nat): nat
    requires off + 4 <= |d|
  {
    d[off] as int * 0x100_0000 + d[off + 1] as int * 0x1_0000 + d[off + 2] as int * 0x100 + d[off + 3]
  }

  lemma ShortIsDecoded(d: Bytes)
    requires |d| == 2
    ensures Short(d, 0) == DecodeBE(d)
  {
    assert d[..1][..0] == [];
    assert DecodeBE(d[..1]) == d[0];
  }

  lemma LongIsDecoded(d: Bytes)
    requires |d| == 4
    ensures Long(d, 0) == DecodeBE(d)
  {
    assert d[..3][..2][..1] == d[..1];
    assert d[..3][..2] == d[..2] && d[..2][..1] == d[..1];
    assert DecodeBE(d[..1]) == d[0] by {
      assert d[..1][..0] == [];
    }
    assert DecodeBE(d[..2]) == d[0] as int * 0x100 + d[1];
    assert DecodeBE(d[..3]) == d[0] as int * 0x1_0000 + d[1] as int * 0x100 + d[2] by {
      assert d[..3][..2] == d[..2];
    }
  }

  /** The file header: SQLGO and three zeros, then six numbers of four bytes, then zeros. */
  lemma HeaderLayout(h: Header)
    ensures var b := EncodeHeader(h);
            && |b| == 100 && b[..8] == [83, 81, 76, 71, 79, 0, 0, 0]
            && Long(b, 8) == h.version && Long(b, 12) == h.pageSize && Long(b, 16) == h.pageCount
            && Long(b, 20) == h.freeList && Long(b, 24) == h.rootPage && Long(b, 28) == h.schemaPage
            && forall i :: 32 <= i < 100 ==> b[i] == 0
  {
    var b := EncodeHeader(h);
    var ws := [h.version, h.pageSize, h.pageCount, h.freeList, h.rootPage, h.schemaPage];
    var zeros := seq(HEADER_SIZE - 32, _ => 0 as byte);
    forall k | 0 <= k < 6
      ensures Long(b, 8 + 4 * k) == ws[k]
    {
      WordAt(b, MAGIC, ws, zeros, k);
    }
    assert Long(b, 8 + 4 * 0) == ws[0] && Long(b, 8 + 4 * 1) == ws[1] && Long(b, 8 + 4 * 2) == ws[2];
    assert Long(b, 8 + 4 * 3) == ws[3] && Long(b, 8 + 4 * 4) == ws[4] && Long(b, 8 + 4 * 5) == ws[5];
  }

  /** A cell: the left pointer in four bytes, the lengths of key and value in two each, the key, the
      value. */
  lemma CellLayout(c: Cell)
    requires c.Encodable()
    ensures var e := EncodeCell(c);
            && Long(e, 0) == c.leftPtr && Short(e, 4) == |c.key| && Short(e, 6) == |c.value|
            && e[8..8 + |c.key|] == c.key && e[8 + |c.key|..] == c.value
  {
    var e, h := EncodeCell(c), CellHeader(c);
    assert forall i :: 0 <= i < 8 ==> e[i] == h[i];
    assert h[..4] == U32Bytes(c.leftPtr) && h[4..6] == U16Bytes(|c.key|) && h[6..8] == U16Bytes(|c.value|);
    assert h[0] == h[..4][0] && h[1] == h[..4][1] && h[2] == h[..4][2] && h[3] == h[..4][3];
    assert h[4] == h[4..6][0] && h[5] == h[4..6][1] && h[6] == h[6..8][0] && h[7] == h[6..8][1];
  }

  /** A page: its type; the number of cells and where their content begins, in two bytes each, 0
      standing for the end; the rightmost pointer in four; and from byte 9 on, where each cell is. */
  lemma PageLayout(d: Bytes, i: nat)
    requires WellFormed(d) && i < |ViewOf(d).cells|
    ensures var v := ViewOf(d);
            && v.ptype == d[0] && |v.cells| == Short(d, 1) && v.right == Long(d, 5)
            && v.content == (if Short(d, 3) == 0 then 4096 else Short(d, 3))
    ensures 9 + 2 * i + 2 <= 4096 && Short(d, 9 + 2 * i) + 8 <= 4096
    ensures var v, at := ViewOf(d), Short(d, 9 + 2 * i);
            && var k, n := Short(d, at + 4), Short(d, at + 6);
               && at + 8 + k + n <= 4096 && v.cells[i].leftPtr == Long(d, at)
               && v.cells[i].key == d[at + 8..at + 8 + k] && v.cells[i].value == d[at + 8 + k..at + 8 + k + n]
  {
    assert SlotOk(d, i);
  }

  /** A column: 0 for NULL, 1 for an integer, 2 for a real number, 3 for a text, 4 for a blob; the
      length in four bytes; the bytes of the value, eight of them for a number. */
  lemma ColumnLayout(v: Value)
    requires |Payload(v)| < 0x1_0000_0000
    ensures var b := Column(v);
            && |b| >= 5 && Long(b, 1) == |b| - 5
            && b[0] == (match v
                        case Null => 0
                        case Integer(_) => 1
                        case Real(_) => 2
                        case Text(_) => 3
                        case Blob(_) => 4)
            && match v
               case Null => |b| == 5
               case Integer(i) => DecodeBE(b[5..]) == (if i < 0 then i + 0x1_0000_0000_0000_0000 else i) && |b| == 13
               case Real(bits) => DecodeBE(b[5..]) == bits && |b| == 13
               case Text(t) => b[5..] == t
               case Blob(t) => b[5..] == t
  {
    var b, n := Column(v), |Payload(v)|;
    Pow256Widths();
    DecodeEncodeBE(4, n);
    LongIsDecoded(EncodeBE(4, n));
    assert b[1..5] == EncodeBE(4, n) && b[5..] == Payload(v);
    assert b[1] == b[1..5][0] && b[2] == b[1..5][1] && b[3] == b[1..5][2] && b[4] == b[1..5][3];
    match v
    case Integer(i) => DecodeEncodeBE(8, ToUint64(i));
    case Real(bits) => DecodeEncodeBE(8, bits);
    case _ =>
  }

  /** A row: the number of columns in two bytes, then column after column. */
  lemma RowLayout(vs: seq<Value>)
    requires |vs| < 0x1_0000
    ensures Short(Encoded(vs), 0) == |vs|
    ensures vs == [] ==> |Encoded(vs)| == 2
    ensures vs != [] ==> Encoded(vs)[2..] == Column(vs[0]) + Encoded(vs[1..])[2..]
  {
    Pow256Widths();
    DecodeEncodeBE(2, |vs|);
    ShortIsDecoded(EncodeBE(2, |vs|));
    assert Encoded(vs)[..2] == EncodeBE(2, |vs|) && Encoded(vs)[2..] == Columns(vs);
    assert Encoded(vs)[0] == EncodeBE(2, |vs|)[0] && Encoded(vs)[1] == EncodeBE(2, |vs|)[1];
    if vs != [] {
      assert Encoded(vs[1..])[2..] == Columns(vs[1..]);
    }
  }
}
