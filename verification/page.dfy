/** The slotted page: 4096 bytes holding a 9-byte header, a slot array that grows up and
    cells that grow down (pager.go, ops.c and the page-level half of btree.go). */
module Pages {
  import opened Bytes
  import opened Wrappers

  const PAGE_SIZE := 4096
  const PAGE_HEADER_SIZE := 9
  const LEAF: byte := 0x0D
  const INTERNAL: byte := 0x05

  datatype Cell = Cell(leftPtr: uint32, key: Bytes, value: Bytes) {
    /** Bytes the encoded cell takes. */
    function Size(): nat { 8 + |key| + |value| }

    /** The lengths that uint16 arithmetic in EncodeCell and insertCellIntoPage can carry. */
    predicate Encodable() { Size() + 2 < 0x1_0000 }
  }

  // ----- Reading and writing fields of a byte sequence -----

  function GetU16(d: Bytes, off: nat): (v: uint16)
    requires off + 2 <= |d|
  {
    (d[off] as int) * 256 + d[off + 1]
  }

  function PutU16(d: Bytes, off: nat, v: uint16): (r: Bytes)
    requires off + 2 <= |d|
    ensures |r| == |d|
  {
    d[off := v / 256][off + 1 := v % 256]
  }

  function GetU32(d: Bytes, off: nat): (v: uint32)
    requires off + 4 <= |d|
  {
    GetU16(d, off) as int * 0x1_0000 + GetU16(d, off + 2)
  }

  function U16Bytes(v: uint16): Bytes { [v / 256, v % 256] }

  function U32Bytes(v: uint32): Bytes {
    U16Bytes(v / 0x1_0000) + U16Bytes(v % 0x1_0000)
  }

  function Splice(d: Bytes, off: nat, src: Bytes): (r: Bytes)
    requires off + |src| <= |d|
    ensures |r| == |d|
  {
    d[..off] + src + d[off + |src|..]
  }

  // ----- Cells -----

  function CellHeader(c: Cell): (s: Bytes)
    requires c.Encodable()
    ensures |s| == 8
  {
    U32Bytes(c.leftPtr) + U16Bytes(|c.key|) + U16Bytes(|c.value|)
  }

  /** sqlgo_encode_cell */
  function EncodeCell(c: Cell): (s: Bytes)
    requires c.Encodable()
    ensures |s| == c.Size()
  {
    CellHeader(c) + c.key + c.value
  }

  /** One past the last byte of the cell whose header is at off. */
  function EndOf(d: Bytes, off: nat): nat
    requires off + 8 <= |d|
  {
    off + 8 + GetU16(d, off + 4) + GetU16(d, off + 6)
  }

  predicate InBounds(d: Bytes, off: nat) {
    off + 8 <= |d| && EndOf(d, off) <= |d|
  }

  function CellAt(d: Bytes, off: nat): Cell
    requires InBounds(d, off)
  {
    var k := off + 8 + GetU16(d, off + 4);
    Cell(GetU32(d, off), d[off + 8..k], d[k..EndOf(d, off)])
  }

  /** DecodeCell with its two bounds checks. */
  function DecodeCell(d: Bytes, off: nat): Result<Cell> {
    if off + 8 > |d| then Err(OutOfBounds)
    else if EndOf(d, off) > |d| then Err(OutOfBounds)
    else Ok(CellAt(d, off))
  }

  lemma SliceOfSlice(d: Bytes, off: nat, n: nat, i: nat, j: nat)
    requires off + n <= |d| && i <= j <= n
    ensures d[off..off + n][i..j] == d[off + i..off + j]
  {
    var s, t := d[off..off + n][i..j], d[off + i..off + j];
    assert |s| == |t| && forall k :: 0 <= k < |t| ==> s[k] == t[k];
  }

  /** Decoding undoes encoding at any offset of any buffer. */
  lemma CellRoundTrip(d: Bytes, off: nat, c: Cell)
    requires c.Encodable() && off + c.Size() <= |d|
    requires d[off..off + c.Size()] == EncodeCell(c)
    ensures DecodeCell(d, off) == Ok(c)
    ensures EndOf(d, off) == off + c.Size()
  {
    var e := d[off..off + c.Size()];
    var h := e[..8];
    assert h == CellHeader(c);
    assert GetU32(h, 0) == c.leftPtr && GetU16(h, 4) == |c.key| && GetU16(h, 6) == |c.value|;
    assert forall k :: 0 <= k < 8 ==> d[off + k] == h[k];
    assert EndOf(d, off) == off + c.Size();
    SliceOfSlice(d, off, c.Size(), 8, 8 + |c.key|);
    SliceOfSlice(d, off, c.Size(), 8 + |c.key|, c.Size());
    assert e[8..8 + |c.key|] == c.key && e[8 + |c.key|..c.Size()] == c.value;
  }

  /** The cell at off is the same in both buffers. */
  ghost predicate SameCell(d: Bytes, e: Bytes, off: nat) {
    InBounds(d, off) && InBounds(e, off) && EndOf(e, off) == EndOf(d, off) && CellAt(e, off) == CellAt(d, off)
  }

  lemma CellUnchanged(d: Bytes, e: Bytes, off: nat)
    requires |d| == |e| && InBounds(d, off)
    requires forall k :: off <= k < EndOf(d, off) ==> e[k] == d[k]
    ensures SameCell(d, e, off)
  {
    assert e[off..off + 8] == d[off..off + 8];
    assert e[off + 4] == d[off + 4] && e[off + 5] == d[off + 5] && e[off + 6] == d[off + 6] && e[off + 7] == d[off + 7];
    var k := off + 8 + GetU16(d, off + 4);
    assert e[off + 8..k] == d[off + 8..k];
    assert e[k..EndOf(d, off)] == d[k..EndOf(d, off)];
  }

  lemma CellSize(d: Bytes, off: nat)
    requires InBounds(d, off)
    ensures CellAt(d, off).Size() == EndOf(d, off) - off
  {
  }

  // ----- Well-formed pages and what they hold -----

  function Count(d: Bytes): uint16
    requires |d| == PAGE_SIZE
  {
    GetU16(d, 1)
  }

  /** CellContentOffset: zero stands for the end of the page. */
  function Content(d: Bytes): uint16
    requires |d| == PAGE_SIZE
  {
    if GetU16(d, 3) == 0 then PAGE_SIZE else GetU16(d, 3)
  }

  function Slot(d: Bytes, i: nat): uint16
    requires PAGE_HEADER_SIZE + 2 * i + 2 <= |d|
  {
    GetU16(d, PAGE_HEADER_SIZE + 2 * i)
  }

  predicate SlotOk(d: Bytes, i: nat)
    requires |d| == PAGE_SIZE && i < Count(d) && PAGE_HEADER_SIZE + 2 * i + 2 <= |d|
  {
    Content(d) <= Slot(d, i) && InBounds(d, Slot(d, i))
  }

  predicate Apart(d: Bytes, o: nat, p: nat) {
    InBounds(d, o) && InBounds(d, p) && (EndOf(d, o) <= p || EndOf(d, p) <= o)
  }

  /** The slot array ends below the content offset, every slot points to a cell inside the
      content area, and live cells do not overlap. */
  ghost predicate WellFormed(d: Bytes) {
    && |d| == PAGE_SIZE
    && PAGE_HEADER_SIZE + 2 * Count(d) <= Content(d) <= PAGE_SIZE
    && (forall i {:trigger SlotOk(d, i)} :: 0 <= i < Count(d) ==> SlotOk(d, i))
    && (forall i, j {:trigger Apart(d, Slot(d, i), Slot(d, j))} :: 0 <= i < j < Count(d) ==>
          Apart(d, Slot(d, i), Slot(d, j)))
  }

  ghost function Cells(d: Bytes): (cs: seq<Cell>)
    requires WellFormed(d)
    ensures |cs| == Count(d)
    ensures forall i :: 0 <= i < |cs| ==> SlotOk(d, i) && cs[i] == CellAt(d, Slot(d, i))
  {
    assert forall i :: 0 <= i < Count(d) ==> SlotOk(d, i);
    seq(Count(d), i requires 0 <= i < Count(d) && SlotOk(d, i) => CellAt(d, Slot(d, i)))
  }

  /** What a well-formed page stands for: its type, its cells in slot order, the rightmost
      pointer, and the offset where the next cell would end. */
  datatype View = View(ptype: byte, cells: seq<Cell>, right: uint32, content: nat) {
    /** sqlgo_page_free_space */
    function Free(): nat {
      var start := PAGE_HEADER_SIZE + 2 * |cells|;
      if content <= start then 0 else content - start
    }

    /** The page takes the cell: insertCellIntoPage does not return ErrPageFull. */
    predicate Takes(c: Cell) { c.Size() + 2 <= Free() }

    function InsertAt(c: Cell, idx: nat): View
      requires idx <= |cells| && c.Size() <= content
    {
      this.(cells := cells[..idx] + [c] + cells[idx..], content := content - c.Size())
    }

    function RemoveAt(idx: nat): View
      requires idx < |cells|
    {
      this.(cells := cells[..idx] + cells[idx + 1..])
    }

    function Clear(): View { this.(cells := [], content := PAGE_SIZE) }

    function Keys(): seq<Bytes> { seq(|cells|, i requires 0 <= i < |cells| => cells[i].key) }
  }

  ghost function ViewOf(d: Bytes): View
    requires WellFormed(d)
  {
    View(d[0], Cells(d), GetU32(d, 5), Content(d))
  }

  function TotalSize(cs: seq<Cell>): nat {
    if cs == [] then 0 else TotalSize(cs[..|cs| - 1]) + cs[|cs| - 1].Size()
  }

  // ----- Disjoint cells cannot be larger than the area that holds them -----

  ghost function Interval(lo: int, hi: int): (s: set<int>)
    requires lo <= hi
    ensures forall k :: k in s <==> lo <= k < hi
    ensures |s| == hi - lo
    decreases hi - lo
  {
    if lo == hi then {} else Interval(lo, hi - 1) + {hi - 1}
  }

  lemma SubsetSize<T>(a: set<T>, b: set<T>)
    requires a <= b
    ensures |a| <= |b|
  {
    assert b == a + (b - a);
  }

  /** Pairwise disjoint cells placed at the given offsets inside [lo, hi). */
  ghost predicate Placed(cs: seq<Cell>, at: seq<nat>, lo: nat, hi: nat) {
    && |cs| == |at|
    && (forall i :: 0 <= i < |cs| ==> lo <= at[i] && at[i] + cs[i].Size() <= hi)
    && (forall i, j :: 0 <= i < j < |cs| ==> at[i] + cs[i].Size() <= at[j] || at[j] + cs[j].Size() <= at[i])
  }

  /** The bytes under the first n cells. */
  ghost function Covered(cs: seq<Cell>, at: seq<nat>, n: nat): set<int>
    requires n <= |cs| == |at|
  {
    if n == 0 then {} else Covered(cs, at, n - 1) + Interval(at[n - 1], at[n - 1] + cs[n - 1].Size())
  }

  lemma {:induction false} CoveredWithin(cs: seq<Cell>, at: seq<nat>, n: nat, k: int)
    requires n <= |cs| == |at| && k in Covered(cs, at, n)
    ensures exists i :: 0 <= i < n && at[i] <= k < at[i] + cs[i].Size()
  {
    if k in Covered(cs, at, n - 1) {
      CoveredWithin(cs, at, n - 1, k);
    } else {
      assert at[n - 1] <= k < at[n - 1] + cs[n - 1].Size();
    }
  }

  lemma CoveredApart(cs: seq<Cell>, at: seq<nat>, n: nat, lo: nat, hi: nat)
    requires Placed(cs, at, lo, hi) && n < |cs|
    ensures Covered(cs, at, n) !! Interval(at[n], at[n] + cs[n].Size())
  {
    var last := Interval(at[n], at[n] + cs[n].Size());
    forall k | k in Covered(cs, at, n)
      ensures k !in last
    {
      CoveredWithin(cs, at, n, k);
    }
  }

  lemma {:induction false} CoveredSize(cs: seq<Cell>, at: seq<nat>, n: nat, lo: nat, hi: nat)
    requires Placed(cs, at, lo, hi) && n <= |cs|
    ensures |Covered(cs, at, n)| == TotalSize(cs[..n])
  {
    if n != 0 {
      var last := Interval(at[n - 1], at[n - 1] + cs[n - 1].Size());
      CoveredSize(cs, at, n - 1, lo, hi);
      CoveredApart(cs, at, n - 1, lo, hi);
      TotalSizeLast(cs, n);
      DisjointSize(Covered(cs, at, n - 1), last);
    }
  }

  lemma TotalSizeLast(cs: seq<Cell>, n: nat)
    requires 0 < n <= |cs|
    ensures TotalSize(cs[..n]) == TotalSize(cs[..n - 1]) + cs[n - 1].Size()
  {
    assert cs[..n][..n - 1] == cs[..n - 1];
  }

  lemma DisjointSize(a: set<int>, b: set<int>)
    requires a !! b
    ensures |a + b| == |a| + |b|
  {
  }

  lemma PlacedFits(cs: seq<Cell>, at: seq<nat>, lo: nat, hi: nat)
    requires Placed(cs, at, lo, hi) && lo <= hi
    ensures lo + TotalSize(cs) <= hi
  {
    CoveredSize(cs, at, |cs|, lo, hi);
    var area, all := Interval(lo, hi), Covered(cs, at, |cs|);
    forall k | k in all
      ensures k in area
    {
      CoveredWithin(cs, at, |cs|, k);
    }
    SubsetSize(all, area);
    assert cs[..|cs|] == cs;
  }

  /** Disjoint cells fit: together they are no larger than the content area. */
  lemma LiveCellsFit(d: Bytes)
    requires WellFormed(d)
    ensures Content(d) + TotalSize(Cells(d)) <= PAGE_SIZE
  {
    var cs := Cells(d);
    var at: seq<nat> := seq(|cs|, i requires 0 <= i < Count(d) => Slot(d, i));
    forall i | 0 <= i < |cs|
      ensures Content(d) <= at[i] && at[i] + cs[i].Size() == EndOf(d, Slot(d, i)) <= PAGE_SIZE
    {
      assert SlotOk(d, i);
      CellSize(d, Slot(d, i));
    }
    forall i, j | 0 <= i < j < |cs|
      ensures at[i] + cs[i].Size() <= at[j] || at[j] + cs[j].Size() <= at[i]
    {
      assert Apart(d, Slot(d, i), Slot(d, j));
    }
    PlacedFits(cs, at, Content(d), PAGE_SIZE);
  }

  /** Two pages with the same slots, over the same cells, are the same page of cells. */
  lemma SameSlotsSameCells(d: Bytes, e: Bytes)
    requires WellFormed(d) && |e| == PAGE_SIZE
    requires Count(e) == Count(d) && Content(e) == Content(d)
    requires forall i :: 0 <= i < Count(d) ==> Slot(e, i) == Slot(d, i) && SameCell(d, e, Slot(d, i))
    ensures WellFormed(e) && Cells(e) == Cells(d)
  {
    forall i | 0 <= i < Count(e)
      ensures SlotOk(e, i)
    {
      assert SlotOk(d, i) && SameCell(d, e, Slot(d, i));
    }
    forall i, j | 0 <= i < j < Count(e)
      ensures Apart(e, Slot(e, i), Slot(e, j))
    {
      assert Apart(d, Slot(d, i), Slot(d, j));
      assert SameCell(d, e, Slot(d, i)) && SameCell(d, e, Slot(d, j));
    }
    forall i | 0 <= i < Count(e)
      ensures Cells(e)[i] == Cells(d)[i]
    {
      assert SameCell(d, e, Slot(d, i));
    }
  }

  // ----- What each edit of the bytes does to the view -----

  /** Bytes e hold page d with cell c written below the content area and its slot opened at
      idx, the slots above moved up by one. */
  ghost predicate Inserted(d: Bytes, e: Bytes, c: Cell, idx: nat)
    requires WellFormed(d)
  {
    && |e| == PAGE_SIZE && idx <= Count(d) && c.Encodable()
    && PAGE_HEADER_SIZE + 2 * Count(d) + 2 + c.Size() <= Content(d)
    && Count(e) == Count(d) + 1
    && Content(e) == Content(d) - c.Size()
    && (forall i :: 0 <= i < idx ==> Slot(e, i) == Slot(d, i))
    && Slot(e, idx) == Content(e)
    && (forall i :: idx < i <= Count(d) ==> Slot(e, i) == Slot(d, i - 1))
    && e[Content(e)..Content(d)] == EncodeCell(c)
    && (forall k :: Content(d) <= k < PAGE_SIZE ==> e[k] == d[k])
  }

  lemma InsertedOldCells(d: Bytes, e: Bytes, c: Cell, idx: nat)
    requires WellFormed(d) && Inserted(d, e, c, idx)
    ensures forall i :: 0 <= i < Count(d) ==> SameCell(d, e, Slot(d, i))
  {
    forall i | 0 <= i < Count(d)
      ensures SameCell(d, e, Slot(d, i))
    {
      assert SlotOk(d, i);
      CellUnchanged(d, e, Slot(d, i));
    }
  }

  /** The slot of d that slot i of e came from. */
  function Before(idx: nat, i: nat): nat { if i < idx || i == 0 then i else i - 1 }

  lemma InsertedWellFormed(d: Bytes, e: Bytes, c: Cell, idx: nat)
    requires WellFormed(d) && Inserted(d, e, c, idx)
    requires forall i :: 0 <= i < Count(d) ==> SameCell(d, e, Slot(d, i))
    requires DecodeCell(e, Content(e)) == Ok(c) && EndOf(e, Content(e)) == Content(d)
    ensures WellFormed(e)
  {
    forall i | 0 <= i < Count(e)
      ensures SlotOk(e, i)
      ensures i != idx ==> Slot(e, i) == Slot(d, Before(idx, i))
    {
      if i != idx {
        assert Slot(e, i) == Slot(d, Before(idx, i));
        assert SlotOk(d, Before(idx, i));
      }
    }
    forall i, j | 0 <= i < j < Count(e)
      ensures Apart(e, Slot(e, i), Slot(e, j))
    {
      assert SlotOk(e, i) && SlotOk(e, j);
      if i != idx && j != idx {
        assert Apart(d, Slot(d, Before(idx, i)), Slot(d, Before(idx, j)));
      } else {
        assert SlotOk(d, Before(idx, if i == idx then j else i));
      }
    }
  }

  lemma InsertedCell(d: Bytes, e: Bytes, c: Cell, idx: nat, i: nat)
    requires WellFormed(d) && Inserted(d, e, c, idx) && WellFormed(e) && i < Count(e)
    requires i < idx ==> SameCell(d, e, Slot(d, i))
    requires i == idx ==> DecodeCell(e, Content(e)) == Ok(c)
    requires i > idx ==> SameCell(d, e, Slot(d, i - 1))
    ensures Cells(e)[i] == (Cells(d)[..idx] + [c] + Cells(d)[idx..])[i]
  {
    assert Cells(e)[i] == CellAt(e, Slot(e, i));
  }

  lemma InsertedView(d: Bytes, e: Bytes, c: Cell, idx: nat)
    requires WellFormed(d) && Inserted(d, e, c, idx)
    ensures WellFormed(e)
    ensures Cells(e) == Cells(d)[..idx] + [c] + Cells(d)[idx..]
  {
    CellRoundTrip(e, Content(e), c);
    InsertedOldCells(d, e, c, idx);
    InsertedWellFormed(d, e, c, idx);
    forall i | 0 <= i < Count(e)
      ensures Cells(e)[i] == (Cells(d)[..idx] + [c] + Cells(d)[idx..])[i]
    {
      InsertedCell(d, e, c, idx, i);
    }
  }

  ghost predicate Removed(d: Bytes, e: Bytes, idx: nat)
    requires WellFormed(d)
  {
    && |e| == PAGE_SIZE && idx < Count(d)
    && Count(e) == Count(d) - 1
    && Content(e) == Content(d)
    && (forall i :: 0 <= i < idx ==> Slot(e, i) == Slot(d, i))
    && (forall i :: idx <= i < Count(d) - 1 ==> Slot(e, i) == Slot(d, i + 1))
    && (forall k :: Content(d) <= k < PAGE_SIZE ==> e[k] == d[k])
  }

  function After(idx: nat, i: nat): nat { if i < idx then i else i + 1 }

  lemma RemovedWellFormed(d: Bytes, e: Bytes, idx: nat)
    requires WellFormed(d) && Removed(d, e, idx)
    ensures forall i :: 0 <= i < Count(d) ==> SameCell(d, e, Slot(d, i))
    ensures WellFormed(e)
  {
    forall i | 0 <= i < Count(d)
      ensures SameCell(d, e, Slot(d, i))
    {
      assert SlotOk(d, i);
      CellUnchanged(d, e, Slot(d, i));
    }
    forall i | 0 <= i < Count(e)
      ensures SlotOk(e, i) && Slot(e, i) == Slot(d, After(idx, i))
    {
      assert SlotOk(d, After(idx, i));
      assert SameCell(d, e, Slot(d, After(idx, i)));
    }
    forall i, j | 0 <= i < j < Count(e)
      ensures Apart(e, Slot(e, i), Slot(e, j))
    {
      assert Slot(e, i) == Slot(d, After(idx, i)) && Slot(e, j) == Slot(d, After(idx, j));
      assert Apart(d, Slot(d, After(idx, i)), Slot(d, After(idx, j)));
      assert SameCell(d, e, Slot(e, i)) && SameCell(d, e, Slot(e, j));
    }
  }

  lemma RemovedCell(d: Bytes, e: Bytes, idx: nat, i: nat)
    requires WellFormed(d) && Removed(d, e, idx) && WellFormed(e) && i < Count(e)
    requires SameCell(d, e, Slot(d, After(idx, i)))
    ensures Cells(e)[i] == (Cells(d)[..idx] + Cells(d)[idx + 1..])[i]
  {
    assert Slot(e, i) == Slot(d, After(idx, i));
    assert Cells(e)[i] == CellAt(e, Slot(e, i));
  }

  lemma RemovedView(d: Bytes, e: Bytes, idx: nat)
    requires WellFormed(d) && Removed(d, e, idx)
    ensures WellFormed(e)
    ensures Cells(e) == Cells(d)[..idx] + Cells(d)[idx + 1..]
  {
    RemovedWellFormed(d, e, idx);
    forall i | 0 <= i < Count(e)
      ensures Cells(e)[i] == (Cells(d)[..idx] + Cells(d)[idx + 1..])[i]
    {
      RemovedCell(d, e, idx, i);
    }
  }

  /** The bytes of a cell of this size put at slot idx would touch no other live cell. */
  ghost predicate RoomAt(d: Bytes, idx: nat, size: nat)
    requires WellFormed(d) && idx < Count(d)
  {
    forall j | 0 <= j < Count(d) && j != idx ::
      SlotOk(d, j) && (Slot(d, idx) + size <= Slot(d, j) || EndOf(d, Slot(d, j)) <= Slot(d, idx))
  }

  /** A cell that is no larger than the one it replaces always has room. */
  lemma NoGrowthHasRoom(d: Bytes, idx: nat, size: nat)
    requires WellFormed(d) && idx < Count(d) && size <= Cells(d)[idx].Size()
    ensures RoomAt(d, idx, size)
  {
    forall j | 0 <= j < Count(d) && j != idx
      ensures SlotOk(d, j) && (Slot(d, idx) + size <= Slot(d, j) || EndOf(d, Slot(d, j)) <= Slot(d, idx))
    {
      assert SlotOk(d, j) && SlotOk(d, idx);
      assert Cells(d)[idx] == CellAt(d, Slot(d, idx));
      CellSize(d, Slot(d, idx));
      if idx < j {
        assert Apart(d, Slot(d, idx), Slot(d, j));
      } else {
        assert Apart(d, Slot(d, j), Slot(d, idx));
      }
    }
  }

  /** Bytes e hold page d with the encoding of c written over the bytes at slot idx. */
  ghost predicate Rewritten(d: Bytes, e: Bytes, idx: nat, c: Cell)
    requires WellFormed(d)
  {
    && |e| == PAGE_SIZE && idx < Count(d) && c.Encodable()
    && Slot(d, idx) + c.Size() <= PAGE_SIZE
    && e[0] == d[0] && GetU32(e, 5) == GetU32(d, 5)
    && Count(e) == Count(d) && Content(e) == Content(d)
    && (forall i :: 0 <= i < Count(d) ==> Slot(e, i) == Slot(d, i))
    && e[Slot(d, idx)..Slot(d, idx) + c.Size()] == EncodeCell(c)
    && (forall k :: Content(d) <= k < Slot(d, idx) || Slot(d, idx) + c.Size() <= k < PAGE_SIZE ==> e[k] == d[k])
  }

  lemma RewrittenOldCells(d: Bytes, e: Bytes, idx: nat, c: Cell)
    requires WellFormed(d) && Rewritten(d, e, idx, c) && RoomAt(d, idx, c.Size())
    ensures forall j :: 0 <= j < Count(d) && j != idx ==> SameCell(d, e, Slot(d, j))
  {
    forall j | 0 <= j < Count(d) && j != idx
      ensures SameCell(d, e, Slot(d, j))
    {
      assert SlotOk(d, j);
      CellUnchanged(d, e, Slot(d, j));
    }
  }

  lemma RewrittenWellFormed(d: Bytes, e: Bytes, idx: nat, c: Cell)
    requires WellFormed(d) && Rewritten(d, e, idx, c) && RoomAt(d, idx, c.Size())
    requires forall j :: 0 <= j < Count(d) && j != idx ==> SameCell(d, e, Slot(d, j))
    requires DecodeCell(e, Slot(d, idx)) == Ok(c) && EndOf(e, Slot(d, idx)) == Slot(d, idx) + c.Size()
    ensures WellFormed(e)
  {
    forall j | 0 <= j < Count(e)
      ensures SlotOk(e, j)
    {
      assert SlotOk(d, j);
    }
    forall i, j | 0 <= i < j < Count(e)
      ensures Apart(e, Slot(e, i), Slot(e, j))
    {
      assert SlotOk(e, i) && SlotOk(e, j);
      if i != idx && j != idx {
        assert Apart(d, Slot(d, i), Slot(d, j));
        assert SameCell(d, e, Slot(d, i)) && SameCell(d, e, Slot(d, j));
      } else {
        assert SameCell(d, e, Slot(d, if i == idx then j else i));
      }
    }
  }

  /** rewriteCell overwrites in place. The page stays well-formed with only that cell replaced
      exactly when the new bytes touch no other live cell. */
  lemma RewriteExact(d: Bytes, e: Bytes, idx: nat, c: Cell)
    requires WellFormed(d) && Rewritten(d, e, idx, c)
    ensures (WellFormed(e) && Cells(e) == Cells(d)[idx := c]) <==> RoomAt(d, idx, c.Size())
  {
    if RoomAt(d, idx, c.Size()) {
      RewriteInRoom(d, e, idx, c);
    }
    if WellFormed(e) && Cells(e) == Cells(d)[idx := c] {
      RewriteNeedsRoom(d, e, idx, c);
    }
  }

  lemma RewriteInRoom(d: Bytes, e: Bytes, idx: nat, c: Cell)
    requires WellFormed(d) && Rewritten(d, e, idx, c) && RoomAt(d, idx, c.Size())
    ensures WellFormed(e) && Cells(e) == Cells(d)[idx := c]
  {
    CellRoundTrip(e, Slot(d, idx), c);
    RewrittenOldCells(d, e, idx, c);
    RewrittenWellFormed(d, e, idx, c);
    forall j | 0 <= j < Count(e)
      ensures Cells(e)[j] == Cells(d)[idx := c][j]
    {
      assert j != idx ==> SameCell(d, e, Slot(d, j));
    }
  }

  lemma RewriteNeedsRoom(d: Bytes, e: Bytes, idx: nat, c: Cell)
    requires WellFormed(d) && Rewritten(d, e, idx, c) && WellFormed(e) && Cells(e) == Cells(d)[idx := c]
    ensures RoomAt(d, idx, c.Size())
  {
    CellRoundTrip(e, Slot(d, idx), c);
    forall j | 0 <= j < Count(d) && j != idx
      ensures SlotOk(d, j)
      ensures Slot(d, idx) + c.Size() <= Slot(d, j) || EndOf(d, Slot(d, j)) <= Slot(d, idx)
    {
      assert SlotOk(d, j) && SlotOk(e, j);
      assert Cells(e)[j] == Cells(d)[j];
      CellSize(d, Slot(d, j));
      CellSize(e, Slot(d, j));
      assert Apart(e, Slot(e, if idx < j then idx else j), Slot(e, if idx < j then j else idx));
    }
  }
}
