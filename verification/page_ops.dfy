/** The page as an object: a byte array edited in place (pager.go:41-109, ops.c:89-165,
    btree.go:489-575). Every operation is proved against the view of the page. */
module PageOps {
  import opened Bytes
  import opened Wrappers
  import opened Pages

  // ----- Binary search -----

  ghost predicate Sorted(cells: seq<Cell>) {
    forall i, j :: 0 <= i < j < |cells| ==> Less(cells[i].key, cells[j].key)
  }

  /** The reference for the search: a linear scan for the first key that is not smaller. */
  function LowerBound(cells: seq<Cell>, key: Bytes): (n: nat)
    ensures n <= |cells|
  {
    if cells == [] || KeyCmp(key, cells[0].key) <= 0 then 0 else 1 + LowerBound(cells[1..], key)
  }

  predicate HasKey(cells: seq<Cell>, key: Bytes) {
    exists i :: 0 <= i < |cells| && cells[i].key == key
  }

  /** On sorted cells, n splits them into the smaller keys and the others, so it is the lower
      bound. */
  lemma {:induction false} LowerBoundUnique(cells: seq<Cell>, key: Bytes, n: nat)
    requires n <= |cells|
    requires forall i :: 0 <= i < n ==> Less(cells[i].key, key)
    requires n < |cells| ==> !Less(cells[n].key, key)
    ensures LowerBound(cells, key) == n
  {
    if cells != [] {
      KeyCmpIsLess(key, cells[0].key);
      if n > 0 {
        LowerBoundUnique(cells[1..], key, n - 1);
      }
    }
  }

  /** What the lower bound means on sorted cells. */
  lemma {:induction false} LowerBoundSorted(cells: seq<Cell>, key: Bytes)
    requires Sorted(cells)
    ensures var n := LowerBound(cells, key);
            && (forall i :: 0 <= i < n ==> Less(cells[i].key, key))
            && (forall i :: n < i < |cells| ==> Less(key, cells[i].key))
            && (n < |cells| && cells[n].key != key ==> Less(key, cells[n].key))
            && (HasKey(cells, key) <==> n < |cells| && cells[n].key == key)
  {
    if cells != [] {
      KeyCmpIsLess(key, cells[0].key);
      var n := LowerBound(cells, key);
      if n == 0 {
        forall i | 0 < i < |cells|
          ensures Less(key, cells[i].key)
        {
          if cells[0].key != key {
            LessTransitive(key, cells[0].key, cells[i].key);
          }
        }
        forall i | 0 <= i < |cells| && cells[i].key == key
          ensures i == 0
        {
          LessIrreflexive(key);
        }
      } else {
        LowerBoundSorted(cells[1..], key);
        forall i | 0 <= i < n
          ensures Less(cells[i].key, key)
        {
          assert i > 0 ==> cells[i] == cells[1..][i - 1];
        }
        forall i | 0 <= i < |cells| && cells[i].key == key
          ensures i == n
        {
          LessIrreflexive(key);
        }
      }
    }
  }

  /** Following slot i of the bytes leads to this key. */
  ghost predicate KeyReads(d: Bytes, i: nat, key: Bytes) {
    && PAGE_HEADER_SIZE + 2 * i + 2 <= |d|
    && var off := Slot(d, i);
       off + 8 <= |d| && off + 8 + GetU16(d, off + 4) <= |d| && d[off + 8..off + 8 + GetU16(d, off + 4)] == key
  }

  /** The comparison inside the search: memcmp on the common length, then the lengths. */
  method CompareAt(d: Bytes, key: Bytes, i: nat, ghost stored: Bytes) returns (cmp: int)
    requires KeyReads(d, i, stored)
    ensures cmp < 0 <==> Less(key, stored)
    ensures cmp == 0 <==> key == stored
    ensures cmp > 0 <==> Less(stored, key)
  {
    var off: nat := Slot(d, i);
    var klen: nat := GetU16(d, off + 4);
    var bytes := d[off + 8..off + 8 + klen];
    var minlen := if |key| < klen then |key| else klen;
    cmp := if minlen == 0 then 0 else MemCmp(key, bytes, minlen);
    if cmp == 0 {
      cmp := if |key| < klen then -1 else if |key| > klen then 1 else 0;
    }
    KeyCmpIsLess(key, bytes);
  }

  /** sqlgo_page_binary_search, reading slots and keys out of the page bytes. */
  method PageBinarySearch(d: Bytes, count: nat, key: Bytes, ghost cells: seq<Cell>) returns (idx: nat, found: bool)
    requires count == |cells| && Sorted(cells)
    requires forall i :: 0 <= i < |cells| ==> KeyReads(d, i, cells[i].key)
    ensures idx == LowerBound(cells, key)
    ensures found <==> HasKey(cells, key)
  {
    var lo, hi := 0, count - 1;
    while lo <= hi
      invariant 0 <= lo <= hi + 1 <= count
      invariant forall i :: 0 <= i < lo ==> Less(cells[i].key, key)
      invariant forall i :: hi < i < count ==> Less(key, cells[i].key)
      decreases hi - lo + 1
    {
      var mid := (lo + hi) / 2;
      var cmp := CompareAt(d, key, mid, cells[mid].key);
      SplitAt(cells, key, mid);
      if cmp == 0 {
        return mid, true;
      } else if cmp < 0 {
        hi := mid - 1;
      } else {
        lo := mid + 1;
      }
    }
    NotThere(cells, key, lo);
    return lo, false;
  }

  /** What one comparison says about the cells on either side. */
  lemma SplitAt(cells: seq<Cell>, key: Bytes, mid: nat)
    requires Sorted(cells) && mid < |cells|
    ensures Less(cells[mid].key, key) ==> forall i :: 0 <= i < mid ==> Less(cells[i].key, key)
    ensures Less(key, cells[mid].key) ==> forall i :: mid < i < |cells| ==> Less(key, cells[i].key)
    ensures key == cells[mid].key ==> LowerBound(cells, key) == mid && HasKey(cells, key)
  {
    forall i | 0 <= i < mid && Less(cells[mid].key, key)
      ensures Less(cells[i].key, key)
    {
      LessTransitive(cells[i].key, cells[mid].key, key);
    }
    forall i | mid < i < |cells| && Less(key, cells[mid].key)
      ensures Less(key, cells[i].key)
    {
      LessTransitive(key, cells[mid].key, cells[i].key);
    }
    if key == cells[mid].key {
      LessIrreflexive(key);
      LowerBoundUnique(cells, key, mid);
    }
  }

  lemma NotThere(cells: seq<Cell>, key: Bytes, n: nat)
    requires n <= |cells|
    requires forall i :: 0 <= i < n ==> Less(cells[i].key, key)
    requires forall i :: n <= i < |cells| ==> Less(key, cells[i].key)
    ensures LowerBound(cells, key) == n && !HasKey(cells, key)
  {
    LessIrreflexive(key);
    if n < |cells| {
      LessAsymmetric(key, cells[n].key);
    }
    LowerBoundUnique(cells, key, n);
  }

  // ----- Moves inside the slot array -----

  /** Slots from..to moved up by one: slot from keeps its old bytes as well. */
  function MovedUp(d: Bytes, from: nat, to: nat): (e: Bytes)
    ensures |e| == |d|
  {
    seq(|d|, k requires 0 <= k < |d| =>
      if PAGE_HEADER_SIZE + 2 * from + 2 <= k < PAGE_HEADER_SIZE + 2 * to + 2 then d[k - 2] else d[k])
  }

  /** Slots from+1..to+1 moved down by one. */
  function MovedDown(d: Bytes, from: nat, to: nat): (e: Bytes)
    requires PAGE_HEADER_SIZE + 2 * to + 2 <= |d|
    ensures |e| == |d|
  {
    seq(|d|, k requires 0 <= k < |d| =>
      if PAGE_HEADER_SIZE + 2 * from <= k < PAGE_HEADER_SIZE + 2 * to then d[k + 2] else d[k])
  }

  function ZeroBytes(): (d: Bytes)
    ensures |d| == PAGE_SIZE
  {
    seq(PAGE_SIZE, _ => 0)
  }

  // ----- The page object -----

  class Page {
    const id: uint32
    const data: array<byte>
    var dirty: bool
    var pins: int

    ghost predicate Valid()
      reads data
    {
      data.Length == PAGE_SIZE && WellFormed(data[..])
    }

    ghost function View(): View
      requires Valid()
      reads data
    {
      ViewOf(data[..])
    }

    function Type(): byte
      requires data.Length == PAGE_SIZE
      reads data
    {
      data[0]
    }

    function CellCount(): uint16
      requires data.Length == PAGE_SIZE
      reads data
    {
      Count(data[..])
    }

    function RightmostPointer(): uint32
      requires data.Length == PAGE_SIZE
      reads data
    {
      GetU32(data[..], 5)
    }

    /** A new page is zeroed and clean. */
    constructor (id: uint32)
      ensures this.id == id && !dirty && pins == 0
      ensures fresh(data) && data.Length == PAGE_SIZE
      ensures Valid() && View() == Pages.View.View(0, [], 0, PAGE_SIZE)
      ensures data[..] == ZeroBytes()
    {
      this.id := id;
      data := new byte[PAGE_SIZE](_ => 0);
      dirty, pins := false, 0;
    }

    method PutUint16(off: nat, v: uint16)
      requires off + 2 <= data.Length
      modifies data
      ensures data[..] == PutU16(old(data[..]), off, v)
    {
      data[off], data[off + 1] := v / 256, v % 256;
    }

    method CopyBytes(off: nat, src: Bytes)
      requires off + |src| <= data.Length
      modifies data
      ensures data[..] == Splice(old(data[..]), off, src)
    {
      forall k | off <= k < off + |src| {
        data[k] := src[k - off];
      }
      assert data[..off] == old(data[..off]);
      assert data[off..off + |src|] == src;
      assert data[off + |src|..] == old(data[off + |src|..]);
    }

    method SetType(t: byte)
      requires Valid()
      modifies this`dirty, data
      ensures Valid() && dirty && View() == old(View()).(ptype := t)
    {
      ghost var d := data[..];
      data[0] := t;
      dirty := true;
      HeaderEdit(d, data[..]);
    }

    method SetCellCount(n: uint16)
      requires data.Length == PAGE_SIZE
      modifies this`dirty, data
      ensures dirty && data[..] == PutU16(old(data[..]), 1, n)
    {
      PutUint16(1, n);
      dirty := true;
    }

    method SetCellContentOffset(off: uint16)
      requires data.Length == PAGE_SIZE
      modifies this`dirty, data
      ensures dirty && data[..] == PutU16(old(data[..]), 3, off)
    {
      PutUint16(3, off);
      dirty := true;
    }

    method SetRightmostPointer(p: uint32)
      requires Valid()
      modifies this`dirty, data
      ensures Valid() && dirty && View() == old(View()).(right := p)
    {
      ghost var d := data[..];
      PutUint16(5, p / 0x1_0000);
      PutUint16(7, p % 0x1_0000);
      dirty := true;
      HeaderEdit(d, data[..]);
      assert GetU32(data[..], 5) == p;
    }

    method SetCellPointer(idx: nat, ptr: uint16)
      requires data.Length == PAGE_SIZE && PAGE_HEADER_SIZE + 2 * idx + 2 <= PAGE_SIZE
      modifies this`dirty, data
      ensures dirty && data[..] == PutU16(old(data[..]), PAGE_HEADER_SIZE + 2 * idx, ptr)
    {
      PutUint16(PAGE_HEADER_SIZE + 2 * idx, ptr);
      dirty := true;
    }

    method BinarySearch(key: Bytes) returns (idx: nat, found: bool)
      requires Valid() && Sorted(View().cells)
      ensures idx == LowerBound(View().cells, key)
      ensures found <==> HasKey(View().cells, key)
    {
      ghost var cells := View().cells;
      forall i | 0 <= i < |cells|
        ensures KeyReads(data[..], i, cells[i].key)
      {
        KeyAt(data[..], i);
      }
      idx, found := PageBinarySearch(data[..], CellCount(), key, cells);
    }

    /** sqlgo_shift_cell_pointers with direction 1: slots from..to move up by one. */
    method ShiftUp(from: nat, to: nat)
      requires data.Length == PAGE_SIZE && from <= to && PAGE_HEADER_SIZE + 2 * to + 2 <= PAGE_SIZE
      modifies data
      ensures data[..] == MovedUp(old(data[..]), from, to)
    {
      var i := to;
      while i > from
        invariant from <= i <= to
        invariant data[..] == MovedUp(old(data[..]), i, to)
      {
        var src, dst := PAGE_HEADER_SIZE + (i - 1) * 2, PAGE_HEADER_SIZE + i * 2;
        data[dst] := data[src];
        data[dst + 1] := data[src + 1];
        i := i - 1;
      }
    }

    /** sqlgo_shift_cell_pointers with direction -1: slots from+1..to+1 move down by one. */
    method ShiftDown(from: nat, to: nat)
      requires data.Length == PAGE_SIZE && from <= to && PAGE_HEADER_SIZE + 2 * to + 2 <= PAGE_SIZE
      modifies data
      ensures data[..] == MovedDown(old(data[..]), from, to)
    {
      var i := from;
      while i < to
        invariant from <= i <= to
        invariant data[..] == MovedDown(old(data[..]), from, i)
      {
        var src, dst := PAGE_HEADER_SIZE + (i + 1) * 2, PAGE_HEADER_SIZE + i * 2;
        data[dst] := data[src];
        data[dst + 1] := data[src + 1];
        i := i + 1;
      }
    }

    /** insertCellIntoPageAt */
    method InsertCellAt(c: Cell, idx: nat) returns (r: Result<()>)
      requires Valid() && c.Encodable() && idx <= |View().cells|
      modifies this`dirty, data
      ensures Valid()
      ensures old(View()).Takes(c) ==> r == Ok(()) && dirty && View() == old(View()).InsertAt(c, idx)
      ensures !old(View()).Takes(c) ==> r == Err(PageFull) && dirty == old(dirty) && data[..] == old(data[..])
    {
      ghost var d := data[..];
      var count := Count(data[..]);
      var free := FreeSpace();
      if free < c.Size() + 2 {
        return Err(PageFull);
      }
      var newOffset := Content(data[..]) - c.Size();
      CopyBytes(newOffset, EncodeCell(c));
      ghost var d1 := data[..];
      SetCellContentOffset(newOffset);
      ghost var d2 := data[..];
      if count > idx {
        ShiftUp(idx, count);
      }
      ghost var d3 := data[..];
      assert d3 == MovedUp(d2, idx, count);
      SetCellPointer(idx, newOffset);
      ghost var d4 := data[..];
      SetCellCount(count + 1);
      dirty := true;
      r := Ok(());
      InsertSteps(d, d1, d2, d3, d4, data[..], c, idx);
      InsertedView(d, data[..], c, idx);
    }

    /** insertCellIntoPage: the new slot goes last. */
    method InsertCell(c: Cell) returns (r: Result<()>)
      requires Valid() && c.Encodable()
      modifies this`dirty, data
      ensures Valid()
      ensures old(View()).Takes(c) ==>
                r == Ok(()) && dirty && View() == old(View()).InsertAt(c, |old(View()).cells|)
      ensures !old(View()).Takes(c) ==> r == Err(PageFull) && dirty == old(dirty) && data[..] == old(data[..])
    {
      ghost var d := data[..];
      var count := Count(data[..]);
      var free := FreeSpace();
      if free < c.Size() + 2 {
        return Err(PageFull);
      }
      var newOffset := Content(data[..]) - c.Size();
      CopyBytes(newOffset, EncodeCell(c));
      ghost var d1 := data[..];
      SetCellContentOffset(newOffset);
      ghost var d2 := data[..];
      SetCellPointer(count, newOffset);
      ghost var d4 := data[..];
      SetCellCount(count + 1);
      dirty := true;
      r := Ok(());
      assert d2 == MovedUp(d2, count, count);
      InsertSteps(d, d1, d2, d2, d4, data[..], c, count);
      InsertedView(d, data[..], c, count);
    }

    /** sqlgo_page_free_space */
    method FreeSpace() returns (n: nat)
      requires Valid()
      ensures n == View().Free()
    {
      var contentOff := GetU16(data[..], 3);
      if contentOff == 0 {
        contentOff := PAGE_SIZE;
      }
      var freeStart := PAGE_HEADER_SIZE + Count(data[..]) as int * 2;
      n := if contentOff <= freeStart then 0 else contentOff - freeStart;
    }

    /** removeCellAt */
    method RemoveCellAt(idx: nat)
      requires Valid() && idx < |View().cells|
      modifies this`dirty, data
      ensures Valid() && dirty && View() == old(View()).RemoveAt(idx)
    {
      ghost var d := data[..];
      var count := Count(data[..]);
      ShiftDown(idx, count - 1);
      ghost var d1 := data[..];
      SetCellCount(count - 1);
      dirty := true;
      RemoveSteps(d, d1, data[..], idx);
      RemovedView(d, data[..], idx);
    }

    /** rewriteCell: it checks only that the new bytes stay inside the page. */
    method RewriteCell(idx: nat, c: Cell) returns (r: Result<()>)
      requires Valid() && idx < |View().cells| && c.Encodable()
      modifies this`dirty, data
      ensures data.Length == PAGE_SIZE
      ensures r.Ok? <==> Slot(old(data[..]), idx) + c.Size() <= PAGE_SIZE
      ensures r.Err? ==> r == Err(OutOfBounds) && data[..] == old(data[..]) && dirty == old(dirty)
      ensures r.Ok? ==> dirty
      ensures r.Ok? ==>
                ((Valid() && View() == old(View()).(cells := old(View()).cells[idx := c]))
                 <==> RoomAt(old(data[..]), idx, c.Size()))
      ensures c.Size() <= old(View()).cells[idx].Size() ==>
                r.Ok? && Valid() && View() == old(View()).(cells := old(View()).cells[idx := c])
    {
      ghost var d := data[..];
      var offset := Slot(data[..], idx);
      assert SlotOk(d, idx);
      CellSize(d, Slot(d, idx));
      if c.Size() <= Cells(d)[idx].Size() {
        NoGrowthHasRoom(d, idx, c.Size());
      }
      if offset + c.Size() > PAGE_SIZE {
        return Err(OutOfBounds);
      }
      CopyBytes(offset, EncodeCell(c));
      dirty := true;
      r := Ok(());
      RewriteStep(d, data[..], idx, c);
      RewriteExact(d, data[..], idx, c);
    }

    /** clearPage: everything but the type and the rightmost pointer is reset. */
    method ClearPage()
      requires Valid()
      modifies this`dirty, data
      ensures Valid() && dirty && View() == old(View()).Clear()
    {
      ghost var d := data[..];
      var t, rp := data[0], GetU32(data[..], 5);
      forall k | 1 <= k < PAGE_SIZE {
        data[k] := 0;
      }
      assert WellFormed(data[..]);
      SetType(t);
      Format(rp);
    }

    /** The setters that every new or cleared page goes through: no cells, content offset at the
        end of the page, a rightmost pointer. */
    method Format(rp: uint32)
      requires data.Length == PAGE_SIZE
      modifies this`dirty, data
      ensures Valid() && dirty && View() == Pages.View.View(old(data[0]), [], rp, PAGE_SIZE)
    {
      SetCellCount(0);
      SetCellContentOffset(PAGE_SIZE);
      assert WellFormed(data[..]);
      SetRightmostPointer(rp);
    }

    /** collectCells */
    method CollectCells() returns (cells: seq<Cell>)
      requires Valid()
      ensures cells == View().cells
    {
      var count := Count(data[..]);
      cells := [];
      for i := 0 to count
        invariant cells == View().cells[..i]
      {
        cells := cells + [CellOf(i)];
      }
    }

    /** DecodeCell(pg.Data[:], pg.CellPointer(i)) of a live slot: its bounds checks pass. */
    function CellOf(i: nat): (c: Cell)
      requires Valid() && i < |View().cells|
      reads data
      ensures c == View().cells[i]
    {
      assert SlotOk(data[..], i);
      DecodeCell(data[..], Slot(data[..], i)).value
    }
  }

  // ----- The byte-level steps inside the methods -----

  /** Bytes that differ only in the type or the rightmost pointer hold the same cells. */
  lemma HeaderEdit(d: Bytes, e: Bytes)
    requires WellFormed(d) && |e| == PAGE_SIZE
    requires forall k :: 1 <= k < 5 || 9 <= k < PAGE_SIZE ==> e[k] == d[k]
    ensures WellFormed(e) && Cells(e) == Cells(d) && Content(e) == Content(d)
  {
    assert Count(e) == Count(d) && Content(e) == Content(d);
    forall i | 0 <= i < Count(d)
      ensures Slot(e, i) == Slot(d, i) && SameCell(d, e, Slot(d, i))
    {
      assert SlotOk(d, i);
      CellUnchanged(d, e, Slot(d, i));
    }
    SameSlotsSameCells(d, e);
  }

  /** The key bytes found through slot i are the key of cell i. */
  lemma KeyAt(d: Bytes, i: nat)
    requires WellFormed(d) && i < Count(d)
    ensures KeyReads(d, i, Cells(d)[i].key)
  {
    assert SlotOk(d, i);
    assert Cells(d)[i] == CellAt(d, Slot(d, i));
  }

  lemma InsertSlots(d: Bytes, d2: Bytes, d3: Bytes, e: Bytes, idx: nat)
    requires WellFormed(d) && |d2| == PAGE_SIZE && idx <= Count(d)
    requires PAGE_HEADER_SIZE + 2 * Count(d) + 2 <= PAGE_SIZE
    requires forall k :: PAGE_HEADER_SIZE <= k < PAGE_HEADER_SIZE + 2 * Count(d) ==> d2[k] == d[k]
    requires d3 == MovedUp(d2, idx, Count(d))
    requires |e| == PAGE_SIZE
    requires forall k | PAGE_HEADER_SIZE <= k < PAGE_SIZE && (k - PAGE_HEADER_SIZE) / 2 != idx :: e[k] == d3[k]
    ensures forall i :: 0 <= i < idx ==> Slot(e, i) == Slot(d, i)
    ensures forall i :: idx < i <= Count(d) ==> Slot(e, i) == Slot(d, i - 1)
  {
    forall i | idx < i <= Count(d)
      ensures Slot(e, i) == Slot(d, i - 1)
    {
      var k := PAGE_HEADER_SIZE + 2 * i;
      assert e[k] == d3[k] == d2[k - 2] == d[k - 2];
      assert e[k + 1] == d3[k + 1] == d2[k - 1] == d[k - 1];
    }
  }

  lemma SplicePoints(d: Bytes, off: nat, src: Bytes)
    requires off + |src| <= |d|
    ensures var e := Splice(d, off, src);
            && (forall k :: 0 <= k < off ==> e[k] == d[k])
            && (forall k :: off + |src| <= k < |d| ==> e[k] == d[k])
            && e[off..off + |src|] == src
  {
  }

  lemma InsertSteps(d: Bytes, d1: Bytes, d2: Bytes, d3: Bytes, d4: Bytes, e: Bytes, c: Cell, idx: nat)
    requires WellFormed(d) && c.Encodable() && idx <= Count(d)
    requires PAGE_HEADER_SIZE + 2 * Count(d) + 2 + c.Size() <= Content(d)
    requires d1 == Splice(d, Content(d) - c.Size(), EncodeCell(c))
    requires d2 == PutU16(d1, 3, Content(d) - c.Size())
    requires d3 == MovedUp(d2, idx, Count(d))
    requires d4 == PutU16(d3, PAGE_HEADER_SIZE + 2 * idx, Content(d) - c.Size())
    requires e == PutU16(d4, 1, Count(d) + 1)
    ensures Inserted(d, e, c, idx)
    ensures e[0] == d[0] && GetU32(e, 5) == GetU32(d, 5)
  {
    var o := Content(d) - c.Size();
    SplicePoints(d, o, EncodeCell(c));
    assert forall k :: o <= k < PAGE_SIZE ==> e[k] == d1[k];
    assert e[o..Content(d)] == d1[o..Content(d)];
    InsertSlots(d, d2, d3, e, idx);
    assert Slot(e, idx) == o;
  }

  lemma RemoveSteps(d: Bytes, d1: Bytes, e: Bytes, idx: nat)
    requires WellFormed(d) && idx < Count(d)
    requires d1 == MovedDown(d, idx, Count(d) - 1)
    requires e == PutU16(d1, 1, Count(d) - 1)
    ensures Removed(d, e, idx)
    ensures e[0] == d[0] && GetU32(e, 5) == GetU32(d, 5)
  {
    forall i | 0 <= i < Count(d) - 1
      ensures Slot(e, i) == Slot(d, After(idx, i))
    {
      var k := PAGE_HEADER_SIZE + 2 * i;
      assert e[k] == d1[k] && e[k + 1] == d1[k + 1];
    }
  }

  lemma RewriteStep(d: Bytes, e: Bytes, idx: nat, c: Cell)
    requires WellFormed(d) && idx < Count(d) && c.Encodable()
    requires Slot(d, idx) + c.Size() <= PAGE_SIZE
    requires e == Splice(d, Slot(d, idx), EncodeCell(c))
    ensures Rewritten(d, e, idx, c)
  {
    assert SlotOk(d, idx);
    SplicePoints(d, Slot(d, idx), EncodeCell(c));
  }
}
