/** When can splitLeaf halve a full leaf by count? (btree.go:217-246, 527-541) */
module TreeSplit {
  import opened Bytes
  import opened Wrappers
  import opened Pages
  import opened PageOps
  import opened Trees
  import opened TreeInsert

  ghost predicate SizesAtMost(cells: seq<Cell>, b: nat) {
    forall c :: c in cells ==> c.Size() <= b
  }

  lemma {:induction false} TotalSizeAtMost(cells: seq<Cell>, b: nat)
    requires SizesAtMost(cells, b)
    ensures TotalSize(cells) <= b * |cells|
  {
    if cells != [] {
      var n := |cells| - 1;
      assert cells[n] in cells;
      TotalSizeAtMost(cells[..n], b);
    }
  }

  /** Sorted keys are distinct, so at most the first one is empty. */
  lemma {:induction false} TotalSizeAtLeast(cells: seq<Cell>)
    requires Sorted(cells)
    ensures TotalSize(cells) >= 9 * |cells| - 1
  {
    if |cells| > 1 {
      var n := |cells| - 1;
      TotalSizeAtLeast(cells[..n]);
      var k: nat :| DiffersAt(cells[0].key, cells[n].key, k);
    }
  }

  /** No page that overflows with cells of at most b bytes is ever too big to halve. */
  ghost predicate HalvingIsSafe(b: nat) {
    forall page: View, c: Cell ::
      Sound(page) && Sorted(page.cells) && page.cells != [] && SizesAtMost(page.cells, b) && c.Size() <= b
      && !HasKey(page.cells, c.key) && !page.Takes(c)
      ==> HalvesFit(Upsert(page.cells, c))
  }

  /** left, right: what the halves cost, slots included; mid, rest: how many cells they hold. */
  lemma HalvesArithmetic(left: nat, right: nat, mid: nat, rest: nat)
    requires mid <= rest <= mid + 1 && left + right <= 4087 + 208
    requires left <= 208 * mid && right <= 208 * rest
    requires left >= 11 * mid - 1 && right >= 11 * rest - 1
    ensures left <= 4087 && right <= 4087
  {
  }

  /** The overflowing cells in order: one more of them, all small, sorted. */
  lemma Overflowing(cells: seq<Cell>, c: Cell, b: nat) returns (all: seq<Cell>)
    requires Sorted(cells) && !HasKey(cells, c.key) && SizesAtMost(cells, b) && c.Size() <= b
    ensures all == Upsert(cells, c) && |all| == |cells| + 1
    ensures Sorted(all) && SizesAtMost(all, b) && TotalSize(all) == TotalSize(cells) + c.Size()
  {
    all := Upsert(cells, c);
    UpsertSorted(cells, c);
    TotalSizeInsert(cells, c, LowerBound(cells, c.key));
  }

  lemma HalvesFitBelow(page: View, c: Cell, b: nat)
    requires Sound(page) && Sorted(page.cells) && SizesAtMost(page.cells, b) && c.Size() <= b
    requires !HasKey(page.cells, c.key) && b <= 206
    ensures HalvesFit(Upsert(page.cells, c))
  {
    var all := Overflowing(page.cells, c, 206);
    var left, right := all[..|all| / 2], all[|all| / 2..];
    assert all == left + right;
    HalvesFitOf(all, left, right);
  }

  lemma Parts(all: seq<Cell>, left: seq<Cell>, right: seq<Cell>, b: nat)
    requires all == left + right && Sorted(all) && SizesAtMost(all, b)
    ensures Sorted(left) && SizesAtMost(left, b) && Sorted(right) && SizesAtMost(right, b)
  {
    forall i, j | 0 <= i < j < |left|
      ensures Less(left[i].key, left[j].key)
    {
      assert left[i] == all[i] && left[j] == all[j];
    }
    forall i, j | 0 <= i < j < |right|
      ensures Less(right[i].key, right[j].key)
    {
      assert right[i] == all[|left| + i] && right[j] == all[|left| + j];
    }
  }

  lemma HalvesFitOf(all: seq<Cell>, left: seq<Cell>, right: seq<Cell>)
    requires Sorted(all) && SizesAtMost(all, 206) && all == left + right
    requires |left| <= |right| <= |left| + 1
    requires TotalSize(all) + 2 * (|all| - 1) <= 4087 + 206
    ensures CanPack(left) && CanPack(right)
  {
    Parts(all, left, right, 206);
    TotalSizeAppend(left, right);
    HalfBounds(left);
    HalfBounds(right);
    HalvesArithmetic(TotalSize(left) + 2 * |left|, TotalSize(right) + 2 * |right|, |left|, |right|);
  }

  lemma HalfBounds(half: seq<Cell>)
    requires Sorted(half) && SizesAtMost(half, 206)
    ensures 11 * |half| - 1 <= TotalSize(half) + 2 * |half| <= 208 * |half|
  {
    TotalSizeAtMost(half, 206);
    TotalSizeAtLeast(half);
  }

  // ----- A leaf that cannot be halved once a cell may take 207 bytes -----

  function Zeros(n: nat): (s: Bytes)
    ensures |s| == n
  {
    seq(n, _ => 0)
  }

  /** Nineteen cells as small as distinct keys allow, then nineteen large ones. */
  function CrampedCell(i: nat): Cell
    requires i < 38
  {
    if i == 0 then Cell(INVALID_PAGE, [], [])
    else if i < 19 then Cell(INVALID_PAGE, [i], [])
    else if i < 37 then Cell(INVALID_PAGE, [i], Zeros(193))
    else Cell(INVALID_PAGE, [i], Zeros(196))
  }

  function CrampedCells(n: nat): (cells: seq<Cell>)
    requires n <= 38
    ensures |cells| == n
    ensures forall i :: 0 <= i < n ==> cells[i] == CrampedCell(i)
  {
    seq(n, i requires 0 <= i < 38 => CrampedCell(i))
  }

  lemma {:induction false} CrampedSize(n: nat)
    requires n <= 38
    ensures TotalSize(CrampedCells(n)) ==
            (if n == 0 then 0 else if n <= 19 then 9 * n - 1
             else if n < 38 then 170 + 202 * (n - 19) else 4011)
  {
    if n > 0 {
      CrampedSize(n - 1);
      assert CrampedCells(n)[..n - 1] == CrampedCells(n - 1);
    }
  }

  lemma OneByteKeys(a: Bytes, b: Bytes)
    requires |a| <= 1 && |b| == 1 && (a == [] || a[0] < b[0])
    ensures Less(a, b)
  {
    assert DiffersAt(a, b, 0);
  }

  lemma CrampedSorted(c: Cell)
    requires c.key == [38]
    ensures Sorted(CrampedCells(38)) && !HasKey(CrampedCells(38), c.key)
    ensures Upsert(CrampedCells(38), c) == CrampedCells(38) + [c]
  {
    var cells := CrampedCells(38);
    forall i, j | 0 <= i < j < 38
      ensures Less(cells[i].key, cells[j].key)
    {
      OneByteKeys(cells[i].key, cells[j].key);
    }
    forall i | 0 <= i < 38
      ensures Less(cells[i].key, c.key)
    {
      OneByteKeys(cells[i].key, c.key);
    }
    NotThere(cells, c.key, 38);
  }

  lemma CrampedHalves(c: Cell)
    requires c.Size() == 207
    ensures !HalvesFit(CrampedCells(38) + [c])
  {
    var all := CrampedCells(38) + [c];
    var left, right := all[..19], all[19..];
    CrampedSize(38);
    CrampedSize(19);
    assert left == CrampedCells(19);
    assert [c][..0] == [];
    TotalSizeAppend(CrampedCells(38), [c]);
    TotalSizeAppend(left, right);
    assert all == left + right;
    assert TotalSize(right) == 4011 + 207 - 170;
  }

  lemma CrampedSizes()
    ensures SizesAtMost(CrampedCells(38), 207)
  {
    forall x | x in CrampedCells(38)
      ensures x.Size() <= 207
    {
      var i :| 0 <= i < 38 && CrampedCell(i) == x;
    }
  }

  /** A full leaf of cells of at most 207 bytes, and a 207-byte cell for it, whose right half
      is one byte too big. */
  lemma CrampedLeaf() returns (page: View, c: Cell)
    ensures Sound(page) && Sorted(page.cells) && page.cells != [] && SizesAtMost(page.cells, 207)
    ensures c.Size() == 207 && !HasKey(page.cells, c.key) && !page.Takes(c)
    ensures !HalvesFit(Upsert(page.cells, c))
  {
    page := View(LEAF, CrampedCells(38), INVALID_PAGE, 85);
    c := Cell(INVALID_PAGE, [38], Zeros(198));
    CrampedSize(38);
    CrampedSorted(c);
    CrampedHalves(c);
    CrampedSizes();
  }

  /** Halving by count is safe exactly for cells of at most 206 bytes. */
  lemma HalvingBound(b: nat)
    ensures HalvingIsSafe(b) <==> b <= 206
  {
    if b <= 206 {
      forall page: View, c: Cell |
        Sound(page) && Sorted(page.cells) && page.cells != [] && SizesAtMost(page.cells, b) && c.Size() <= b
        && !HasKey(page.cells, c.key) && !page.Takes(c)
        ensures HalvesFit(Upsert(page.cells, c))
      {
        HalvesFitBelow(page, c, b);
      }
    } else {
      var page, c := CrampedLeaf();
      assert SizesAtMost(page.cells, b) && c.Size() <= b;
    }
  }
}
