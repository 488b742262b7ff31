/** TableEngine.Scan over the tree itself (table.go:168-209). */
module Scans {
  import opened Bytes
  import opened Wrappers
  import opened Pages
  import opened PageOps
  import opened Trees
  import opened TreeRun
  import opened BTrees
  import C = Cursors
  import T = TreeCursor
  import R = Rows
  import I = TableIndex

  datatype ScanResult = ScanResult(id: int64, row: seq<R.Value>)

  /** The cells hold encoded rows under row keys. */
  ghost predicate RowCells(cells: seq<Cell>, rows: seq<ScanResult>) {
    |cells| == |rows| && forall i :: 0 <= i < |cells| ==> RowCell(cells[i], rows[i])
  }

  ghost predicate RowCell(c: Cell, r: ScanResult) {
    c.key == I.RowKey(r.id) && c.value == R.Encoded(r.row) && R.Fits(r.row)
  }

  /** Ids increase as unsigned numbers: a negative id comes after every other. */
  ghost predicate Increasing(rows: seq<ScanResult>) {
    forall i, j :: 0 <= i < j < |rows| ==> ToUint64(rows[i].id) < ToUint64(rows[j].id)
  }

  /** Sorted row keys mean increasing ids. */
  lemma SortedIds(cells: seq<Cell>, rows: seq<ScanResult>)
    requires Sorted(cells) && RowCells(cells, rows)
    ensures Increasing(rows)
  {
    forall i, j | 0 <= i < j < |rows|
      ensures ToUint64(rows[i].id) < ToUint64(rows[j].id)
    {
      assert RowCell(cells[i], rows[i]) && RowCell(cells[j], rows[j]);
      I.RowKeyOrder(rows[i].id, rows[j].id);
    }
  }

  /** Scan: it returns, decoded, exactly the rows that a walk over the tree shows; without empty
      leaves those are the rows stored in it, with their ids in increasing unsigned order. */
  method Scan(bt: BTree, ghost t: Tree, ghost rows: seq<ScanResult>) returns (r: Result<seq<ScanResult>>)
    requires bt.rootPage != INVALID_PAGE && bt.Holds(t) && T.ShowsAlways(t)
    requires RowCells(C.WalkCells(t), rows)
    ensures r == Ok(rows)
    ensures NoEmptyLeaf(t) || Flatten(t) == [] ==> RowCells(Flatten(t), rows) && Increasing(rows)
  {
    WalkOrder(t, rows);
    var cells := C.CollectCells(bt, t);
    r := DecodeCells(cells, rows);
  }

  lemma WalkOrder(t: Tree, rows: seq<ScanResult>)
    requires Shape(t) && Links(t) && Ordered(t, None, None) && T.ShowsAlways(t) && RowCells(C.WalkCells(t), rows)
    ensures NoEmptyLeaf(t) || Flatten(t) == [] ==> RowCells(Flatten(t), rows) && Increasing(rows)
  {
    C.WalkExact(t);
    if NoEmptyLeaf(t) || Flatten(t) == [] {
      OrderedFlatten(t, None, None);
      SortedIds(Flatten(t), rows);
    }
  }

  method DecodeCells(cells: seq<Cell>, ghost rows: seq<ScanResult>) returns (r: Result<seq<ScanResult>>)
    requires RowCells(cells, rows)
    ensures r == Ok(rows)
  {
    var results: seq<ScanResult> := [];
    for i := 0 to |cells|
      invariant results == rows[..i]
    {
      assert RowCell(cells[i], rows[i]);
      RowCellDecodes(cells[i], rows[i]);
      var row := R.DecodeRow(cells[i].value);
      if row.Err? {
        return Err(Truncated);
      }
      results := results + [ScanResult(I.RowId(cells[i].key), row.value)];
    }
    assert rows[..|rows|] == rows;
    r := Ok(results);
  }

  lemma RowCellDecodes(c: Cell, r: ScanResult)
    requires RowCell(c, r)
    ensures R.Decoded(c.value) == Ok(r.row) && |c.key| == 8 && I.RowId(c.key) == r.id
  {
    I.RowKeyRoundTrip(r.id);
    R.RowRoundTrip(r.row, []);
    assert c.value + [] == c.value;
  }
}
