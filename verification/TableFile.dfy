/** Saving a columnar table as its live rows, and building one back from them. */
module TableFiles {
  import opened Values
  import opened Columns
  import opened Grids
  import opened ColumnarTables

  type Saved = seq<(nat, Row)>

  /** The live rows below m with their positions. */
  function LiveRows(names: seq<Col>, grid: Grid, n: nat, m: nat): Saved
    requires WfGrid(names, grid, n) && m <= n
  {
    if m == 0 then []
    else
      var row := RowOf(names, grid, n, m - 1);
      LiveRows(names, grid, n, m - 1) + (if row.Some? then [(m - 1, row.value)] else [])
  }

  /** The row saved for position i. */
  function Found(rows: Saved, i: int): Option<Row> {
    if rows == [] then None
    else if rows[|rows| - 1].0 == i then Some(rows[|rows| - 1].1)
    else Found(rows[..|rows| - 1], i)
  }

  predicate InOrder(rows: Saved) { forall i, j :: 0 <= i < j < |rows| ==> rows[i].0 < rows[j].0 }

  // the saved rows are exactly the live ones, in order
  lemma {:induction false} LiveRowsAre(names: seq<Col>, grid: Grid, n: nat, m: nat)
    requires WfGrid(names, grid, n) && m <= n
    ensures var rows := LiveRows(names, grid, n, m);
      InOrder(rows) && (forall k :: 0 <= k < |rows| ==> rows[k].0 < m)
      && forall i :: Found(rows, i) == if i < m then RowOf(names, grid, n, i) else None
  {
    if m > 0 {
      LiveRowsAre(names, grid, n, m - 1);
      var rows, all := LiveRows(names, grid, n, m - 1), LiveRows(names, grid, n, m);
      forall i
        ensures Found(all, i) == if i < m then RowOf(names, grid, n, i) else None
      {
        if all != rows {
          assert all[..|all| - 1] == rows;
        }
        if i < 0 {
          FoundNegative(all, i);
        }
      }
    } else {
      forall i
        ensures Found([], i) == None
      {
      }
    }
  }

  lemma {:induction false} FoundNegative(rows: Saved, i: int)
    requires i < 0
    ensures Found(rows, i) == None
  {
    if rows != [] {
      FoundNegative(rows[..|rows| - 1], i);
    }
  }

  /** A row a table can have given out: its cells, at least one not null, under the table's names. */
  predicate IsTableRow(names: seq<Col>, row: Row) { RowOrNone(names, Project(names, row)) == Some(row) }

  lemma RowsRoundTrip(names: seq<Col>, grid: Grid, n: nat, i: nat)
    requires WfGrid(names, grid, n) && i < n && LiveAt(names, grid, n, i)
    ensures IsTableRow(names, RowAt(names, grid, n, i))
  {
    var vals := seq(|names|, k requires 0 <= k < |names| => grid[k][i]);
    RowOfCells(names, grid, n, i, vals);
    ProjectRowFrom(names, vals);
  }

  /** [(idx, row) for idx, row in self] */
  method Save(t: ColumnarTable) returns (rows: Saved)
    requires t.Valid()
    modifies t.Objs()
    ensures t.Valid() && WfGrid(t.names, t.grid, t.rowCount)
    ensures rows == LiveRows(t.names, t.grid, t.rowCount, t.rowCount)
    ensures forall k :: 0 <= k < |rows| ==> IsTableRow(t.names, rows[k].1) && t.Fits(rows[k].1)
  {
    hide ColumnarTable.Valid, RowOf, IsTableRow, ColumnarTable.Fits;
    t.Shaped();
    rows := [];
    for i := 0 to t.rowCount
      modifies t.Objs()
      invariant t.Valid() && rows == LiveRows(t.names, t.grid, t.rowCount, i)
      invariant forall k :: 0 <= k < |rows| ==> IsTableRow(t.names, rows[k].1) && t.Fits(rows[k].1)
    {
      var row := t.GetRow(i);
      if row.Some? {
        SavedRowIs(t, i, row.value);
        rows := rows + [(i, row.value)];
      }
    }
  }

  lemma SavedRowIs(t: ColumnarTable, i: nat, row: Row)
    requires t.Valid() && i < t.rowCount && t.At(i) == Some(row)
    ensures IsTableRow(t.names, row) && t.Fits(row)
  {
    hide ColumnarTable.Holds, IsTableRow, Columns.Column.Takes;
    RowsRoundTrip(t.names, t.grid, t.rowCount, i);
    RowHas(t.names, t.grid, t.rowCount, i);
    forall k | 0 <= k < |t.cols|
      ensures t.cols[k].Takes(Get(row, t.names[k]))
    {
      t.CellsFit(k, t.grid[k]);
    }
  }

  /** Rows go back to their positions; the gaps become rows inserted empty and deleted. */
  method Load(t: ColumnarTable, rows: Saved)
    requires t.Valid() && t.rowCount == 0 && InOrder(rows)
    requires forall k :: 0 <= k < |rows| ==> IsTableRow(t.names, rows[k].1) && t.Fits(rows[k].1)
    modifies t, t.Objs()
    ensures t.Valid() && t.rowCount == (if rows == [] then 0 else rows[|rows| - 1].0 + 1)
    ensures WfGrid(t.names, t.grid, t.rowCount) && forall i :: t.At(i) == Found(rows, i)
  {
    hide ColumnarTable.Valid, RowOf, RowOrNone, WfGrid, ColumnarTable.Fits;
    t.Shaped();
    var expected := 0;
    EmptyTable(t);
    for k := 0 to |rows|
      invariant t.Valid() && t.rowCount == expected == (if k == 0 then 0 else rows[k - 1].0 + 1)
      invariant WfGrid(t.names, t.grid, t.rowCount) && forall i :: t.At(i) == Found(rows[..k], i)
    {
      var (idx, row) := rows[k];
      FillHoles(t, idx);
      t.Shaped();
      assert t.Fits(row) && IsTableRow(t.names, row);
      var at := t.Insert(row);
      t.Shaped();
      expected := idx + 1;
      FoundPush(rows, k);
    }
    assert rows[..|rows|] == rows;
  }

  lemma EmptyTable(t: ColumnarTable)
    requires WfGrid(t.names, t.grid, t.rowCount) && t.rowCount == 0
    ensures forall i, rows: Saved :: t.At(i) == Found(rows[..0], i)
  {
  }

  lemma FoundPush(rows: Saved, k: nat)
    requires k < |rows| && InOrder(rows)
    ensures forall i :: Found(rows[..k + 1], i) == if i == rows[k].0 then Some(rows[k].1) else Found(rows[..k], i)
  {
    var r := rows[..k + 1];
    assert r[|r| - 1] == rows[k] && r[..|r| - 1] == rows[..k];
    forall i
      ensures Found(r, i) == if i == rows[k].0 then Some(rows[k].1) else Found(rows[..k], i)
    {
    }
  }

  /** while expected < idx: insert an empty row and delete it */
  method FillHoles(t: ColumnarTable, idx: nat)
    requires t.Valid() && t.rowCount <= idx && WfGrid(t.names, t.grid, t.rowCount)
    modifies t, t.Objs()
    ensures t.Valid() && t.rowCount == idx && WfGrid(t.names, t.grid, t.rowCount)
    ensures forall i :: t.At(i) == old(t.At(i))
  {
    hide ColumnarTable.Valid, RowOf, RowOrNone, WfGrid, Columns.Column.Takes;
    OutOfRange(t);
    while t.rowCount < idx
      invariant t.Valid() && t.rowCount <= idx && WfGrid(t.names, t.grid, t.rowCount)
      invariant forall i :: t.At(i) == old(t.At(i))
    {
      EmptyFits(t);
      var hole := t.Insert(map[]);
      t.Shaped();
      var r := t.Delete(hole);
      t.Shaped();
    }
  }

  lemma OutOfRange(t: ColumnarTable)
    requires WfGrid(t.names, t.grid, t.rowCount)
    ensures forall i :: i >= t.rowCount ==> t.At(i) == None
  {
  }

  lemma EmptyFits(t: ColumnarTable)
    ensures t.Fits(map[])
  {
  }

  /** A table saved and loaded into fresh columns, whatever encodings those choose, reads the same at
      every position; only dead rows at the end are gone. */
  method SaveAndLoad(t: ColumnarTable, cols: seq<Column>) returns (t': ColumnarTable)
    requires t.Valid() && |cols| == |t.cols| && forall i, j :: 0 <= i < j < |cols| ==> cols[i].Obj() != cols[j].Obj()
    requires forall k :: 0 <= k < |cols| ==> cols[k].Valid() && cols[k].Cells() == []
    requires forall k, v :: 0 <= k < |cols| && t.cols[k].Takes(v) ==> cols[k].Takes(v)
    requires forall i, j :: 0 <= i < |cols| && 0 <= j < |cols| ==> cols[i].Obj() != t.cols[j].Obj()
    modifies t.Objs(), set k | 0 <= k < |cols| :: cols[k].Obj()
    ensures fresh(t') && t'.Valid() && t'.names == t.names && t'.cols == cols
    ensures WfGrid(t.names, t.grid, t.rowCount) && WfGrid(t'.names, t'.grid, t'.rowCount)
    ensures forall i :: t'.At(i) == t.At(i)
    ensures t'.rowCount <= t.rowCount && (t'.rowCount > 0 ==> t'.At(t'.rowCount - 1).Some?)
  {
    hide ColumnarTable.Valid, RowOf, IsTableRow, WfGrid, Columns.Column.Takes, Columns.Column.Valid;
    hide Columns.Column.Cells;
    t.Shaped();
    ShapeOf(t);
    t' := new ColumnarTable(t.names, cols);
    var rows := Save(t);
    LiveRowsAre(t.names, t.grid, t.rowCount, t.rowCount);
    Load(t', rows);
    forall i
      ensures t'.At(i) == t.At(i)
    {
      OutOfRange(t);
    }
    if rows != [] {
      assert Found(rows, rows[|rows| - 1].0) == Some(rows[|rows| - 1].1);
    }
  }

  lemma ShapeOf(t: ColumnarTable)
    requires t.Valid()
    ensures NamesApart(t.names) && |t.cols| == |t.names| > 0
  {
  }
}
