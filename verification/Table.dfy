/** The columnar table: rows across encoded columns. */
module ColumnarTables {
  import opened Bits
  import opened Values
  import opened Columns
  import opened Grids

  datatype TableResult = Ok | IndexError | KeyError

  class ColumnarTable {
    const names: seq<Col>
    const cols: seq<Column>
    var rowCount: nat

    /** The cells of every column. */
    ghost var grid: Grid

    ghost function Objs(): set<object> { set k | 0 <= k < |cols| :: cols[k].Obj() }

    /** Column k is sound and holds the given cells. */
    ghost predicate Holds(k: nat, cells: seq<Value>)
      requires k < |cols|
      reads cols[k].Obj()
    {
      var ok := cols[k].Valid() && cols[k].Cells() == cells;
      ok
    }

    /** Names and column objects are all different. */
    ghost predicate Shape() {
      && NamesApart(names) && |cols| == |names| > 0
      && forall i, j :: 0 <= i < j < |cols| ==> cols[i].Obj() != cols[j].Obj()
    }

    ghost predicate Valid()
      reads this, Objs()
    {
      Shape() && WfGrid(names, grid, rowCount) && forall k :: 0 <= k < |cols| ==> Holds(k, grid[k])
    }

    predicate Fits(row: Row) {
      forall k :: 0 <= k < |cols| && k < |names| ==> cols[k].Takes(Get(row, names[k]))
    }

    /** What get(i) answers. */
    ghost function At(i: int): Option<Row>
      requires WfGrid(names, grid, rowCount)
      reads this
    {
      RowOf(names, grid, rowCount, i)
    }

    constructor (names: seq<Col>, cols: seq<Column>)
      requires NamesApart(names) && |cols| == |names| > 0
      requires forall i, j :: 0 <= i < j < |cols| ==> cols[i].Obj() != cols[j].Obj()
      requires forall k :: 0 <= k < |cols| ==> cols[k].Valid() && cols[k].Cells() == []
      ensures Valid() && this.names == names && this.cols == cols && rowCount == 0
    {
      this.names, this.cols, rowCount := names, cols, 0;
      grid := seq(|cols|, _ => []);
    }

    // ---- one cell at a time -------------------------------------------------------

    method AppendCell(k: nat, v: Value, ghost cells: seq<Value>)
      requires k < |cols| && Holds(k, cells) && cols[k].Takes(v)
      modifies cols[k].Obj()
      ensures Holds(k, cells + [v])
    {
      cols[k].Append(v);
    }

    method SetCell(k: nat, i: nat, v: Value, ghost cells: seq<Value>)
      requires k < |cols| && Holds(k, cells) && cols[k].Takes(v) && i < |cells|
      modifies cols[k].Obj()
      ensures Holds(k, cells[i := v])
    {
      cols[k].SetItem(i, v);
    }

    method GetCell(k: nat, i: nat, ghost cells: seq<Value>) returns (v: Value)
      requires k < |cols| && Holds(k, cells) && i < |cells|
      modifies cols[k].Obj()
      ensures Holds(k, cells) && v == cells[i]
    {
      v := cols[k].GetItem(i);
    }

    predicate NullAt(k: nat, i: nat, ghost cells: seq<Value>)
      requires k < |cols| && Holds(k, cells) && i < |cells|
      reads cols[k].Obj()
      ensures NullAt(k, i, cells) == (cells[i] == Null)
    {
      cols[k].Nulls()[i]
    }

    method CellList(k: nat, ghost cells: seq<Value>) returns (vs: seq<Value>)
      requires k < |cols| && Holds(k, cells)
      modifies cols[k].Obj()
      ensures Holds(k, cells) && vs == cells
    {
      vs := cols[k].ToList();
    }

    // ---- inserting -----------------------------------------------------------------

    method Insert(row: Row) returns (idx: nat)
      requires Valid() && Fits(row)
      modifies this, Objs()
      ensures Valid() && idx == old(rowCount) && rowCount == idx + 1
      ensures grid == Appended(old(grid), Project(names, row))
      ensures forall i :: i != idx ==> At(i) == old(At(i))
      ensures At(idx) == RowOrNone(names, Project(names, row))
      ensures forall k :: 0 <= k < |names| ==>
        grid[k] == old(grid)[k] + [if names[k] in row then row[names[k]] else Null]
    {
      hide Holds, RowOf, RowOrNone, Columns.Column.Takes;
      ghost var was := grid;
      for k := 0 to |cols|
        modifies Objs()
        invariant forall j :: 0 <= j < |cols| ==> Holds(j, if j < k then was[j] + [Get(row, names[j])] else was[j])
      {
        AppendCell(k, Get(row, names[k]), was[k]);
      }
      idx := rowCount;
      rowCount := rowCount + 1;
      grid := Appended(grid, Project(names, row));
      AfterAppend(names, was, idx, Project(names, row));
      RowsAround(was, idx);
    }

    /** Rows outside both tables' ranges read as nothing in both. */
    lemma RowsAround(was: Grid, n: nat)
      requires WfGrid(names, was, n) && WfGrid(names, grid, rowCount) && n <= rowCount
      ensures forall i :: i < 0 || i >= rowCount ==> RowOf(names, was, n, i) == RowOf(names, grid, rowCount, i) == None
    {
    }

    method BatchInsert(rows: seq<Row>) returns (start: nat)
      requires Valid() && forall i :: 0 <= i < |rows| ==> Fits(rows[i])
      modifies this, Objs()
      ensures Valid() && start == old(rowCount) && rowCount == start + |rows|
      ensures forall i :: i < start || i >= rowCount ==> At(i) == old(At(i))
      ensures forall i :: 0 <= i < |rows| ==> At(start + i) == RowOrNone(names, Project(names, rows[i]))
      ensures forall k :: 0 <= k < |names| ==>
        && |grid[k]| == start + |rows| && grid[k][..start] == old(grid)[k]
        && forall i :: 0 <= i < |rows| ==>
             grid[k][start + i] == if names[k] in rows[i] then rows[i][names[k]] else Null
    {
      hide Valid, RowOf, RowOrNone, Project;
      Shaped();
      start := rowCount;
      for r := 0 to |rows|
        invariant Valid() && rowCount == start + r && WfGrid(names, grid, rowCount)
        invariant forall i :: i < start || i >= rowCount ==> At(i) == old(At(i))
        invariant forall i :: 0 <= i < r ==> At(start + i) == RowOrNone(names, Project(names, rows[i]))
        invariant |grid| == |names| == |old(grid)|
        invariant forall k :: 0 <= k < |names| ==>
          && |grid[k]| == start + r && grid[k][..start] == old(grid)[k]
          && forall i :: 0 <= i < r ==>
               grid[k][start + i] == if names[k] in rows[i] then rows[i][names[k]] else Null
      {
        var idx := Insert(rows[r]);
        Shaped();
      }
    }

    lemma Shaped()
      requires Valid()
      ensures WfGrid(names, grid, rowCount) && |cols| == |names|
    {
    }

    // ---- reading -------------------------------------------------------------------

    /** get(): nothing for a row out of range or with every column null. */
    method GetRow(idx: int) returns (r: Option<Row>)
      requires Valid()
      modifies Objs()
      ensures Valid() && r == At(idx)
      ensures r.Some? <==> 0 <= idx < rowCount && exists k :: 0 <= k < |names| && grid[k][idx] != Null
      ensures r.Some? ==>
        && (forall c :: c in r.value <==> c in names)
        && forall k :: 0 <= k < |names| ==> names[k] in r.value && r.value[names[k]] == grid[k][idx]
    {
      hide Holds, RowUpTo;
      if idx < 0 || idx >= rowCount {
        return None;
      }
      var allNull := AllNull(idx);
      if allNull {
        return None;
      }
      var row := ReadRow(idx);
      RowHas(names, grid, rowCount, idx);
      r := Some(row);
    }

    method AllNull(i: nat) returns (b: bool)
      requires Valid() && i < rowCount
      ensures Valid() && b == !LiveAt(names, grid, rowCount, i)
    {
      hide Holds;
      b := NullAt(0, i, grid[0]);
      if b {
        for k := 0 to |cols|
          invariant forall j :: 0 <= j < k ==> grid[j][i] == Null
        {
          if !NullAt(k, i, grid[k]) {
            return false;
          }
        }
      }
    }

    method ReadRow(i: nat) returns (row: Row)
      requires Valid() && i < rowCount
      modifies Objs()
      ensures Valid() && row == RowAt(names, grid, rowCount, i)
    {
      hide Holds;
      row := map[];
      for k := 0 to |cols|
        modifies Objs()
        invariant forall j :: 0 <= j < |cols| ==> Holds(j, grid[j])
        invariant row == RowUpTo(names, grid, rowCount, i, k)
      {
        var v := GetCell(k, i, grid[k]);
        row := row[names[k] := v];
      }
    }

    // ---- updating and deleting --------------------------------------------------------

    /** update(): the named columns change, the others keep their values. */
    method Update(idx: int, row: Row) returns (r: TableResult)
      requires Valid() && Fits(row)
      modifies this, Objs()
      ensures Valid() && rowCount == old(rowCount)
      ensures r.IndexError? <==> !(0 <= idx < rowCount)
      ensures r.KeyError? <==> 0 <= idx < rowCount && old(At(idx)).None?
      ensures r.Ok? ==> At(idx) == RowOrNone(names, Project(names, old(At(idx)).value + row))
      ensures forall i :: i != idx || !r.Ok? ==> At(i) == old(At(i))
      ensures r.Ok? <==> 0 <= idx < rowCount && exists k :: 0 <= k < |names| && old(grid)[k][idx] != Null
      ensures if r.Ok? then forall k :: 0 <= k < |names| ==>
          grid[k] == old(grid)[k][idx := if names[k] in row then row[names[k]] else old(grid)[k][idx]]
        else grid == old(grid)
    {
      hide Valid, RowOrNone, RowOf, RowAt, LiveAt, Columns.Column.Takes, Project, Replaced, Fits;
      Shaped();
      if idx < 0 || idx >= rowCount {
        return IndexError;
      }
      var current := GetRow(idx);
      if current.None? {
        return KeyError;
      }
      ghost var was := grid;
      RowRead(idx);
      MergedFits(idx, row);
      SetRow(idx, Project(names, current.value + row));
      CellsUpdated(was, rowCount, idx, current.value, row);
      Shaped();
      r := Ok;
    }

    lemma RowRead(i: nat)
      requires WfGrid(names, grid, rowCount) && i < rowCount && At(i).Some?
      ensures At(i).value == RowAt(names, grid, rowCount, i)
    {
      hide RowAt, LiveAt;
    }

    // the cells of a row merged with the one given
    lemma CellsUpdated(was: Grid, n: nat, i: nat, current: Row, row: Row)
      requires WfGrid(names, was, n) && i < n
      requires forall k :: 0 <= k < |names| ==> names[k] in current && current[names[k]] == was[k][i]
      ensures var now := Replaced(was, i, Project(names, current + row));
        |now| == |names| && forall k :: 0 <= k < |names| ==>
          now[k] == was[k][i := if names[k] in row then row[names[k]] else was[k][i]]
    {
    }

    /** Every cell of a sound column is of its type. */
    lemma CellsFit(k: nat, cells: seq<Value>)
      requires k < |cols| && Holds(k, cells)
      ensures forall i :: 0 <= i < |cells| ==> cols[k].Takes(cells[i])
    {
      if cols[k].IntCol? {
        var c := cols[k].ints;
        assert c.Stored();
      }
    }

    lemma MergedFits(i: nat, row: Row)
      requires Valid() && Fits(row) && i < rowCount
      ensures forall k :: 0 <= k < |cols| ==> cols[k].Takes(Project(names, RowAt(names, grid, rowCount, i) + row)[k])
    {
      hide Columns.Column.Takes, Holds;
      RowHas(names, grid, rowCount, i);
      forall k | 0 <= k < |cols|
        ensures cols[k].Takes(Project(names, RowAt(names, grid, rowCount, i) + row)[k])
      {
        CellsFit(k, grid[k]);
        assert Get(RowAt(names, grid, rowCount, i) + row, names[k]) ==
          if names[k] in row then row[names[k]] else grid[k][i];
        assert cols[k].Takes(Get(row, names[k]));
      }
    }

    method SetRow(idx: nat, vals: seq<Value>)
      requires Valid() && idx < rowCount && |vals| == |cols| && forall k :: 0 <= k < |cols| ==> cols[k].Takes(vals[k])
      modifies `grid, Objs()
      ensures Valid() && grid == Replaced(old(grid), idx, vals)
      ensures forall i :: i != idx ==> At(i) == old(At(i))
      ensures At(idx) == RowOrNone(names, vals)
    {
      hide Holds, RowOf, RowOrNone, Columns.Column.Takes;
      ghost var was := grid;
      for k := 0 to |cols|
        modifies Objs()
        invariant forall j :: 0 <= j < |cols| ==> Holds(j, if j < k then was[j][idx := vals[j]] else was[j])
      {
        SetCell(k, idx, vals[k], was[k]);
      }
      grid := Replaced(grid, idx, vals);
      AfterReplace(names, was, rowCount, idx, vals);
      RowsAround(was, rowCount);
    }

    /** delete(): every column of the row becomes null. */
    method Delete(idx: int) returns (r: TableResult)
      requires Valid()
      modifies this, Objs()
      ensures Valid() && rowCount == old(rowCount)
      ensures r == if 0 <= idx < rowCount then Ok else IndexError
      ensures forall i :: At(i) == if i == idx then None else old(At(i))
      ensures if r.Ok? then forall k :: 0 <= k < |names| ==> grid[k] == old(grid)[k][idx := Null] else grid == old(grid)
    {
      hide Holds, RowUpTo;
      if idx < 0 || idx >= rowCount {
        return IndexError;
      }
      SetRow(idx, seq(|cols|, _ => Null));
      r := Ok;
    }
  }
}
