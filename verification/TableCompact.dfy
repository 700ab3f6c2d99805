/** compact() of a columnar table: the dead rows of every column dropped, whatever its type and encoding. */
module TableCompaction {
  import opened Bits
  import opened Values
  import opened Masks
  import opened IntColumns
  import opened BytesColumns
  import opened BoolColumns
  import opened IntRebuilds
  import opened Columns
  import opened Grids
  import opened ColumnarTables
  import opened TableQueries

  // ---- one column -------------------------------------------------------------------

  /** Every row has a stored value. */
  ghost predicate Readable(col: Column)
    reads col.Obj()
  {
    match col
    case IntCol(c) => |c.nullmask| <= |c.Values()|
    case _ => col.Valid()
  }

  /** What reading the column row by row gives. */
  ghost function ShownCells(col: Column): seq<Value>
    reads col.Obj()
    requires Readable(col)
  {
    match col
    case IntCol(c) => FromInts(Shown(c))
    case _ => col.Cells()
  }

  /** What keeps the live cells of a column: none is null, and an encoded integer column holds one value only. */
  ghost predicate Survives(col: Column, live: seq<bool>)
    reads col.Obj()
  {
    && NoLiveNull(live, col.Nulls())
    && match col
       case IntCol(c) =>
         |live| <= |c.Values()| && Uniform(c.deltaMode, c.deltaBase, c.forMode, Pick(c.Values(), Alive(live)))
       case _ => true
  }

  /** After its rebuild a column stores one value per row again, unless it is delta encoded, or packed with
      no row left. */
  ghost predicate Even(col: Column, live: seq<bool>)
    reads col.Obj()
  {
    match col
    case IntCol(c) => !c.deltaMode && (c.forMode ==> Alive(live) != [])
    case _ => true
  }

  method RebuildColumn(col: Column, live: seq<bool>) returns (ok: bool)
    requires col.Valid() && |live| == |col.Nulls()|
    modifies col.Obj()
    ensures !ok ==> col.Valid() && col.Cells() == old(col.Cells()) && !old(Survives(col, live))
    ensures ok ==> Readable(col) && |ShownCells(col)| == |Alive(live)|
    ensures ok ==> (ShownCells(col) == Pick(old(col.Cells()), Alive(live)) <==> old(Survives(col, live)))
    ensures ok && old(Even(col, live)) ==> col.Valid() && col.Cells() == ShownCells(col)
  {
    hide Uniform, NoLiveNull, Pick, Alive, Clear, IntColumn.Values;
    match col {
      case IntCol(c) =>
        ghost var was := c.Contents();
        ColumnParts(c);
        ok := IntRebuilds.RebuildAlive(c, live);
        if ok {
          IntsPicked(Shown(c), was, Alive(live));
          if c.Valid() {
            ShownIsContents(c);
          }
        }
      case BytesCol(c) =>
        ghost var was := c.Contents();
        ok := c.RebuildAlive(live);
        BlobsPicked(c.Contents(), was, Alive(live));
      case BoolCol(c) =>
        ghost var was := c.Contents();
        c.RebuildAlive(live);
        BoolsPicked(c.Contents(), was, Alive(live));
        ok := true;
    }
  }

  lemma IntsPicked(a: seq<Option<int>>, b: seq<Option<int>>, rows: seq<nat>)
    requires forall j :: 0 <= j < |rows| ==> rows[j] < |b|
    ensures FromInts(a) == Pick(FromInts(b), rows) <==> a == Pick(b, rows)
  {
    if FromInts(a) == Pick(FromInts(b), rows) {
      forall j | 0 <= j < |a|
        ensures a[j] == b[rows[j]]
      {
        assert FromInts(a)[j] == FromInts(b)[rows[j]];
      }
    }
  }

  lemma BlobsPicked(a: seq<Option<Blob>>, b: seq<Option<Blob>>, rows: seq<nat>)
    requires forall j :: 0 <= j < |rows| ==> rows[j] < |b|
    ensures FromBlobs(a) == Pick(FromBlobs(b), rows) <==> a == Pick(b, rows)
  {
    if FromBlobs(a) == Pick(FromBlobs(b), rows) {
      forall j | 0 <= j < |a|
        ensures a[j] == b[rows[j]]
      {
        assert FromBlobs(a)[j] == FromBlobs(b)[rows[j]];
      }
    }
  }

  lemma BoolsPicked(a: seq<Option<bool>>, b: seq<Option<bool>>, rows: seq<nat>)
    requires forall j :: 0 <= j < |rows| ==> rows[j] < |b|
    ensures FromBools(a) == Pick(FromBools(b), rows) <==> a == Pick(b, rows)
  {
    if FromBools(a) == Pick(FromBools(b), rows) {
      forall j | 0 <= j < |a|
        ensures a[j] == b[rows[j]]
      {
        assert FromBools(a)[j] == FromBools(b)[rows[j]];
      }
    }
  }

  // ---- rows and columns ---------------------------------------------------------------

  /** The live flag of every row. */
  ghost function Flags(names: seq<Col>, grid: Grid, n: nat): (r: seq<bool>)
    requires WfGrid(names, grid, n)
    ensures |r| == n && forall i :: 0 <= i < n ==> (r[i] <==> LiveAt(names, grid, n, i))
  {
    seq(n, i requires 0 <= i < n => LiveAt(names, grid, n, i))
  }

  // A table of picked columns has the picked rows, and only such a table, as long as they are live.
  lemma PickedRows(names: seq<Col>, grid: Grid, n: nat, grid': Grid, rows: seq<nat>)
    requires WfGrid(names, grid, n) && WfGrid(names, grid', |rows|)
    requires forall j :: 0 <= j < |rows| ==> rows[j] < n && LiveAt(names, grid, n, rows[j])
    ensures (forall j :: 0 <= j < |rows| ==> RowOf(names, grid', |rows|, j) == RowOf(names, grid, n, rows[j])) <==>
      forall k :: 0 <= k < |names| ==> grid'[k] == Pick(grid[k], rows)
  {
    hide LiveAt, RowUpTo;
    if forall j :: 0 <= j < |rows| ==> RowOf(names, grid', |rows|, j) == RowOf(names, grid, n, rows[j]) {
      forall k, j | 0 <= k < |names| && 0 <= j < |rows|
        ensures grid'[k][j] == grid[k][rows[j]]
      {
        assert RowOf(names, grid', |rows|, j) == RowOf(names, grid, n, rows[j]);
        RowHas(names, grid', |rows|, j);
        RowHas(names, grid, n, rows[j]);
      }
    }
    if forall k :: 0 <= k < |names| ==> grid'[k] == Pick(grid[k], rows) {
      forall j | 0 <= j < |rows|
        ensures RowOf(names, grid', |rows|, j) == RowOf(names, grid, n, rows[j])
      {
        assert forall k :: 0 <= k < |names| ==> grid'[k][j] == Pick(grid[k], rows)[j];
        SameRow(names, grid', |rows|, j, grid, n, rows[j]);
      }
    }
  }

  lemma {:induction false} AliveAtMost(live: seq<bool>)
    ensures |Alive(live)| <= |live|
  {
    if live != [] {
      AliveAtMost(live[..|live| - 1]);
    }
  }

  // ---- the table ----------------------------------------------------------------------

  /** A column yet to be rebuilt, with what its rebuild will depend on. */
  ghost predicate Waiting(col: Column, cells: seq<Value>, live: seq<bool>, survives: bool, even: bool)
    reads col.Obj()
  {
    var ok := col.Valid() && col.Cells() == cells && Survives(col, live) == survives && Even(col, live) == even;
    ok
  }

  /** A rebuilt column: it can be read, and shows the live cells exactly when they survive the rebuild. */
  ghost predicate Dropped(col: Column, cells: seq<Value>, live: seq<bool>, survives: bool, even: bool)
    requires |live| == |cells|
    reads col.Obj()
  {
    var ok :=
      && Readable(col) && |ShownCells(col)| == |Alive(live)|
      && (ShownCells(col) == Pick(cells, Alive(live)) <==> survives)
      && (even ==> col.Valid() && col.Cells() == ShownCells(col));
    ok
  }

  method RebuildNth(t: ColumnarTable, k: nat, live: seq<bool>, ghost cells: seq<Value>, ghost survives: bool,
                    ghost even: bool)
    returns (ok: bool)
    requires k < |t.cols| && |live| == |cells| && Waiting(t.cols[k], cells, live, survives, even)
    modifies t.cols[k].Obj()
    ensures if ok then Dropped(t.cols[k], cells, live, survives, even) else !survives
  {
    hide Survives, Even, Readable, ShownCells, Columns.Column.Valid, Columns.Column.Cells, Columns.Column.Nulls, Pick;
    hide Alive;
    ok := RebuildColumn(t.cols[k], live);
  }

  method RebuildAll(t: ColumnarTable, live: seq<bool>, ghost was: Grid, ghost survives: seq<bool>,
                    ghost even: seq<bool>)
    returns (ok: bool)
    requires t.Shape() && |was| == |t.cols| == |survives| == |even| && forall k :: 0 <= k < |was| ==> |was[k]| == |live|
    requires forall k :: 0 <= k < |t.cols| ==> Waiting(t.cols[k], was[k], live, survives[k], even[k])
    modifies t.Objs()
    ensures t.rowCount == old(t.rowCount) && t.grid == old(t.grid)
    ensures !ok ==> exists k :: 0 <= k < |survives| && !survives[k]
    ensures ok ==> forall k :: 0 <= k < |t.cols| ==> Dropped(t.cols[k], was[k], live, survives[k], even[k])
  {
    hide Waiting, Dropped;
    for k := 0 to |t.cols|
      invariant forall j :: k <= j < |t.cols| ==> Waiting(t.cols[j], was[j], live, survives[j], even[j])
      invariant forall j :: 0 <= j < k ==> Dropped(t.cols[j], was[j], live, survives[j], even[j])
    {
      ok := RebuildNth(t, k, live, was[k], survives[k], even[k]);
      if !ok {
        return;
      }
    }
    ok := true;
  }

  /** The live flag of every row of the table. */
  ghost function LiveFlags(t: ColumnarTable): (r: seq<bool>)
    reads t
    requires WfGrid(t.names, t.grid, t.rowCount)
    ensures |r| == t.rowCount
  {
    Flags(t.names, t.grid, t.rowCount)
  }

  ghost predicate AllSurvive(t: ColumnarTable)
    reads t, t.Objs()
    requires t.Valid()
  {
    forall k :: 0 <= k < |t.cols| ==> Survives(t.cols[k], LiveFlags(t))
  }

  ghost predicate AllEven(t: ColumnarTable)
    reads t, t.Objs()
    requires t.Valid()
  {
    forall k :: 0 <= k < |t.cols| ==> Even(t.cols[k], LiveFlags(t))
  }

  /** The table reads as the given rows of a former one, in order, renumbered from zero. */
  ghost predicate ReadsAs(t: ColumnarTable, was: Grid, n: nat, rows: seq<nat>)
    reads t
    requires WfGrid(t.names, was, n)
  {
    && t.rowCount == |rows| && WfGrid(t.names, t.grid, t.rowCount)
    && forall i :: 0 <= i < |rows| ==> RowOf(t.names, t.grid, |rows|, i) == RowOf(t.names, was, n, rows[i])
  }

  /** Cell by cell the table's columns show its grid. */
  ghost predicate ShowsGrid(t: ColumnarTable)
    reads t, t.Objs()
  {
    && WfGrid(t.names, t.grid, t.rowCount) && |t.cols| == |t.grid|
    && forall k :: 0 <= k < |t.cols| ==> Readable(t.cols[k]) && ShownCells(t.cols[k]) == t.grid[k]
  }

  /** Rebuilds every column and lowers the row count; false when a rebuild raises. */
  method DropRows(t: ColumnarTable, live: seq<bool>) returns (ok: bool)
    requires t.Valid() && WfGrid(t.names, t.grid, t.rowCount) && live == LiveFlags(t)
    modifies t, t.Objs()
    ensures ok ==> ShowsGrid(t) && t.rowCount == |Alive(live)|
    ensures ok ==> (ReadsAs(t, old(t.grid), old(t.rowCount), Alive(live)) <==> old(AllSurvive(t)))
    ensures ok && old(AllEven(t)) ==> t.Valid()
    ensures !ok ==> t.rowCount == old(t.rowCount) && !old(AllSurvive(t))
  {
    hide *;
    ghost var was, survives, even := t.grid, Survival(t, live), Evenness(t, live);
    AllWaiting(t, live, survives, even);
    ok := RebuildAll(t, live, was, survives, even);
    if ok {
      SetRows(t, live, was, survives, even);
    }
  }

  /** compact(): without dead rows nothing happens. Else every column is rebuilt, and the table reads as its live rows
      exactly when every column survives; nothing is returned when a rebuild raises midway. */
  method Compact(t: ColumnarTable) returns (removed: Option<nat>)
    requires t.Valid()
    modifies t, t.Objs()
    ensures removed.Some? ==> removed.value == old(t.rowCount) - |Alive(old(LiveFlags(t)))|
    ensures |Alive(old(LiveFlags(t)))| == old(t.rowCount) ==> removed == Some(0)
    ensures removed == Some(0) ==> t.Valid() && t.rowCount == old(t.rowCount) && t.grid == old(t.grid)
    ensures removed != Some(0) ==>
      ((removed.Some? && ReadsAs(t, old(t.grid), old(t.rowCount), Alive(old(LiveFlags(t))))) <==> old(AllSurvive(t)))
    ensures removed.Some? && removed.value > 0 ==> ShowsGrid(t) && t.rowCount == |Alive(old(LiveFlags(t)))|
    ensures removed.Some? && old(AllEven(t)) ==> t.Valid()
    ensures removed.None? ==> t.rowCount == old(t.rowCount)
  {
    hide *;
    t.Shaped();
    var live := FlagsOf(t);
    AliveAtMost(live);
    removed := Some(t.rowCount - |Alive(live)|);
    if removed != Some(0) {
      var ok := DropRows(t, live);
      if !ok {
        removed := None;
      }
    }
  }

  method FlagsOf(t: ColumnarTable) returns (live: seq<bool>)
    requires t.Valid()
    ensures t.Valid() && WfGrid(t.names, t.grid, t.rowCount) && live == LiveFlags(t)
    ensures AllSurvive(t) == old(AllSurvive(t)) && AllEven(t) == old(AllEven(t))
  {
    hide ColumnarTable.Valid, LiveAt, Survives, Even, Flags;
    t.Shaped();
    var mask := LiveMask(t);
    live := seq(t.rowCount, i requires 0 <= i < |mask| => mask[i] == 1);
    assert live == Flags(t.names, t.grid, t.rowCount);
    forall k | 0 <= k < |t.cols|
      ensures Survives(t.cols[k], live) == old(Survives(t.cols[k], live))
      ensures Even(t.cols[k], live) == old(Even(t.cols[k], live))
    {
      match t.cols[k]
      case IntCol(c) => assert c == t.cols[k].Obj();
      case BytesCol(c) => assert c == t.cols[k].Obj();
      case BoolCol(c) => assert c == t.cols[k].Obj();
    }
  }

  ghost function Survival(t: ColumnarTable, live: seq<bool>): (r: seq<bool>)
    reads t, t.Objs()
    ensures |r| == |t.cols| && forall k :: 0 <= k < |r| ==> r[k] == Survives(t.cols[k], live)
  {
    seq(|t.cols|, k requires 0 <= k < |t.cols| reads t.Objs() => Survives(t.cols[k], live))
  }

  ghost function Evenness(t: ColumnarTable, live: seq<bool>): (r: seq<bool>)
    reads t, t.Objs()
    ensures |r| == |t.cols| && forall k :: 0 <= k < |r| ==> r[k] == Even(t.cols[k], live)
  {
    seq(|t.cols|, k requires 0 <= k < |t.cols| reads t.Objs() => Even(t.cols[k], live))
  }

  lemma AllWaiting(t: ColumnarTable, live: seq<bool>, survives: seq<bool>, even: seq<bool>)
    requires t.Valid() && live == LiveFlags(t) && |survives| == |even| == |t.cols|
    requires forall k :: 0 <= k < |t.cols| ==>
      survives[k] == Survives(t.cols[k], live) && even[k] == Even(t.cols[k], live)
    ensures t.Shape() && WfGrid(t.names, t.grid, t.rowCount) && |t.grid| == |t.cols|
    ensures |live| == t.rowCount && live == Flags(t.names, t.grid, |live|)
    ensures forall k :: 0 <= k < |t.cols| ==>
      |t.grid[k]| == |live| && Waiting(t.cols[k], t.grid[k], live, survives[k], even[k])
    ensures AllSurvive(t) <==> forall k :: 0 <= k < |survives| ==> survives[k]
    ensures AllEven(t) <==> forall k :: 0 <= k < |even| ==> even[k]
  {
    hide Survives, Even, Columns.Column.Valid, Columns.Column.Cells, Columns.Column.Nulls, Flags;
    forall k | 0 <= k < |t.cols|
      ensures Waiting(t.cols[k], t.grid[k], live, survives[k], even[k])
    {
      assert t.Holds(k, t.grid[k]);
    }
  }

  ghost predicate AllReadable(t: ColumnarTable)
    reads t, t.Objs()
  {
    forall k :: 0 <= k < |t.cols| ==> Readable(t.cols[k])
  }

  /** What the columns show. */
  ghost function ShownGrid(t: ColumnarTable): (r: Grid)
    reads t, t.Objs()
    requires AllReadable(t)
    ensures |r| == |t.cols| && forall k :: 0 <= k < |r| ==> r[k] == ShownCells(t.cols[k])
  {
    seq(|t.cols|, k requires 0 <= k < |t.cols| && Readable(t.cols[k]) reads t.Objs() => ShownCells(t.cols[k]))
  }

  lemma AllDropped(t: ColumnarTable, live: seq<bool>, was: Grid, survives: seq<bool>, even: seq<bool>)
    requires |was| == |t.cols| == |survives| == |even| && forall k :: 0 <= k < |was| ==> |was[k]| == |live|
    requires forall k :: 0 <= k < |t.cols| ==> Dropped(t.cols[k], was[k], live, survives[k], even[k])
    ensures forall k :: 0 <= k < |t.cols| ==> Readable(t.cols[k]) && |ShownCells(t.cols[k])| == |Alive(live)|
    ensures forall k :: 0 <= k < |t.cols| ==> (ShownCells(t.cols[k]) == Pick(was[k], Alive(live)) <==> survives[k])
    ensures forall k :: 0 <= k < |t.cols| && even[k] ==> t.Holds(k, ShownCells(t.cols[k]))
  {
    hide Columns.Column.Valid, Columns.Column.Cells, Readable, ShownCells, Pick, Alive;
    forall k | 0 <= k < |t.cols|
      ensures Readable(t.cols[k]) && |ShownCells(t.cols[k])| == |Alive(live)|
      ensures ShownCells(t.cols[k]) == Pick(was[k], Alive(live)) <==> survives[k]
      ensures even[k] ==> t.Holds(k, ShownCells(t.cols[k]))
    {
      assert Dropped(t.cols[k], was[k], live, survives[k], even[k]);
    }
  }

  lemma NotItsColumns(t: ColumnarTable)
    ensures forall k :: 0 <= k < |t.cols| ==> t.cols[k].Obj() != t
  {
    forall k | 0 <= k < |t.cols|
      ensures t.cols[k].Obj() != t
    {
      match t.cols[k]
      case IntCol(_) =>
      case BytesCol(_) =>
      case BoolCol(_) =>
    }
  }

  /** The new row count; the grid is what the columns now show. */
  method SetRows(t: ColumnarTable, live: seq<bool>, ghost was: Grid, ghost survives: seq<bool>, ghost even: seq<bool>)
    requires t.Shape() && WfGrid(t.names, was, |live|) && live == Flags(t.names, was, |live|)
    requires |was| == |t.cols| == |survives| == |even|
    requires forall k :: 0 <= k < |t.cols| ==> Dropped(t.cols[k], was[k], live, survives[k], even[k])
    modifies t
    ensures ShowsGrid(t) && t.rowCount == |Alive(live)|
    ensures ReadsAs(t, was, |live|, Alive(live)) <==> forall k :: 0 <= k < |survives| ==> survives[k]
    ensures (forall k :: 0 <= k < |even| ==> even[k]) ==> t.Valid()
  {
    hide Dropped, Readable, ShownCells, Pick, LiveAt, ColumnarTable.Holds;
    AllDropped(t, live, was, survives, even);
    ghost var shown := ShownGrid(t);
    NotItsColumns(t);
    var rows := Alive(live);
    t.rowCount, t.grid := |rows|, shown;
    PickedRows(t.names, was, |live|, t.grid, rows);
  }
}
