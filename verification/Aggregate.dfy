/** Aggregates over an integer column: every path folds the same non-null values. */
module Aggregates {
  import Bits
  import opened Values
  import opened IntColumns
  import opened Columns
  import opened Grids
  import opened Masks
  import opened ColumnarTables
  import opened TableQueries

  datatype Agg = AggCount | AggSum | AggAvg | AggMin | AggMax

  /** An integer, a quotient, or None of no values. */
  datatype AggResult = IntResult(n: int) | RatioResult(r: real) | NoResult

  // ---- the fold --------------------------------------------------------------------

  /** The non-null values of a column, in row order. */
  function Present(cells: seq<Option<int>>): seq<int> {
    if cells == [] then []
    else Present(cells[..|cells| - 1]) + (if cells[|cells| - 1].Some? then [cells[|cells| - 1].value] else [])
  }

  function SumOf(s: seq<int>): int { if s == [] then 0 else SumOf(s[..|s| - 1]) + s[|s| - 1] }

  function MinOf(s: seq<int>): int
    requires s != []
  {
    if |s| == 1 then s[0] else
      var m := MinOf(s[..|s| - 1]);
      if s[|s| - 1] < m then s[|s| - 1] else m
  }

  function MaxOf(s: seq<int>): int
    requires s != []
  {
    if |s| == 1 then s[0] else
      var m := MaxOf(s[..|s| - 1]);
      if s[|s| - 1] > m then s[|s| - 1] else m
  }

  /** What an aggregate of the values is. */
  function Fold(agg: Agg, s: seq<int>): AggResult {
    match agg
    case AggCount => IntResult(|s|)
    case AggSum => IntResult(SumOf(s))
    case AggAvg => if s == [] then IntResult(0) else RatioResult(SumOf(s) as real / |s| as real)
    case AggMin => if s == [] then NoResult else IntResult(MinOf(s))
    case AggMax => if s == [] then NoResult else IntResult(MaxOf(s))
  }

  // the extremes are values and bound all values
  lemma {:induction false} ExtremesBound(s: seq<int>)
    requires s != []
    ensures MinOf(s) in s && MaxOf(s) in s && forall i :: 0 <= i < |s| ==> MinOf(s) <= s[i] <= MaxOf(s)
  {
    if |s| > 1 {
      ExtremesBound(s[..|s| - 1]);
    }
  }

  // ---- what an aggregate of some cells is ----------------------------------------------

  /** The integers of the cells, added up from the front. */
  ghost function Total(cells: seq<Option<int>>): int {
    if cells == [] then 0 else (if cells[0].Some? then cells[0].value else 0) + Total(cells[1..])
  }

  ghost function Filled(cells: seq<Option<int>>): set<nat> { set i | 0 <= i < |cells| && cells[i].Some? }

  /** r counts the integers of the cells, is their sum, their mean, or one of them that none is below or above; of no
      integers the mean is 0 and the extremes are nothing. */
  ghost predicate IsAggregate(agg: Agg, cells: seq<Option<int>>, r: AggResult) {
    match agg
    case AggCount => r == IntResult(|Filled(cells)|)
    case AggSum => r == IntResult(Total(cells))
    case AggAvg =>
      if Filled(cells) == {} then r == IntResult(0)
      else r.RatioResult? && r.r * |Filled(cells)| as real == Total(cells) as real
    case AggMin =>
      if Filled(cells) == {} then r == NoResult
      else r.IntResult? && Some(r.n) in cells && forall i :: i in Filled(cells) ==> r.n <= cells[i].value
    case AggMax =>
      if Filled(cells) == {} then r == NoResult
      else r.IntResult? && Some(r.n) in cells && forall i :: i in Filled(cells) ==> cells[i].value <= r.n
  }

  lemma {:induction false} PresentHas(cells: seq<Option<int>>)
    ensures |Present(cells)| == |Filled(cells)|
    ensures forall x :: x in Present(cells) <==> Some(x) in cells
  {
    if cells == [] {
      assert Filled(cells) == {};
    } else {
      var front, last := cells[..|cells| - 1], cells[|cells| - 1];
      PresentHas(front);
      assert cells == front + [last];
      assert Filled(cells) == Filled(front) + if last.Some? then {|front|} else {};
    }
  }

  lemma {:induction false} TotalPush(cells: seq<Option<int>>, x: Option<int>)
    ensures Total(cells + [x]) == Total(cells) + if x.Some? then x.value else 0
  {
    if cells == [] {
      assert cells + [x] == [x];
    } else {
      TotalPush(cells[1..], x);
      assert (cells + [x])[1..] == cells[1..] + [x];
    }
  }

  lemma {:induction false} SumIsTotal(cells: seq<Option<int>>)
    ensures SumOf(Present(cells)) == Total(cells)
  {
    if cells != [] {
      var front, last := cells[..|cells| - 1], cells[|cells| - 1];
      SumIsTotal(front);
      TotalPush(front, last);
      assert cells == front + [last];
      assert Present(front) + [] == Present(front);
      if last.Some? {
        assert (Present(front) + [last.value])[..|Present(front)|] == Present(front);
      }
    }
  }

  // folding the integers of the cells gives that aggregate
  lemma FoldIs(agg: Agg, cells: seq<Option<int>>)
    ensures IsAggregate(agg, cells, Fold(agg, Present(cells)))
  {
    hide Present, Total, SumOf, MinOf, MaxOf;
    var s := Present(cells);
    PresentHas(cells);
    SumIsTotal(cells);
    if s != [] {
      ExtremesBound(s);
      forall i | i in Filled(cells)
        ensures MinOf(s) <= cells[i].value <= MaxOf(s)
      {
        assert Some(cells[i].value) in cells;
        var j :| 0 <= j < |s| && s[j] == cells[i].value;
      }
    }
  }

  // a column without nulls presents its stored values as they are
  lemma {:induction false} NoNullsPresent(nulls: seq<bool>, values: seq<int>)
    requires |nulls| == |values| && true !in nulls
    ensures Present(Mask(nulls, values)) == values
  {
    if nulls != [] {
      var m := |nulls| - 1;
      NoNullsPresent(nulls[..m], values[..m]);
      assert !nulls[m] by {
        assert nulls[m] in nulls;
      }
      assert Mask(nulls, values)[..m] == Mask(nulls[..m], values[..m]);
      assert values == values[..m] + [values[m]];
    }
  }

  // ---- folding loops -----------------------------------------------------------------

  /** sum(data), sum(data) / len(data), min(data) or max(data) of a whole array; none for count. */
  method Reduce(agg: Agg, data: seq<int>) returns (r: AggResult)
    requires data != [] && !agg.AggCount?
    ensures r == Fold(agg, data)
  {
    var total, low, high := data[0], data[0], data[0];
    assert data[..1] == [data[0]] && data[..0] == [];
    for i := 1 to |data|
      invariant total == SumOf(data[..i]) && low == MinOf(data[..i]) && high == MaxOf(data[..i])
    {
      assert data[..i + 1][..i] == data[..i];
      total := total + data[i];
      low := if data[i] < low then data[i] else low;
      high := if data[i] > high then data[i] else high;
    }
    assert data[..|data|] == data;
    match agg {
      case AggSum => r := IntResult(total);
      case AggAvg => r := RatioResult(total as real / |data| as real);
      case AggMin => r := IntResult(low);
      case AggMax => r := IntResult(high);
    }
  }

  /** The running totals of the per-value loops. */
  datatype Running = Running(total: int, count: nat, low: Option<int>, high: Option<int>)

  ghost predicate Runs(acc: Running, s: seq<int>) {
    && acc.total == SumOf(s) && acc.count == |s|
    && acc.low == (if s == [] then None else Some(MinOf(s)))
    && acc.high == (if s == [] then None else Some(MaxOf(s)))
  }

  function Take(acc: Running, v: int): Running {
    Running(acc.total + v, acc.count + 1,
      if acc.low.None? || v < acc.low.value then Some(v) else acc.low,
      if acc.high.None? || v > acc.high.value then Some(v) else acc.high)
  }

  const NOTHING_YET: Running := Running(0, 0, None, None)

  lemma TakeRuns(acc: Running, s: seq<int>, v: int)
    requires Runs(acc, s)
    ensures Runs(Take(acc, v), s + [v])
  {
    assert (s + [v])[..|s|] == s;
  }

  function Finish(agg: Agg, acc: Running): AggResult {
    match agg
    case AggCount => IntResult(acc.count)
    case AggSum => IntResult(acc.total)
    case AggAvg => if acc.count == 0 then IntResult(0) else RatioResult(acc.total as real / acc.count as real)
    case AggMin => if acc.low.None? then NoResult else IntResult(acc.low.value)
    case AggMax => if acc.high.None? then NoResult else IntResult(acc.high.value)
  }

  lemma FinishFolds(agg: Agg, acc: Running, s: seq<int>)
    requires Runs(acc, s)
    ensures Finish(agg, acc) == Fold(agg, s)
  {
  }

  // ---- a column on its own ------------------------------------------------------------

  /** nullmask.count(0) */
  method CountValid(col: IntColumn) returns (n: nat)
    requires col.Valid()
    ensures n == |Present(col.Contents())|
  {
    n := 0;
    assert col.Contents()[..0] == [];
    for i := 0 to |col.nullmask|
      invariant n == |Present(col.Contents()[..i])|
    {
      assert col.Contents()[..i + 1][..i] == col.Contents()[..i];
      if !col.nullmask[i] {
        n := n + 1;
      }
    }
    assert col.Contents()[..|col.nullmask|] == col.Contents();
  }

  lemma NothingRuns(cells: seq<Option<int>>)
    ensures Runs(NOTHING_YET, Present(cells[..0])) && Runs(NOTHING_YET, [])
  {
    assert cells[..0] == [];
  }

  lemma PresentPush(cells: seq<Option<int>>, i: nat)
    requires i < |cells|
    ensures Present(cells[..i + 1]) == Present(cells[..i]) + (if cells[i].Some? then [cells[i].value] else [])
    ensures cells[i].None? ==> Present(cells[..i + 1]) == Present(cells[..i])
  {
    assert cells[..i + 1][..i] == cells[..i];
  }

  /** The iter_valid loop: non-null values one by one, decoded as the column is encoded. */
  method IterateValid(col: IntColumn) returns (acc: Running)
    requires col.Valid()
    modifies col`deltaCache
    ensures col.Valid() && col.Contents() == old(col.Contents()) && Runs(acc, Present(col.Contents()))
  {
    hide Runs, Take;
    var cells := col.ToList();
    acc := NOTHING_YET;
    NothingRuns(cells);
    for i := 0 to |cells|
      modifies {}
      invariant Runs(acc, Present(cells[..i]))
    {
      PresentPush(cells, i);
      if cells[i].Some? {
        TakeRuns(acc, Present(cells[..i]), cells[i].value);
        acc := Take(acc, cells[i].value);
      }
    }
    assert cells[..|cells|] == cells;
  }

  lemma CountIs(s: seq<int>)
    ensures Fold(AggCount, s) == IntResult(|s|)
  {
  }

  /** aggregate() without a predicate: raw array, cached reconstruction, or value by value; always the fold. */
  method AggregateColumn(col: IntColumn, agg: Agg) returns (r: AggResult)
    requires col.Valid()
    modifies col`deltaCache, col`forCache
    ensures col.Valid() && col.Contents() == old(col.Contents()) && r == Fold(agg, Present(col.Contents()))
    ensures IsAggregate(agg, col.Contents(), r)
  {
    hide Fold, Present, Reconstruct, Unpack, Runs, IsAggregate;
    FoldIs(agg, col.Contents());
    if agg.AggCount? {
      var n := CountValid(col);
      CountIs(Present(col.Contents()));
      return IntResult(n);
    }
    var noNulls := true !in col.nullmask;
    if noNulls {
      NoNullsPresent(col.nullmask, col.Values());
    }
    if !col.deltaMode && |col.data| > 0 && noNulls {
      r := Reduce(agg, col.data);
      return;
    }
    var cache: Option<seq<int>> := None;
    if col.deltaMode && !col.deltaFallback {
      var c := col.EnsureDeltaCache();
      cache := Some(c);
    } else if col.forMode && !col.forFallback {
      var c := col.EnsureForCache();
      cache := Some(c);
    }
    if cache.Some? && |cache.value| > 0 && noNulls {
      r := Reduce(agg, cache.value);
      return;
    }
    var acc := IterateValid(col);
    FinishFolds(agg, acc, Present(col.Contents()));
    r := Finish(agg, acc);
  }

  // ---- under a predicate ----------------------------------------------------------------

  /** The non-null values of column k in the live rows below m that the predicate accepts. */
  function Accepted(names: seq<Col>, grid: Grid, n: nat, k: nat, where: Row -> bool, m: nat): seq<Value>
    requires WfGrid(names, grid, n) && k < |names| && m <= n
  {
    if m == 0 then []
    else
      Accepted(names, grid, n, k, where, m - 1) +
      (if LiveAt(names, grid, n, m - 1) && grid[k][m - 1] != Null && where(RowAt(names, grid, n, m - 1))
       then [grid[k][m - 1]] else [])
  }

  /** The integers of a list of values. */
  function Ints(vs: seq<Value>): seq<int> {
    if vs == [] then []
    else Ints(vs[..|vs| - 1]) + (if vs[|vs| - 1].Num? then [vs[|vs| - 1].n] else [])
  }

  lemma IntsPush(vs: seq<Value>, v: Value)
    ensures Ints(vs + [v]) == if v.Num? then Ints(vs) + [v.n] else Ints(vs)
  {
    assert (vs + [v])[..|vs|] == vs;
  }

  // A predicate that accepts every row gives the values that no predicate gives.
  lemma {:induction false} AlwaysTrueAccepts(names: seq<Col>, grid: Grid, n: nat, k: nat, where: Row -> bool,
                                             cells: seq<Option<int>>, m: nat)
    requires WfGrid(names, grid, n) && k < |names| && m <= n && |cells| == n
    requires forall i :: 0 <= i < n ==> grid[k][i] == FromInt(cells[i])
    requires forall row :: where(row)
    ensures Ints(Accepted(names, grid, n, k, where, m)) == Present(cells[..m])
    ensures |Accepted(names, grid, n, k, where, m)| == |Present(cells[..m])|
  {
    if m > 0 {
      AlwaysTrueAccepts(names, grid, n, k, where, cells, m - 1);
      PresentPush(cells, m - 1);
      AcceptedStep(names, grid, n, k, where, m - 1);
      var v := grid[k][m - 1];
      if v != Null {
        assert LiveAt(names, grid, n, m - 1);
        IntsPush(Accepted(names, grid, n, k, where, m - 1), v);
      }
    }
  }

  /** Some cell of row i is not null, and the predicate accepts the row. */
  ghost predicate Counts(names: seq<Col>, grid: Grid, n: nat, where: Row -> bool, i: nat)
    requires WfGrid(names, grid, n) && i < n
  {
    (exists j :: 0 <= j < |grid| && grid[j][i] != Null) && where(RowAt(names, grid, n, i))
  }

  /** Column k, with nothing in the rows that do not count. */
  ghost function AcceptedCells(names: seq<Col>, grid: Grid, n: nat, k: nat, where: Row -> bool)
    : (r: seq<Option<int>>)
    requires WfGrid(names, grid, n) && k < |names|
    ensures |r| == n && forall i :: 0 <= i < n ==>
      r[i] == if Counts(names, grid, n, where, i) && grid[k][i].Num? then Some(grid[k][i].n) else None
  {
    seq(n, i requires 0 <= i < n =>
      if Counts(names, grid, n, where, i) && grid[k][i].Num? then Some(grid[k][i].n) else None)
  }

  // the values accepted are the cells of the rows that count
  lemma {:induction false} AcceptedAre(names: seq<Col>, grid: Grid, n: nat, k: nat, where: Row -> bool, m: nat)
    requires WfGrid(names, grid, n) && k < |names| && m <= n
    ensures Ints(Accepted(names, grid, n, k, where, m)) == Present(AcceptedCells(names, grid, n, k, where)[..m])
  {
    hide RowAt, Accepted, Present, Ints;
    if m == 0 {
      AcceptedNone(names, grid, n, k, where);
    } else {
      AcceptedAre(names, grid, n, k, where, m - 1);
      AcceptedStep(names, grid, n, k, where, m - 1);
      PresentPush(AcceptedCells(names, grid, n, k, where), m - 1);
      IntsPush(Accepted(names, grid, n, k, where, m - 1), grid[k][m - 1]);
      var before := Present(AcceptedCells(names, grid, n, k, where)[..m - 1]);
      assert before + [] == before;
    }
  }

  // and there are as many as rows that count with a value in the column
  lemma {:induction false} AcceptedSize(names: seq<Col>, grid: Grid, n: nat, k: nat, where: Row -> bool, m: nat,
                                        all: set<nat>)
    requires WfGrid(names, grid, n) && k < |names| && m <= n
    requires forall i :: i in all <==> 0 <= i < m && grid[k][i] != Null && Counts(names, grid, n, where, i)
    ensures |Accepted(names, grid, n, k, where, m)| == |all|
  {
    hide RowAt, Accepted, Counts, LiveAt;
    if m == 0 {
      AcceptedNone(names, grid, n, k, where);
      assert all == {};
    } else {
      AcceptedStep(names, grid, n, k, where, m - 1);
      CountsIs(names, grid, n, where, m - 1);
      AcceptedSize(names, grid, n, k, where, m - 1, all - {m - 1});
    }
  }

  lemma CountsIs(names: seq<Col>, grid: Grid, n: nat, where: Row -> bool, i: nat)
    requires WfGrid(names, grid, n) && i < n
    ensures Counts(names, grid, n, where, i) <==> LiveAt(names, grid, n, i) && where(RowAt(names, grid, n, i))
  {
  }

  lemma AcceptedNone(names: seq<Col>, grid: Grid, n: nat, k: nat, where: Row -> bool)
    requires WfGrid(names, grid, n) && k < |names|
    ensures Accepted(names, grid, n, k, where, 0) == [] && Ints([]) == []
    ensures Present(AcceptedCells(names, grid, n, k, where)[..0]) == []
  {
  }

  /** The rows one by one, from the decoded columns. */
  method RowFromLists(t: ColumnarTable, lists: map<Col, seq<Value>>, i: nat) returns (row: Row)
    requires WfGrid(t.names, t.grid, t.rowCount) && Materialized(t, lists) && i < t.rowCount
    requires forall c :: c in t.names ==> c in lists
    ensures row == RowAt(t.names, t.grid, t.rowCount, i)
  {
    row := map[];
    for k := 0 to |t.names|
      invariant row == RowUpTo(t.names, t.grid, t.rowCount, i, k)
    {
      IndexOfOwn(t.names, k);
      row := row[t.names[k] := lists[t.names[k]][i]];
    }
  }

  lemma IndexOfOwn(names: seq<Col>, k: nat)
    requires NamesApart(names) && k < |names|
    ensures IndexOf(names, names[k]) == k
  {
  }

  lemma WhereIs(names: seq<Col>, grid: Grid, n: nat, k: nat, where: Row -> bool, agg: Agg)
    requires WfGrid(names, grid, n) && k < |names|
    ensures |Accepted(names, grid, n, k, where, n)| ==
      |set i | 0 <= i < n && grid[k][i] != Null && Counts(names, grid, n, where, i)|
    ensures var accepted := Accepted(names, grid, n, k, where, n);
      IsAggregate(agg, AcceptedCells(names, grid, n, k, where), Fold(agg, Ints(accepted)))
    ensures forall j :: 0 <= j < |names| && names[j] == names[k] ==> j == k
  {
    hide Counts, Accepted, Fold, IsAggregate, Present, Ints;
    var cells := AcceptedCells(names, grid, n, k, where);
    AcceptedAre(names, grid, n, k, where, n);
    AcceptedSize(names, grid, n, k, where, n,
                 set i | 0 <= i < n && grid[k][i] != Null && Counts(names, grid, n, where, i));
    assert cells[..n] == cells;
    FoldIs(agg, cells);
  }

  /** The slow path: the fold of the values in the live rows the predicate accepts; counts are of any column's. */
  method AggregateWhere(t: ColumnarTable, column: Col, agg: Agg, where: Row -> bool) returns (r: AggResult)
    requires t.Valid() && column in t.names
    modifies t.Objs()
    ensures t.Valid() && WfGrid(t.names, t.grid, t.rowCount)
    ensures var (k, n) := (IndexOf(t.names, column), t.rowCount);
      var accepted := Accepted(t.names, t.grid, n, k, where, n);
      if agg.AggCount? then r == IntResult(|accepted|)
      else !t.cols[k].BytesCol? ==> r == Fold(agg, Ints(accepted))
    ensures agg.AggCount? ==> forall k :: 0 <= k < |t.names| && t.names[k] == column ==>
      r == IntResult(
        |set i | 0 <= i < t.rowCount && t.grid[k][i] != Null && Counts(t.names, t.grid, t.rowCount, where, i)|)
    ensures !agg.AggCount? ==> forall k ::
      0 <= k < |t.names| && t.names[k] == column && |t.cols| == |t.names| && !t.cols[k].BytesCol? ==>
        IsAggregate(agg, AcceptedCells(t.names, t.grid, t.rowCount, k, where), r)
  {
    hide ColumnarTable.Valid, Runs, Take, Fold, Finish, LiveAt, Accepted, RowAt, IsAggregate, Ints, Present, Counts;
    t.Shaped();
    var lists: map<Col, seq<Value>> := map[];
    for k := 0 to |t.names|
      modifies t.Objs()
      invariant t.Valid() && Materialized(t, lists) && forall j :: 0 <= j < k ==> t.names[j] in lists
    {
      lists := Materialize(t, t.names[k], lists);
    }
    var live := LiveMask(t);
    var acc, count := SumAccepted(t, column, lists, live, where);
    WhereIs(t.names, t.grid, t.rowCount, IndexOf(t.names, column), where, agg);
    if agg.AggCount? {
      return IntResult(count);
    }
    FinishFolds(agg, acc, Ints(Accepted(t.names, t.grid, t.rowCount, IndexOf(t.names, column), where, t.rowCount)));
    r := Finish(agg, acc);
  }

  method SumAccepted(t: ColumnarTable, column: Col, lists: map<Col, seq<Value>>, live: seq<Bits.byte>,
                     where: Row -> bool)
    returns (acc: Running, count: nat)
    requires WfGrid(t.names, t.grid, t.rowCount) && Materialized(t, lists) && column in t.names
    requires forall c :: c in t.names ==> c in lists
    requires IsFlags(live, t.rowCount)
    requires forall i :: 0 <= i < t.rowCount ==> (live[i] == 1 <==> LiveAt(t.names, t.grid, t.rowCount, i))
    ensures Runs(acc, Ints(Accepted(t.names, t.grid, t.rowCount, IndexOf(t.names, column), where, t.rowCount)))
    ensures count == |Accepted(t.names, t.grid, t.rowCount, IndexOf(t.names, column), where, t.rowCount)|
  {
    hide *;
    ghost var k := IndexOf(t.names, column);
    var target := lists[column];
    TargetIs(t, lists, column);
    acc, count := NOTHING_YET, 0;
    AcceptedStart(t.names, t.grid, t.rowCount, k, where);
    for i := 0 to t.rowCount
      invariant Tallied(acc, count, Accepted(t.names, t.grid, t.rowCount, k, where, i))
    {
      var row := RowFromLists(t, lists, i);
      AcceptedStep(t.names, t.grid, t.rowCount, k, where, i);
      if live[i] == 1 && target[i] != Null && where(row) {
        TallyPush(acc, count, Accepted(t.names, t.grid, t.rowCount, k, where, i), target[i]);
        count := count + 1;
        if target[i].Num? {
          acc := Take(acc, target[i].n);
        }
      }
    }
    TalliedIs(acc, count, Accepted(t.names, t.grid, t.rowCount, k, where, t.rowCount));
  }

  /** What is counted and folded after the values vs. */
  ghost predicate Tallied(acc: Running, count: nat, vs: seq<Value>) { Runs(acc, Ints(vs)) && count == |vs| }

  lemma TallyPush(acc: Running, count: nat, vs: seq<Value>, v: Value)
    requires Tallied(acc, count, vs)
    ensures Tallied(if v.Num? then Take(acc, v.n) else acc, count + 1, vs + [v])
  {
    hide Runs, Take, Ints;
    IntsPush(vs, v);
    if v.Num? {
      TakeRuns(acc, Ints(vs), v.n);
    }
  }

  lemma TalliedIs(acc: Running, count: nat, vs: seq<Value>)
    ensures Tallied(acc, count, vs) <==> Runs(acc, Ints(vs)) && count == |vs|
  {
  }

  // the list to aggregate holds the column's cells
  lemma TargetIs(t: ColumnarTable, lists: map<Col, seq<Value>>, column: Col)
    requires WfGrid(t.names, t.grid, t.rowCount) && Materialized(t, lists) && column in t.names && column in lists
    ensures var k := IndexOf(t.names, column); k < |t.names| == |t.grid| && lists[column] == t.grid[k]
    ensures forall live: seq<Bits.byte> :: IsFlags(live, t.rowCount) ==> |live| == t.rowCount
    ensures |lists[column]| == t.rowCount
  {
  }

  lemma AcceptedStart(names: seq<Col>, grid: Grid, n: nat, k: nat, where: Row -> bool)
    requires WfGrid(names, grid, n) && k < |names|
    ensures Tallied(NOTHING_YET, 0, Accepted(names, grid, n, k, where, 0))
  {
    NothingRuns([]);
  }

  lemma AcceptedStep(names: seq<Col>, grid: Grid, n: nat, k: nat, where: Row -> bool, i: nat)
    requires WfGrid(names, grid, n) && k < |names| && i < n
    ensures var before := Accepted(names, grid, n, k, where, i);
      Accepted(names, grid, n, k, where, i + 1) ==
        if LiveAt(names, grid, n, i) && grid[k][i] != Null && where(RowAt(names, grid, n, i)) then before + [grid[k][i]]
        else before
  {
  }

  /** aggregate() with and without a predicate that accepts everything agree, on every aggregate and encoding. */
  method AggregatesAgree(t: ColumnarTable, column: Col, agg: Agg, where: Row -> bool)
    returns (plain: AggResult, filtered: AggResult)
    requires t.Valid() && column in t.names && t.cols[IndexOf(t.names, column)].IntCol? && forall row :: where(row)
    modifies t.Objs()
    ensures plain == filtered
  {
    hide ColumnarTable.Valid, Fold;
    filtered := AggregateWhere(t, column, agg, where);
    t.Shaped();
    var k := IndexOf(t.names, column);
    ColumnHolds(t, k);
    ghost var cells := t.cols[k].ints.Contents();
    AlwaysTrueAccepts(t.names, t.grid, t.rowCount, k, where, cells, t.rowCount);
    assert cells[..t.rowCount] == cells;
    CountIs(Present(cells));
    plain := AggregateColumn(t.cols[k].ints, agg);
  }

  lemma ColumnHolds(t: ColumnarTable, k: nat)
    requires t.Valid() && k < |t.cols| && t.cols[k].IntCol?
    ensures t.cols[k].ints.Valid() && |t.cols[k].ints.Contents()| == t.rowCount
    ensures forall i :: 0 <= i < t.rowCount ==> t.grid[k][i] == FromInt(t.cols[k].ints.Contents()[i])
  {
    assert t.Holds(k, t.grid[k]);
  }
}
