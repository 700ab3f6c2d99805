/** Mask queries over a columnar table. */
module TableQueries {
  import opened Bits
  import opened Values
  import opened Columns
  import opened Grids
  import opened ColumnarTables

  // ---- liveness -------------------------------------------------------------------

  /** _live_mask: one byte per row; a row whose first column is null needs another that is not. */
  method LiveMask(t: ColumnarTable) returns (live: seq<byte>)
    requires t.Valid()
    ensures t.Valid() && IsFlags(live, t.rowCount)
    ensures forall i :: 0 <= i < t.rowCount ==> (live[i] == 1 <==> LiveAt(t.names, t.grid, t.rowCount, i))
  {
    hide ColumnarTable.Valid, LiveAt;
    t.Shaped();
    live := [];
    for i := 0 to t.rowCount
      invariant |live| == i && t.Valid()
      invariant forall j :: 0 <= j < i ==> live[j] < 2 && (live[j] == 1 <==> LiveAt(t.names, t.grid, t.rowCount, j))
    {
      var dead := t.AllNull(i);
      live := live + [if dead then 0 else 1];
    }
  }

  // ---- condition masks -------------------------------------------------------------

  /** The cells of some columns, as decoded so far. */
  ghost predicate Materialized(t: ColumnarTable, lists: map<Col, seq<Value>>)
    reads t
  {
    |t.grid| == |t.names| && forall c :: c in lists ==> c in t.names && lists[c] == t.grid[IndexOf(t.names, c)]
  }

  method Materialize(t: ColumnarTable, c: Col, lists: map<Col, seq<Value>>) returns (now: map<Col, seq<Value>>)
    requires t.Valid() && c in t.names && Materialized(t, lists)
    modifies t.Objs()
    ensures t.Valid() && Materialized(t, now) && c in now && forall d :: d in lists ==> d in now
  {
    hide ColumnarTable.Holds;
    now := lists;
    if c !in lists {
      var k := IndexOf(t.names, c);
      var vs := t.CellList(k, t.grid[k]);
      now := lists[c := vs];
    }
  }

  /** One byte per row, 1 where the condition matches. */
  method ConditionMask(cond: Condition, vals: seq<Value>) returns (mask: seq<byte>)
    ensures IsFlags(mask, |vals|) && forall i :: 0 <= i < |vals| ==> (mask[i] == 1 <==> Matches(cond, vals[i]))
    ensures forall i :: 0 <= i < |vals| && vals[i] == Null ==> mask[i] == 0
    ensures cond.Member? ==> forall i :: 0 <= i < |vals| && vals[i] != Null ==>
      (mask[i] == 1 <==> exists j :: 0 <= j < |cond.vs| && cond.vs[j] == vals[i])
    ensures cond.Within? && cond.lo.Num? && cond.hi.Num? ==> forall i :: 0 <= i < |vals| && vals[i].Num? ==>
      (mask[i] == 1 <==> cond.lo.n <= vals[i].n <= cond.hi.n)
    ensures cond.CompareTo? && cond.v.Num? ==> forall i :: 0 <= i < |vals| && vals[i].Num? ==>
      (mask[i] == 1 <==> NumCompares(cond.op, vals[i].n, cond.v.n))
    ensures cond.Within? && cond.lo.Text? && cond.hi.Text? ==> forall i :: 0 <= i < |vals| && vals[i].Text? ==>
      var (x, lo, hi) := (vals[i].s, cond.lo.s, cond.hi.s);
      (mask[i] == 1 <==> (x == lo || Precedes(lo, x)) && (x == hi || Precedes(x, hi)))
    ensures cond.CompareTo? && cond.v.Text? ==> forall i :: 0 <= i < |vals| && vals[i].Text? ==>
      (mask[i] == 1 <==> TextCompares(cond.op, vals[i].s, cond.v.s))
  {
    hide OpHolds, Le, NumCompares, TextCompares, Precedes;
    mask := [];
    for i := 0 to |vals|
      invariant |mask| == i && forall j :: 0 <= j < i ==> mask[j] < 2 && (mask[j] == 1 <==> Matches(cond, vals[j]))
    {
      mask := mask + [if Matches(cond, vals[i]) then 1 else 0];
    }
    forall i | 0 <= i < |vals|
      ensures vals[i] != Null && Fitting(cond, vals[i]) ==> (Matches(cond, vals[i]) <==> Meets(cond, vals[i]))
      ensures vals[i] == Null ==> mask[i] == 0
    {
      MatchesIs(cond, vals[i]);
    }
  }

  /** A mask of the rows that satisfy the conditions. */
  ghost predicate IsCombined(t: ColumnarTable, mask: seq<byte>, conds: seq<Condition>, combine: Combine)
    reads t
    requires WfGrid(t.names, t.grid, t.rowCount) && Known(t.names, conds)
  {
    && IsFlags(mask, t.rowCount)
    && forall i :: 0 <= i < t.rowCount ==>
         (mask[i] == 1 <==> Combined(t.names, t.grid, t.rowCount, conds, combine, i))
  }

  /** The conditions' masks combined as big integers. */
  method CombineMasks(t: ColumnarTable, conds: seq<Condition>, combine: Combine, lists: map<Col, seq<Value>>)
    returns (comb: nat, now: map<Col, seq<Value>>, ghost mask: seq<byte>)
    requires t.Valid() && Known(t.names, conds) && conds != [] && Materialized(t, lists)
    modifies t.Objs()
    ensures t.Valid() && Materialized(t, now) && IsCombined(t, mask, conds, combine) && comb == FromBytes(mask)
  {
    hide ColumnarTable.Valid, Matches, ZipBytes, Bitwise, FromBytes;
    t.Shaped();
    comb, now, mask := MaskInt(t, conds[0], lists);
    OneCondition(t, conds, combine, mask);
    for k := 1 to |conds|
      modifies t.Objs()
      invariant t.Valid() && Materialized(t, now) && IsCombined(t, mask, conds[..k], combine) && comb == FromBytes(mask)
    {
      var m;
      ghost var next;
      m, now, next := MaskInt(t, conds[k], now);
      var op := if combine.AnyOf? then OR else AND;
      CombineFlags(op, mask, next, t.rowCount);
      comb := Bitwise(op, comb, m);
      MoreConditions(t, conds, combine, k, mask, next, ZipBytes(op, mask, next));
      mask := ZipBytes(op, mask, next);
    }
    assert conds[..|conds|] == conds;
  }

  /** int.from_bytes(_condition_mask(...), "little") */
  method MaskInt(t: ColumnarTable, cond: Condition, lists: map<Col, seq<Value>>)
    returns (m: nat, now: map<Col, seq<Value>>, ghost mask: seq<byte>)
    requires t.Valid() && cond.c in t.names && Materialized(t, lists)
    modifies t.Objs()
    ensures t.Valid() && Materialized(t, now) && m == FromBytes(mask) && IsFlags(mask, t.rowCount)
    ensures WfGrid(t.names, t.grid, t.rowCount)
    ensures forall i :: 0 <= i < t.rowCount ==>
      (mask[i] == 1 <==> Matches(cond, CellOf(t.names, t.grid, t.rowCount, cond.c, i)))
  {
    hide ColumnarTable.Valid, Matches, FromBytes;
    t.Shaped();
    now := Materialize(t, cond.c, lists);
    var flags := ConditionMask(cond, now[cond.c]);
    m, mask := FromBytes(flags), flags;
  }

  lemma OneCondition(t: ColumnarTable, conds: seq<Condition>, combine: Combine, mask: seq<byte>)
    requires WfGrid(t.names, t.grid, t.rowCount) && Known(t.names, conds) && conds != [] && IsFlags(mask, t.rowCount)
    requires forall i :: 0 <= i < t.rowCount ==>
      (mask[i] == 1 <==> Matches(conds[0], CellOf(t.names, t.grid, t.rowCount, conds[0].c, i)))
    ensures IsCombined(t, mask, conds[..1], combine)
  {
    hide Matches;
    assert conds[..1] == [conds[0]];
  }

  lemma MoreConditions(t: ColumnarTable, conds: seq<Condition>, combine: Combine, k: nat, mask: seq<byte>,
                       next: seq<byte>, both: seq<byte>)
    requires WfGrid(t.names, t.grid, t.rowCount) && Known(t.names, conds) && 0 < k < |conds|
    requires IsFlags(both, t.rowCount)
    requires IsCombined(t, mask, conds[..k], combine) && IsFlags(next, t.rowCount)
    requires forall i :: 0 <= i < t.rowCount ==>
      (next[i] == 1 <==> Matches(conds[k], CellOf(t.names, t.grid, t.rowCount, conds[k].c, i)))
    requires forall i :: 0 <= i < t.rowCount ==>
      (both[i] == 1 <==> if combine.AnyOf? then mask[i] == 1 || next[i] == 1 else mask[i] == 1 && next[i] == 1)
    ensures IsCombined(t, both, conds[..k + 1], combine)
  {
    hide Matches;
    forall i | 0 <= i < t.rowCount
      ensures both[i] == 1 <==> Combined(t.names, t.grid, t.rowCount, conds[..k + 1], combine, i)
    {
      CombinedPush(t.names, t.grid, t.rowCount, conds, combine, k, i);
    }
  }

  lemma CombinedPush(names: seq<Col>, grid: Grid, n: nat, conds: seq<Condition>, combine: Combine, k: nat, i: nat)
    requires WfGrid(names, grid, n) && Known(names, conds) && 0 < k < |conds| && i < n
    ensures var (before, last) := (Combined(names, grid, n, conds[..k], combine, i),
        Matches(conds[k], CellOf(names, grid, n, conds[k].c, i)));
      Combined(names, grid, n, conds[..k + 1], combine, i) <==>
        if combine.AnyOf? then before || last else before && last
  {
    hide Matches;
    var a, b := conds[..k], conds[..k + 1];
    assert b == a + [conds[k]] && b[k] == conds[k] && forall j :: 0 <= j < k ==> b[j] == a[j];
    if combine.AnyOf? && Combined(names, grid, n, a, combine, i) {
      var j :| 0 <= j < |a| && Matches(a[j], CellOf(names, grid, n, a[j].c, i));
      assert Matches(b[j], CellOf(names, grid, n, b[j].c, i));
    }
  }

  /** The live rows satisfying the conditions, as one integer. */
  method FinalMask(t: ColumnarTable, conds: seq<Condition>, combine: Combine)
    returns (final: nat, lists: map<Col, seq<Value>>, ghost mask: seq<byte>)
    requires t.Valid() && Known(t.names, conds)
    modifies t.Objs()
    ensures t.Valid() && Materialized(t, lists) && WfGrid(t.names, t.grid, t.rowCount)
    ensures final == FromBytes(mask) && IsFlags(mask, t.rowCount)
    ensures forall i :: 0 <= i < t.rowCount ==> (mask[i] == 1 <==> Hit(t.names, t.grid, t.rowCount, conds, combine, i))
  {
    hide ColumnarTable.Valid, Bitwise, FromBytes, ZipBytes, Combined, LiveAt;
    t.Shaped();
    var live := LiveMask(t);
    if conds == [] {
      NoConditions(t.names, t.grid, t.rowCount, conds, combine);
      return FromBytes(live), map[], live;
    }
    var comb;
    ghost var combMask;
    comb, lists, combMask := CombineMasks(t, conds, combine, map[]);
    CombineFlags(AND, combMask, live, t.rowCount);
    final, mask := Bitwise(AND, comb, FromBytes(live)), ZipBytes(AND, combMask, live);
  }

  lemma NoConditions(names: seq<Col>, grid: Grid, n: nat, conds: seq<Condition>, combine: Combine)
    requires WfGrid(names, grid, n) && Known(names, conds) && conds == []
    ensures forall i :: 0 <= i < n ==> Combined(names, grid, n, conds, combine, i)
  {
  }

  // ---- counting ---------------------------------------------------------------------------

  datatype CountResult = Counted(n: nat) | NoSuchColumn

  method AllKnown(t: ColumnarTable, conds: seq<Condition>) returns (b: bool)
    ensures b <==> Known(t.names, conds)
  {
    for k := 0 to |conds|
      invariant Known(t.names, conds[..k])
    {
      if conds[k].c !in t.names {
        return false;
      }
    }
    assert conds[..|conds|] == conds;
    b := true;
  }

  /** count_where(): the population count of the combined mask is the number of live matching rows. */
  method CountWhere(t: ColumnarTable, conds: seq<Condition>, combine: Combine) returns (r: CountResult)
    requires t.Valid()
    modifies t.Objs()
    ensures t.Valid() && (r.Counted? <==> Known(t.names, conds))
    ensures r.Counted? ==>
      WfGrid(t.names, t.grid, t.rowCount) && r.n == |Hits(t.names, t.grid, t.rowCount, conds, combine, t.rowCount)|
    ensures r.Counted? && AllFitting(t.names, t.grid, t.rowCount, conds) ==>
      r.n == |set i | 0 <= i < t.rowCount && RowMeets(t.names, t.grid, t.rowCount, conds, combine, i)|
  {
    hide ColumnarTable.Valid, PopCount, FromBytes, Hit, RowMeets, AllFitting;
    t.Shaped();
    var known := AllKnown(t, conds);
    if !known {
      return NoSuchColumn;
    }
    if t.rowCount == 0 {
      if AllFitting(t.names, t.grid, t.rowCount, conds) {
        HitsMeet(t.names, t.grid, t.rowCount, conds, combine);
      }
      return Counted(0);
    }
    var final, lists;
    ghost var mask;
    final, lists, mask := FinalMask(t, conds, combine);
    PopCountOfMask(mask);
    OnesAreHits(t.names, t.grid, t.rowCount, conds, combine, mask, t.rowCount);
    assert mask[..t.rowCount] == mask;
    r := Counted(PopCount(final));
    if AllFitting(t.names, t.grid, t.rowCount, conds) {
      HitsMeet(t.names, t.grid, t.rowCount, conds, combine);
    }
  }

  // ---- selecting --------------------------------------------------------------------------------

  /** {name: vals[i] for name, vals in proj} */
  function Projected(names: seq<Col>, grid: Grid, n: nat, want: seq<Col>, i: nat): Row
    requires WfGrid(names, grid, n) && i < n && forall k :: 0 <= k < |want| ==> want[k] in names
  {
    if want == [] then map[]
    else
      var (front, c) := (want[..|want| - 1], want[|want| - 1]);
      Projected(names, grid, n, front, i)[c := CellOf(names, grid, n, c, i)]
  }

  /** Positions from offset on, limit of them at most; a negative offset skips none. */
  function Slice(s: seq<nat>, offset: int, limit: Option<int>): seq<nat> {
    var from := if offset < 0 then 0 else offset;
    if from >= |s| then []
    else if limit.Some? && from + limit.value < |s| then (if limit.value <= 0 then [] else s[from..from + limit.value])
    else s[from..]
  }

  ghost predicate AreProjections(rows: seq<Row>, t: ColumnarTable, want: seq<Col>, idxs: seq<nat>)
    reads t
    requires WfGrid(t.names, t.grid, t.rowCount) && forall k :: 0 <= k < |want| ==> want[k] in t.names
  {
    && |rows| == |idxs|
    && forall j :: 0 <= j < |idxs| ==>
         idxs[j] < t.rowCount && rows[j] == Projected(t.names, t.grid, t.rowCount, want, idxs[j])
  }

  /** The columns asked for, if any were named, are the table's. */
  predicate Offered(names: seq<Col>, columns: Option<seq<Col>>) {
    columns.Some? ==> forall c :: c in columns.value ==> c in names
  }

  /** The rows under the numbers hits, from the offset on and no more than the limit, with the cells of the columns
      asked for. */
  ghost predicate SliceOfRows(rows: seq<Row>, names: seq<Col>, grid: Grid, n: nat, hits: seq<nat>, want: seq<Col>,
                              limit: Option<int>, offset: int)
    requires WfGrid(names, grid, n) && forall i :: i in hits ==> i < n
  {
    var from := if offset < 0 then 0 else offset;
    && |rows| == (if from >= |hits| || (limit.Some? && limit.value <= 0) then 0
                  else if limit.Some? && from + limit.value < |hits| then limit.value else |hits| - from)
    && forall k :: 0 <= k < |rows| ==>
         && (forall c :: c in rows[k] <==> c in want)
         && hits[from + k] in hits
         && forall j :: 0 <= j < |names| && names[j] in rows[k] ==> rows[k][names[j]] == grid[j][hits[from + k]]
  }

  lemma {:induction false} ProjectedHas(names: seq<Col>, grid: Grid, n: nat, want: seq<Col>, i: nat)
    requires WfGrid(names, grid, n) && i < n && forall k :: 0 <= k < |want| ==> want[k] in names
    ensures forall c :: c in Projected(names, grid, n, want, i) <==> c in want
    ensures forall j :: 0 <= j < |names| && names[j] in want ==>
      Projected(names, grid, n, want, i)[names[j]] == grid[j][i]
  {
    if want != [] {
      var front, last := want[..|want| - 1], want[|want| - 1];
      ProjectedHas(names, grid, n, front, i);
      assert want == front + [last];
    }
  }

  lemma SlicePlaces(s: seq<nat>, offset: int, limit: Option<int>)
    ensures var from := if offset < 0 then 0 else offset;
      && |Slice(s, offset, limit)| == (if from >= |s| || (limit.Some? && limit.value <= 0) then 0
                                       else if limit.Some? && from + limit.value < |s| then limit.value
                                       else |s| - from)
      && forall k :: 0 <= k < |Slice(s, offset, limit)| ==> Slice(s, offset, limit)[k] == s[from + k]
  {
  }

  // what is selected, row by row and column by column
  lemma SelectedIs(t: ColumnarTable, conds: seq<Condition>, combine: Combine, rows: seq<Row>, want: seq<Col>,
                   limit: Option<int>, offset: int)
    requires WfGrid(t.names, t.grid, t.rowCount) && Known(t.names, conds) && forall c :: c in want ==> c in t.names
    requires AreProjections(rows, t, want,
        Slice(Hits(t.names, t.grid, t.rowCount, conds, combine, t.rowCount), offset, limit))
    requires AllFitting(t.names, t.grid, t.rowCount, conds)
    ensures SelectedRows(rows, t, conds, combine, want, limit, offset)
  {
    hide Hits, RowMeets, Projected, Slice, AllFitting;
    var (names, grid, n) := (t.names, t.grid, t.rowCount);
    var hits := Hits(names, grid, n, conds, combine, n);
    HitsMeet(names, grid, n, conds, combine);
    SlicePlaces(hits, offset, limit);
    forall k | 0 <= k < |rows|
      ensures forall c :: c in rows[k] <==> c in want
      ensures forall j :: 0 <= j < |names| && names[j] in want ==>
        rows[k][names[j]] == grid[j][Slice(hits, offset, limit)[k]]
    {
      ProjectedHas(names, grid, n, want, Slice(hits, offset, limit)[k]);
    }
    assert SliceOfRows(rows, names, grid, n, hits, want, limit, offset);
  }

  /** Of the rows that meet the conditions, in order, the slice asked for. */
  ghost predicate SelectedRows(rows: seq<Row>, t: ColumnarTable, conds: seq<Condition>, combine: Combine,
                               want: seq<Col>, limit: Option<int>, offset: int)
    reads t
    requires WfGrid(t.names, t.grid, t.rowCount) && AllFitting(t.names, t.grid, t.rowCount, conds)
  {
    exists hits ::
      && Rising(hits)
      && (forall i :: i in hits <==> 0 <= i < t.rowCount && RowMeets(t.names, t.grid, t.rowCount, conds, combine, i))
      && SliceOfRows(rows, t.names, t.grid, t.rowCount, hits, want, limit, offset)
  }

  datatype SelectResult = Selected(rows: seq<Row>) | UnknownColumn

  /** select_where(): the projected rows of the matching slice. */
  method SelectWhere(t: ColumnarTable, conds: seq<Condition>, combine: Combine, columns: Option<seq<Col>>,
                     limit: Option<int>, offset: int)
    returns (r: SelectResult)
    requires t.Valid()
    modifies t.Objs()
    ensures t.Valid() && WfGrid(t.names, t.grid, t.rowCount)
    ensures limit.Some? && limit.value <= 0 ==> r == Selected([])
    ensures !(limit.Some? && limit.value <= 0) ==>
      (r.UnknownColumn? <==> !Known(t.names, conds) || (t.rowCount > 0 && !Offered(t.names, columns)))
    ensures r.Selected? && r.rows != [] ==> Known(t.names, conds) && Offered(t.names, columns)
    ensures r.Selected? && Known(t.names, conds) && Offered(t.names, columns) ==>
      AreProjections(r.rows, t, if columns.Some? then columns.value else t.names,
        Slice(Hits(t.names, t.grid, t.rowCount, conds, combine, t.rowCount), offset, limit))
    ensures r.Selected? && Known(t.names, conds) && Offered(t.names, columns) ==>
      AllFitting(t.names, t.grid, t.rowCount, conds) ==>
        SelectedRows(r.rows, t, conds, combine, if columns.Some? then columns.value else t.names, limit, offset)
  {
    hide ColumnarTable.Valid, FromBytes, Hit, Projected, Hits, Slice, Known, WfGrid, AllFitting, SelectedRows;
    t.Shaped();
    if limit.Some? && limit.value <= 0 {
      SliceOfNone(offset, limit);
      SelectedNone(t, conds, combine, columns, limit, offset);
      return Selected([]);
    }
    var known := AllKnown(t, conds);
    if !known {
      return UnknownColumn;
    }
    if t.rowCount == 0 {
      NoHits(t.names, t.grid, conds, combine, offset, limit);
      SelectedNone(t, conds, combine, columns, limit, offset);
      return Selected([]);
    }
    var want := if columns.Some? then columns.value else t.names;
    var named := AllNamed(t, want);
    if !named {
      return UnknownColumn;
    }
    var rows := SelectKnown(t, conds, combine, want, limit, offset);
    r := Selected(rows);
    if AllFitting(t.names, t.grid, t.rowCount, conds) {
      SelectedIs(t, conds, combine, rows, want, limit, offset);
    }
  }

  // under a limit of zero or less, and of no rows, nothing is what was asked for
  lemma SelectedNone(t: ColumnarTable, conds: seq<Condition>, combine: Combine, columns: Option<seq<Col>>,
                     limit: Option<int>, offset: int)
    requires WfGrid(t.names, t.grid, t.rowCount)
    requires Known(t.names, conds) ==>
      Slice(Hits(t.names, t.grid, t.rowCount, conds, combine, t.rowCount), offset, limit) == []
    ensures Known(t.names, conds) && Offered(t.names, columns) && AllFitting(t.names, t.grid, t.rowCount, conds) ==>
      SelectedRows([], t, conds, combine, if columns.Some? then columns.value else t.names, limit, offset)
  {
    hide Hits, RowMeets, Projected, Slice, AllFitting, SelectedRows;
    if Known(t.names, conds) && Offered(t.names, columns) && AllFitting(t.names, t.grid, t.rowCount, conds) {
      SelectedIs(t, conds, combine, [], if columns.Some? then columns.value else t.names, limit, offset);
    }
  }

  lemma SliceOfNone(offset: int, limit: Option<int>)
    requires limit.Some? && limit.value <= 0
    ensures forall s :: Slice(s, offset, limit) == []
  {
  }

  method AllNamed(t: ColumnarTable, want: seq<Col>) returns (b: bool)
    ensures b <==> forall c :: c in want ==> c in t.names
  {
    for k := 0 to |want|
      invariant forall j :: 0 <= j < k ==> want[j] in t.names
    {
      if want[k] !in t.names {
        return false;
      }
    }
    b := true;
  }

  lemma NoHits(names: seq<Col>, grid: Grid, conds: seq<Condition>, combine: Combine, offset: int, limit: Option<int>)
    requires WfGrid(names, grid, 0) && Known(names, conds)
    ensures Slice(Hits(names, grid, 0, conds, combine, 0), offset, limit) == []
  {
  }

  method SelectKnown(t: ColumnarTable, conds: seq<Condition>, combine: Combine, want: seq<Col>, limit: Option<int>,
                     offset: int)
    returns (rows: seq<Row>)
    requires t.Valid() && Known(t.names, conds) && (limit.Some? ==> limit.value > 0)
    requires forall j :: 0 <= j < |want| ==> want[j] in t.names
    modifies t.Objs()
    ensures t.Valid() && WfGrid(t.names, t.grid, t.rowCount)
    ensures AreProjections(rows, t, want,
        Slice(Hits(t.names, t.grid, t.rowCount, conds, combine, t.rowCount), offset, limit))
  {
    hide ColumnarTable.Valid, FromBytes, ToBytes, Hit, Projected, Hits;
    var final, lists;
    ghost var mask;
    final, lists, mask := FinalMask(t, conds, combine);
    ToFromBytes(mask);
    if final == 0 {
      NothingFlagged(mask);
      OnesAreHits(t.names, t.grid, t.rowCount, conds, combine, mask, t.rowCount);
      assert mask[..t.rowCount] == mask;
      return [];
    }
    var result := ToBytes(final, t.rowCount);
    for k := 0 to |want|
      modifies t.Objs()
      invariant t.Valid() && Materialized(t, lists) && forall j :: 0 <= j < k ==> want[j] in lists
    {
      lists := Materialize(t, want[k], lists);
    }
    rows := Emit(t, conds, combine, want, lists, result, limit, offset);
  }

  lemma {:induction false} NothingFlagged(mask: seq<byte>)
    requires FromBytes(mask) == 0
    ensures Ones(mask) == 0
  {
    if mask != [] {
      NothingFlagged(mask[1..]);
    }
  }

  /** The output loop: skip `offset` matches, emit up to `limit`. */
  method Emit(t: ColumnarTable, ghost conds: seq<Condition>, ghost combine: Combine, want: seq<Col>,
              lists: map<Col, seq<Value>>, result: seq<byte>, limit: Option<int>, offset: int)
    returns (rows: seq<Row>)
    requires WfGrid(t.names, t.grid, t.rowCount) && Materialized(t, lists) && Known(t.names, conds)
    requires (limit.Some? ==> limit.value > 0)
    requires forall j :: 0 <= j < |want| ==> want[j] in t.names && want[j] in lists
    requires IsFlags(result, t.rowCount)
    requires forall i :: 0 <= i < t.rowCount ==>
      (result[i] == 1 <==> Hit(t.names, t.grid, t.rowCount, conds, combine, i))
    ensures AreProjections(rows, t, want,
        Slice(Hits(t.names, t.grid, t.rowCount, conds, combine, t.rowCount), offset, limit))
  {
    hide Hit, Projected, Hits, LiveAt, Slice, AreProjections, Materialized;
    rows := [];
    var matched := 0;
    HitsStart(t.names, t.grid, t.rowCount, conds, combine);
    NothingEmitted(t, want, offset, limit);
    for i := 0 to t.rowCount
      invariant matched == |Hits(t.names, t.grid, t.rowCount, conds, combine, i)|
      invariant AreProjections(rows, t, want,
          Slice(Hits(t.names, t.grid, t.rowCount, conds, combine, i), offset, limit))
      invariant limit.Some? ==> |rows| < limit.value
    {
      HitsStep(t.names, t.grid, t.rowCount, conds, combine, i);
      ghost var hits := Hits(t.names, t.grid, t.rowCount, conds, combine, i);
      assert hits + [] == hits;
      AsMany(rows, t, want, Slice(hits, offset, limit));
      if result[i] != 0 {
        SlicePush(hits, i, offset, limit);
        if matched >= offset {
          var row := ProjectRow(t, want, lists, i);
          Emitted(rows, t, want, Slice(hits, offset, limit), i, row);
          rows := rows + [row];
          if limit.Some? && |rows| >= limit.value {
            FullSlice(t.names, t.grid, t.rowCount, conds, combine, i + 1, offset, limit);
            return;
          }
        } else {
          assert Slice(hits, offset, limit) + [] == Slice(hits, offset, limit);
        }
        matched := matched + 1;
      }
    }
  }

  lemma NothingEmitted(t: ColumnarTable, want: seq<Col>, offset: int, limit: Option<int>)
    requires WfGrid(t.names, t.grid, t.rowCount) && forall j :: 0 <= j < |want| ==> want[j] in t.names
    ensures AreProjections([], t, want, Slice([], offset, limit))
  {
  }

  lemma AsMany(rows: seq<Row>, t: ColumnarTable, want: seq<Col>, idxs: seq<nat>)
    requires WfGrid(t.names, t.grid, t.rowCount) && forall j :: 0 <= j < |want| ==> want[j] in t.names
    requires AreProjections(rows, t, want, idxs)
    ensures |rows| == |idxs|
  {
  }

  lemma Emitted(rows: seq<Row>, t: ColumnarTable, want: seq<Col>, idxs: seq<nat>, i: nat, row: Row)
    requires WfGrid(t.names, t.grid, t.rowCount) && i < t.rowCount && forall j :: 0 <= j < |want| ==> want[j] in t.names
    requires AreProjections(rows, t, want, idxs) && row == Projected(t.names, t.grid, t.rowCount, want, i)
    ensures AreProjections(rows + [row], t, want, idxs + [i])
    ensures |rows| == |idxs|
  {
  }

  method ProjectRow(t: ColumnarTable, want: seq<Col>, lists: map<Col, seq<Value>>, i: nat) returns (row: Row)
    requires WfGrid(t.names, t.grid, t.rowCount) && Materialized(t, lists) && i < t.rowCount
    requires forall j :: 0 <= j < |want| ==> want[j] in t.names && want[j] in lists
    ensures row == Projected(t.names, t.grid, t.rowCount, want, i)
  {
    row := map[];
    for k := 0 to |want|
      invariant row == Projected(t.names, t.grid, t.rowCount, want[..k], i)
    {
      assert want[..k + 1][..k] == want[..k];
      row := row[want[k] := lists[want[k]][i]];
    }
    assert want[..|want|] == want;
  }

  lemma HitsStart(names: seq<Col>, grid: Grid, n: nat, conds: seq<Condition>, combine: Combine)
    requires WfGrid(names, grid, n) && Known(names, conds)
    ensures Hits(names, grid, n, conds, combine, 0) == []
  {
  }

  lemma HitsStep(names: seq<Col>, grid: Grid, n: nat, conds: seq<Condition>, combine: Combine, i: nat)
    requires WfGrid(names, grid, n) && Known(names, conds) && i < n
    ensures Hits(names, grid, n, conds, combine, i + 1) ==
      Hits(names, grid, n, conds, combine, i) + (if Hit(names, grid, n, conds, combine, i) then [i] else [])
  {
  }

  // one more match goes into the slice when the offset is passed and the limit not reached
  lemma SlicePush(s: seq<nat>, i: nat, offset: int, limit: Option<int>)
    requires limit.Some? ==> limit.value > 0 && |Slice(s, offset, limit)| < limit.value
    ensures Slice(s + [i], offset, limit) == Slice(s, offset, limit) + (if |s| >= offset then [i] else [])
  {
  }

  // once the limit is reached, later matches change nothing
  lemma {:induction false} FullSlice(names: seq<Col>, grid: Grid, n: nat, conds: seq<Condition>, combine: Combine,
                                     i: nat, offset: int, limit: Option<int>)
    requires WfGrid(names, grid, n) && Known(names, conds) && i <= n && limit.Some? && limit.value > 0
    requires |Slice(Hits(names, grid, n, conds, combine, i), offset, limit)| == limit.value
    ensures Slice(Hits(names, grid, n, conds, combine, n), offset, limit) ==
      Slice(Hits(names, grid, n, conds, combine, i), offset, limit)
    decreases n - i
  {
    if i < n {
      HitsStep(names, grid, n, conds, combine, i);
      FullSlicePush(Hits(names, grid, n, conds, combine, i), i, offset, limit);
      FullSlice(names, grid, n, conds, combine, i + 1, offset, limit);
    }
  }

  lemma FullSlicePush(s: seq<nat>, i: nat, offset: int, limit: Option<int>)
    requires limit.Some? && limit.value > 0 && |Slice(s, offset, limit)| == limit.value
    ensures Slice(s + [i], offset, limit) == Slice(s, offset, limit)
    ensures Slice(s + [], offset, limit) == Slice(s, offset, limit)
  {
    assert s + [] == s;
  }
}
