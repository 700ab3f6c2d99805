/** What a columnar table holds, seen as values: a column of cells per name, a row per position. */
module Grids {
  import opened Bits
  import opened Values

  type Grid = seq<seq<Value>>

  predicate NamesApart(names: seq<Col>) { forall i, j :: 0 <= i < j < |names| ==> names[i] != names[j] }

  /** One column of n cells per name. */
  predicate WfGrid(names: seq<Col>, grid: Grid, n: nat) {
    NamesApart(names) && |grid| == |names| > 0 && forall k :: 0 <= k < |grid| ==> |grid[k]| == n
  }

  /** A row is deleted only when every column is null. */
  predicate LiveAt(names: seq<Col>, grid: Grid, n: nat, i: nat)
    requires WfGrid(names, grid, n) && i < n
  {
    exists k :: 0 <= k < |grid| && grid[k][i] != Null
  }

  /** The first k columns of row i, by name. */
  function RowUpTo(names: seq<Col>, grid: Grid, n: nat, i: nat, k: nat): Row
    requires WfGrid(names, grid, n) && i < n && k <= |names|
  {
    if k == 0 then map[] else RowUpTo(names, grid, n, i, k - 1)[names[k - 1] := grid[k - 1][i]]
  }

  function RowAt(names: seq<Col>, grid: Grid, n: nat, i: nat): Row
    requires WfGrid(names, grid, n) && i < n
  {
    RowUpTo(names, grid, n, i, |names|)
  }

  /** What reading row i gives: nothing when it is out of range or deleted. */
  function RowOf(names: seq<Col>, grid: Grid, n: nat, i: int): Option<Row>
    requires WfGrid(names, grid, n)
  {
    if 0 <= i < n && LiveAt(names, grid, n, i) then Some(RowAt(names, grid, n, i)) else None
  }

  lemma {:induction false} RowUpToHas(names: seq<Col>, grid: Grid, n: nat, i: nat, k: nat)
    requires WfGrid(names, grid, n) && i < n && k <= |names|
    ensures forall c :: c in RowUpTo(names, grid, n, i, k) <==> c in names[..k]
    ensures forall j :: 0 <= j < k ==> RowUpTo(names, grid, n, i, k)[names[j]] == grid[j][i]
  {
    if k > 0 {
      RowUpToHas(names, grid, n, i, k - 1);
      var before := RowUpTo(names, grid, n, i, k - 1);
      assert names[..k] == names[..k - 1] + [names[k - 1]];
      forall j | 0 <= j < k
        ensures before[names[k - 1] := grid[k - 1][i]][names[j]] == grid[j][i]
      {
        if j < k - 1 {
          assert names[j] in names[..k - 1] && names[j] != names[k - 1];
        }
      }
    }
  }

  // a row holds exactly its cells
  lemma RowHas(names: seq<Col>, grid: Grid, n: nat, i: nat)
    requires WfGrid(names, grid, n) && i < n
    ensures forall c :: c in RowAt(names, grid, n, i) <==> c in names
    ensures forall j :: 0 <= j < |names| ==> Get(RowAt(names, grid, n, i), names[j]) == grid[j][i]
  {
    RowUpToHas(names, grid, n, i, |names|);
    assert names[..|names|] == names;
  }

  lemma SameRow(names: seq<Col>, a: Grid, n: nat, i: nat, b: Grid, m: nat, j: nat)
    requires WfGrid(names, a, n) && WfGrid(names, b, m) && i < n && j < m
    requires forall k :: 0 <= k < |names| ==> a[k][i] == b[k][j]
    ensures RowOf(names, a, n, i) == RowOf(names, b, m, j)
  {
    assert LiveAt(names, a, n, i) <==> LiveAt(names, b, m, j) by {
      if LiveAt(names, a, n, i) {
        var k :| 0 <= k < |a| && a[k][i] != Null;
        assert b[k][j] != Null;
      }
      if LiveAt(names, b, m, j) {
        var k :| 0 <= k < |b| && b[k][j] != Null;
        assert a[k][i] != Null;
      }
    }
    SameRowUpTo(names, a, n, i, b, m, j, |names|);
  }

  lemma {:induction false} SameRowUpTo(names: seq<Col>, a: Grid, n: nat, i: nat, b: Grid, m: nat, j: nat, k: nat)
    requires WfGrid(names, a, n) && WfGrid(names, b, m) && i < n && j < m && k <= |names|
    requires forall k :: 0 <= k < |names| ==> a[k][i] == b[k][j]
    ensures RowUpTo(names, a, n, i, k) == RowUpTo(names, b, m, j, k)
  {
    if k > 0 {
      SameRowUpTo(names, a, n, i, b, m, j, k - 1);
    }
  }

  // ---- writes -----------------------------------------------------------------------

  /** row.get(name) for every column */
  function Project(names: seq<Col>, row: Row): (r: seq<Value>)
    ensures |r| == |names| && forall k :: 0 <= k < |names| ==> r[k] == Get(row, names[k])
  {
    seq(|names|, k requires 0 <= k < |names| => Get(row, names[k]))
  }

  function Appended(grid: Grid, vals: seq<Value>): (r: Grid)
    requires |vals| == |grid|
    ensures |r| == |grid| && forall k :: 0 <= k < |grid| ==> r[k] == grid[k] + [vals[k]]
  {
    seq(|grid|, k requires 0 <= k < |grid| => grid[k] + [vals[k]])
  }

  function Replaced(grid: Grid, i: nat, vals: seq<Value>): (r: Grid)
    requires |vals| == |grid| && forall k :: 0 <= k < |grid| ==> i < |grid[k]|
    ensures |r| == |grid| && forall k :: 0 <= k < |grid| ==> r[k] == grid[k][i := vals[k]]
  {
    seq(|grid|, k requires 0 <= k < |grid| => grid[k][i := vals[k]])
  }

  predicate SomeValue(vals: seq<Value>) { exists k :: 0 <= k < |vals| && vals[k] != Null }

  /** The row a projection stands for: every column by name, nulls included. */
  function RowFrom(names: seq<Col>, vals: seq<Value>): Row
    requires |names| == |vals|
  {
    if names == [] then map[]
    else RowFrom(names[..|names| - 1], vals[..|names| - 1])[names[|names| - 1] := vals[|names| - 1]]
  }

  lemma {:induction false} RowUpToIsFrom(names: seq<Col>, grid: Grid, n: nat, i: nat, vals: seq<Value>, k: nat)
    requires WfGrid(names, grid, n) && i < n && |vals| == |names| && k <= |names|
    requires forall j :: 0 <= j < |names| ==> grid[j][i] == vals[j]
    ensures RowUpTo(names, grid, n, i, k) == RowFrom(names[..k], vals[..k])
  {
    if k > 0 {
      RowUpToIsFrom(names, grid, n, i, vals, k - 1);
      assert names[..k][..k - 1] == names[..k - 1] && vals[..k][..k - 1] == vals[..k - 1];
    }
  }

  /** The row stored for given cells: nothing when they are all null. */
  function RowOrNone(names: seq<Col>, vals: seq<Value>): Option<Row>
    requires |names| == |vals|
  {
    if SomeValue(vals) then Some(RowFrom(names, vals)) else None
  }

  lemma RowOfCells(names: seq<Col>, grid: Grid, n: nat, i: nat, vals: seq<Value>)
    requires WfGrid(names, grid, n) && i < n && |vals| == |names|
    requires forall j :: 0 <= j < |names| ==> grid[j][i] == vals[j]
    ensures RowOf(names, grid, n, i) == RowOrNone(names, vals)
  {
    RowUpToIsFrom(names, grid, n, i, vals, |names|);
    assert names[..|names|] == names && vals[..|names|] == vals;
    if SomeValue(vals) {
      var k :| 0 <= k < |vals| && vals[k] != Null;
      assert grid[k][i] != Null;
    }
  }

  // Appending cells adds one row at the end and changes no other.
  lemma AfterAppend(names: seq<Col>, grid: Grid, n: nat, vals: seq<Value>)
    requires WfGrid(names, grid, n) && |vals| == |names|
    ensures WfGrid(names, Appended(grid, vals), n + 1)
    ensures forall i :: 0 <= i < n ==> RowOf(names, Appended(grid, vals), n + 1, i) == RowOf(names, grid, n, i)
    ensures RowOf(names, Appended(grid, vals), n + 1, n) == RowOrNone(names, vals)
  {
    var grid' := Appended(grid, vals);
    forall i | 0 <= i < n
      ensures RowOf(names, grid', n + 1, i) == RowOf(names, grid, n, i)
    {
      SameRow(names, grid', n + 1, i, grid, n, i);
    }
    RowOfCells(names, grid', n + 1, n, vals);
  }

  // Replacing a row's cells changes that row only.
  lemma AfterReplace(names: seq<Col>, grid: Grid, n: nat, i: nat, vals: seq<Value>)
    requires WfGrid(names, grid, n) && |vals| == |names| && i < n
    ensures WfGrid(names, Replaced(grid, i, vals), n)
    ensures forall j :: 0 <= j < n && j != i ==> RowOf(names, Replaced(grid, i, vals), n, j) == RowOf(names, grid, n, j)
    ensures RowOf(names, Replaced(grid, i, vals), n, i) == RowOrNone(names, vals)
  {
    var grid' := Replaced(grid, i, vals);
    forall j | 0 <= j < n && j != i
      ensures RowOf(names, grid', n, j) == RowOf(names, grid, n, j)
    {
      SameRow(names, grid', n, j, grid, n, j);
    }
    RowOfCells(names, grid', n, i, vals);
  }

  // a row read and projected again gives its cells back
  lemma {:induction false} RowFromHas(names: seq<Col>, vals: seq<Value>)
    requires |names| == |vals| && NamesApart(names)
    ensures forall c :: c in RowFrom(names, vals) <==> c in names
    ensures forall k :: 0 <= k < |names| ==> Get(RowFrom(names, vals), names[k]) == vals[k]
  {
    if names != [] {
      var m := |names| - 1;
      RowFromHas(names[..m], vals[..m]);
      assert names == names[..m] + [names[m]];
    }
  }

  lemma ProjectRowFrom(names: seq<Col>, vals: seq<Value>)
    requires |names| == |vals| && NamesApart(names)
    ensures Project(names, RowFrom(names, vals)) == vals
  {
    RowFromHas(names, vals);
  }

  // ---- conditions ---------------------------------------------------------------------

  datatype Condition =
    | CompareTo(c: Col, op: Compare, v: Value)
    | Member(c: Col, vs: seq<Value>)
    | Within(c: Col, lo: Value, hi: Value)

  datatype Combine = AllOf | AnyOf

  /** A null never matches. */
  predicate Matches(cond: Condition, x: Value) {
    x != Null &&
    match cond
    case CompareTo(_, op, v) => OpHolds(op, x, v)
    case Member(_, vs) => x in vs
    case Within(_, lo, hi) => Le(lo, x) && Le(x, hi)
  }

  /** The condition compares x with values of its own type. */
  predicate Fitting(cond: Condition, x: Value) {
    match cond
    case CompareTo(_, _, v) => Comparable(x, v)
    case Member(_, _) => true
    case Within(_, lo, hi) => Comparable(x, lo) && Comparable(x, hi)
  }

  /** The condition is met, seen through the integers and the texts themselves. */
  ghost predicate Meets(cond: Condition, x: Value)
    requires x != Null ==> Fitting(cond, x)
  {
    x != Null &&
    match cond
    case CompareTo(_, op, v) => Compares(op, x, v)
    case Member(_, vs) => exists j :: 0 <= j < |vs| && vs[j] == x
    case Within(_, lo, hi) =>
      if x.Num? then lo.n <= x.n <= hi.n
      else (x.s == lo.s || Precedes(lo.s, x.s)) && (x.s == hi.s || Precedes(x.s, hi.s))
  }

  lemma MatchesIs(cond: Condition, x: Value)
    ensures (x != Null ==> Fitting(cond, x)) ==> (Matches(cond, x) <==> Meets(cond, x))
    ensures Matches(cond, Null) == false
  {
    hide BytesLt;
    if x != Null && cond.CompareTo? && Fitting(cond, x) {
      OpHoldsIs(cond.op, x, cond.v);
    }
    if x.Text? && cond.Within? && cond.lo.Text? && cond.hi.Text? {
      BytesLtIs(cond.lo.s, x.s);
      BytesLtIs(x.s, cond.hi.s);
    }
  }

  /** The position of a column. */
  function IndexOf(names: seq<Col>, c: Col): (k: nat)
    requires c in names
    ensures k < |names| && names[k] == c
  {
    if names[0] == c then 0 else IndexOf(names[1..], c) + 1
  }

  function CellOf(names: seq<Col>, grid: Grid, n: nat, c: Col, i: nat): Value
    requires WfGrid(names, grid, n) && c in names && i < n
  {
    grid[IndexOf(names, c)][i]
  }

  ghost predicate Known(names: seq<Col>, conds: seq<Condition>) { forall k :: 0 <= k < |conds| ==> conds[k].c in names }

  /** Row i satisfies the conditions; no conditions ask nothing. */
  ghost predicate Combined(names: seq<Col>, grid: Grid, n: nat, conds: seq<Condition>, combine: Combine, i: nat)
    requires WfGrid(names, grid, n) && i < n && Known(names, conds)
  {
    if conds == [] then true
    else if combine.AllOf? then
      forall k :: 0 <= k < |conds| ==> Matches(conds[k], CellOf(names, grid, n, conds[k].c, i))
    else exists k :: 0 <= k < |conds| && Matches(conds[k], CellOf(names, grid, n, conds[k].c, i))
  }

  ghost predicate Hit(names: seq<Col>, grid: Grid, n: nat, conds: seq<Condition>, combine: Combine, i: nat)
    requires WfGrid(names, grid, n) && i < n && Known(names, conds)
  {
    LiveAt(names, grid, n, i) && Combined(names, grid, n, conds, combine, i)
  }

  /** Every cell asked about compares with the values it is compared with. */
  ghost predicate AllFitting(names: seq<Col>, grid: Grid, n: nat, conds: seq<Condition>)
    requires WfGrid(names, grid, n)
  {
    forall j, k, i ::
      0 <= j < |conds| && 0 <= k < |names| && names[k] == conds[j].c && 0 <= i < n && grid[k][i] != Null ==>
        Fitting(conds[j], grid[k][i])
  }

  /** Some cell of row i is not null, and its cells meet all or one of the conditions, if there are any. */
  ghost predicate RowMeets(names: seq<Col>, grid: Grid, n: nat, conds: seq<Condition>, combine: Combine, i: nat)
    requires WfGrid(names, grid, n) && i < n && AllFitting(names, grid, n, conds)
  {
    && (exists k :: 0 <= k < |grid| && grid[k][i] != Null)
    && (conds == [] ||
        match combine
        case AllOf =>
          forall j, k :: 0 <= j < |conds| && 0 <= k < |names| && names[k] == conds[j].c ==> Meets(conds[j], grid[k][i])
        case AnyOf =>
          exists j, k :: 0 <= j < |conds| && 0 <= k < |names| && names[k] == conds[j].c && Meets(conds[j], grid[k][i]))
  }

  lemma HitIs(names: seq<Col>, grid: Grid, n: nat, conds: seq<Condition>, combine: Combine, i: nat)
    requires WfGrid(names, grid, n) && i < n && Known(names, conds) && AllFitting(names, grid, n, conds)
    ensures Hit(names, grid, n, conds, combine, i) <==> RowMeets(names, grid, n, conds, combine, i)
  {
    hide Matches, Meets, Fitting;
    forall j | 0 <= j < |conds|
      ensures var k := IndexOf(names, conds[j].c);
        && 0 <= k < |names| && names[k] == conds[j].c && (grid[k][i] != Null ==> Fitting(conds[j], grid[k][i]))
        && (Matches(conds[j], CellOf(names, grid, n, conds[j].c, i)) <==> Meets(conds[j], grid[k][i]))
      ensures forall k :: 0 <= k < |names| && names[k] == conds[j].c ==> k == IndexOf(names, conds[j].c)
    {
      MatchesIs(conds[j], grid[IndexOf(names, conds[j].c)][i]);
    }
  }

  /** The live rows below m that satisfy the conditions, in order: what going row by row finds. */
  ghost function Hits(names: seq<Col>, grid: Grid, n: nat, conds: seq<Condition>, combine: Combine, m: nat): seq<nat>
    requires WfGrid(names, grid, n) && m <= n && Known(names, conds)
  {
    if m == 0 then []
    else
      Hits(names, grid, n, conds, combine, m - 1) +
        (if Hit(names, grid, n, conds, combine, m - 1) then [m - 1] else [])
  }

  predicate Rising(s: seq<nat>) { forall i, j :: 0 <= i < j < |s| ==> s[i] < s[j] }

  // exactly the matching rows, each once, in order
  lemma {:induction false} HitsExact(names: seq<Col>, grid: Grid, n: nat, conds: seq<Condition>, combine: Combine,
                                     m: nat)
    requires WfGrid(names, grid, n) && m <= n && Known(names, conds)
    ensures forall i ::
      i in Hits(names, grid, n, conds, combine, m) <==> 0 <= i < m && Hit(names, grid, n, conds, combine, i)
    ensures Rising(Hits(names, grid, n, conds, combine, m))
  {
    if m > 0 {
      HitsExact(names, grid, n, conds, combine, m - 1);
      var h := Hits(names, grid, n, conds, combine, m - 1);
      forall i | 0 <= i < |h|
        ensures h[i] < m - 1
      {
        assert h[i] in h;
      }
    }
  }

  // the rows found, seen through the integers and the texts themselves: each once, in order, so as many as there are
  lemma HitsMeet(names: seq<Col>, grid: Grid, n: nat, conds: seq<Condition>, combine: Combine)
    requires WfGrid(names, grid, n) && Known(names, conds) && AllFitting(names, grid, n, conds)
    ensures var hits := Hits(names, grid, n, conds, combine, n);
      && Rising(hits) && (forall i :: i in hits <==> 0 <= i < n && RowMeets(names, grid, n, conds, combine, i))
      && |hits| == |set i | 0 <= i < n && RowMeets(names, grid, n, conds, combine, i)|
  {
    hide Hit, RowMeets, Hits, AllFitting, WfGrid, Known;
    var hits := Hits(names, grid, n, conds, combine, n);
    HitsExact(names, grid, n, conds, combine, n);
    forall i | 0 <= i < n
      ensures Hit(names, grid, n, conds, combine, i) <==> RowMeets(names, grid, n, conds, combine, i)
    {
      HitIs(names, grid, n, conds, combine, i);
    }
    RisingSize(hits, set i | 0 <= i < n && RowMeets(names, grid, n, conds, combine, i));
  }

  lemma {:induction false} RisingSize(s: seq<nat>, all: set<nat>)
    requires Rising(s) && forall i :: i in all <==> i in s
    ensures |s| == |all|
  {
    if s == [] {
      assert all == {};
    } else {
      var front, last := s[..|s| - 1], s[|s| - 1];
      assert s == front + [last] && last !in front;
      RisingSize(front, all - {last});
    }
  }

  // ---- masks --------------------------------------------------------------------------------

  /** One byte per row, 1 where the row is flagged. */
  predicate IsFlags(mask: seq<byte>, n: nat) { |mask| == n && forall i :: 0 <= i < n ==> mask[i] < 2 }

  lemma FlagOps(op: Op, a: byte, b: byte)
    requires a < 2 && b < 2
    ensures ByteOp(op, a, b) < 2 && (ByteOp(op, a, b) == 1 <==> OnBits(op, a == 1, b == 1))
  {
    assert Bitwise(op, 0, 0) == 0;
    assert (a == 0 && b == 0)
      || Bitwise(op, a, b) == 2 * Bitwise(op, a / 2, b / 2) + Bit(OnBits(op, a % 2 == 1, b % 2 == 1));
  }

  // combining two masks as integers combines their flags row by row
  lemma CombineFlags(op: Op, a: seq<byte>, b: seq<byte>, n: nat)
    requires IsFlags(a, n) && IsFlags(b, n)
    ensures Bitwise(op, FromBytes(a), FromBytes(b)) == FromBytes(ZipBytes(op, a, b)) && IsFlags(ZipBytes(op, a, b), n)
    ensures forall i :: 0 <= i < n ==> (ZipBytes(op, a, b)[i] == 1 <==> OnBits(op, a[i] == 1, b[i] == 1))
  {
    BitwiseOnBytes(op, a, b);
    forall i | 0 <= i < n
      ensures ZipBytes(op, a, b)[i] < 2 && (ZipBytes(op, a, b)[i] == 1 <==> OnBits(op, a[i] == 1, b[i] == 1))
    {
      FlagOps(op, a[i], b[i]);
    }
  }

  lemma {:induction false} OnesAppend(a: seq<byte>, b: byte)
    ensures Ones(a + [b]) == Ones(a) + (if b == 1 then 1 else 0)
  {
    if a != [] {
      assert (a + [b])[1..] == a[1..] + [b];
      OnesAppend(a[1..], b);
    } else {
      assert ([] + [b])[1..] == [];
    }
  }

  // a mask of exactly the hits has as many ones as there are hits
  lemma {:induction false} OnesAreHits(names: seq<Col>, grid: Grid, n: nat, conds: seq<Condition>, combine: Combine,
                                       mask: seq<byte>, m: nat)
    requires WfGrid(names, grid, n) && m <= n && Known(names, conds) && IsFlags(mask, n)
    requires forall i :: 0 <= i < n ==> (mask[i] == 1 <==> Hit(names, grid, n, conds, combine, i))
    ensures Ones(mask[..m]) == |Hits(names, grid, n, conds, combine, m)|
  {
    if m > 0 {
      OnesAreHits(names, grid, n, conds, combine, mask, m - 1);
      assert mask[..m] == mask[..m - 1] + [mask[m - 1]];
      OnesAppend(mask[..m - 1], mask[m - 1]);
    }
  }
}
