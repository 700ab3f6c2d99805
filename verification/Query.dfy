/** Queries: built up call by call, planned against the indexes, and executed. */
module Queries {
  import opened Values
  import opened Codec
  import opened Images
  import opened Indexes
  import opened SnapDBs
  import opened Lookups
  import opened Persist

  // ---- conditions -------------------------------------------------------------------

  /** What a condition asks of a column: a value, or comparisons in the order given. */
  datatype Spec = Exactly(v: Value) | Ops(ops: seq<(Compare, Value)>)

  /** Conditions by column, in dict order. */
  type Conditions = seq<(Col, Spec)>

  predicate SpecHolds(spec: Spec, x: Value) {
    match spec
    case Exactly(v) => x == v
    case Ops(ops) => forall k :: 0 <= k < |ops| ==> OpHolds(ops[k].0, x, ops[k].1)
  }

  predicate Hold(conds: Conditions, row: Row) {
    forall k :: 0 <= k < |conds| ==> SpecHolds(conds[k].1, Get(row, conds[k].0))
  }

  /** The spec compares x with values of its own type only. */
  ghost predicate Compared(spec: Spec, x: Value) {
    spec.Ops? ==> forall k :: 0 <= k < |spec.ops| ==> Comparable(x, spec.ops[k].1)
  }

  /** x is the value asked for, or every comparison holds between the integers or the texts themselves. */
  ghost predicate Met(spec: Spec, x: Value)
    requires Compared(spec, x)
  {
    match spec
    case Exactly(v) => x == v
    case Ops(ops) => forall k :: 0 <= k < |ops| ==> Compares(ops[k].0, x, ops[k].1)
  }

  /** The row has a value in every column asked about, and it compares with those it is asked to. */
  ghost predicate ComparedIn(conds: Conditions, row: Row) {
    forall k :: 0 <= k < |conds| ==> conds[k].0 in row && Compared(conds[k].1, row[conds[k].0])
  }

  ghost predicate AllMet(conds: Conditions, row: Row)
    requires ComparedIn(conds, row)
  {
    forall k :: 0 <= k < |conds| ==> Met(conds[k].1, row[conds[k].0])
  }

  lemma SpecIsMet(spec: Spec, x: Value)
    requires Compared(spec, x)
    ensures SpecHolds(spec, x) <==> Met(spec, x)
  {
    if spec.Ops? {
      forall k | 0 <= k < |spec.ops|
        ensures OpHolds(spec.ops[k].0, x, spec.ops[k].1) <==> Compares(spec.ops[k].0, x, spec.ops[k].1)
      {
        OpHoldsIs(spec.ops[k].0, x, spec.ops[k].1);
      }
    }
  }

  // conditions hold of a row exactly when its integers and texts themselves meet them
  lemma HoldIs(conds: Conditions, row: Row)
    requires ComparedIn(conds, row)
    ensures Hold(conds, row) <==> AllMet(conds, row)
  {
    hide SpecHolds, Met, Compared;
    forall k | 0 <= k < |conds|
      ensures SpecHolds(conds[k].1, Get(row, conds[k].0)) <==> Met(conds[k].1, row[conds[k].0])
    {
      SpecIsMet(conds[k].1, row[conds[k].0]);
    }
  }

  predicate OneEach(conds: Conditions) { forall i, j :: 0 <= i < j < |conds| ==> conds[i].0 != conds[j].0 }

  /** Orderings are asked only of the schema's columns and against values of their type. */
  predicate WellTyped(schema: Schema, conds: Conditions) {
    forall k :: 0 <= k < |conds| && conds[k].1.Ops? ==>
      forall j :: 0 <= j < |conds[k].1.ops| ==> OpTyped(schema, conds[k].0, conds[k].1.ops[j])
  }

  predicate OpTyped(schema: Schema, c: Col, op: (Compare, Value)) {
    op.0 == IsEq || op.0 == IsNe ||
    exists i :: 0 <= i < |schema| && schema[i].name == c &&
      (if schema[i].kind.BytesKind? then op.1.Text? else op.1.Num?)
  }

  /** One comparison of a compiled predicate. */
  datatype Expr = Expr(c: Col, op: Compare, v: Value)

  predicate ExprsHold(exprs: seq<Expr>, row: Row) {
    forall k :: 0 <= k < |exprs| ==> OpHolds(exprs[k].op, Get(row, exprs[k].c), exprs[k].v)
  }

  /** _compile_filter: one flat conjunction, true of exactly the rows all conditions hold of. */
  method CompileFilter(conds: Conditions) returns (pred: Row -> bool)
    ensures forall row :: pred(row) <==> Hold(conds, row)
  {
    var exprs: seq<Expr> := [];
    for k := 0 to |conds|
      invariant forall row :: ExprsHold(exprs, row) <==> Hold(conds[..k], row)
    {
      var (c, spec) := conds[k];
      ghost var before := exprs;
      match spec {
        case Ops(ops) =>
          for j := 0 to |ops|
            invariant forall row ::
              ExprsHold(exprs, row) <==> ExprsHold(before, row) && SpecHolds(Ops(ops[..j]), Get(row, c))
          {
            var e := Expr(c, ops[j].0, ops[j].1);
            ExprsPush(exprs, e);
            OpsPush(ops, j);
            exprs := exprs + [e];
          }
          assert ops[..|ops|] == ops;
        case Exactly(v) =>
          ExprsPush(exprs, Expr(c, IsEq, v));
          exprs := exprs + [Expr(c, IsEq, v)];
      }
      HoldPush(conds, k);
    }
    assert conds[..|conds|] == conds;
    pred := row => ExprsHold(exprs, row);
  }

  lemma ExprsPush(exprs: seq<Expr>, e: Expr)
    ensures forall row :: ExprsHold(exprs + [e], row) <==> ExprsHold(exprs, row) && OpHolds(e.op, Get(row, e.c), e.v)
  {
    forall row
      ensures ExprsHold(exprs + [e], row) <==> ExprsHold(exprs, row) && OpHolds(e.op, Get(row, e.c), e.v)
    {
      assert (exprs + [e])[|exprs|] == e;
      assert forall k :: 0 <= k < |exprs| ==> (exprs + [e])[k] == exprs[k];
    }
  }

  lemma OpsPush(ops: seq<(Compare, Value)>, j: nat)
    requires j < |ops|
    ensures forall x ::
      SpecHolds(Ops(ops[..j + 1]), x) <==> SpecHolds(Ops(ops[..j]), x) && OpHolds(ops[j].0, x, ops[j].1)
  {
    forall x
      ensures SpecHolds(Ops(ops[..j + 1]), x) <==> SpecHolds(Ops(ops[..j]), x) && OpHolds(ops[j].0, x, ops[j].1)
    {
      assert ops[..j + 1][j] == ops[j];
      assert forall k :: 0 <= k < j ==> ops[..j + 1][k] == ops[..j][k];
    }
  }

  lemma HoldPush(conds: Conditions, k: nat)
    requires k < |conds|
    ensures forall row ::
      Hold(conds[..k + 1], row) <==> Hold(conds[..k], row) && SpecHolds(conds[k].1, Get(row, conds[k].0))
  {
    forall row
      ensures Hold(conds[..k + 1], row) <==> Hold(conds[..k], row) && SpecHolds(conds[k].1, Get(row, conds[k].0))
    {
      assert conds[..k + 1][k] == conds[k];
      assert forall j :: 0 <= j < k ==> conds[..k + 1][j] == conds[..k][j];
    }
  }

  // ---- merging conditions --------------------------------------------------------------

  /** d[c] = spec: in place when c is there, else at the end. */
  function SetCondition(conds: Conditions, c: Col, spec: Spec): Conditions {
    if conds == [] then [(c, spec)]
    else if conds[0].0 == c then [(c, spec)] + conds[1..]
    else [conds[0]] + SetCondition(conds[1..], c, spec)
  }

  /** merged.update(conditions) */
  function Merge(conds: Conditions, more: Conditions): Conditions
    decreases more
  {
    if more == [] then conds else Merge(SetCondition(conds, more[0].0, more[0].1), more[1..])
  }

  lemma {:induction false} SetHolds(conds: Conditions, c: Col, spec: Spec, row: Row)
    ensures Hold(conds, row) && SpecHolds(spec, Get(row, c)) ==> Hold(SetCondition(conds, c, spec), row)
    ensures Hold(SetCondition(conds, c, spec), row) ==> SpecHolds(spec, Get(row, c))
  {
    var r := SetCondition(conds, c, spec);
    if conds == [] || conds[0].0 == c {
      assert r[0] == (c, spec);
    } else {
      SetHolds(conds[1..], c, spec, row);
      assert r[1..] == SetCondition(conds[1..], c, spec);
      if Hold(r, row) {
        assert forall k :: 0 <= k < |r| - 1 ==> r[1..][k] == r[k + 1];
      }
      if Hold(conds, row) && SpecHolds(spec, Get(row, c)) {
        assert conds[0] == r[0];
        assert Hold(conds[1..], row);
      }
    }
  }

  // d[c] = spec puts that entry and leaves those of other columns
  lemma {:induction false} SetKeepsOthers(conds: Conditions, c: Col, spec: Spec)
    requires OneEach(conds)
    ensures OneEach(SetCondition(conds, c, spec))
    ensures forall e :: e in SetCondition(conds, c, spec) <==> e == (c, spec) || (e in conds && e.0 != c)
  {
    if conds != [] {
      var rest, r := conds[1..], SetCondition(conds, c, spec);
      assert conds == [conds[0]] + rest;
      assert forall e :: e in rest ==> e.0 != conds[0].0;
      if conds[0].0 == c {
        assert r == [(c, spec)] + rest;
      } else {
        SetKeepsOthers(rest, c, spec);
        assert r == [conds[0]] + SetCondition(rest, c, spec);
      }
    }
  }

  // d[c] = spec replaces the entry of c where it stands, or puts a new one behind the others
  lemma {:induction false} SetPlaces(conds: Conditions, c: Col, spec: Spec)
    requires OneEach(conds)
    ensures (forall k :: 0 <= k < |conds| ==> conds[k].0 != c) ==> SetCondition(conds, c, spec) == conds + [(c, spec)]
    ensures forall k :: 0 <= k < |conds| && conds[k].0 == c ==> SetCondition(conds, c, spec) == conds[k := (c, spec)]
  {
    if conds != [] && conds[0].0 != c {
      var rest := conds[1..];
      SetPlaces(rest, c, spec);
      assert forall k :: 0 <= k < |rest| ==> rest[k] == conds[k + 1];
      forall k | 0 <= k < |conds| && conds[k].0 == c
        ensures SetCondition(conds, c, spec) == conds[k := (c, spec)]
      {
        assert rest[k - 1 := (c, spec)] == conds[k := (c, spec)][1..];
      }
    }
  }

  /** The conditions on columns that conds asks nothing about, in order. */
  ghost function Others(conds: Conditions, more: Conditions): Conditions {
    if more == [] then []
    else if exists k :: 0 <= k < |conds| && conds[k].0 == more[0].0 then Others(conds, more[1..])
    else [more[0]] + Others(conds, more[1..])
  }

  lemma {:induction false} SameOthers(conds: Conditions, conds': Conditions, more: Conditions)
    requires forall j :: 0 <= j < |more| ==>
      ((exists k :: 0 <= k < |conds| && conds[k].0 == more[j].0) <==>
        exists k :: 0 <= k < |conds'| && conds'[k].0 == more[j].0)
    ensures Others(conds, more) == Others(conds', more)
  {
    if more != [] {
      assert forall j :: 0 <= j < |more| - 1 ==> more[1..][j] == more[j + 1];
      SameOthers(conds, conds', more[1..]);
      assert more[0] == more[0];
    }
  }

  /** Columns keep their places, with the condition given last, and new ones follow in order. */
  ghost predicate InPlace(conds: Conditions, more: Conditions, r: Conditions) {
    && |r| >= |conds| && r[|conds|..] == Others(conds, more)
    && (forall k :: 0 <= k < |conds| && (forall j :: 0 <= j < |more| ==> more[j].0 != conds[k].0) ==> r[k] == conds[k])
    && forall k, j :: 0 <= k < |conds| && 0 <= j < |more| && more[j].0 == conds[k].0 ==> r[k] == more[j]
  }

  lemma InPlaceReplaced(conds: Conditions, at: nat, x: (Col, Spec), rest: Conditions, r: Conditions)
    requires OneEach(conds) && at < |conds| && conds[at].0 == x.0
    requires (forall j :: 0 <= j < |rest| ==> rest[j].0 != x.0) && InPlace(conds[at := x], rest, r)
    ensures InPlace(conds, [x] + rest, r)
  {
    var next, more := conds[at := x], [x] + rest;
    assert more[1..] == rest && forall j :: 0 <= j < |rest| ==> more[j + 1] == rest[j];
    forall j | 0 <= j < |rest|
      ensures (exists k :: 0 <= k < |conds| && conds[k].0 == rest[j].0) <==>
        exists k :: 0 <= k < |next| && next[k].0 == rest[j].0
    {
      if k :| 0 <= k < |conds| && conds[k].0 == rest[j].0 {
        assert next[k].0 == rest[j].0;
      }
    }
    SameOthers(conds, next, rest);
    assert Others(conds, more) == Others(conds, rest);
    assert r[at] == next[at] == x;
    forall k, j | 0 <= k < |conds| && 0 <= j < |more| && more[j].0 == conds[k].0
      ensures r[k] == more[j]
    {
      if j == 0 {
        assert k == at;
      } else {
        assert rest[j - 1].0 == next[k].0;
      }
    }
  }

  lemma InPlaceAppended(conds: Conditions, x: (Col, Spec), rest: Conditions, r: Conditions)
    requires forall k :: 0 <= k < |conds| ==> conds[k].0 != x.0
    requires (forall j :: 0 <= j < |rest| ==> rest[j].0 != x.0) && InPlace(conds + [x], rest, r)
    ensures InPlace(conds, [x] + rest, r)
  {
    var next, more := conds + [x], [x] + rest;
    assert more[1..] == rest && forall j :: 0 <= j < |rest| ==> more[j + 1] == rest[j];
    forall j | 0 <= j < |rest|
      ensures (exists k :: 0 <= k < |conds| && conds[k].0 == rest[j].0) <==>
        exists k :: 0 <= k < |next| && next[k].0 == rest[j].0
    {
      if k :| 0 <= k < |conds| && conds[k].0 == rest[j].0 {
        assert next[k].0 == rest[j].0;
      }
    }
    SameOthers(conds, next, rest);
    assert next[|conds|] == x && r[|conds|] == x;
    assert r[|conds|..] == [x] + r[|next|..];
    assert forall k :: 0 <= k < |conds| ==> next[k] == conds[k];
  }

  // Conditions are merged like dicts.
  lemma {:induction false} MergePlaces(conds: Conditions, more: Conditions)
    requires OneEach(conds) && OneEach(more)
    ensures InPlace(conds, more, Merge(conds, more))
    decreases more
  {
    hide InPlace, SetCondition;
    if more == [] {
      NothingMerged(conds);
    } else {
      var x, rest := more[0], more[1..];
      assert more == [x] + rest && forall j :: 0 <= j < |rest| ==> rest[j] == more[j + 1];
      var next := SetCondition(conds, x.0, x.1);
      SetPlaces(conds, x.0, x.1);
      SetKeepsOthers(conds, x.0, x.1);
      MergePlaces(next, rest);
      if at :| 0 <= at < |conds| && conds[at].0 == x.0 {
        InPlaceReplaced(conds, at, x, rest, Merge(next, rest));
      } else {
        InPlaceAppended(conds, x, rest, Merge(next, rest));
      }
    }
  }

  lemma NothingMerged(conds: Conditions)
    ensures InPlace(conds, [], Merge(conds, []))
  {
  }

  // Merged conditions hold of a row that satisfies the old and the new ones; they imply the new ones.
  lemma {:induction false} MergeHolds(conds: Conditions, more: Conditions, row: Row)
    requires OneEach(conds) && OneEach(more)
    ensures Hold(conds, row) && Hold(more, row) ==> Hold(Merge(conds, more), row)
    ensures Hold(Merge(conds, more), row) ==> Hold(more, row)
    ensures OneEach(Merge(conds, more))
    ensures forall e :: e in conds && (forall k :: 0 <= k < |more| ==> more[k].0 != e.0) ==> e in Merge(conds, more)
    decreases more
  {
    if more != [] {
      var (c, spec) := more[0];
      var next := SetCondition(conds, c, spec);
      SetHolds(conds, c, spec, row);
      SetKeepsOthers(conds, c, spec);
      assert more == [more[0]] + more[1..];
      MergeHolds(next, more[1..], row);
    }
  }

  // ---- queries, built up call by call ------------------------------------------------------

  datatype Query = Query(pred: Option<Row -> bool>, conds: Option<Conditions>, order: Option<(Col, bool)>,
                         limit: Option<int>, offset: int) {
    predicate Accepts(row: Row) { pred.Some? ==> pred.value(row) }

    /** The planner's conditions, none when a custom predicate cleared them. */
    function Planned(): Conditions { if conds.Some? then conds.value else [] }

    /** What the planner relies on: accepted rows satisfy the recorded conditions. */
    ghost predicate Consistent() {
      OneEach(Planned()) && (forall row :: Accepts(row) ==> Hold(Planned(), row)) && (pred.None? ==> Planned() == [])
    }

    function And(p: Row -> bool): Row -> bool { if pred.None? then p else row => pred.value(row) && p(row) }

    function WhereFn(fn: Row -> bool): Query { Query(Some(And(fn)), None, order, limit, offset) }

    function Order(column: Col, desc: bool): Query { Query(pred, conds, Some((column, desc)), limit, offset) }

    function Slice(limit: int, offset: int): Query { Query(pred, conds, order, Some(limit), offset) }

    /** Adds conditions: the recorded ones are overwritten column by column, the predicate accumulates. */
    method Filter(more: Conditions) returns (q: Query)
      requires Consistent() && OneEach(more)
      ensures q.Consistent() && q.order == order && q.limit == limit && q.offset == offset
      ensures q.conds == Some(Merge(Planned(), more)) && q.pred.Some?
      ensures forall row :: q.Accepts(row) <==> Accepts(row) && Hold(more, row)
      ensures forall row :: ComparedIn(more, row) ==> (q.Accepts(row) <==> Accepts(row) && AllMet(more, row))
    {
      var merged := Merge(Planned(), more);
      var p := CompileFilter(merged);
      q := Query(Some(And(p)), Some(merged), order, limit, offset);
      MergeHolds(Planned(), more, map[]);
      forall row
        ensures q.Accepts(row) <==> Accepts(row) && Hold(more, row)
        ensures q.Accepts(row) ==> Hold(merged, row)
      {
        MergeHolds(Planned(), more, row);
      }
      forall row | ComparedIn(more, row)
        ensures Hold(more, row) <==> AllMet(more, row)
      {
        HoldIs(more, row);
      }
    }

    method Between(column: Col, low: Value, high: Value, includeLow: bool, includeHigh: bool) returns (q: Query)
      requires Consistent()
      ensures q.Consistent() && q.order == order && q.limit == limit && q.offset == offset
      ensures forall row ::
        q.Accepts(row) <==> Accepts(row) && InRange(Get(row, column), At(low, includeLow), At(high, includeHigh))
      ensures low.Num? && high.Num? ==> forall row: Row :: column in row && row[column].Num? ==>
        var x := row[column].n;
        (q.Accepts(row) <==>
          && Accepts(row)
          && (if includeLow then low.n <= x else low.n < x)
          && (if includeHigh then x <= high.n else x < high.n))
      ensures low.Text? && high.Text? ==> forall row: Row :: column in row && row[column].Text? ==>
        var x := row[column].s;
        (q.Accepts(row) <==>
          && Accepts(row)
          && (Precedes(low.s, x) || (includeLow && x == low.s))
          && (Precedes(x, high.s) || (includeHigh && x == high.s)))
    {
      var spec := Ops([(if includeLow then IsGte else IsGt, low), (if includeHigh then IsLte else IsLt, high)]);
      var more := [(column, spec)];
      q := Filter(more);
      forall row
        ensures Hold(more, row) <==> InRange(Get(row, column), At(low, includeLow), At(high, includeHigh))
      {
        assert Hold(more, row) <==> SpecHolds(spec, Get(row, column)) by {
          assert more[0] == (column, spec);
        }
        assert SpecHolds(spec, Get(row, column)) <==>
          (OpHolds(spec.ops[0].0, Get(row, column), low) && OpHolds(spec.ops[1].0, Get(row, column), high));
      }
      forall row
        ensures var v := Get(row, column);
          var (l, h) := (At(low, includeLow), At(high, includeHigh));
          && (v.Num? && NumBounds(l, h) ==> (InRange(v, l, h) <==> NumWithin(v.n, l, h)))
          && (v.Text? && TextBounds(l, h) ==> (InRange(v, l, h) <==> TextWithin(v.s, l, h)))
      {
        InRangeIs(Get(row, column), At(low, includeLow), At(high, includeHigh));
      }
    }
  }

  /** Query(db) */
  const ALL_ROWS: Query := Query(None, None, None, None, 0)

  datatype Call =
    | CallFilter(more: Conditions)
    | CallBetween(c: Col, low: Value, high: Value, includeLow: bool, includeHigh: bool)
    | CallWhere(fn: Row -> bool)
    | CallOrder(c: Col, desc: bool)
    | CallSlice(limit: int, offset: int)
  {
    /** What the call asks of a row. */
    predicate Asks(row: Row) {
      match this
      case CallFilter(more) => Hold(more, row)
      case CallBetween(c, low, high, includeLow, includeHigh) =>
        InRange(Get(row, c), At(low, includeLow), At(high, includeHigh))
      case CallWhere(fn) => fn(row)
      case _ => true
    }
  }

  predicate AllAsk(calls: seq<Call>, row: Row) { forall k :: 0 <= k < |calls| ==> calls[k].Asks(row) }

  /** The order set last, and the slice set last. */
  function LastOrder(calls: seq<Call>): Option<(Col, bool)> {
    if calls == [] then None
    else if calls[|calls| - 1].CallOrder? then Some((calls[|calls| - 1].c, calls[|calls| - 1].desc))
    else LastOrder(calls[..|calls| - 1])
  }

  function LastSlice(calls: seq<Call>): (Option<int>, int) {
    if calls == [] then (None, 0)
    else if calls[|calls| - 1].CallSlice? then (Some(calls[|calls| - 1].limit), calls[|calls| - 1].offset)
    else LastSlice(calls[..|calls| - 1])
  }

  /** Any chain of builder calls asks for exactly the rows every call asks for, however often a column
      is constrained again, and the planner's conditions never rule one of them out. */
  method Build(calls: seq<Call>) returns (q: Query)
    requires forall k :: 0 <= k < |calls| && calls[k].CallFilter? ==> OneEach(calls[k].more)
    ensures q.Consistent() && forall row :: q.Accepts(row) <==> AllAsk(calls, row)
    ensures q.order == LastOrder(calls) && (q.limit, q.offset) == LastSlice(calls)
    ensures forall k ::
      0 <= k < |calls| && calls[k].CallOrder? && (forall j :: k < j < |calls| ==> !calls[j].CallOrder?) ==>
        q.order == Some((calls[k].c, calls[k].desc))
    ensures forall k ::
      0 <= k < |calls| && calls[k].CallSlice? && (forall j :: k < j < |calls| ==> !calls[j].CallSlice?) ==>
        q.limit == Some(calls[k].limit) && q.offset == calls[k].offset
    ensures (forall k :: 0 <= k < |calls| ==> !calls[k].CallOrder?) ==> q.order == None
    ensures (forall k :: 0 <= k < |calls| ==> !calls[k].CallSlice?) ==> q.limit == None && q.offset == 0
  {
    q := ALL_ROWS;
    for k := 0 to |calls|
      invariant q.Consistent() && forall row :: q.Accepts(row) <==> AllAsk(calls[..k], row)
      invariant q.order == LastOrder(calls[..k]) && (q.limit, q.offset) == LastSlice(calls[..k])
    {
      var next := Apply(q, calls[k]);
      assert calls[..k + 1][..k] == calls[..k];
      forall row
        ensures AllAsk(calls[..k + 1], row) <==> AllAsk(calls[..k], row) && calls[k].Asks(row)
      {
        assert calls[..k + 1][k] == calls[k];
        assert forall j :: 0 <= j < k ==> calls[..k + 1][j] == calls[..k][j];
      }
      q := next;
    }
    assert calls[..|calls|] == calls;
    NoneSet(calls);
    forall k | 0 <= k < |calls| && calls[k].CallOrder? && forall j :: k < j < |calls| ==> !calls[j].CallOrder?
      ensures LastOrder(calls) == Some((calls[k].c, calls[k].desc))
    {
      LastOrderIs(calls, k);
    }
    forall k | 0 <= k < |calls| && calls[k].CallSlice? && forall j :: k < j < |calls| ==> !calls[j].CallSlice?
      ensures LastSlice(calls) == (Some(calls[k].limit), calls[k].offset)
    {
      LastSliceIs(calls, k);
    }
  }

  // the order set last is that of the last call for one
  lemma {:induction false} LastOrderIs(calls: seq<Call>, k: nat)
    requires k < |calls| && calls[k].CallOrder? && forall j :: k < j < |calls| ==> !calls[j].CallOrder?
    ensures LastOrder(calls) == Some((calls[k].c, calls[k].desc))
  {
    if k < |calls| - 1 {
      LastOrderIs(calls[..|calls| - 1], k);
    }
  }

  lemma {:induction false} LastSliceIs(calls: seq<Call>, k: nat)
    requires k < |calls| && calls[k].CallSlice? && forall j :: k < j < |calls| ==> !calls[j].CallSlice?
    ensures LastSlice(calls) == (Some(calls[k].limit), calls[k].offset)
  {
    if k < |calls| - 1 {
      LastSliceIs(calls[..|calls| - 1], k);
    }
  }

  lemma {:induction false} NoneSet(calls: seq<Call>)
    ensures (forall k :: 0 <= k < |calls| ==> !calls[k].CallOrder?) ==> LastOrder(calls) == None
    ensures (forall k :: 0 <= k < |calls| ==> !calls[k].CallSlice?) ==> LastSlice(calls) == (None, 0)
  {
    if calls != [] {
      NoneSet(calls[..|calls| - 1]);
    }
  }

  method Apply(q: Query, call: Call) returns (r: Query)
    requires q.Consistent() && (call.CallFilter? ==> OneEach(call.more))
    ensures r.Consistent() && forall row :: r.Accepts(row) <==> q.Accepts(row) && call.Asks(row)
    ensures r.order == (if call.CallOrder? then Some((call.c, call.desc)) else q.order)
    ensures (r.limit, r.offset) == if call.CallSlice? then (Some(call.limit), call.offset) else (q.limit, q.offset)
  {
    match call {
      case CallFilter(more) => r := q.Filter(more);
      case CallBetween(c, low, high, includeLow, includeHigh) => r := q.Between(c, low, high, includeLow, includeHigh);
      case CallWhere(fn) => r := q.WhereFn(fn);
      case CallOrder(c, desc) => r := q.Order(c, desc);
      case CallSlice(limit, offset) => r := q.Slice(limit, offset);
    }
  }

  // ---- planning ---------------------------------------------------------------------------------

  /** How one condition is served: a hash lookup, a range with one bounded side, or both. */
  datatype Plan =
    | HashPlan(c: Col, v: Value)
    | LowPlan(c: Col, bound: Value, included: bool)
    | HighPlan(c: Col, bound: Value, included: bool)
    | BetweenPlan(c: Col, low: Value, high: Value, includeLow: bool, includeHigh: bool)
  {
    function Low(): Bound {
      match this
      case LowPlan(_, bound, included) => At(bound, included)
      case BetweenPlan(_, low, _, includeLow, _) => At(low, includeLow)
      case _ => Open
    }

    function High(): Bound {
      match this
      case HighPlan(_, bound, included) => At(bound, included)
      case BetweenPlan(_, _, high, _, includeHigh) => At(high, includeHigh)
      case _ => Open
    }

    /** The rows the plan's index lookup finds. */
    predicate Finds(row: Row) {
      if HashPlan? then Get(row, c) == v else InRange(Get(row, c), Low(), High())
    }
  }

  predicate RangeOp(op: Compare) { op in {IsGt, IsGte, IsLt, IsLte} }

  predicate LowOp(op: Compare) { op == IsGt || op == IsGte }

  predicate HighOp(op: Compare) { op == IsLt || op == IsLte }

  predicate AllRangeOps(ops: seq<(Compare, Value)>) { forall k :: 0 <= k < |ops| ==> RangeOp(ops[k].0) }

  /** A spec a range index can serve on its own. */
  predicate Servable(spec: Spec) { spec.Ops? && spec.ops != [] && AllRangeOps(spec.ops) }

  /** v is the last bound given on one side. */
  ghost predicate LastBound(ops: seq<(Compare, Value)>, low: bool, v: Value, included: bool) {
    exists k ::
      && 0 <= k < |ops| && ops[k].1 == v
      && ops[k].0 == (if low then (if included then IsGte else IsGt) else if included then IsLte else IsLt)
      && forall j :: k < j < |ops| ==> !(if low then LowOp(ops[j].0) else HighOp(ops[j].0))
  }

  /** Both bounds, the last given of each, when there are some on both sides; else the first one. */
  ghost predicate PlansFor(plan: Plan, c: Col, ops: seq<(Compare, Value)>)
    requires ops != []
  {
    && plan.c == c
    && if (exists k :: 0 <= k < |ops| && LowOp(ops[k].0)) && (exists k :: 0 <= k < |ops| && HighOp(ops[k].0)) then
         && plan.BetweenPlan?
         && LastBound(ops, true, plan.low, plan.includeLow) && LastBound(ops, false, plan.high, plan.includeHigh)
       else if LowOp(ops[0].0) then plan == LowPlan(c, ops[0].1, ops[0].0 == IsGte)
       else plan == HighPlan(c, ops[0].1, ops[0].0 == IsLte)
  }

  /** The plan of one servable spec: both bounds when it has both sides, the last given of each; else its
      first bound. */
  method PlanSpec(c: Col, ops: seq<(Compare, Value)>) returns (plan: Plan)
    requires ops != [] && AllRangeOps(ops)
    ensures plan.c == c && !plan.HashPlan?
    ensures forall row :: SpecHolds(Ops(ops), Get(row, c)) ==> plan.Finds(row)
    ensures plan.Low().At? <==> exists k :: 0 <= k < |ops| && LowOp(ops[k].0)
    ensures plan.High().At? <==> exists k :: 0 <= k < |ops| && HighOp(ops[k].0)
    ensures PlansFor(plan, c, ops)
  {
    var low, high: Value := Null, Null;
    var incLow, incHigh, hasLow, hasHigh := true, true, false, false;
    for k := 0 to |ops|
      invariant hasLow <==> exists j :: 0 <= j < k && LowOp(ops[j].0)
      invariant hasHigh <==> exists j :: 0 <= j < k && HighOp(ops[j].0)
      invariant hasLow ==> exists j ::
        0 <= j < k && ops[j] == (if incLow then IsGte else IsGt, low) && forall i :: j < i < k ==> !LowOp(ops[i].0)
      invariant hasHigh ==> exists j ::
        0 <= j < k && ops[j] == (if incHigh then IsLte else IsLt, high) && forall i :: j < i < k ==> !HighOp(ops[i].0)
    {
      var (op, val) := ops[k];
      if LowOp(op) {
        low, incLow, hasLow := val, op == IsGte, true;
      } else {
        high, incHigh, hasHigh := val, op == IsLte, true;
      }
    }
    if hasLow && hasHigh {
      return BetweenPlan(c, low, high, incLow, incHigh);
    }
    if hasLow {
      var k := FirstOp(ops, true);
      return LowPlan(c, ops[k].1, ops[k].0 == IsGte);
    }
    assert LowOp(ops[0].0) || HighOp(ops[0].0);
    var k := FirstOp(ops, false);
    plan := HighPlan(c, ops[k].1, ops[k].0 == IsLte);
  }

  /** The first bound on one side. */
  method FirstOp(ops: seq<(Compare, Value)>, low: bool) returns (k: nat)
    requires exists j :: 0 <= j < |ops| && (if low then LowOp(ops[j].0) else HighOp(ops[j].0))
    ensures k < |ops| && (if low then LowOp(ops[k].0) else HighOp(ops[k].0))
    ensures forall j :: 0 <= j < k ==> !(if low then LowOp(ops[j].0) else HighOp(ops[j].0))
  {
    k := 0;
    while !(if low then LowOp(ops[k].0) else HighOp(ops[k].0))
      invariant k < |ops| && forall j :: 0 <= j < k ==> !(if low then LowOp(ops[j].0) else HighOp(ops[j].0))
      decreases |ops| - k
    {
      k := k + 1;
    }
  }

  /** c is the first column asked about that has a range index and a spec it can serve. */
  ghost predicate Leads(c: Col, ranges: set<Col>, conds: Conditions) {
    exists k ::
      && 0 <= k < |conds| && conds[k].0 == c && c in ranges && Servable(conds[k].1)
      && forall j :: 0 <= j < k && conds[j].0 in ranges ==> !Servable(conds[j].1)
  }

  /** The plan is that of the first spec a range index serves. */
  ghost predicate RangePlanned(plan: Plan, ranges: set<Col>, conds: Conditions) {
    exists k ::
      && 0 <= k < |conds| && conds[k].0 in ranges && Servable(conds[k].1)
      && PlansFor(plan, conds[k].0, conds[k].1.ops)
      && forall j :: 0 <= j < k && conds[j].0 in ranges ==> !Servable(conds[j].1)
  }

  /** The plan is for the first value asked for in a column with a hash index. */
  ghost predicate HashPlanned(plan: Plan, hashes: set<Col>, conds: Conditions) {
    exists k ::
      && 0 <= k < |conds| && conds[k].0 in hashes && conds[k].1.Exactly? && plan == HashPlan(conds[k].0, conds[k].1.v)
      && forall j :: 0 <= j < k && conds[j].1.Exactly? ==> conds[j].0 !in hashes
  }

  /** The range plan if a range index serves some spec, else the hash plan if a value asked for is indexed, else
      none. */
  ghost predicate Chosen(plan: Option<Plan>, ranges: set<Col>, hashes: set<Col>, conds: Conditions) {
    if exists k :: 0 <= k < |conds| && conds[k].0 in ranges && Servable(conds[k].1) then
      plan.Some? && !plan.value.HashPlan? && RangePlanned(plan.value, ranges, conds)
    else if exists k :: 0 <= k < |conds| && conds[k].1.Exactly? && conds[k].0 in hashes then
      plan.Some? && HashPlanned(plan.value, hashes, conds)
    else plan.None?
  }

  lemma OneLeads(c: Col, d: Col, ranges: set<Col>, conds: Conditions)
    requires Leads(c, ranges, conds) && Leads(d, ranges, conds)
    ensures c == d
  {
    hide Servable;
  }

  /** _plan_range over the conditions with operator dicts: the first servable one with a range index. */
  method PlanRange(ranges: RangeIndexes, conds: Conditions) returns (plan: Option<Plan>)
    ensures plan.Some? ==>
      !plan.value.HashPlan? && plan.value.c in ranges && forall row :: Hold(conds, row) ==> plan.value.Finds(row)
    ensures plan.Some? ==> Leads(plan.value.c, ranges.Keys, conds) && RangePlanned(plan.value, ranges.Keys, conds)
    ensures plan.None? <==> forall k :: 0 <= k < |conds| && conds[k].0 in ranges ==> !Servable(conds[k].1)
  {
    for k := 0 to |conds|
      invariant forall j :: 0 <= j < k && conds[j].0 in ranges ==> !Servable(conds[j].1)
    {
      var (c, spec) := conds[k];
      if c in ranges && Servable(spec) {
        var p := PlanSpec(c, spec.ops);
        assert forall row :: Hold(conds, row) ==> SpecHolds(conds[k].1, Get(row, conds[k].0));
        return Some(p);
      }
    }
    plan := None;
  }

  /** _plan_equality over the exact conditions: the first with a hash index. */
  method PlanEquality(hash: MultiIndex, conds: Conditions) returns (plan: Option<Plan>)
    ensures plan.Some? ==>
      plan.value.HashPlan? && plan.value.c in hash.indexes && forall row :: Hold(conds, row) ==> plan.value.Finds(row)
    ensures plan.Some? ==> HashPlanned(plan.value, hash.indexes.Keys, conds)
    ensures plan.None? <==> forall k :: 0 <= k < |conds| && conds[k].1.Exactly? ==> conds[k].0 !in hash.indexes
  {
    for k := 0 to |conds|
      invariant forall j :: 0 <= j < k && conds[j].1.Exactly? ==> conds[j].0 !in hash.indexes
    {
      var (c, spec) := conds[k];
      if spec.Exactly? && c in hash.indexes {
        assert forall row :: Hold(conds, row) ==> SpecHolds(conds[k].1, Get(row, conds[k].0));
        return Some(HashPlan(c, spec.v));
      }
    }
    plan := None;
  }

  /** _plan_query: a range plan if there is one, else an equality plan; every matching row is among its finds. */
  method PlanQuery(db: SnapDB, conds: Conditions) returns (plan: Option<Plan>)
    ensures plan.Some? ==> forall row :: Hold(conds, row) ==> plan.value.Finds(row)
    ensures plan.Some? ==> if plan.value.HashPlan? then plan.value.c in db.hash.indexes else plan.value.c in db.ranges
    ensures conds == [] ==> plan.None?
    ensures plan.Some? && !plan.value.HashPlan? ==> Leads(plan.value.c, db.ranges.Keys, conds)
    ensures Chosen(plan, db.ranges.Keys, db.hash.indexes.Keys, conds)
    ensures plan.Some? && !plan.value.HashPlan? <==>
      exists k :: 0 <= k < |conds| && conds[k].0 in db.ranges && Servable(conds[k].1)
  {
    plan := PlanRange(db.ranges, conds);
    if plan.None? {
      plan := PlanEquality(db.hash, conds);
    }
  }

  // ---- executing ----------------------------------------------------------------------------------

  /** The predicate as a total function. */
  function AcceptFn(q: Query): Row -> bool { row => q.Accepts(row) }

  /** The entries of a list that satisfy p, up to `stop` of them. */
  method TakeMatches(s: seq<(nat, Row)>, p: Row -> bool, stop: Option<nat>) returns (out: seq<(nat, Row)>)
    ensures out == (if stop.Some? && stop.value < |Filter(s, p)| then Filter(s, p)[..stop.value] else Filter(s, p))
  {
    out := [];
    assert s[..0] == [];
    for i := 0 to |s|
      invariant out == Filter(s[..i], p)
      invariant stop.Some? ==> |out| <= stop.value
    {
      FilterGrows(s, p, i);
      if stop.Some? && |out| == stop.value {
        return;
      }
      assert s[..i + 1] == s[..i] + [s[i]];
      FilterPush(s[..i], s[i], p);
      if p(s[i].1) {
        out := out + [s[i]];
      }
    }
    assert s[..|s|] == s;
  }

  // matches found so far are the first of all matches
  lemma {:induction false} FilterGrows(s: seq<(nat, Row)>, p: Row -> bool, i: nat)
    requires i <= |s|
    ensures Filter(s[..i], p) <= Filter(s, p)
    decreases |s|
  {
    if i == |s| {
      assert s[..i] == s;
    } else {
      var front := s[..|s| - 1];
      assert front[..i] == s[..i];
      FilterGrows(front, p, i);
    }
  }

  /** Where an index falls in a list of n entries: a negative one counts from the end. */
  function IndexIn(i: int, n: nat): nat {
    if i >= 0 then (if i < n then i else n)
    else (if i + n < 0 then 0 else i + n)
  }

  /** rows[offset:offset + limit], nothing for a limit of zero or less. */
  function Page(s: seq<(nat, Row)>, offset: int, limit: Option<int>): seq<(nat, Row)> {
    if limit.Some? && limit.value <= 0 then []
    else
      var (from, to) := (IndexIn(offset, |s|), if limit.Some? then IndexIn(offset + limit.value, |s|) else |s|);
      if from < to then s[from..to] else []
  }

  // a page by position: from the offset on, counted from the end when it is negative, up to the end of the slice
  lemma PagePlaces(s: seq<(nat, Row)>, offset: int, limit: Option<int>)
    ensures limit.Some? && limit.value <= 0 ==> Page(s, offset, limit) == []
    ensures (limit.Some? ==> limit.value > 0) ==>
      var from := if offset >= 0 then offset else if |s| + offset >= 0 then |s| + offset else 0;
      var stop := if limit.None? || offset + limit.value >= |s| then |s|
        else if offset + limit.value >= 0 then offset + limit.value
        else if |s| + offset + limit.value >= 0 then |s| + offset + limit.value else 0;
      && |Page(s, offset, limit)| == (if from < stop then stop - from else 0)
      && forall k :: 0 <= k < |Page(s, offset, limit)| ==> Page(s, offset, limit)[k] == s[from + k]
  {
    if limit.None? || limit.value > 0 {
      PageBetween(s, offset, limit);
      hide Page;
    }
  }

  lemma PageBetween(s: seq<(nat, Row)>, offset: int, limit: Option<int>)
    requires limit.Some? ==> limit.value > 0
    ensures
      var from := if offset >= 0 then offset else if |s| + offset >= 0 then |s| + offset else 0;
      var stop := if limit.None? || offset + limit.value >= |s| then |s|
        else if offset + limit.value >= 0 then offset + limit.value
        else if |s| + offset + limit.value >= 0 then |s| + offset + limit.value else 0;
      Page(s, offset, limit) == if from < stop then s[from..stop] else []
  {
  }

  // the page after the first n entries goes on where they end
  lemma NextPage(s: seq<(nat, Row)>, n: nat, limit: nat)
    requires limit > 0
    ensures (if n < |s| then s[..n] else s) + Page(s, n, Some(limit)) == if n + limit < |s| then s[..n + limit] else s
    ensures |Page(s, n, Some(limit))| < limit <==> n + limit > |s|
    ensures Page(s, 0, None) == s
  {
  }

  /** The candidates an index plan yields, in index order. */
  method Candidates(db: SnapDB, plan: Plan) returns (idxs: seq<nat>)
    requires db.StoreOk() && db.Derived(db.store.model)
    requires if plan.HashPlan? then plan.c in db.hash.indexes else plan.c in db.ranges
    ensures forall i :: i in idxs <==> i in db.store.model && plan.Finds(db.store.model[i])
    ensures forall i, j :: 0 <= i < j < |idxs| ==> idxs[i] != idxs[j]
    ensures plan.HashPlan? ==> Increasing(idxs)
    ensures !plan.HashPlan? ==> InEntryOrder(db.store.model, plan.c, idxs)
  {
    hide SnapDB.StoreOk, SnapDB.Derived, MultiIndex.Agrees, RangesAgree, UniqueKeys.UniqueMap.Agrees, InRange;
    hide HashIndex.Agrees, RangeIndex.Agrees;
    db.DerivedParts(db.store.model);
    if plan.HashPlan? {
      HashAgrees(db.hash, plan.c, db.store.model);
      var index := db.hash.indexes[plan.c];
      if index.total == 0 {
        NothingIndexed(index, db.store.model);
        return [];
      }
      idxs := index.Lookup(plan.v, db.store.model);
    } else {
      RangeAgrees(db.ranges, plan.c, db.store.model);
      var index := db.ranges[plan.c];
      if |index.items| == 0 {
        NoItems(index, db.store.model, plan.Low(), plan.High());
        return [];
      }
      idxs := index.RangeLookup(plan.Low(), plan.High(), db.store.model);
    }
  }

  lemma HashAgrees(hash: MultiIndex, c: Col, m: map<nat, Row>)
    requires hash.Agrees(m) && c in hash.indexes
    ensures hash.indexes[c].column == c && hash.indexes[c].Agrees(m)
  {
  }

  // an index without entries is over no rows
  lemma NothingIndexed(index: HashIndex, m: map<nat, Row>)
    requires index.Agrees(m) && index.total == 0
    ensures m == map[]
  {
    assert |m.Keys| == 0;
  }

  lemma NoItems(index: RangeIndex, m: map<nat, Row>, low: Bound, high: Bound)
    requires index.Agrees(m) && |index.items| == 0
    ensures forall i :: i in m ==> !InRange(Get(m[i], index.column), low, high)
  {
    forall i | i in m
      ensures !InRange(Get(m[i], index.column), low, high)
    {
      var e := (Get(m[i], index.column), i);
      assert e in index.items <==> IsEntry(m, index.column, e);
    }
  }

  /** Every match once: the scan's matches, in the scan's order unless a range index supplied them. */
  ghost predicate IsMatchList(all: seq<(nat, Row)>, db: SnapDB, q: Query, byRange: bool)
    reads db.store
  {
    if byRange then multiset(all) == multiset(Scan(db, AcceptFn(q))) else all == Scan(db, AcceptFn(q))
  }

  /** By the value in the column, then by number. */
  predicate ByValue(s: seq<(nat, Row)>, c: Col) {
    forall i, j :: 0 <= i < j < |s| ==> EntryLt((Get(s[i].1, c), s[i].0), (Get(s[j].1, c), s[j].0))
  }

  lemma {:induction false} FilterByValue(s: seq<(nat, Row)>, p: Row -> bool, c: Col)
    requires ByValue(s, c)
    ensures ByValue(Filter(s, p), c)
  {
    if s != [] {
      var front, last := s[..|s| - 1], s[|s| - 1];
      FilterByValue(front, p, c);
      FilterMembers(front, p);
      var kept := Filter(front, p);
      forall i | 0 <= i < |kept|
        ensures EntryLt((Get(kept[i].1, c), kept[i].0), (Get(last.1, c), last.0))
      {
        assert kept[i] in kept;
        var j :| 0 <= j < |front| && front[j] == kept[i];
        assert s[j] == front[j];
      }
    }
  }

  // rows by value are determined by what they are
  lemma OneByValue(a: seq<(nat, Row)>, b: seq<(nat, Row)>, c: Col)
    requires ByValue(a, c) && ByValue(b, c) && multiset(a) == multiset(b)
    ensures a == b
  {
    var x: seq<Entry> := seq(|a|, i requires 0 <= i < |a| => (Get(a[i].1, c), a[i].0));
    var y: seq<Entry> := seq(|b|, i requires 0 <= i < |b| => (Get(b[i].1, c), b[i].0));
    SameMembers(a, b);
    EntriesOf(a, x, b, y, c);
    EntriesOf(b, y, a, x, c);
    SortedUnique(x, y);
    forall i | 0 <= i < |a|
      ensures a[i] == b[i]
    {
      assert a[i] in b;
      var j :| 0 <= j < |b| && b[j] == a[i];
      assert x[i] == y[j] && x[i] == y[i];
      EntryTotal(y[i], y[j]);
      EntryTotal(y[i], y[i]);
    }
  }

  lemma EntriesOf(a: seq<(nat, Row)>, x: seq<Entry>, b: seq<(nat, Row)>, y: seq<Entry>, c: Col)
    requires |x| == |a| && forall i :: 0 <= i < |a| ==> x[i] == (Get(a[i].1, c), a[i].0)
    requires |y| == |b| && forall i :: 0 <= i < |b| ==> y[i] == (Get(b[i].1, c), b[i].0)
    requires forall e :: e in a ==> e in b
    ensures forall e :: e in x ==> e in y
  {
    forall i | 0 <= i < |x|
      ensures x[i] in y
    {
      assert a[i] in b;
      var j :| 0 <= j < |b| && b[j] == a[i];
      assert y[j] == x[i];
    }
  }

  lemma ScanIsMatchList(db: SnapDB, q: Query)
    ensures IsMatchList(Filter(Scan(db, Always), AcceptFn(q)), db, q, false)
  {
    hide Filter, AcceptFn, Scan;
    FilterOfScan(db, AcceptFn(q));
  }

  /** Candidates re-filtered by the whole predicate, or the scan when there is no plan. */
  method Matches(db: SnapDB, q: Query, stop: Option<nat>)
    returns (out: seq<(nat, Row)>, none: bool, ghost all: seq<(nat, Row)>, ghost plan: Option<Plan>)
    requires db.Valid() && q.Consistent()
    ensures IsMatchList(all, db, q, ByRange(plan)) && PlannedBy(q, plan)
    ensures none <==> FindsNothing(db, plan)
    ensures none ==> all == []
    ensures out == if stop.Some? && stop.value < |all| then all[..stop.value] else all
    ensures ByRange(plan) <==>
      exists k :: 0 <= k < |q.Planned()| && q.Planned()[k].0 in db.ranges && Servable(q.Planned()[k].1)
    ensures ByRange(plan) ==> Leads(plan.value.c, db.ranges.Keys, q.Planned()) && ByValue(all, plan.value.c)
    ensures Chosen(plan, db.ranges.Keys, db.hash.indexes.Keys, q.Planned())
  {
    hide *;
    db.Parts();
    var conds := q.Planned();
    var found := PlanQuery(db, conds);
    plan := found;
    PlanIs(db, q, plan);
    if found.None? {
      none := false;
      var rows := AllRows(db);
      ScanIsMatchList(db, q);
      out := TakeMatches(rows, AcceptFn(q), stop);
      all := Filter(rows, AcceptFn(q));
    } else {
      var idxs := Candidates(db, found.value);
      none := idxs == [];
      FoundNone(db, found.value, idxs);
      db.StoreParts();
      var rows := FetchPairs(db, idxs);
      out := TakeMatches(rows, AcceptFn(q), stop);
      all := Filter(rows, AcceptFn(q));
      NothingFiltered(rows, AcceptFn(q));
      CandidatesAreEnough(db, q, found.value, idxs, rows);
      if !found.value.HashPlan? {
        PairsByValue(db.store.model, found.value.c, idxs, rows);
        FilterByValue(rows, AcceptFn(q), found.value.c);
      }
    }
  }

  lemma PairsByValue(m: map<nat, Row>, c: Col, idxs: seq<nat>, rows: seq<(nat, Row)>)
    requires (forall i :: i in idxs ==> i in m) && InEntryOrder(m, c, idxs)
    requires |rows| == |idxs| && forall i :: 0 <= i < |idxs| ==> rows[i] == (idxs[i], m[idxs[i]])
    ensures ByValue(rows, c)
  {
    hide EntryLt;
  }

  /** The plan reads a range index. */
  predicate ByRange(plan: Option<Plan>) { plan.Some? && !plan.value.HashPlan? }

  ghost predicate PlannedBy(q: Query, plan: Option<Plan>) {
    plan.Some? ==> forall row :: Hold(q.Planned(), row) ==> plan.value.Finds(row)
  }

  /** There is a plan, and no live row for it to find. */
  ghost predicate FindsNothing(db: SnapDB, plan: Option<Plan>)
    reads db.store
  {
    plan.Some? && forall g :: g in db.store.model ==> !plan.value.Finds(db.store.model[g])
  }

  lemma PlanIs(db: SnapDB, q: Query, plan: Option<Plan>)
    ensures ByRange(plan) <==> plan.Some? && !plan.value.HashPlan?
    ensures plan.None? ==> PlannedBy(q, plan) && !FindsNothing(db, plan)
    ensures plan.Some? ==> (PlannedBy(q, plan) <==> forall row :: Hold(q.Planned(), row) ==> plan.value.Finds(row))
  {
    hide Hold, Plan.Finds;
  }

  lemma FoundNone(db: SnapDB, plan: Plan, idxs: seq<nat>)
    requires forall i :: i in idxs <==> i in db.store.model && plan.Finds(db.store.model[i])
    ensures idxs == [] <==> FindsNothing(db, Some(plan))
  {
    hide Plan.Finds;
    if idxs != [] {
      assert idxs[0] in idxs;
    }
  }

  lemma NothingFiltered(rows: seq<(nat, Row)>, p: Row -> bool)
    ensures rows == [] ==> Filter(rows, p) == []
  {
  }

  /** Each candidate with its row. */
  method FetchPairs(db: SnapDB, idxs: seq<nat>) returns (rows: seq<(nat, Row)>)
    requires db.store.Valid() && forall i :: i in idxs ==> i in db.store.model
    ensures |rows| == |idxs| && forall i :: 0 <= i < |idxs| ==> rows[i] == (idxs[i], db.store.model[idxs[i]])
  {
    hide *;
    rows := [];
    for i := 0 to |idxs|
      invariant |rows| == i && forall j :: 0 <= j < i ==> rows[j] == (idxs[j], db.store.model[idxs[j]])
    {
      var row := db.store.GetRow(idxs[i]);
      rows := rows + [(idxs[i], row.value)];
    }
  }

  predicate Apart(s: seq<(nat, Row)>) { forall i, j :: 0 <= i < j < |s| ==> s[i].0 != s[j].0 }

  lemma {:induction false} FilterMembers(s: seq<(nat, Row)>, p: Row -> bool)
    ensures forall e :: e in Filter(s, p) <==> e in s && p(e.1)
  {
    if s != [] {
      FilterMembers(s[..|s| - 1], p);
      assert s == s[..|s| - 1] + [s[|s| - 1]];
    }
  }

  lemma {:induction false} FilterAscending(s: seq<(nat, Row)>, p: Row -> bool)
    requires Ascending(s)
    ensures Ascending(Filter(s, p))
  {
    if s != [] {
      var front, last := s[..|s| - 1], s[|s| - 1];
      FilterAscending(front, p);
      FilterMembers(front, p);
      var kept := Filter(front, p);
      forall i | 0 <= i < |kept|
        ensures kept[i].0 < last.0
      {
        assert kept[i] in kept;
        var j :| 0 <= j < |front| && front[j] == kept[i];
        assert s[j] == front[j];
      }
    }
  }

  lemma {:induction false} FilterApart(s: seq<(nat, Row)>, p: Row -> bool)
    requires Apart(s)
    ensures Apart(Filter(s, p))
  {
    if s != [] {
      var front, last := s[..|s| - 1], s[|s| - 1];
      FilterApart(front, p);
      FilterMembers(front, p);
      var kept := Filter(front, p);
      forall i | 0 <= i < |kept|
        ensures kept[i].0 != last.0
      {
        assert kept[i] in kept;
        var j :| 0 <= j < |front| && front[j] == kept[i];
        assert s[j] == front[j];
      }
    }
  }

  // Re-filtered candidates are the scan's matches: in its order for a hash plan, in some order for a range plan.
  lemma CandidatesAreEnough(db: SnapDB, q: Query, plan: Plan, idxs: seq<nat>, rows: seq<(nat, Row)>)
    requires db.StoreOk() && q.Consistent() && forall row :: Hold(q.Planned(), row) ==> plan.Finds(row)
    requires forall i :: i in idxs <==> i in db.store.model && plan.Finds(db.store.model[i])
    requires forall i, j :: 0 <= i < j < |idxs| ==> idxs[i] != idxs[j]
    requires plan.HashPlan? ==> Increasing(idxs)
    requires |rows| == |idxs| && forall i :: 0 <= i < |idxs| ==> rows[i] == (idxs[i], db.store.model[idxs[i]])
    ensures IsMatchList(Filter(rows, AcceptFn(q)), db, q, !plan.HashPlan?)
  {
    hide SnapDB.StoreOk, Filter, Select, Plan.Finds, Hold;
    ScanIsComplete(db);
    ScanIs(db, AcceptFn(q));
    var (m, p, n) := (db.store.model, AcceptFn(q), HighWater(db.store.env, db.store.states));
    var all := Filter(rows, p);
    FilterMembers(rows, p);
    FilterApart(rows, p);
    if plan.HashPlan? {
      FilterAscending(rows, p);
    }
    SelectExact(m, p, n);
    forall e
      ensures e in all <==> e in Select(m, p, n)
    {
      if e in Select(m, p, n) {
        assert q.Accepts(e.1) && Hold(q.Planned(), e.1);
        assert e.0 in idxs;
        var i :| 0 <= i < |idxs| && idxs[i] == e.0;
        assert rows[i] == e;
      }
    }
    if plan.HashPlan? {
      AscendingUnique(all, Select(m, p, n));
    } else {
      OnceEach(all);
      OnceEach(Select(m, p, n));
    }
  }

  // ---- ordering -------------------------------------------------------------------------------

  /** row.get(column, 0) */
  function SortKey(row: Row, c: Col): Value { if c in row then row[c] else Num(0) }

  /** a may stand before b */
  predicate InOrder(a: Value, b: Value, desc: bool) { if desc then Le(b, a) else Le(a, b) }

  /** Puts e behind every entry it may follow: ties keep their order. */
  function Place(s: seq<(nat, Row)>, e: (nat, Row), c: Col, desc: bool): seq<(nat, Row)> {
    if s == [] || InOrder(SortKey(s[|s| - 1].1, c), SortKey(e.1, c), desc) then s + [e]
    else Place(s[..|s| - 1], e, c, desc) + [s[|s| - 1]]
  }

  /** list.sort(key=..., reverse=desc), which is stable either way */
  function StableSort(s: seq<(nat, Row)>, c: Col, desc: bool): seq<(nat, Row)> {
    if s == [] then [] else Place(StableSort(s[..|s| - 1], c, desc), s[|s| - 1], c, desc)
  }

  predicate SortedBy(s: seq<(nat, Row)>, c: Col, desc: bool) {
    forall i, j :: 0 <= i < j < |s| ==> InOrder(SortKey(s[i].1, c), SortKey(s[j].1, c), desc)
  }

  // sorted entries rise or fall as the integers or the texts themselves do; a missing one counts as 0
  lemma SortedIs(s: seq<(nat, Row)>, c: Col, desc: bool)
    requires SortedBy(s, c, desc)
    ensures forall i, j :: 0 <= i < j < |s| ==>
      var (x, y) := (if c in s[i].1 then s[i].1[c] else Num(0), if c in s[j].1 then s[j].1[c] else Num(0));
      && (x.Num? && y.Num? ==> if desc then x.n >= y.n else x.n <= y.n)
      && (x.Text? && y.Text? ==> x.s == y.s || if desc then Precedes(y.s, x.s) else Precedes(x.s, y.s))
  {
    hide Precedes, BytesLt;
    forall i, j | 0 <= i < j < |s|
      ensures var (x, y) := (SortKey(s[i].1, c), SortKey(s[j].1, c));
        && (x.Num? && y.Num? ==> if desc then x.n >= y.n else x.n <= y.n)
        && (x.Text? && y.Text? ==> x.s == y.s || if desc then Precedes(y.s, x.s) else Precedes(x.s, y.s))
    {
      InOrderIs(SortKey(s[i].1, c), SortKey(s[j].1, c), desc);
    }
  }

  lemma InOrderIs(x: Value, y: Value, desc: bool)
    requires InOrder(x, y, desc)
    ensures x.Num? && y.Num? ==> if desc then x.n >= y.n else x.n <= y.n
    ensures x.Text? && y.Text? ==> x.s == y.s || if desc then Precedes(y.s, x.s) else Precedes(x.s, y.s)
  {
    if x.Text? && y.Text? {
      BytesLtIs(x.s, y.s);
      BytesLtIs(y.s, x.s);
    }
  }

  lemma InOrderTotal(a: Value, b: Value, desc: bool)
    ensures InOrder(a, b, desc) || InOrder(b, a, desc)
    ensures InOrder(a, b, desc) && InOrder(b, a, desc) ==> a == b
  {
    Total(a, b);
  }

  lemma InOrderTrans(a: Value, b: Value, c: Value, desc: bool)
    requires InOrder(a, b, desc) && InOrder(b, c, desc)
    ensures InOrder(a, c, desc)
  {
    if a != b && b != c {
      if desc { Trans(c, b, a); } else { Trans(a, b, c); }
    }
  }

  lemma {:induction false} PlaceSorts(s: seq<(nat, Row)>, e: (nat, Row), c: Col, desc: bool)
    requires SortedBy(s, c, desc)
    ensures SortedBy(Place(s, e, c, desc), c, desc)
    ensures multiset(Place(s, e, c, desc)) == multiset(s) + multiset{e}
  {
    if s != [] {
      var front, last := s[..|s| - 1], s[|s| - 1];
      var r := Place(s, e, c, desc);
      assert s == front + [last];
      if InOrder(SortKey(last.1, c), SortKey(e.1, c), desc) {
        forall i | 0 <= i < |s|
          ensures InOrder(SortKey(s[i].1, c), SortKey(e.1, c), desc)
        {
          if i < |s| - 1 {
            InOrderTrans(SortKey(s[i].1, c), SortKey(last.1, c), SortKey(e.1, c), desc);
          }
        }
      } else {
        PlaceSorts(front, e, c, desc);
        InOrderTotal(SortKey(last.1, c), SortKey(e.1, c), desc);
        PlaceBefore(front, e, c, desc, SortKey(last.1, c));
      }
    }
  }

  lemma PlaceBefore(s: seq<(nat, Row)>, e: (nat, Row), c: Col, desc: bool, bound: Value)
    requires multiset(Place(s, e, c, desc)) == multiset(s) + multiset{e}
    requires InOrder(SortKey(e.1, c), bound, desc)
    requires forall i :: 0 <= i < |s| ==> InOrder(SortKey(s[i].1, c), bound, desc)
    ensures forall i :: 0 <= i < |Place(s, e, c, desc)| ==> InOrder(SortKey(Place(s, e, c, desc)[i].1, c), bound, desc)
  {
    var r := Place(s, e, c, desc);
    forall i | 0 <= i < |r|
      ensures InOrder(SortKey(r[i].1, c), bound, desc)
    {
      assert r[i] in multiset(r);
      assert r[i] in multiset(s) || r[i] == e;
      assert r[i] in s || r[i] == e;
    }
  }

  // Sorting gives the same entries in key order.
  lemma {:induction false} SortSorts(s: seq<(nat, Row)>, c: Col, desc: bool)
    ensures SortedBy(StableSort(s, c, desc), c, desc)
    ensures multiset(StableSort(s, c, desc)) == multiset(s)
  {
    if s != [] {
      var front := s[..|s| - 1];
      SortSorts(front, c, desc);
      PlaceSorts(StableSort(front, c, desc), s[|s| - 1], c, desc);
      assert s == front + [s[|s| - 1]];
    }
  }

  /** The entries whose key is v. */
  function KeyIs(c: Col, v: Value): Row -> bool { row => SortKey(row, c) == v }

  // Entries with equal keys keep the order they had.
  lemma {:induction false} SortIsStable(s: seq<(nat, Row)>, c: Col, desc: bool, v: Value)
    ensures Filter(StableSort(s, c, desc), KeyIs(c, v)) == Filter(s, KeyIs(c, v))
  {
    if s != [] {
      var front, last := s[..|s| - 1], s[|s| - 1];
      SortIsStable(front, c, desc, v);
      SortSorts(front, c, desc);
      PlaceIsStable(StableSort(front, c, desc), last, c, desc, v);
    }
  }

  lemma {:induction false} PlaceIsStable(s: seq<(nat, Row)>, e: (nat, Row), c: Col, desc: bool, v: Value)
    requires SortedBy(s, c, desc)
    ensures Filter(Place(s, e, c, desc), KeyIs(c, v)) ==
      Filter(s, KeyIs(c, v)) + (if SortKey(e.1, c) == v then [e] else [])
  {
    hide Filter, SortedBy;
    FilterPush(s, e, KeyIs(c, v));
    if s != [] && !InOrder(SortKey(s[|s| - 1].1, c), SortKey(e.1, c), desc) {
      var front, last := s[..|s| - 1], s[|s| - 1];
      SortedFront(s, c, desc);
      PlaceIsStable(front, e, c, desc, v);
      FilterPush(Place(front, e, c, desc), last, KeyIs(c, v));
      assert s == front + [last];
      FilterPush(front, last, KeyIs(c, v));
      assert SortKey(last.1, c) != SortKey(e.1, c);
    }
  }

  lemma SortedFront(s: seq<(nat, Row)>, c: Col, desc: bool)
    requires SortedBy(s, c, desc) && s != []
    ensures SortedBy(s[..|s| - 1], c, desc)
  {
  }

  // ---- results --------------------------------------------------------------------------------

  datatype Answer = Answered(rows: seq<(nat, Row)>) | BadOffset

  /** The matches in the order asked for, or as they were found. */
  function ListedBy(q: Query, all: seq<(nat, Row)>): seq<(nat, Row)> {
    if q.order.Some? then StableSort(all, q.order.value.0, q.order.value.1) else all
  }

  /** execute(): of the matches, sorted if asked, the page asked for. A negative offset counts from the end of a
      sorted list; unsorted it is refused, unless a plan finds nothing in the first place. */
  method Execute(db: SnapDB, q: Query)
    returns (r: Answer, ghost all: seq<(nat, Row)>, ghost plan: Option<Plan>)
    requires db.Valid() && q.Consistent() && WellTyped(db.schema, q.Planned())
    ensures IsMatchList(all, db, q, ByRange(plan)) && PlannedBy(q, plan)
    ensures ByRange(plan) <==>
      exists k :: 0 <= k < |q.Planned()| && q.Planned()[k].0 in db.ranges && Servable(q.Planned()[k].1)
    ensures r.BadOffset? <==>
      q.offset < 0 && q.order.None? && (q.limit.Some? ==> q.limit.value > 0) && !FindsNothing(db, plan)
    ensures r.Answered? ==> r.rows == Page(ListedBy(q, all), q.offset, q.limit)
    ensures r.Answered? && q.limit.Some? && q.limit.value <= 0 ==> r.rows == []
    ensures r.Answered? && (q.limit.Some? ==> q.limit.value > 0) ==>
      var listed := ListedBy(q, all);
      var from := if q.offset >= 0 then q.offset else if |listed| + q.offset >= 0 then |listed| + q.offset else 0;
      var stop := if q.limit.None? || q.offset + q.limit.value >= |listed| then |listed|
        else if q.offset + q.limit.value >= 0 then q.offset + q.limit.value
        else if |listed| + q.offset + q.limit.value >= 0 then |listed| + q.offset + q.limit.value else 0;
      && |r.rows| == (if from < stop then stop - from else 0)
      && forall k :: 0 <= k < |r.rows| ==> r.rows[k] == listed[from + k]
    ensures ByRange(plan) ==> Leads(plan.value.c, db.ranges.Keys, q.Planned()) && ByValue(all, plan.value.c)
    ensures Chosen(plan, db.ranges.Keys, db.hash.indexes.Keys, q.Planned())
  {
    hide SnapDB.Valid, IsMatchList, Servable, Query.Consistent, PlannedBy, FindsNothing, ByRange, Leads, ByValue;
    hide StableSort, Page, Chosen;
    var rows, none;
    if q.limit.Some? && q.limit.value <= 0 {
      rows, none, all, plan := Matches(db, q, None);
      NoPage(all, ListedBy(q, all), q.offset, q.limit);
      return Answered([]), all, plan;
    }
    if q.order.Some? {
      rows, none, all, plan := Matches(db, q, None);
      SortSorts(rows, q.order.value.0, q.order.value.1);
      var sorted := StableSort(rows, q.order.value.0, q.order.value.1);
      var page := PageOf(sorted, q.offset, q.limit);
      r := Answered(page);
    } else if q.offset < 0 {
      rows, none, all, plan := Matches(db, q, None);
      NoPage(all, all, q.offset, q.limit);
      r := if none then Answered([]) else BadOffset;
    } else {
      var stop := if q.limit.Some? then Some(q.offset + q.limit.value) else None;
      rows, none, all, plan := Matches(db, q, stop);
      var page := PageOf(rows, q.offset, q.limit);
      PageOfFirst(all, rows, q.offset, q.limit);
      r := Answered(page);
    }
    PagePlaces(ListedBy(q, all), q.offset, q.limit);
  }

  // there is nothing on a page of no entries, or under a limit of zero or less
  lemma NoPage(all: seq<(nat, Row)>, listed: seq<(nat, Row)>, offset: int, limit: Option<int>)
    ensures limit.Some? && limit.value <= 0 ==> Page(listed, offset, limit) == []
    ensures all == [] ==> Page(all, offset, limit) == []
  {
  }

  // the page lies within the entries up to its end
  lemma PageOfFirst(all: seq<(nat, Row)>, first: seq<(nat, Row)>, offset: nat, limit: Option<int>)
    requires limit.Some? ==> limit.value > 0
    requires first == if limit.Some? && offset + limit.value < |all| then all[..offset + limit.value] else all
    ensures Page(first, offset, limit) == Page(all, offset, limit)
  {
  }

  /** rows[offset:offset + limit] */
  method PageOf(s: seq<(nat, Row)>, offset: int, limit: Option<int>) returns (r: seq<(nat, Row)>)
    requires limit.Some? ==> limit.value > 0
    ensures r == Page(s, offset, limit)
  {
    var start := if offset < 0 then (if offset + |s| < 0 then 0 else offset + |s|) else offset;
    var end := |s|;
    if limit.Some? {
      end := offset + limit.value;
      if end < 0 {
        end := if end + |s| < 0 then 0 else end + |s|;
      } else if end > |s| {
        end := |s|;
      }
    }
    r := if start < end then s[start..end] else [];
  }

  /** An entry of a live row the query accepts. */
  ghost predicate IsMatch(db: SnapDB, q: Query, e: (nat, Row))
    reads db.store
  {
    e.0 in db.store.model && db.store.model[e.0] == e.1 && q.Accepts(e.1)
  }

  /** How many entries a page of `total` entries has. */
  function PageSize(total: nat, offset: int, limit: Option<int>): nat {
    if (limit.Some? && limit.value <= 0) || offset >= total then 0
    else if offset >= 0 then
      if limit.None? || offset + limit.value >= total then total - offset else limit.value
    else
      var (from, to) := (IndexIn(offset, total), if limit.Some? then IndexIn(offset + limit.value, total) else total);
      if from < to then to - from else 0
  }

  // What a page of a match list is: matches, no row twice, and as many as there are beyond the offset
  // up to the limit.
  lemma PageOfMatches(db: SnapDB, q: Query, all: seq<(nat, Row)>, byRange: bool, listed: seq<(nat, Row)>)
    requires db.Valid() && IsMatchList(all, db, q, byRange) && multiset(listed) == multiset(all)
    ensures var r := Page(listed, q.offset, q.limit);
      && (forall e :: e in r ==> IsMatch(db, q, e))
      && (forall i, j :: 0 <= i < j < |r| ==> r[i].0 != r[j].0)
      && |r| == PageSize(|Scan(db, AcceptFn(q))|, q.offset, q.limit)
      && (q.limit.None? && q.offset == 0 ==> multiset(r) == multiset(Scan(db, AcceptFn(q))))
  {
    hide *;
    ScanMatches(db, q);
    SameEntries(db, q, all, byRange);
    NoRepeatsIn(listed, Scan(db, AcceptFn(q)));
    SameMembers(listed, Scan(db, AcceptFn(q)));
    PageParts(listed, q.offset, q.limit);
  }

  lemma SameEntries(db: SnapDB, q: Query, all: seq<(nat, Row)>, byRange: bool)
    requires IsMatchList(all, db, q, byRange)
    ensures multiset(all) == multiset(Scan(db, AcceptFn(q)))
  {
  }

  lemma ScanMatches(db: SnapDB, q: Query)
    requires db.Valid()
    ensures forall e :: e in Scan(db, AcceptFn(q)) ==> IsMatch(db, q, e)
    ensures forall i, j :: 0 <= i < j < |Scan(db, AcceptFn(q))| ==>
      Scan(db, AcceptFn(q))[i].0 != Scan(db, AcceptFn(q))[j].0
  {
    hide SnapDB.Valid, Select;
    SelectExact(db.store.model, AcceptFn(q), HighWater(db.store.env, db.store.states));
  }

  lemma SameMembers(a: seq<(nat, Row)>, b: seq<(nat, Row)>)
    requires multiset(a) == multiset(b)
    ensures |a| == |b| && forall e :: e in a <==> e in b
  {
    assert |a| == |multiset(a)| && |b| == |multiset(b)|;
    forall e
      ensures e in a <==> e in b
    {
      assert e in a <==> e in multiset(a);
      assert e in b <==> e in multiset(b);
    }
  }

  lemma PageParts(s: seq<(nat, Row)>, offset: int, limit: Option<int>)
    ensures |Page(s, offset, limit)| == PageSize(|s|, offset, limit)
    ensures forall e :: e in Page(s, offset, limit) ==> e in s
    ensures (forall i, j :: 0 <= i < j < |s| ==> s[i].0 != s[j].0) ==>
      forall i, j :: 0 <= i < j < |Page(s, offset, limit)| ==>
        Page(s, offset, limit)[i].0 != Page(s, offset, limit)[j].0
    ensures limit.None? && offset == 0 ==> Page(s, offset, limit) == s
  {
  }

  // a reordering of a list without repeats has none either
  lemma NoRepeatsIn(a: seq<(nat, Row)>, b: seq<(nat, Row)>)
    requires multiset(a) == multiset(b) && forall i, j :: 0 <= i < j < |b| ==> b[i].0 != b[j].0
    ensures forall i, j :: 0 <= i < j < |a| ==> a[i].0 != a[j].0
  {
    OnceEach(b);
    forall i, j | 0 <= i < j < |a|
      ensures a[i].0 != a[j].0
    {
      TwiceIn(a, i, j);
      assert a[i] in multiset(b) && a[j] in multiset(b);
      assert a[i] in b && a[j] in b;
    }
  }

  lemma TwiceIn(a: seq<(nat, Row)>, i: nat, j: nat)
    requires i < j < |a|
    ensures a[i] == a[j] ==> multiset(a)[a[i]] >= 2
  {
    assert a == a[..i] + [a[i]] + a[i + 1..j] + [a[j]] + a[j + 1..];
  }

  /** execute() with its consequences: any query answered gives distinct matches, the right number of them, and an
      unlimited one all of them. */
  method ExecutePage(db: SnapDB, q: Query) returns (r: Answer)
    requires db.Valid() && q.Consistent() && WellTyped(db.schema, q.Planned())
    ensures r.BadOffset? ==> q.offset < 0 && q.order.None?
    ensures r.Answered? ==> forall e :: e in r.rows ==> IsMatch(db, q, e)
    ensures r.Answered? ==> forall i, j :: 0 <= i < j < |r.rows| ==> r.rows[i].0 != r.rows[j].0
    ensures r.Answered? ==> |r.rows| == PageSize(|Scan(db, AcceptFn(q))|, q.offset, q.limit)
    ensures r.Answered? && q.limit.None? && q.offset == 0 ==> multiset(r.rows) == multiset(Scan(db, AcceptFn(q)))
    ensures r.Answered? && q.order.Some? ==> SortedBy(r.rows, q.order.value.0, q.order.value.1)
    ensures r.Answered? && q.order.Some? ==> forall i, j :: 0 <= i < j < |r.rows| ==>
      var (c, desc) := q.order.value;
      var (a, b) := (r.rows[i].1, r.rows[j].1);
      var (x, y) := (if c in a then a[c] else Num(0), if c in b then b[c] else Num(0));
      && (x.Num? && y.Num? ==> if desc then x.n >= y.n else x.n <= y.n)
      && (x.Text? && y.Text? ==> x.s == y.s || if desc then Precedes(y.s, x.s) else Precedes(x.s, y.s))
  {
    hide SnapDB.Valid, IsMatchList, Servable, Query.Consistent, IsMatch, StableSort, SortedBy, PlannedBy, FindsNothing;
    hide Page, PageSize, ByRange;
    ghost var all, plan;
    r, all, plan := Execute(db, q);
    ghost var listed := ListedBy(q, all);
    if q.order.Some? {
      SortSorts(all, q.order.value.0, q.order.value.1);
      PageSorted(listed, q.order.value.0, q.order.value.1, q.offset, q.limit);
      if r.Answered? {
        SortedIs(r.rows, q.order.value.0, q.order.value.1);
      }
    }
    PageOfMatches(db, q, all, ByRange(plan), listed);
  }

  lemma PageSorted(s: seq<(nat, Row)>, c: Col, desc: bool, offset: int, limit: Option<int>)
    requires SortedBy(s, c, desc)
    ensures SortedBy(Page(s, offset, limit), c, desc)
  {
  }

  // ---- page by page ----------------------------------------------------------------------------

  // Two lists of the matches of one query, however it is sliced, are the same.
  lemma SameMatches(db: SnapDB, q: Query, q': Query, a: seq<(nat, Row)>, plan: Option<Plan>, b: seq<(nat, Row)>,
                    plan': Option<Plan>)
    requires q.pred == q'.pred && q.conds == q'.conds
    requires IsMatchList(a, db, q, ByRange(plan)) && IsMatchList(b, db, q', ByRange(plan'))
    requires ByRange(plan) <==> ByRange(plan')
    requires ByRange(plan) ==> Leads(plan.value.c, db.ranges.Keys, q.Planned()) && ByValue(a, plan.value.c)
    requires ByRange(plan') ==> Leads(plan'.value.c, db.ranges.Keys, q'.Planned()) && ByValue(b, plan'.value.c)
    ensures a == b
  {
    hide Leads, ByValue, Select;
    SelectSame(db.store.model, AcceptFn(q), AcceptFn(q'), HighWater(db.store.env, db.store.states));
    if ByRange(plan) {
      OneLeads(plan.value.c, plan'.value.c, db.ranges.Keys, q.Planned());
      OneByValue(a, b, plan.value.c);
    }
  }

  /** Slices read one after the other, at the offsets 0, limit, 2 * limit, .. until one comes short, make up the
      unlimited answer. */
  method ReadInPages(db: SnapDB, q: Query, limit: nat) returns (rows: seq<(nat, Row)>, whole: Answer)
    requires db.Valid() && q.Consistent() && WellTyped(db.schema, q.Planned()) && limit > 0
    ensures whole == Answered(rows)
  {
    hide *;
    var unlimited := Query(q.pred, q.conds, q.order, None, 0);
    Resliced(q, unlimited);
    ghost var all, plan;
    whole, all, plan := Execute(db, unlimited);
    ghost var listed := ListedBy(unlimited, all);
    NextPage(listed, 0, limit);
    rows := [];
    var offset := 0;
    var more := true;
    while more
      invariant rows == if offset < |listed| then listed[..offset] else listed
      invariant !more ==> rows == listed
      decreases more, |listed| - offset
    {
      var slice := Query(q.pred, q.conds, q.order, Some(limit), offset);
      Resliced(q, slice);
      var page, found, used := Execute(db, slice);
      SameMatches(db, unlimited, slice, all, plan, found, used);
      NextPage(listed, offset, limit);
      rows := rows + page.rows;
      offset := offset + limit;
      more := |page.rows| == limit;
    }
  }

  // limit and offset bear on nothing but the page
  lemma Resliced(q: Query, slice: Query)
    requires q.pred == slice.pred && q.conds == slice.conds && q.order == slice.order
    ensures q.Consistent() ==> slice.Consistent()
    ensures q.Planned() == slice.Planned() && forall all :: ListedBy(q, all) == ListedBy(slice, all)
  {
    hide Hold, StableSort;
    assert forall row :: q.Accepts(row) <==> slice.Accepts(row);
  }

  /** count(): how many rows the query accepts; order and slice do not matter. */
  method Count(db: SnapDB, q: Query) returns (n: int)
    requires db.Valid() && q.Consistent() && WellTyped(db.schema, q.Planned())
    ensures n == |Scan(db, AcceptFn(q))|
    ensures n == |set i | i in db.store.model && q.Accepts(db.store.model[i])|
  {
    hide *;
    db.Parts();
    CountScanned(db, q);
    if q.pred.None? {
      CountOfAll(db, q);
      return db.store.totalRows;
    }
    var plan := PlanQuery(db, q.Planned());
    var candidates: set<nat> := {};
    if plan.Some? {
      var idxs := Candidates(db, plan.value);
      candidates := set i | i in idxs;
      PlanReaches(q, plan.value, db.store.model, idxs);
    }
    var rows := AllRows(db);
    FilterOfScan(db, AcceptFn(q));
    n := 0;
    FilterEmpty(rows, AcceptFn(q));
    for i := 0 to |rows|
      invariant n == |Filter(rows[..i], AcceptFn(q))|
    {
      CountNext(rows, i, q);
      ListedRow(rows, i, db.store.model);
      if (plan.None? || rows[i].0 in candidates) && q.Accepts(rows[i].1) {
        n := n + 1;
      }
    }
    assert rows[..|rows|] == rows;
  }

  // a scan finds as many rows as are live and accepted
  lemma CountScanned(db: SnapDB, q: Query)
    requires db.StoreOk()
    ensures |Scan(db, AcceptFn(q))| == |set i | i in db.store.model && q.Accepts(db.store.model[i])|
  {
    hide *;
    ScanIsComplete(db);
    ScanIs(db, AcceptFn(q));
    AcceptedOf(db.store.model, q, HighWater(db.store.env, db.store.states));
  }

  lemma AcceptedOf(m: map<nat, Row>, q: Query, n: nat)
    requires forall g :: g in m ==> g < n
    ensures |Select(m, AcceptFn(q), n)| == |set i | i in m && q.Accepts(m[i])|
  {
    hide Select;
    MatchesCounted(m, AcceptFn(q), n);
    assert (set i | i in m && q.Accepts(m[i])) == set i | i in m && i < n && AcceptFn(q)(m[i]);
  }

  lemma {:induction false} MatchesCounted(m: map<nat, Row>, p: Row -> bool, n: nat)
    ensures |Select(m, p, n)| == |set i | i in m && i < n && p(m[i])|
  {
    var now := set i | i in m && i < n && p(m[i]);
    if n == 0 {
      assert now == {};
    } else {
      MatchesCounted(m, p, n - 1);
      var below := set i | i in m && i < n - 1 && p(m[i]);
      if n - 1 in m && p(m[n - 1]) {
        assert now == below + {n - 1};
      } else {
        assert now == below;
      }
    }
  }

  lemma PlanReaches(q: Query, plan: Plan, m: map<nat, Row>, idxs: seq<nat>)
    requires q.Consistent() && (forall row :: Hold(q.Planned(), row) ==> plan.Finds(row))
    requires forall i :: i in idxs <==> i in m && plan.Finds(m[i])
    ensures forall i :: i in m && q.Accepts(m[i]) ==> i in (set k | k in idxs)
  {
    hide Hold, Plan.Finds;
  }

  lemma CountNext(rows: seq<(nat, Row)>, i: nat, q: Query)
    requires i < |rows|
    ensures |Filter(rows[..i + 1], AcceptFn(q))| ==
      |Filter(rows[..i], AcceptFn(q))| + if q.Accepts(rows[i].1) then 1 else 0
  {
    hide Filter, Query.Accepts;
    assert rows[..i + 1] == rows[..i] + [rows[i]];
    FilterPush(rows[..i], rows[i], AcceptFn(q));
  }

  lemma ListedRow(rows: seq<(nat, Row)>, i: nat, m: map<nat, Row>)
    requires IsListing(rows, m) && i < |rows|
    ensures rows[i].0 in m && m[rows[i].0] == rows[i].1
  {
    hide Listed, Ascending;
    assert rows[i] in rows;
  }

  lemma FilterEmpty(s: seq<(nat, Row)>, p: Row -> bool)
    ensures Filter(s[..0], p) == []
  {
    assert s[..0] == [];
  }

  lemma CountOfAll(db: SnapDB, q: Query)
    requires db.StoreOk() && q.pred.None?
    ensures db.store.totalRows == |Scan(db, AcceptFn(q))|
  {
    var (m, n) := (db.store.model, HighWater(db.store.env, db.store.states));
    db.StoreParts();
    db.store.Parts();
    ScanIsComplete(db);
    AllSelected(m, n);
    SelectSame(m, Always, AcceptFn(q), n);
    ScanIs(db, AcceptFn(q));
  }

  lemma {:induction false} SelectSame(m: map<nat, Row>, p: Row -> bool, p': Row -> bool, n: nat)
    requires forall row :: p(row) == p'(row)
    ensures Select(m, p, n) == Select(m, p', n)
  {
    if n > 0 {
      SelectSame(m, p, p', n - 1);
    }
  }
}
