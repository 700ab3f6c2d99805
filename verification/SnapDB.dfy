/** The database object: row store, indexes, unique map, transactions and the log, kept in step. */
module SnapDBs {
  import opened Values
  import opened Bits
  import opened Codec
  import opened Layout
  import opened Images
  import opened Slabs
  import opened Indexes
  import opened Stores
  import opened UniqueKeys
  import W = Wals
  import R = Recovery

  // ---- outcomes -----------------------------------------------------------------

  /** What a write answers: the row number, or the error it raises. */
  datatype Outcome =
    | Done(idx: nat)
    | MissingColumn(c: Col)
    | NullColumn(c: Col)
    | Duplicate(c: Col)
    | NotFound

  // ---- rows as callers pass them --------------------------------------------------

  function UniqueColumns(schema: Schema): (r: seq<Col>)
    ensures forall c :: c in r ==> c in Names(schema)
  {
    if schema == [] then []
    else
      var rest := UniqueColumns(schema[1..]);
      assert forall c :: c in Names(schema[1..]) ==> c in Names(schema) by {
        assert forall i :: 0 <= i < |schema[1..]| ==> schema[1..][i] == schema[i + 1];
      }
      (if schema[0].unique then [schema[0].name] else []) + rest
  }

  lemma {:induction false} UniqueColumnsApart(schema: Schema)
    requires forall i, j :: 0 <= i < j < |schema| ==> schema[i].name != schema[j].name
    ensures NoRepeats(UniqueColumns(schema))
  {
    if schema != [] {
      UniqueColumnsApart(schema[1..]);
      assert schema[0].name !in Names(schema[1..]);
    }
  }

  // the unique columns are exactly those the schema flags
  lemma {:induction false} UniqueColumnsAre(schema: Schema)
    ensures forall c ::
      c in UniqueColumns(schema) <==> exists i :: 0 <= i < |schema| && schema[i].name == c && schema[i].unique
  {
    if schema != [] {
      var rest := schema[1..];
      UniqueColumnsAre(rest);
      forall c
        ensures c in UniqueColumns(schema) <==> exists i :: 0 <= i < |schema| && schema[i].name == c && schema[i].unique
      {
        if c in UniqueColumns(rest) {
          var i :| 0 <= i < |rest| && rest[i].name == c && rest[i].unique;
          assert schema[i + 1].name == c;
        }
        if i :| 0 <= i < |schema| && schema[i].name == c && schema[i].unique {
          assert i > 0 ==> rest[i - 1].name == c;
        }
      }
    }
  }

  /** Every column is there and not null. */
  predicate Shaped(schema: Schema, row: Row) {
    forall i :: 0 <= i < |schema| ==> schema[i].name in row && row[schema[i].name] != Null
  }

  /** Some column flagged unique has the same value in both rows. */
  ghost predicate Clash(schema: Schema, a: Row, b: Row) {
    exists i ::
      && 0 <= i < |schema| && schema[i].unique && schema[i].name in a && schema[i].name in b
      && a[schema[i].name] == b[schema[i].name]
  }

  /** c is the first column flagged unique in which a row of m has the value `row` has. */
  ghost predicate FirstTaken(schema: Schema, m: map<nat, Row>, c: Col, row: Row) {
    exists i ::
      && 0 <= i < |schema| && schema[i].name == c && schema[i].unique && c in row
      && (exists j :: j in m && c in m[j] && m[j][c] == row[c])
      && forall j :: j in m ==> !Clash(schema[..i], row, m[j])
  }

  /** Stored, a row has the schema's columns with the values given. */
  ghost predicate StoredAs(schema: Schema, stored: Row, row: Row) {
    && stored.Keys == Names(schema)
    && forall i :: 0 <= i < |schema| ==>
         var c := schema[i].name; c in stored && c in row && stored[c] == row[c]
  }

  /** Updated, a row has the values given and, in the other columns, those it had. */
  ghost predicate UpdatedTo(schema: Schema, stored: Row, was: Row, row: Row) {
    && stored.Keys == Names(schema)
    && forall i :: 0 <= i < |schema| ==>
         var c := schema[i].name; c in stored && c in was && stored[c] == if c in row then row[c] else was[c]
  }

  lemma CanonicalIsShaped(schema: Schema, row: Row)
    requires RowCanonical(schema, row)
    ensures Shaped(schema, row)
  {
    forall i | 0 <= i < |schema|
      ensures schema[i].name in row
    {
      assert schema[i].name in Names(schema);
    }
  }

  // rows over the schema differ in the unique columns exactly when they differ in every column flagged
  lemma ApartIs(schema: Schema, a: Row, b: Row)
    requires Shaped(schema, a) && Shaped(schema, b)
    ensures UniqueKeys.Apart(a, b, UniqueColumns(schema)) <==> !Clash(schema, b, a)
  {
    UniqueColumnsAre(schema);
    if !UniqueKeys.Apart(a, b, UniqueColumns(schema)) {
      var c :| c in UniqueColumns(schema) && Get(a, c) == Get(b, c);
      var i :| 0 <= i < |schema| && schema[i].name == c && schema[i].unique;
    }
    if i :| 0 <= i < |schema| && schema[i].unique && b[schema[i].name] == a[schema[i].name] {
      assert schema[i].name in UniqueColumns(schema);
    }
  }

  lemma UnclashedIs(schema: Schema, m: map<nat, Row>, idx: nat, row: Row)
    requires Shaped(schema, row) && forall j :: j in m ==> Shaped(schema, m[j])
    ensures Unclashed(m, UniqueColumns(schema), idx, row) <==>
      forall j :: j in m && j != idx ==> !Clash(schema, row, m[j])
  {
    hide Shaped, UniqueKeys.Apart, Clash;
    forall j | j in m
      ensures UniqueKeys.Apart(m[j], row, UniqueColumns(schema)) <==> !Clash(schema, row, m[j])
    {
      ApartIs(schema, m[j], row);
    }
  }

  // distinct rows differ in every column flagged, and the other way round
  lemma DistinctIs(schema: Schema, m: map<nat, Row>)
    requires forall j :: j in m ==> Shaped(schema, m[j])
    ensures Distinct(m, UniqueColumns(schema)) <==>
      forall i, j :: i in m && j in m && i != j ==> !Clash(schema, m[i], m[j])
  {
    hide Shaped, UniqueKeys.Apart, Clash, Unclashed;
    forall i | i in m
      ensures Unclashed(m, UniqueColumns(schema), i, m[i]) <==>
        forall j :: j in m && j != i ==> !Clash(schema, m[i], m[j])
    {
      UnclashedIs(schema, m, i, m[i]);
    }
  }

  /** The row's values for the schema's columns. */
  function Restrict(schema: Schema, row: Row): Row { map c | c in row && c in Names(schema) :: row[c] }

  /** Values that read back as themselves wherever the row has any. */
  predicate Storable(schema: Schema, row: Row) {
    forall i :: 0 <= i < |schema| && schema[i].name in row && row[schema[i].name] != Null ==>
      Canonical(schema[i].kind, row[schema[i].name])
  }

  lemma ShapedIsCanonical(schema: Schema, row: Row)
    requires Shaped(schema, row) && Storable(schema, row)
    ensures RowCanonical(schema, Restrict(schema, row))
  {
    forall i | 0 <= i < |schema|
      ensures schema[i].name in Restrict(schema, row)
    {
      assert schema[i].name in Names(schema);
    }
    assert Restrict(schema, row).Keys == Names(schema);
  }

  lemma RestrictIs(schema: Schema, row: Row)
    requires Shaped(schema, row)
    ensures StoredAs(schema, Restrict(schema, row), row) && Shaped(schema, Restrict(schema, row))
    ensures forall other :: Clash(schema, Restrict(schema, row), other) <==> Clash(schema, row, other)
  {
    forall i | 0 <= i < |schema|
      ensures schema[i].name in Restrict(schema, row)
    {
      assert schema[i].name in Names(schema);
    }
    assert Restrict(schema, row).Keys == Names(schema);
  }

  // a row may go in at a new number exactly when it repeats no value in a column flagged unique
  lemma FreeToInsert(schema: Schema, m: map<nat, Row>, hw: nat, row: Row)
    requires forall j :: j in m ==> j < hw && Shaped(schema, m[j])
    ensures Shaped(schema, row) ==>
      StoredAs(schema, Restrict(schema, row), row) &&
      (Unclashed(m, UniqueColumns(schema), hw, Restrict(schema, row)) <==>
        forall j :: j in m ==> !Clash(schema, row, m[j]))
  {
    hide Shaped, Clash, Restrict, StoredAs, Unclashed;
    if Shaped(schema, row) {
      RestrictIs(schema, row);
      UnclashedIs(schema, m, hw, Restrict(schema, row));
    }
  }

  /** {**old, **row} */
  function Merged(schema: Schema, oldRow: Row, row: Row): Row { Restrict(schema, oldRow + row) }

  lemma MergedRestricts(schema: Schema, oldRow: Row, row: Row)
    ensures Merged(schema, oldRow, row) == Restrict(schema, oldRow + row)
  {
  }

  lemma MergedIsStorable(schema: Schema, oldRow: Row, row: Row)
    requires RowCanonical(schema, oldRow) && Storable(schema, row)
    ensures Storable(schema, oldRow + row)
  {
    forall i | 0 <= i < |schema|
      ensures schema[i].name in oldRow
    {
      assert schema[i].name in Names(schema);
    }
  }

  lemma MergedIs(schema: Schema, was: Row, row: Row)
    requires Shaped(schema, was)
    ensures Shaped(schema, was + row) <==>
      forall i :: 0 <= i < |schema| && schema[i].name in row ==> row[schema[i].name] != Null
    ensures Shaped(schema, was + row) ==> UpdatedTo(schema, Merged(schema, was, row), was, row)
    ensures forall other ::
      !Clash(schema, was, other) ==> (Clash(schema, was + row, other) <==> Clash(schema, row, other))
  {
    forall i | 0 <= i < |schema|
      ensures schema[i].name in was && schema[i].name in was + row
    {
    }
    if Shaped(schema, was + row) {
      RestrictIs(schema, was + row);
    }
    forall other | !Clash(schema, was, other)
      ensures Clash(schema, was + row, other) <==> Clash(schema, row, other)
    {
      if i :| && 0 <= i < |schema| && schema[i].unique && schema[i].name in row && schema[i].name in other
              && row[schema[i].name] == other[schema[i].name] {
        assert (was + row)[schema[i].name] == other[schema[i].name];
      }
    }
  }

  // a live row may change exactly when no value given in a column flagged unique is another row's
  lemma FreeToUpdate(schema: Schema, m: map<nat, Row>, idx: nat, row: Row)
    requires (forall j :: j in m ==> Shaped(schema, m[j])) && Distinct(m, UniqueColumns(schema)) && idx in m
    ensures Shaped(schema, m[idx] + row) <==>
      forall i :: 0 <= i < |schema| && schema[i].name in row ==> row[schema[i].name] != Null
    ensures Shaped(schema, m[idx] + row) ==>
      UpdatedTo(schema, Merged(schema, m[idx], row), m[idx], row) &&
      (Unclashed(m, UniqueColumns(schema), idx, Merged(schema, m[idx], row)) <==>
        forall j :: j in m && j != idx ==> !Clash(schema, row, m[j]))
  {
    hide Shaped, Clash, Restrict, UpdatedTo, Unclashed, Distinct, StoredAs;
    MergedIs(schema, m[idx], row);
    DistinctIs(schema, m);
    if Shaped(schema, m[idx] + row) {
      RestrictIs(schema, m[idx] + row);
      UnclashedIs(schema, m, idx, Merged(schema, m[idx], row));
    }
  }

  /** c is the first column of the schema without a value in the row. */
  ghost predicate FirstBad(schema: Schema, row: Row, c: Col) {
    exists i :: 0 <= i < |schema| && schema[i].name == c && Shaped(schema[..i], row) && (c in row ==> row[c] == Null)
  }

  /** _check_row_shape: the first missing or null column. */
  method CheckShape(schema: Schema, row: Row) returns (bad: Option<Outcome>)
    ensures bad.None? <==> Shaped(schema, row)
    ensures bad.Some? ==> !bad.value.Done?
    ensures bad.Some? ==> exists i ::
      && 0 <= i < |schema| && Shaped(schema[..i], row)
      && bad.value == (if schema[i].name !in row then MissingColumn(schema[i].name) else NullColumn(schema[i].name))
      && (schema[i].name in row ==> row[schema[i].name] == Null)
    ensures bad.Some? ==> !bad.value.Duplicate? && !bad.value.NotFound?
    ensures bad.Some? && bad.value.MissingColumn? ==> FirstBad(schema, row, bad.value.c) && bad.value.c !in row
    ensures bad.Some? && bad.value.NullColumn? ==>
      FirstBad(schema, row, bad.value.c) && bad.value.c in row && row[bad.value.c] == Null
  {
    for i := 0 to |schema|
      invariant Shaped(schema[..i], row)
    {
      var c := schema[i].name;
      if c !in row {
        return Some(MissingColumn(c));
      }
      if row[c] == Null {
        return Some(NullColumn(c));
      }
    }
    bad := None;
  }

  lemma ShapedAll(schema: Schema, rows: seq<Row>)
    ensures (forall k :: 0 <= k < |rows| ==> Shaped(schema, rows[k])) <==>
      forall k, i :: 0 <= k < |rows| && 0 <= i < |schema| ==>
        schema[i].name in rows[k] && rows[k][schema[i].name] != Null
  {
  }

  lemma ShapedParts(schema: Schema, row: Row)
    ensures Shaped(schema, row) <==>
      forall i :: 0 <= i < |schema| ==> schema[i].name in row && row[schema[i].name] != Null
  {
  }

  // the unique columns come in the order of the schema
  lemma {:induction false} UniqueInOrder(schema: Schema, h: nat, i: nat, k: nat)
    requires forall x, y :: 0 <= x < y < |schema| ==> schema[x].name != schema[y].name
    requires h < i < |schema| && schema[h].unique && k < |UniqueColumns(schema)|
    requires UniqueColumns(schema)[k] == schema[i].name
    ensures schema[h].name in UniqueColumns(schema)[..k]
  {
    hide UniqueColumns;
    var head, rest := if schema[0].unique then [schema[0].name] else [], schema[1..];
    UniqueStep(schema);
    assert forall x :: 0 <= x < |rest| ==> rest[x] == schema[x + 1];
    if h == 0 {
      assert UniqueColumns(schema)[..k][0] == schema[0].name;
    } else {
      UniqueInOrder(rest, h - 1, i - 1, k - |head|);
      assert UniqueColumns(schema)[..k] == head + UniqueColumns(rest)[..k - |head|];
    }
  }

  lemma UniqueStep(schema: Schema)
    requires schema != []
    ensures UniqueColumns(schema) ==
      (if schema[0].unique then [schema[0].name] else []) + UniqueColumns(schema[1..])
  {
  }

  // the column a refusal names is the first in which a value given is taken
  lemma TakenIs(schema: Schema, m: map<nat, Row>, idx: nat, c: Col, row: Row, full: Row)
    requires WfSchema(schema) && FirstHeld(m, UniqueColumns(schema), idx, full, c)
    requires idx !in m && forall j :: j in m ==> Shaped(schema, m[j])
    requires Shaped(schema, full)
    requires forall h :: 0 <= h < |schema| && schema[h].name in row ==> full[schema[h].name] == row[schema[h].name]
    requires c in UniqueColumns(schema) ==> c in row
    ensures FirstTaken(schema, m, c, row)
  {
    hide UniqueColumns, Clash, UniqueKeys.Apart, FirstHeld, FirstTaken;
    var k, j := HeldAt(m, UniqueColumns(schema), idx, full, c);
    var i := FlaggedAt(schema, c);
    forall j | j in m
      ensures !Clash(schema[..i], row, m[j])
    {
      ApartEarlier(schema, i, k, m[j], row, full);
    }
    FirstTakenAt(schema, m, i, j, row);
  }

  lemma HeldAt(m: map<nat, Row>, cols: seq<Col>, idx: nat, row: Row, c: Col) returns (k: nat, j: nat)
    requires FirstHeld(m, cols, idx, row, c)
    ensures k < |cols| && cols[k] == c && j in m && j != idx && Get(m[j], c) == Get(row, c)
    ensures forall j :: j in m && j != idx ==> UniqueKeys.Apart(m[j], row, cols[..k])
  {
    hide UniqueKeys.Apart;
    k :| && 0 <= k < |cols| && cols[k] == c && (exists j :: j in m && j != idx && Get(m[j], c) == Get(row, c))
         && forall j :: j in m && j != idx ==> UniqueKeys.Apart(m[j], row, cols[..k]);
    j :| j in m && j != idx && Get(m[j], c) == Get(row, c);
  }

  lemma FlaggedAt(schema: Schema, c: Col) returns (i: nat)
    requires c in UniqueColumns(schema)
    ensures i < |schema| && schema[i].name == c && schema[i].unique
  {
    UniqueColumnsAre(schema);
    i :| 0 <= i < |schema| && schema[i].name == c && schema[i].unique;
  }

  lemma FirstTakenAt(schema: Schema, m: map<nat, Row>, i: nat, j: nat, row: Row)
    requires i < |schema| && schema[i].unique && schema[i].name in row && j in m && schema[i].name in m[j]
    requires m[j][schema[i].name] == row[schema[i].name] && forall j :: j in m ==> !Clash(schema[..i], row, m[j])
    ensures FirstTaken(schema, m, schema[i].name, row)
  {
    hide Clash;
  }

  lemma ApartEarlier(schema: Schema, i: nat, k: nat, other: Row, row: Row, full: Row)
    requires WfSchema(schema) && i < |schema| && k < |UniqueColumns(schema)|
    requires UniqueColumns(schema)[k] == schema[i].name && Shaped(schema, full) && Shaped(schema, other)
    requires UniqueKeys.Apart(other, full, UniqueColumns(schema)[..k])
    requires forall h :: 0 <= h < |schema| && schema[h].name in row ==> full[schema[h].name] == row[schema[h].name]
    ensures !Clash(schema[..i], row, other)
  {
    forall h | 0 <= h < i && schema[h].unique && schema[h].name in row
      ensures row[schema[h].name] != other[schema[h].name]
    {
      UniqueInOrder(schema, h, i, k);
    }
  }

  lemma TakenIfFull(schema: Schema, m: map<nat, Row>, hw: nat, c: Col, row: Row)
    requires WfSchema(schema) && Shaped(schema, row) && forall j :: j in m ==> j < hw && Shaped(schema, m[j])
    requires FirstHeld(m, UniqueColumns(schema), hw, Restrict(schema, row), c)
    ensures FirstTaken(schema, m, c, row)
  {
    RestrictIs(schema, row);
    TakenIs(schema, m, hw, c, row, Restrict(schema, row));
  }

  // an updated row lacks no column, and a null in it is one given
  lemma NotMissing(schema: Schema, was: Row, row: Row, bad: Outcome)
    requires Shaped(schema, was) && (bad.MissingColumn? || bad.NullColumn?)
    requires FirstBad(schema, was + row, bad.c)
    requires if bad.MissingColumn? then bad.c !in was + row else bad.c in was + row && (was + row)[bad.c] == Null
    ensures bad.NullColumn? && bad.c in row && row[bad.c] == Null
  {
  }

  // a value refused an update is given: those the row had are no other row's
  lemma TakenByOther(schema: Schema, m: map<nat, Row>, idx: nat, c: Col, row: Row)
    requires WfSchema(schema)
    requires (forall j :: j in m ==> Shaped(schema, m[j])) && idx in m && Distinct(m, UniqueColumns(schema))
    requires Shaped(schema, m[idx] + row)
    requires FirstHeld(m - {idx}, UniqueColumns(schema), idx, Merged(schema, m[idx], row), c)
    ensures FirstTaken(schema, m - {idx}, c, row)
  {
    MergedIs(schema, m[idx], row);
    RestrictIs(schema, m[idx] + row);
    UniqueColumnsAre(schema);
    var full := Merged(schema, m[idx], row);
    assert Unclashed(m, UniqueColumns(schema), idx, m[idx]);
    TakenIs(schema, m - {idx}, idx, c, row, full);
  }

  // ---- the undo list ----------------------------------------------------------------

  datatype Undo = UndoInsert(idx: nat, row: Row) | UndoUpdate(idx: nat, row: Row) | UndoDelete(idx: nat, row: Row)

  /** The rows before the operation an entry remembers. */
  function Prev(u: Undo, m: map<nat, Row>): map<nat, Row> {
    if u.UndoInsert? then m - {u.idx} else m[u.idx := u.row]
  }

  /** The entry remembers an operation that can have led to m. */
  ghost predicate Led(schema: Schema, u: Undo, m: map<nat, Row>, hw: nat) {
    match u
    case UndoInsert(i, row) => i in m && m[i] == row
    case UndoUpdate(i, row) => i in m && RowCanonical(schema, row)
    case UndoDelete(i, row) => i !in m && i < hw && RowCanonical(schema, row)
  }

  /** Undone from the last entry to the first, the list leads from m back to base. */
  ghost predicate Undoes(schema: Schema, log: seq<Undo>, m: map<nat, Row>, hw: nat, base: map<nat, Row>) {
    Distinct(m, UniqueColumns(schema)) &&
    if log == [] then m == base
    else
      var u := log[|log| - 1];
      Led(schema, u, m, hw) && Undoes(schema, log[..|log| - 1], Prev(u, m), hw, base)
  }

  lemma {:induction false} UndoesHigher(schema: Schema, log: seq<Undo>, m: map<nat, Row>, hw: nat, hw': nat,
                                        base: map<nat, Row>)
    requires Undoes(schema, log, m, hw, base) && hw <= hw'
    ensures Undoes(schema, log, m, hw', base)
  {
    if log != [] {
      UndoesHigher(schema, log[..|log| - 1], Prev(log[|log| - 1], m), hw, hw', base);
    }
  }

  lemma UndoesPush(schema: Schema, log: seq<Undo>, m: map<nat, Row>, hw: nat, base: map<nat, Row>, u: Undo,
                   m': map<nat, Row>, hw': nat)
    requires Undoes(schema, log, m, hw, base) && hw <= hw' && Led(schema, u, m', hw') && Prev(u, m') == m
    requires Distinct(m', UniqueColumns(schema))
    ensures Undoes(schema, log + [u], m', hw', base)
  {
    UndoesHigher(schema, log, m, hw, hw', base);
    assert (log + [u])[..|log|] == log;
  }

  // an insert at the next number is a legal step, undone by removing the row
  lemma InsertLed(schema: Schema, was: R.Image, i: nat, row: Row)
    requires Distinct(was.rows, UniqueColumns(schema)) && Unclashed(was.rows, UniqueColumns(schema), i, row)
    requires i == was.next && i !in was.rows
    ensures R.Legal(was, W.Insert(i, row)) && R.Step(was, W.Insert(i, row)) == R.Image(was.rows[i := row], i + 1)
    ensures Led(schema, UndoInsert(i, row), was.rows[i := row], i + 1)
    ensures Prev(UndoInsert(i, row), was.rows[i := row]) == was.rows
    ensures Distinct(was.rows[i := row], UniqueColumns(schema))
  {
    assert was.rows - {i} == was.rows;
    DistinctMore(was.rows, UniqueColumns(schema), i, row);
    assert was.rows[i := row] - {i} == was.rows;
  }

  lemma UpdateLed(schema: Schema, was: R.Image, i: nat, oldRow: Row, row: Row)
    requires i in was.rows && was.rows[i] == oldRow && RowCanonical(schema, oldRow)
    ensures R.Legal(was, W.Update(i, row)) && R.Step(was, W.Update(i, row)) == R.Image(was.rows[i := row], was.next)
    ensures Led(schema, UndoUpdate(i, oldRow), was.rows[i := row], was.next)
    ensures Prev(UndoUpdate(i, oldRow), was.rows[i := row]) == was.rows
  {
    assert was.rows[i := row][i := oldRow] == was.rows;
  }

  lemma DeleteLed(schema: Schema, was: R.Image, i: nat, oldRow: Row)
    requires i in was.rows && was.rows[i] == oldRow && RowCanonical(schema, oldRow) && i < was.next
    requires Distinct(was.rows, UniqueColumns(schema))
    ensures R.Legal(was, W.Delete(i)) && R.Step(was, W.Delete(i)) == R.Image(was.rows - {i}, was.next)
    ensures Led(schema, UndoDelete(i, oldRow), was.rows - {i}, was.next)
    ensures Prev(UndoDelete(i, oldRow), was.rows - {i}) == was.rows
    ensures Distinct(was.rows - {i}, UniqueColumns(schema))
  {
    assert (was.rows - {i})[i := oldRow] == was.rows;
    DistinctLess(was.rows, UniqueColumns(schema), i);
  }

  // the last entry was led to; before it the rows were distinct as well
  lemma LastUndo(schema: Schema, log: seq<Undo>, k: nat, m: map<nat, Row>, hw: nat, base: map<nat, Row>)
    requires k < |log| && Undoes(schema, log[..k + 1], m, hw, base)
    ensures Led(schema, log[k], m, hw) && Undoes(schema, log[..k], Prev(log[k], m), hw, base)
    ensures Distinct(Prev(log[k], m), UniqueColumns(schema))
  {
    assert log[..k + 1][..k] == log[..k];
  }

  lemma NothingToUndo(schema: Schema, m: map<nat, Row>, hw: nat, base: map<nat, Row>)
    requires Undoes(schema, [], m, hw, base)
    ensures m == base
  {
  }

  lemma LedIs(schema: Schema, u: Undo, m: map<nat, Row>, hw: nat)
    requires Led(schema, u, m, hw)
    ensures u.UndoInsert? ==> u.idx in m && m[u.idx] == u.row && Prev(u, m) == m - {u.idx}
    ensures !u.UndoInsert? ==> RowCanonical(schema, u.row) && Prev(u, m) == m[u.idx := u.row]
    ensures u.UndoUpdate? ==> u.idx in m
    ensures u.UndoDelete? ==> u.idx !in m && u.idx < hw
  {
  }

  lemma PrevIsFree(schema: Schema, u: Undo, m: map<nat, Row>)
    requires u.UndoDelete? && u.idx !in m && Distinct(Prev(u, m), UniqueColumns(schema))
    ensures Unclashed(m, UniqueColumns(schema), u.idx, u.row)
  {
    var after := m[u.idx := u.row];
    assert Unclashed(after, UniqueColumns(schema), u.idx, after[u.idx]);
    UnclashedBefore(m, after, UniqueColumns(schema), u.idx, u.row);
  }

  /** Built zone maps bound the rows the list would put back past them. */
  ghost predicate CoveredUndos(env: Env, states: States, log: seq<Undo>)
    requires env.rps > 0
  {
    forall i :: 0 <= i < |log| && log[i].UndoDelete? ==> ZoneCoversRow(env, states, log[i].idx, log[i].row)
  }

  /** The list went on, with no delete. */
  ghost predicate MoreUndos(was: seq<Undo>, now: seq<Undo>) {
    was <= now && forall i :: |was| <= i < |now| ==> !now[i].UndoDelete?
  }

  lemma MoreUndosTrans(a: seq<Undo>, b: seq<Undo>, c: seq<Undo>)
    requires MoreUndos(a, b) && MoreUndos(b, c)
    ensures MoreUndos(a, c)
  {
  }

  lemma SameUndos(log: seq<Undo>)
    ensures MoreUndos(log, log)
  {
  }

  lemma UndosStillCovered(env: Env, was: States, now: States, log: seq<Undo>, log': seq<Undo>)
    requires env.rps > 0 && CoveredUndos(env, was, log) && ZonesGrow(was, now) && log <= log'
    requires forall i :: |log| <= i < |log'| && log'[i].UndoDelete? ==>
      ZoneCoversRow(env, now, log'[i].idx, log'[i].row)
    ensures CoveredUndos(env, now, log')
  {
    forall i | 0 <= i < |log'| && log'[i].UndoDelete?
      ensures ZoneCoversRow(env, now, log'[i].idx, log'[i].row)
    {
      if i < |log| {
        assert log'[i] == log[i];
        StillCovered(env, was, now, log[i].idx, log[i].row);
      }
    }
  }

  /** The file after one entry was undone: an updated or deleted row is written back. */
  function UndoBytes(env: Env, bytes: seq<byte>, u: Undo): seq<byte>
    requires env.rps > 0
  {
    if u.UndoInsert? then bytes else Written(env, bytes, u.idx, u.row)
  }

  lemma UndoBytesIs(env: Env, bytes: seq<byte>, u: Undo)
    requires env.rps > 0
    ensures UndoBytes(env, bytes, u) == if u.UndoInsert? then bytes else Written(env, bytes, u.idx, u.row)
  {
  }

  /** The file after the list was undone, newest entry first. */
  function UndoneBytes(env: Env, bytes: seq<byte>, log: seq<Undo>): seq<byte>
    requires env.rps > 0
    decreases |log|
  {
    if log == [] then bytes else UndoneBytes(env, UndoBytes(env, bytes, log[|log| - 1]), log[..|log| - 1])
  }

  lemma UndoneStep(env: Env, bytes: seq<byte>, log: seq<Undo>, k: nat)
    requires env.rps > 0 && k < |log|
    ensures UndoneBytes(env, bytes, log[..k + 1]) == UndoneBytes(env, UndoBytes(env, bytes, log[k]), log[..k])
  {
    assert log[..k + 1][..k] == log[..k];
  }

  lemma StillSameMaps(a: States, b: States, c: States)
    ensures SameMaps(a, a)
    ensures SameMaps(a, b) && SameMaps(b, c) ==> SameMaps(a, c)
  {
  }

  /** The maps after one entry was undone: an update is undone through its slab, the others past the map. */
  function MapsUndo(env: Env, states: States, u: Undo): States
    requires env.rps > 0
  {
    if u.UndoUpdate? then MapsAfter(env, states, u.idx, u.row) else states
  }

  /** The maps after the list was undone, newest entry first. */
  function MapsUndone(env: Env, states: States, log: seq<Undo>): States
    requires env.rps > 0
    decreases |log|
  {
    if log == [] then states else MapsUndone(env, MapsUndo(env, states, log[|log| - 1]), log[..|log| - 1])
  }

  lemma NoMapsUndone(env: Env, states: States)
    requires env.rps > 0
    ensures MapsUndone(env, states, []) == states
  {
  }

  lemma MapsUndoIs(env: Env, states: States, u: Undo)
    requires env.rps > 0
    ensures MapsUndo(env, states, u) == if u.UndoUpdate? then MapsAfter(env, states, u.idx, u.row) else states
  {
  }

  lemma {:induction false} SameMapsUndone(env: Env, a: States, b: States, log: seq<Undo>)
    requires env.rps > 0 && SameMaps(a, b)
    ensures SameMaps(MapsUndone(env, a, log), MapsUndone(env, b, log))
    decreases |log|
  {
    if log != [] {
      hide SameMaps, MapsAfter;
      var u := log[|log| - 1];
      if u.UndoUpdate? {
        SameMapsAfter(env, a, b, u.idx, u.row);
      }
      SameMapsUndone(env, MapsUndo(env, a, u), MapsUndo(env, b, u), log[..|log| - 1]);
    }
  }

  // one entry undone, the rest of the list leads to the same maps
  lemma MapsStep(env: Env, was: States, now: States, log: seq<Undo>, k: nat)
    requires env.rps > 0 && k < |log| && SameMaps(MapsUndo(env, was, log[k]), now)
    ensures SameMaps(MapsUndone(env, was, log[..k + 1]), MapsUndone(env, now, log[..k]))
  {
    hide SameMaps, MapsUndo;
    assert log[..k + 1][..k] == log[..k];
    SameMapsUndone(env, MapsUndo(env, was, log[k]), now, log[..k]);
  }

  lemma {:induction false} NoUpdatesNoMaps(env: Env, states: States, log: seq<Undo>)
    requires env.rps > 0 && NoUpdates(log)
    ensures MapsUndone(env, states, log) == states
    decreases |log|
  {
    if log != [] {
      assert forall i :: 0 <= i < |log| - 1 ==> log[..|log| - 1][i] == log[i];
      NoUpdatesNoMaps(env, states, log[..|log| - 1]);
    }
  }

  /** The list undoes no update. */
  predicate NoUpdates(log: seq<Undo>) { forall i :: 0 <= i < |log| ==> !log[i].UndoUpdate? }

  /** Every row is covered but those the entries from k on brought back past the map. */
  ghost predicate CoveredBut(env: Env, states: States, m: map<nat, Row>, log: seq<Undo>, k: nat)
    requires env.rps > 0
  {
    forall g :: g in m ==> ZoneCoversRow(env, states, g, m[g]) || BroughtBack(log, k, g)
  }

  predicate BroughtBack(log: seq<Undo>, k: nat, g: nat) {
    exists i :: k <= i < |log| && log[i].UndoDelete? && log[i].idx == g
  }

  lemma AllCovered(env: Env, states: States, m: map<nat, Row>, log: seq<Undo>)
    requires env.rps > 0 && ZonesCover(env, states, m)
    ensures CoveredBut(env, states, m, log, |log|)
  {
    hide ZoneCoversRow;
  }

  lemma CoveredButStep(env: Env, was: States, now: States, m: map<nat, Row>, log: seq<Undo>, k: nat)
    requires env.rps > 0 && k < |log| && CoveredBut(env, was, m, log, k + 1) && ZonesGrow(was, now)
    requires log[k].UndoUpdate? ==> ZoneCoversRow(env, now, log[k].idx, log[k].row)
    ensures CoveredBut(env, now, Prev(log[k], m), log, k)
  {
    hide ZoneCoversRow, ZonesGrow;
    var m' := Prev(log[k], m);
    forall g | g in m'
      ensures ZoneCoversRow(env, now, g, m'[g]) || BroughtBack(log, k, g)
    {
      if g == log[k].idx && !log[k].UndoInsert? {
        assert log[k].UndoDelete? ==> BroughtBack(log, k, g);
      } else if ZoneCoversRow(env, was, g, m[g]) {
        StillCovered(env, was, now, g, m[g]);
      } else {
        assert BroughtBack(log, k + 1, g);
      }
    }
  }

  // Rollback leaves zone maps sound exactly when those it leads to cover every row the transaction deleted
  // and rollback brings back; which maps it leads to, the updates undone decide.
  lemma ZonesAfterUndoing(env: Env, maps: States, now: States, log: seq<Undo>, base: map<nat, Row>)
    requires env.rps > 0 && SameMaps(maps, now) && CoveredBut(env, now, base, log, 0)
    ensures ZonesCover(env, now, base) <==> RestoredCovered(env, maps, log, base)
  {
    assert forall g, row :: ZoneCoversRow(env, maps, g, row) <==> ZoneCoversRow(env, now, g, row);
    hide SameMaps, ZoneCoversRow;
  }

  /** The maps cover every row the list brings back for good. */
  ghost predicate RestoredCovered(env: Env, states: States, log: seq<Undo>, base: map<nat, Row>)
    requires env.rps > 0
  {
    forall i :: 0 <= i < |log| && log[i].UndoDelete? && log[i].idx in base ==>
      ZoneCoversRow(env, states, log[i].idx, base[log[i].idx])
  }

  lemma NothingUndone(env: Env, bytes: seq<byte>)
    requires env.rps > 0
    ensures UndoneBytes(env, bytes, []) == bytes
  {
  }

  lemma CoveredStep(env: Env, was: States, log: seq<Undo>, k: nat)
    requires env.rps > 0 && k < |log| && CoveredUndos(env, was, log[..k + 1])
    ensures CoveredUndos(env, was, log[..k])
    ensures log[k].UndoDelete? ==> ZoneCoversRow(env, was, log[k].idx, log[k].row)
  {
    hide ZoneCoversRow;
    assert log[..k + 1][..k] == log[..k] && log[..k + 1][k] == log[k];
  }

  // ---- batches ------------------------------------------------------------------

  function Restricted(schema: Schema, rows: seq<Row>): (r: seq<Row>)
    ensures |r| == |rows| && forall i :: 0 <= i < |rows| ==> r[i] == Restrict(schema, rows[i])
  {
    seq(|rows|, i requires 0 <= i < |rows| => Restrict(schema, rows[i]))
  }

  lemma AllCanonical(schema: Schema, rows: seq<Row>)
    requires forall i :: 0 <= i < |rows| ==> Shaped(schema, rows[i]) && Storable(schema, rows[i])
    ensures forall i :: 0 <= i < |rows| ==> RowCanonical(schema, Restricted(schema, rows)[i])
  {
    hide Shaped, Storable, RowCanonical, Restrict;
    forall i | 0 <= i < |rows|
      ensures RowCanonical(schema, Restricted(schema, rows)[i])
    {
      ShapedIsCanonical(schema, rows[i]);
    }
  }

  lemma ClashEitherWay(schema: Schema, a: Row, b: Row)
    ensures Clash(schema, a, b) <==> Clash(schema, b, a)
  {
  }

  /** No row of the batch repeats, in a column flagged unique, a value of a row of m or of another in the batch. */
  ghost predicate NoClashes(schema: Schema, m: map<nat, Row>, rows: seq<Row>) {
    && (forall k, j :: 0 <= k < |rows| && j in m ==> !Clash(schema, rows[k], m[j]))
    && forall k, l :: 0 <= k < l < |rows| ==> !Clash(schema, rows[k], rows[l])
  }

  // a batch may go in exactly when no row of it clashes
  lemma FreeBatch(schema: Schema, m: map<nat, Row>, hw: nat, rows: seq<Row>)
    requires (forall j :: j in m ==> j < hw && Shaped(schema, m[j])) && Distinct(m, UniqueColumns(schema))
    requires forall k :: 0 <= k < |rows| ==> Shaped(schema, rows[k])
    ensures Distinct(PutAll(m, hw, rows), UniqueColumns(schema)) <==> NoClashes(schema, m, rows)
  {
    hide Shaped, Clash, Distinct, PutAll;
    var all := PutAll(m, hw, rows);
    PutAllHas(m, hw, rows);
    DistinctIs(schema, m);
    DistinctIs(schema, all);
    if Distinct(all, UniqueColumns(schema)) {
      forall k, j | 0 <= k < |rows| && j in m
        ensures !Clash(schema, rows[k], m[j])
      {
        assert all[hw + k] == rows[k] && all[j] == m[j];
      }
      forall k, l | 0 <= k < l < |rows|
        ensures !Clash(schema, rows[k], rows[l])
      {
        assert all[hw + k] == rows[k] && all[hw + l] == rows[l];
      }
    }
    if NoClashes(schema, m, rows) {
      forall i, j | i in all && j in all && i != j
        ensures !Clash(schema, all[i], all[j])
      {
        ClashEitherWay(schema, all[i], all[j]);
      }
    }
  }

  lemma RestrictedClashes(schema: Schema, m: map<nat, Row>, rows: seq<Row>)
    requires forall k :: 0 <= k < |rows| ==> Shaped(schema, rows[k])
    ensures forall k :: 0 <= k < |rows| ==> Shaped(schema, Restricted(schema, rows)[k])
    ensures forall k :: 0 <= k < |rows| ==> StoredAs(schema, Restricted(schema, rows)[k], rows[k])
    ensures NoClashes(schema, m, Restricted(schema, rows)) <==> NoClashes(schema, m, rows)
  {
    hide Shaped, Clash, Restrict, StoredAs;
    var fulls := Restricted(schema, rows);
    forall k | 0 <= k < |rows|
      ensures Shaped(schema, fulls[k]) && StoredAs(schema, fulls[k], rows[k])
      ensures forall other :: Clash(schema, fulls[k], other) <==> Clash(schema, rows[k], other)
      ensures forall other :: Clash(schema, other, fulls[k]) <==> Clash(schema, other, rows[k])
    {
      RestrictIs(schema, rows[k]);
      forall other
        ensures Clash(schema, other, fulls[k]) <==> Clash(schema, other, rows[k])
      {
        ClashEitherWay(schema, other, fulls[k]);
        ClashEitherWay(schema, other, rows[k]);
      }
    }
  }

  // what a batch put in leaves: its rows at the numbers from hw on, the rows of m where they were
  lemma BatchIs(schema: Schema, m: map<nat, Row>, hw: nat, rows: seq<Row>)
    requires forall j :: j in m ==> j < hw && Shaped(schema, m[j])
    requires forall k :: 0 <= k < |rows| ==> Shaped(schema, rows[k])
    requires Distinct(m, UniqueColumns(schema))
    ensures Distinct(PutAll(m, hw, Restricted(schema, rows)), UniqueColumns(schema)) <==> NoClashes(schema, m, rows)
    ensures BatchAdded(schema, m, hw, rows, PutAll(m, hw, Restricted(schema, rows)))
  {
    hide Shaped, NoClashes, Distinct, PutAll, StoredAs, Restrict;
    var fulls := Restricted(schema, rows);
    RestrictedClashes(schema, m, rows);
    FreeBatch(schema, m, hw, fulls);
    PutAllHas(m, hw, fulls);
  }

  /** now holds the rows given at the numbers from hw on, and those of m where they were. */
  ghost predicate BatchAdded(schema: Schema, m: map<nat, Row>, hw: nat, rows: seq<Row>, now: map<nat, Row>) {
    && (forall j :: j in now <==> j in m || hw <= j < hw + |rows|)
    && (forall j :: j in m && j < hw ==> now[j] == m[j])
    && forall k :: 0 <= k < |rows| ==> hw + k in now && StoredAs(schema, now[hw + k], rows[k])
  }

  /** The log went on by an insert per row from number hw on, of the row as stored. */
  ghost predicate LoggedInserts(was: W.Log, records: W.Log, hw: nat, n: nat, now: map<nat, Row>) {
    && |records| == |was| + n && was <= records
    && forall g :: hw <= g < hw + n ==> g in now && records[|was| + g - hw] == W.Insert(g, now[g])
  }

  lemma InsertsLogged(was: W.Log, hw: nat, rows: seq<Row>, m: map<nat, Row>)
    ensures LoggedInserts(was, was + InsertRecords(hw, rows), hw, |rows|, PutAll(m, hw, rows))
  {
    hide PutAll;
    PutAllHas(m, hw, rows);
  }

  /** The first error of shape in a batch. */
  method CheckShapes(schema: Schema, rows: seq<Row>) returns (bad: Option<Outcome>)
    ensures bad.None? <==> forall i :: 0 <= i < |rows| ==> Shaped(schema, rows[i])
    ensures bad.Some? ==> !bad.value.Done?
  {
    hide Shaped;
    for i := 0 to |rows|
      invariant forall k :: 0 <= k < i ==> Shaped(schema, rows[k])
    {
      bad := CheckShape(schema, rows[i]);
      if bad.Some? {
        return;
      }
    }
    bad := None;
  }

  /** The log records of a batch. */
  function InsertRecords(start: nat, rows: seq<Row>): W.Log {
    seq(|rows|, i requires 0 <= i < |rows| => W.Insert(start + i, rows[i]))
  }

  lemma NoRecords(start: nat)
    ensures InsertRecords(start, []) == []
  {
  }

  lemma RecordsPush(start: nat, rows: seq<Row>, k: nat)
    requires k < |rows|
    ensures InsertRecords(start, rows[..k + 1]) == InsertRecords(start, rows[..k]) + [W.Insert(start + k, rows[k])]
  {
  }

  // ---- the database -----------------------------------------------------------------

  class SnapDB {
    const schema: Schema
    const store: Store
    const unique: UniqueMap
    var hash: MultiIndex
    var ranges: RangeIndexes
    const wal: W.Wal
    var inTx: bool
    var txState: seq<Undo>

    /** The rows and the next row number when the transaction began. */
    ghost var txBase: R.Image
    /** The row operations it has logged, after the records that were there before it. */
    ghost var txOps: W.Log
    ghost var txLog: W.Log

    /** A database over a store just created or loaded, with nothing indexed yet. */
    constructor (schema: Schema, store: Store, wal: W.Wal)
      requires WfSchema(schema) && wal.Valid() && wal.buffer == [] && !wal.inTx
      ensures this.schema == schema && this.store == store && this.wal == wal && !inTx
      ensures fresh(unique) && fresh(hash) && hash.indexes == map[] && ranges == map[]
      ensures unique.cols == UniqueColumns(schema) && unique.Agrees(map[]) && TxOk()
    {
      UniqueColumnsApart(schema);
      this.schema, this.store, this.wal := schema, store, wal;
      unique := new UniqueMap(UniqueColumns(schema));
      hash := new MultiIndex();
      ranges := map[];
      inTx, txState := false, [];
      txBase, txOps, txLog := R.Image(map[], 0), [], [];
    }

    // ---- invariant --------------------------------------------------------------

    ghost predicate StoreOk()
      reads store, store.mm, store.slabs
    {
      var ok :=
        && store.Valid() && store.env.rps > 0 && WfSchema(schema)
        && forall row :: store.env.codec.canon(row) <==> RowCanonical(schema, row);
      ok
    }

    /** Indexes and the unique map are exactly those of the rows in m. */
    ghost predicate Derived(m: map<nat, Row>)
      reads `hash, `ranges, unique, hash, hash.indexes.Values, ranges.Values
    {
      var ok :=
        && unique.cols == UniqueColumns(schema) && unique.Agrees(m) && hash.Agrees(m) && RangesAgree(ranges, m)
        && OverSchema();
      ok
    }

    /** Range indexes are over columns of the schema. */
    predicate OverSchema()
      reads `ranges
      ensures OverSchema() <==> ranges.Keys <= Names(schema)
    {
      forall c :: c in ranges ==> c in Names(schema)
    }

    ghost predicate TxOk()
      reads `inTx, `txState, `txBase, `txOps, `txLog, store, wal
    {
      TxAt(R.Image(store.model, HighWater(store.env, store.states)))
    }

    ghost predicate Valid()
      reads this, store, store.mm, store.slabs, unique, hash, hash.indexes.Values, ranges.Values, wal
    {
      var ok := StoreOk() && Derived(store.model) && TxOk();
      ok
    }

    /** Every built zone map bounds the live values of its slab. */
    ghost predicate Zoned()
      reads store
    {
      store.env.rps > 0 && ZonesCover(store.env, store.states, store.model)
    }

    /** Every built zone map also bounds the deleted rows a rollback would put back. */
    ghost predicate Restorable()
      reads `txState, store
    {
      store.env.rps > 0 && CoveredUndos(store.env, store.states, txState)
    }

    /** Every slab's zone map is built. */
    ghost predicate AllBuilt()
      reads store
      ensures AllBuilt() <==> forall k :: 0 <= k < |store.states| ==> store.states[k].zoneBuilt
    {
      forall k :: 0 <= k < |store.states| ==> store.states[k].zoneBuilt
    }

    lemma StillBuilt(maps: States)
      requires ZonesGrow(maps, store.states)
      ensures (forall k :: 0 <= k < |maps| ==> maps[k].zoneBuilt) ==> AllBuilt()
    {
    }

    lemma RestorableIs()
      ensures Restorable() <==> store.env.rps > 0 && CoveredUndos(store.env, store.states, txState)
    {
    }

    lemma StillRestorable(maps: States, log: seq<Undo>)
      requires store.env.rps > 0 && ZonesGrow(maps, store.states) && MoreUndos(log, txState)
      ensures CoveredUndos(store.env, maps, log) ==> Restorable()
    {
      hide ZonesGrow, ZoneCoversRow;
      if CoveredUndos(store.env, maps, log) {
        UndosStillCovered(store.env, maps, store.states, log, txState);
      }
    }

    lemma ZonedIs()
      ensures Zoned() <==> store.env.rps > 0 && ZonesCover(store.env, store.states, store.model)
    {
    }

    lemma Parts()
      requires Valid()
      ensures StoreOk() && Derived(store.model) && TxOk()
    {
    }

    lemma Whole()
      requires StoreOk() && Derived(store.model) && TxOk()
      ensures Valid()
    {
    }

    lemma StoreParts()
      requires StoreOk()
      ensures store.Valid() && store.env.rps > 0 && WfSchema(schema)
      ensures forall row :: store.env.codec.canon(row) <==> RowCanonical(schema, row)
    {
    }

    lemma StoreWhole()
      requires store.Valid() && store.env.rps > 0 && WfSchema(schema)
      requires forall row :: store.env.codec.canon(row) <==> RowCanonical(schema, row)
      ensures StoreOk()
    {
    }

    lemma DerivedParts(m: map<nat, Row>)
      requires Derived(m)
      ensures unique.cols == UniqueColumns(schema) && unique.Agrees(m) && hash.Agrees(m) && RangesAgree(ranges, m)
      ensures OverSchema()
      ensures Distinct(m, UniqueColumns(schema))
    {
      OwnersAreDistinct(unique.owners, unique.cols, m);
    }

    lemma DerivedWhole(m: map<nat, Row>)
      requires unique.cols == UniqueColumns(schema) && unique.Agrees(m) && hash.Agrees(m) && RangesAgree(ranges, m)
      requires OverSchema()
      ensures Derived(m)
    {
    }

    // ---- index upkeep -------------------------------------------------------------

    /** One changed row goes through every index. */
    method NoteIndexes(i: nat, change: Change, ghost m: map<nat, Row>)
      requires hash.Agrees(m) && RangesAgree(ranges, m) && change.Fits(i, m)
      modifies hash.indexes.Values, ranges.Values
      ensures hash.Agrees(change.After(i, m)) && RangesAgree(ranges, change.After(i, m))
    {
      hide *;
      NoteHashes(hash, i, change, m);
      NoteRanges(ranges, i, change, m);
    }

    /** Indexes and unique map after row i was added. */
    method NoteAdded(i: nat, row: Row, ghost m: map<nat, Row>)
      requires Derived(m) && i !in m && Unclashed(m, UniqueColumns(schema), i, row)
      modifies unique, hash.indexes.Values, ranges.Values
      ensures Derived(m[i := row])
    {
      hide *;
      DerivedParts(m);
      ChangeIs(i, Added(row), m);
      NoteIndexes(i, Added(row), m);
      assert m - {i} == m;
      unique.Insert(i, row, m);
      DerivedWhole(m[i := row]);
    }

    lemma ChangeIs(i: nat, change: Change, m: map<nat, Row>)
      ensures change.Added? && i !in m ==> change.Fits(i, m) && change.After(i, m) == m[i := change.row]
      ensures change.Changed? && i in m && m[i] == change.oldRow ==>
        change.Fits(i, m) && change.After(i, m) == m[i := change.newRow]
      ensures change.Removed? && i in m && m[i] == change.row ==> change.Fits(i, m) && change.After(i, m) == m - {i}
    {
    }

    /** The indexes after row i, whose unique values have moved already, changed. */
    method NoteChanged(i: nat, oldRow: Row, row: Row, ghost m: map<nat, Row>)
      requires hash.Agrees(m) && RangesAgree(ranges, m) && i in m && m[i] == oldRow
      requires unique.cols == UniqueColumns(schema) && unique.Agrees(m[i := row]) && OverSchema()
      modifies hash.indexes.Values, ranges.Values
      ensures Derived(m[i := row]) && Distinct(m[i := row], UniqueColumns(schema))
    {
      hide *;
      ChangeIs(i, Changed(oldRow, row), m);
      NoteIndexes(i, Changed(oldRow, row), m);
      DerivedWhole(m[i := row]);
      DerivedParts(m[i := row]);
    }

    method NoteRemoved(i: nat, row: Row, ghost m: map<nat, Row>)
      requires Derived(m) && i in m && m[i] == row
      modifies unique, hash.indexes.Values, ranges.Values
      ensures Derived(m - {i})
    {
      hide *;
      DerivedParts(m);
      ChangeIs(i, Removed(row), m);
      NoteIndexes(i, Removed(row), m);
      unique.Delete(i, row, m);
      DerivedWhole(m - {i});
    }

    // ---- transaction bookkeeping ----------------------------------------------------

    /** Inside a transaction an operation leading from rows `was` to rows `now` is remembered for undoing and logged. */
    method Remember(u: Undo, rec: W.Rec, ghost was: R.Image, ghost now: R.Image)
      requires TxAt(was) && R.Legal(was, rec) && R.Step(was, rec) == now
      requires Led(schema, u, now.rows, now.next) && Prev(u, now.rows) == was.rows && was.next <= now.next
      requires Distinct(now.rows, UniqueColumns(schema))
      modifies `txState, `txOps, wal`file, wal`buffer, wal`log
      ensures TxAt(now) && wal.Records() == old(wal.Records()) + (if inTx then [rec] else [])
      ensures txState == old(txState) + (if inTx then [u] else [])
    {
      hide R.LegalRun, R.Run, R.Step, R.Legal, Undoes, Distinct, Led, Prev, W.Wal.Valid;
      if inTx {
        R.RunPush(txBase, txOps, rec, UniqueColumns(schema));
        UndoesPush(schema, txState, was.rows, was.next, txBase.rows, u, now.rows, now.next);
        txState := txState + [u];
        txOps := txOps + [rec];
        wal.Append(rec);
      }
    }

    /** The transaction's undo list and records lead from its base to the rows `now`; what came before it is on disk. */
    ghost predicate TxAt(now: R.Image)
      reads `inTx, `txState, `txBase, `txOps, `txLog, wal
    {
      var ok := wal.Valid() && wal.inTx == inTx && (!inTx ==> wal.buffer == []) && (inTx ==>
        && |txLog| + |wal.buffer| <= |wal.Records()|
        && wal.Records() == txLog + [W.Begin(wal.txid)] + txOps
        && R.LegalRun(txBase, txOps, UniqueColumns(schema)) && R.Run(txBase, txOps) == now
        && Undoes(schema, txState, now.rows, now.next, txBase.rows));
      ok
    }

    // live rows have numbers below the next one and a value in every column; in the columns flagged unique they differ
    lemma LiveRows()
      requires Valid()
      ensures forall j :: j in store.model ==> j < HighWater(store.env, store.states) && Shaped(schema, store.model[j])
      ensures Distinct(store.model, UniqueColumns(schema)) && WfSchema(schema)
      ensures forall i, j :: i in store.model && j in store.model && i != j ==>
        !Clash(schema, store.model[i], store.model[j])
    {
      hide *;
      Parts();
      StoreParts();
      NextIsFree();
      DerivedParts(store.model);
      forall j | j in store.model
        ensures Shaped(schema, store.model[j])
      {
        LiveIsCanonical(j);
        CanonicalIsShaped(schema, store.model[j]);
      }
      DistinctIs(schema, store.model);
    }

    // every row number handed out so far is below the next one
    lemma NextIsFree()
      requires StoreOk()
      ensures forall j :: j in store.model ==> j < HighWater(store.env, store.states)
    {
      store.Parts();
      BelowHighWater(store.env, store.mm.bytes, store.states, store.model);
    }

    // ---- insert ---------------------------------------------------------------------

    method Insert(row: Row) returns (r: Outcome)
      requires Valid() && Storable(schema, row)
      modifies `txState, `txOps, store, store.mm, store.slabs, unique, hash.indexes.Values, ranges.Values, wal`file
      modifies wal`buffer, wal`log
      ensures Valid() && hash == old(hash)
      ensures store.mm == old(store.mm) || fresh(store.mm)
      ensures forall s :: s in store.slabs ==> s in old(store.slabs) || fresh(s)
      ensures r.Done? <==>
        && Shaped(schema, row)
        && Unclashed(old(store.model), UniqueColumns(schema), old(HighWater(store.env, store.states)),
            Restrict(schema, row))
      ensures r.Done? ==>
        && r.idx == old(HighWater(store.env, store.states)) && HighWater(store.env, store.states) == r.idx + 1
        && r.idx !in old(store.model)
      ensures r.Done? ==> store.model == old(store.model)[r.idx := Restrict(schema, row)]
      ensures wal.Records() ==
        old(wal.Records()) + (if r.Done? && inTx then [W.Insert(r.idx, Restrict(schema, row))] else [])
      ensures r.Done? <==>
        && (forall i :: 0 <= i < |schema| ==> schema[i].name in row && row[schema[i].name] != Null)
        && forall j :: j in old(store.model) ==> !Clash(schema, row, old(store.model)[j])
      ensures r.MissingColumn? ==> FirstBad(schema, row, r.c) && r.c !in row
      ensures r.NullColumn? ==> FirstBad(schema, row, r.c) && r.c in row && row[r.c] == Null
      ensures r.Duplicate? ==> FirstTaken(schema, old(store.model), r.c, row)
      ensures !r.NotFound?
      ensures r.Done? ==> StoredAs(schema, store.model[r.idx], row)
      ensures r.Done? && inTx ==> wal.Records() == old(wal.Records()) + [W.Insert(r.idx, store.model[r.idx])]
      ensures !r.Done? ==> Untouched()
      ensures old(Zoned()) ==> Zoned()
      ensures r.Done? ==> LeastSlabs(store.env, |old(store.slabs)|, |store.slabs|, HighWater(store.env, store.states))
      ensures r.Done? ==>
        store.mm.bytes ==
        Written(store.env, Enlarged(store.env, old(store.mm.bytes), |store.slabs| - |old(store.slabs)|), r.idx,
            Restrict(schema, row))
      ensures (old(Restorable()) ==> Restorable()) && (old(AllBuilt()) ==> AllBuilt())
    {
      hide Valid, Zoned, Restorable, AllBuilt, Written, Enlarged, Shaped, Storable, Restrict, Unclashed, RowCanonical;
      hide Clash, StoredAs, FirstTaken, FirstBad, FirstHeld, Distinct, HighWater, UniqueColumns, Names, WfSchema;
      hide W.Wal.Records, LeastSlabs;
      ghost var m := store.model;
      LiveRows();
      FreeToInsert(schema, m, HighWater(store.env, store.states), row);
      ShapedParts(schema, row);
      var bad := CheckShape(schema, row);
      if bad.Some? {
        return bad.value;
      }
      ShapedIsCanonical(schema, row);
      r := InsertShaped(Restrict(schema, row));
      if r.Duplicate? {
        TakenIfFull(schema, m, HighWater(store.env, store.states), r.c, row);
      }
    }

    /** Nothing a caller can see has changed. */
    twostate predicate Untouched()
      reads this, store, store.mm, store.slabs, unique, hash, hash.indexes.Values, ranges.Values, wal
    {
      && unchanged(this) && unchanged(store) && unchanged(store.mm) && unchanged(wal)
      && (forall s :: s in old(store.slabs) ==> unchanged(s))
      && unchanged(hash) && unique.owners == old(unique.owners)
      && (forall c :: c in old(hash.indexes) ==> unchanged(old(hash.indexes[c])))
      && (forall c :: c in old(ranges) ==> unchanged(old(ranges[c])))
    }

    method InsertShaped(full: Row) returns (r: Outcome)
      requires Valid() && RowCanonical(schema, full)
      modifies `txState, `txOps, store, store.mm, store.slabs, unique, hash.indexes.Values, ranges.Values, wal`file
      modifies wal`buffer, wal`log
      ensures Valid() && hash == old(hash)
      ensures store.mm == old(store.mm) || fresh(store.mm)
      ensures forall s :: s in store.slabs ==> s in old(store.slabs) || fresh(s)
      ensures r.Done? <==>
        Unclashed(old(store.model), UniqueColumns(schema), old(HighWater(store.env, store.states)), full)
      ensures r.Done? ==>
        r.idx == old(HighWater(store.env, store.states)) && HighWater(store.env, store.states) == r.idx + 1
      ensures r.Done? ==> r.idx !in old(store.model) && store.model == old(store.model)[r.idx := full]
      ensures r.Duplicate? ==>
        FirstHeld(old(store.model), UniqueColumns(schema), old(HighWater(store.env, store.states)), full, r.c)
      ensures wal.Records() == old(wal.Records()) + (if r.Done? && inTx then [W.Insert(r.idx, full)] else [])
      ensures !r.Done? ==> r.Duplicate? && Untouched()
      ensures old(Zoned()) ==> Zoned()
      ensures r.Done? ==> LeastSlabs(store.env, |old(store.slabs)|, |store.slabs|, HighWater(store.env, store.states))
      ensures r.Done? ==>
        store.mm.bytes ==
        Written(store.env, Enlarged(store.env, old(store.mm.bytes), |store.slabs| - |old(store.slabs)|), r.idx, full)
      ensures (old(Restorable()) ==> Restorable()) && (old(AllBuilt()) ==> AllBuilt())
    {
      hide Valid, Zoned, Restorable, AllBuilt, Written, Enlarged, StoreOk, Derived, TxOk, TxAt, UniqueMap.Agrees;
      hide MultiIndex.Agrees, RangesAgree, Unclashed, RowCanonical, HighWater;
      Parts();
      DerivedParts(store.model);
      NextIsFree();
      var clash := unique.Validate(full, None, store.model, HighWater(store.env, store.states));
      if clash.Some? {
        return Duplicate(clash.value);
      }
      var idx := InsertFree(full);
      r := Done(idx);
    }

    method InsertFree(full: Row) returns (idx: nat)
      requires Valid() && RowCanonical(schema, full)
      requires Unclashed(store.model, UniqueColumns(schema), HighWater(store.env, store.states), full)
      modifies `txState, `txOps, store, store.mm, store.slabs, unique, hash.indexes.Values, ranges.Values, wal`file
      modifies wal`buffer, wal`log
      ensures Valid() && hash == old(hash)
      ensures store.mm == old(store.mm) || fresh(store.mm)
      ensures forall s :: s in store.slabs ==> s in old(store.slabs) || fresh(s)
      ensures idx == old(HighWater(store.env, store.states)) && HighWater(store.env, store.states) == idx + 1
      ensures idx !in old(store.model) && store.model == old(store.model)[idx := full]
      ensures LeastSlabs(store.env, |old(store.slabs)|, |store.slabs|, HighWater(store.env, store.states))
      ensures wal.Records() == old(wal.Records()) + (if inTx then [W.Insert(idx, full)] else [])
      ensures old(Zoned()) ==> Zoned()
      ensures store.mm.bytes ==
        Written(store.env, Enlarged(store.env, old(store.mm.bytes), |store.slabs| - |old(store.slabs)|), idx, full)
      ensures (old(Restorable()) ==> Restorable()) && (old(AllBuilt()) ==> AllBuilt())
    {
      hide *;
      Parts();
      StoreParts();
      TxHere();
      DerivedParts(store.model);
      ghost var was := R.Image(store.model, HighWater(store.env, store.states));
      ghost var maps, log := store.states, txState;
      RestorableIs();
      ZonedIs();
      idx := store.Insert(full);
      ZonedIs();
      StoreWhole();
      NoteInserted(idx, full, was);
      TxNow(R.Image(store.model, idx + 1));
      Whole();
      StillRestorable(maps, log);
      StillBuilt(maps);
    }

    /** What follows a new row: indexes, unique map, undo entry, log record. */
    method NoteInserted(idx: nat, full: Row, ghost was: R.Image)
      requires Derived(was.rows) && TxAt(was) && idx == was.next && idx !in was.rows
      requires Unclashed(was.rows, UniqueColumns(schema), idx, full)
      requires Distinct(was.rows, UniqueColumns(schema))
      modifies `txState, `txOps, unique, hash.indexes.Values, ranges.Values, wal`file, wal`buffer, wal`log
      ensures Derived(was.rows[idx := full]) && TxAt(R.Image(was.rows[idx := full], idx + 1)) && hash == old(hash)
      ensures wal.Records() == old(wal.Records()) + (if inTx then [W.Insert(idx, full)] else [])
      ensures MoreUndos(old(txState), txState)
    {
      hide *;
      OneMoreUndo(txState, UndoInsert(idx, full));
      NoteAdded(idx, full, was.rows);
      InsertLed(schema, was, idx, full);
      Remember(UndoInsert(idx, full), W.Insert(idx, full), was, R.Image(was.rows[idx := full], idx + 1));
    }

    lemma OneMoreUndo(log: seq<Undo>, u: Undo)
      requires !u.UndoDelete?
      ensures MoreUndos(log, log) && MoreUndos(log, log + [u]) && log + [] == log
    {
    }

    lemma TxHere()
      requires TxOk()
      ensures TxAt(R.Image(store.model, HighWater(store.env, store.states)))
    {
    }

    lemma TxNow(now: R.Image)
      requires TxAt(now) && now == R.Image(store.model, HighWater(store.env, store.states))
      ensures TxOk()
    {
    }

    // ---- update ---------------------------------------------------------------------

    method Update(idx: int, row: Row) returns (r: Outcome)
      requires Valid() && Storable(schema, row)
      modifies `txState, `txOps, store, store.mm, store.slabs, unique, hash.indexes.Values, ranges.Values, wal`file
      modifies wal`buffer, wal`log
      ensures Valid() && hash == old(hash) && store.mm == old(store.mm) && store.slabs == old(store.slabs)
      ensures r.NotFound? <==> !(idx >= 0 && idx in old(store.model))
      ensures r.Done? <==> (idx >= 0 && idx in old(store.model) && Shaped(schema, old(store.model)[idx] + row) &&
        Unclashed(old(store.model), UniqueColumns(schema), idx, Merged(schema, old(store.model)[idx], row)))
      ensures r.Done? ==>
        r.idx == idx && store.model == old(store.model)[idx := Merged(schema, old(store.model)[idx], row)]
      ensures HighWater(store.env, store.states) == old(HighWater(store.env, store.states))
      ensures wal.Records() == old(wal.Records()) +
        (if r.Done? && inTx then [W.Update(idx, Merged(schema, old(store.model)[idx], row))] else [])
      ensures r.Done? <==>
        && idx >= 0 && idx in old(store.model)
        && (forall i :: 0 <= i < |schema| && schema[i].name in row ==> row[schema[i].name] != Null)
        && forall j :: j in old(store.model) && j != idx ==> !Clash(schema, row, old(store.model)[j])
      ensures !r.MissingColumn?
      ensures r.NullColumn? ==>
        idx >= 0 && idx in old(store.model) && FirstBad(schema, old(store.model)[idx] + row, r.c)
        && r.c in row && row[r.c] == Null
      ensures r.Duplicate? ==> idx >= 0 && FirstTaken(schema, old(store.model) - {idx}, r.c, row)
      ensures r.Done? ==> UpdatedTo(schema, store.model[idx], old(store.model)[idx], row)
      ensures r.Done? && inTx ==> wal.Records() == old(wal.Records()) + [W.Update(idx, store.model[idx])]
      ensures !r.Done? ==> Untouched()
      ensures old(Zoned()) ==> Zoned()
      ensures r.Done? ==>
        store.mm.bytes == Written(store.env, old(store.mm.bytes), idx, Merged(schema, old(store.model)[idx], row))
      ensures (old(Restorable()) ==> Restorable()) && (old(AllBuilt()) ==> AllBuilt())
    {
      hide Valid, Zoned, Restorable, AllBuilt, Written, Shaped, Storable, Restrict, Unclashed, RowCanonical, HighWater;
      hide W.Wal.Records;
      hide Clash, UpdatedTo, FirstTaken, FirstHeld, Distinct, UniqueColumns, Names, FirstBad, WfSchema, Merged;
      ghost var m := store.model;
      LiveRows();
      var oldRow := Find(idx);
      if oldRow.None? {
        return NotFound;
      }
      FreeToUpdate(schema, m, idx, row);
      MergedRestricts(schema, oldRow.value, row);
      MergedIsStorable(schema, oldRow.value, row);
      var bad := CheckShape(schema, oldRow.value + row);
      if bad.Some? {
        NotMissing(schema, oldRow.value, row, bad.value);
        return bad.value;
      }
      ShapedIsCanonical(schema, oldRow.value + row);
      r := UpdateFound(idx, oldRow.value, Restrict(schema, oldRow.value + row));
      if r.Duplicate? {
        TakenByOther(schema, m, idx, r.c, row);
      }
    }

    /** The live row numbered idx. */
    method Find(idx: int) returns (r: Option<Row>)
      requires Valid()
      ensures r.Some? <==> idx >= 0 && idx in store.model
      ensures r.Some? ==> r.value == store.model[idx] && RowCanonical(schema, r.value)
    {
      hide *;
      Parts();
      StoreParts();
      r := store.GetRow(idx);
      if r.Some? {
        LiveIsCanonical(idx);
      }
    }

    lemma LiveIsCanonical(idx: nat)
      requires StoreOk() && idx in store.model
      ensures RowCanonical(schema, store.model[idx])
    {
      store.Parts();
    }

    method UpdateFound(idx: nat, oldRow: Row, full: Row) returns (r: Outcome)
      requires Valid() && idx in store.model && store.model[idx] == oldRow && RowCanonical(schema, oldRow)
      requires RowCanonical(schema, full)
      modifies `txState, `txOps, store, store.mm, store.slabs, unique, hash.indexes.Values, ranges.Values, wal`file
      modifies wal`buffer, wal`log
      ensures Valid() && hash == old(hash) && store.mm == old(store.mm) && store.slabs == old(store.slabs)
      ensures r.Done? <==> Unclashed(old(store.model), UniqueColumns(schema), idx, full)
      ensures r.Done? ==> r.idx == idx && store.model == old(store.model)[idx := full]
      ensures HighWater(store.env, store.states) == old(HighWater(store.env, store.states))
      ensures wal.Records() == old(wal.Records()) + (if r.Done? && inTx then [W.Update(idx, full)] else [])
      ensures r.Duplicate? ==> FirstHeld(old(store.model) - {idx}, UniqueColumns(schema), idx, full, r.c)
      ensures !r.Done? ==> r.Duplicate? && Untouched()
      ensures old(Zoned()) ==> Zoned()
      ensures r.Done? ==> store.mm.bytes == Written(store.env, old(store.mm.bytes), idx, full)
      ensures (old(Restorable()) ==> Restorable()) && (old(AllBuilt()) ==> AllBuilt())
    {
      hide Valid, Zoned, Restorable, AllBuilt, Written, StoreOk, Derived, TxOk, TxAt, UniqueMap.Agrees;
      hide MultiIndex.Agrees, RangesAgree, Unclashed, RowCanonical, HighWater;
      hide W.Wal.Records, FirstHeld, Distinct, UniqueColumns, WfSchema, SnapDB.OverSchema;
      Parts();
      DerivedParts(store.model);
      var clash := unique.Update(idx, oldRow, full, store.model);
      if clash.Some? {
        assert store.model[idx := oldRow] == store.model;
        DerivedWhole(store.model);
        Whole();
        return Duplicate(clash.value);
      }
      UpdateFree(idx, oldRow, full);
      r := Done(idx);
    }

    /** The store's part of an update. */
    method UpdateStored(idx: nat, full: Row)
      requires StoreOk() && idx in store.model && RowCanonical(schema, full)
      modifies store, store.mm, store.slabs
      ensures StoreOk() && store.mm == old(store.mm) && store.slabs == old(store.slabs)
      ensures store.model == old(store.model)[idx := full]
      ensures HighWater(store.env, store.states) == old(HighWater(store.env, store.states))
      ensures store.env.rps > 0 && store.mm.bytes == Written(store.env, old(store.mm.bytes), idx, full)
      ensures ZonesGrow(old(store.states), store.states)
      ensures old(Zoned()) ==> Zoned()
    {
      hide *;
      StoreParts();
      ZonedIs();
      store.Update(idx, full);
      ZonedIs();
      StoreWhole();
    }

    /** What follows an updated row: indexes, undo entry, log record; its unique values have moved already. */
    method NoteUpdated(idx: nat, oldRow: Row, full: Row, ghost was: R.Image)
      requires hash.Agrees(was.rows) && RangesAgree(ranges, was.rows) && TxAt(was)
      requires idx in was.rows && was.rows[idx] == oldRow && RowCanonical(schema, oldRow)
      requires unique.cols == UniqueColumns(schema) && unique.Agrees(was.rows[idx := full]) && OverSchema()
      modifies `txState, `txOps, hash.indexes.Values, ranges.Values, wal`file, wal`buffer, wal`log
      ensures Derived(was.rows[idx := full]) && TxAt(R.Image(was.rows[idx := full], was.next)) && hash == old(hash)
      ensures wal.Records() == old(wal.Records()) + (if inTx then [W.Update(idx, full)] else [])
      ensures MoreUndos(old(txState), txState)
    {
      hide *;
      OneMoreUndo(txState, UndoUpdate(idx, oldRow));
      NoteChanged(idx, oldRow, full, was.rows);
      UpdateLed(schema, was, idx, oldRow, full);
      Remember(UndoUpdate(idx, oldRow), W.Update(idx, full), was, R.Image(was.rows[idx := full], was.next));
    }

    /** The rest of an update whose unique values have moved already. */
    method UpdateFree(idx: nat, oldRow: Row, full: Row)
      requires StoreOk() && TxOk() && hash.Agrees(store.model) && RangesAgree(ranges, store.model)
      requires idx in store.model && store.model[idx] == oldRow && RowCanonical(schema, full)
      requires RowCanonical(schema, oldRow)
      requires unique.cols == UniqueColumns(schema) && unique.Agrees(store.model[idx := full]) && OverSchema()
      modifies `txState, `txOps, store, store.mm, store.slabs, hash.indexes.Values, ranges.Values, wal`file, wal`buffer
      modifies wal`log
      ensures Valid() && hash == old(hash) && store.mm == old(store.mm) && store.slabs == old(store.slabs)
      ensures store.model == old(store.model)[idx := full]
      ensures HighWater(store.env, store.states) == old(HighWater(store.env, store.states))
      ensures wal.Records() == old(wal.Records()) + (if inTx then [W.Update(idx, full)] else [])
      ensures old(Zoned()) ==> Zoned()
      ensures store.mm.bytes == Written(store.env, old(store.mm.bytes), idx, full)
      ensures (old(Restorable()) ==> Restorable()) && (old(AllBuilt()) ==> AllBuilt())
    {
      hide *;
      ghost var was := R.Image(store.model, HighWater(store.env, store.states));
      ghost var maps, log := store.states, txState;
      RestorableIs();
      TxHere();
      UpdateStored(idx, full);
      NoteUpdated(idx, oldRow, full, was);
      TxNow(R.Image(store.model, was.next));
      Whole();
      StillRestorable(maps, log);
      StillBuilt(maps);
    }

    // ---- delete ---------------------------------------------------------------------

    method Delete(idx: int) returns (r: Outcome)
      requires Valid()
      modifies `txState, `txOps, store, store.mm, store.slabs, unique, hash.indexes.Values, ranges.Values, wal`file
      modifies wal`buffer, wal`log
      ensures Valid() && hash == old(hash) && store.mm == old(store.mm) && store.slabs == old(store.slabs)
      ensures r == if idx >= 0 && idx in old(store.model) then Done(idx) else NotFound
      ensures r.Done? ==> store.model == old(store.model) - {r.idx}
      ensures HighWater(store.env, store.states) == old(HighWater(store.env, store.states))
      ensures wal.Records() == old(wal.Records()) + (if r.Done? && inTx then [W.Delete(r.idx)] else [])
      ensures !r.Done? ==> Untouched()
      ensures old(Zoned()) ==> Zoned()
      ensures store.mm.bytes == old(store.mm.bytes) && SameMaps(old(store.states), store.states)
      ensures txState == old(txState) + (if r.Done? && inTx then [UndoDelete(r.idx, old(store.model)[r.idx])] else [])
      ensures (old(Zoned() && Restorable()) ==> Restorable()) && (old(AllBuilt()) ==> AllBuilt())
    {
      hide Valid, Zoned, Restorable, AllBuilt, HighWater, RowCanonical, W.Wal.Records;
      var oldRow := Find(idx);
      if oldRow.None? {
        return NotFound;
      }
      DeleteFound(idx, oldRow.value);
      r := Done(idx);
    }

    /** What follows a deleted row: indexes, unique map, undo entry, log record. */
    method NoteDeleted(idx: nat, oldRow: Row, ghost was: R.Image)
      requires Derived(was.rows) && TxAt(was) && idx in was.rows && was.rows[idx] == oldRow && idx < was.next
      requires RowCanonical(schema, oldRow) && Distinct(was.rows, UniqueColumns(schema))
      modifies `txState, `txOps, unique, hash.indexes.Values, ranges.Values, wal`file, wal`buffer, wal`log
      ensures Derived(was.rows - {idx}) && TxAt(R.Image(was.rows - {idx}, was.next)) && hash == old(hash)
      ensures wal.Records() == old(wal.Records()) + (if inTx then [W.Delete(idx)] else [])
      ensures txState == old(txState) + (if inTx then [UndoDelete(idx, oldRow)] else [])
    {
      hide *;
      NoteRemoved(idx, oldRow, was.rows);
      DeleteLed(schema, was, idx, oldRow);
      Remember(UndoDelete(idx, oldRow), W.Delete(idx), was, R.Image(was.rows - {idx}, was.next));
    }

    method DeleteFound(idx: nat, oldRow: Row)
      requires Valid() && idx in store.model && store.model[idx] == oldRow && RowCanonical(schema, oldRow)
      modifies `txState, `txOps, store, store.mm, store.slabs, unique, hash.indexes.Values, ranges.Values, wal`file
      modifies wal`buffer, wal`log
      ensures Valid() && hash == old(hash) && store.mm == old(store.mm) && store.slabs == old(store.slabs)
      ensures store.model == old(store.model) - {idx}
      ensures HighWater(store.env, store.states) == old(HighWater(store.env, store.states))
      ensures wal.Records() == old(wal.Records()) + (if inTx then [W.Delete(idx)] else [])
      ensures old(Zoned()) ==> Zoned()
      ensures store.mm.bytes == old(store.mm.bytes) && SameMaps(old(store.states), store.states)
      ensures txState == old(txState) + (if inTx then [UndoDelete(idx, oldRow)] else [])
      ensures (old(Zoned() && Restorable()) ==> Restorable()) && (old(AllBuilt()) ==> AllBuilt())
    {
      hide *;
      Parts();
      StoreParts();
      DerivedParts(store.model);
      NextIsFree();
      ghost var was := R.Image(store.model, HighWater(store.env, store.states));
      ghost var maps, log := store.states, txState;
      RestorableIs();
      TxHere();
      ZonedIs();
      store.Delete(idx);
      ZonedIs();
      StoreWhole();
      NoteDeleted(idx, oldRow, was);
      TxNow(R.Image(store.model, was.next));
      Whole();
      DeletedIsCovered(maps, log, was.rows, idx);
      StillBuilt(maps);
    }

    // a row deleted while the maps cover all rows is one they cover
    lemma DeletedIsCovered(maps: States, log: seq<Undo>, m: map<nat, Row>, idx: nat)
      requires store.env.rps > 0 && ZonesGrow(maps, store.states) && idx in m
      requires txState == log + (if inTx then [UndoDelete(idx, m[idx])] else [])
      ensures ZonesCover(store.env, maps, m) && CoveredUndos(store.env, maps, log) ==> Restorable()
    {
      hide ZonesGrow, ZoneCoversRow;
      if ZonesCover(store.env, maps, m) && CoveredUndos(store.env, maps, log) {
        StillCovered(store.env, maps, store.states, idx, m[idx]);
        UndosStillCovered(store.env, maps, store.states, log, txState);
      }
    }

    // ---- batch insert ---------------------------------------------------------------

    method BatchInsert(rows: seq<Row>) returns (r: Outcome)
      requires Valid() && forall i :: 0 <= i < |rows| ==> Storable(schema, rows[i])
      modifies `txState, `txOps, store, store.mm, store.slabs, unique, hash.indexes.Values, ranges.Values, wal`file
      modifies wal`buffer, wal`log
      ensures Valid() && hash == old(hash)
      ensures store.mm == old(store.mm) || fresh(store.mm)
      ensures forall s :: s in store.slabs ==> s in old(store.slabs) || fresh(s)
      ensures r.Done? <==> ((forall i :: 0 <= i < |rows| ==> Shaped(schema, rows[i])) &&
        Distinct(PutAll(old(store.model), old(HighWater(store.env, store.states)), Restricted(schema, rows)),
            UniqueColumns(schema)))
      ensures r.Done? ==>
        r.idx == |rows| && HighWater(store.env, store.states) == old(HighWater(store.env, store.states)) + |rows|
      ensures r.Done? ==>
        store.model == PutAll(old(store.model), old(HighWater(store.env, store.states)), Restricted(schema, rows))
      ensures r.Done? ==> LeastSlabs(store.env, |old(store.slabs)|, |store.slabs|, HighWater(store.env, store.states))
      ensures wal.Records() == old(wal.Records()) +
        (if r.Done? && inTx then InsertRecords(old(HighWater(store.env, store.states)), Restricted(schema, rows))
         else [])
      ensures r.Done? <==>
        && (forall k, i :: 0 <= k < |rows| && 0 <= i < |schema| ==>
              schema[i].name in rows[k] && rows[k][schema[i].name] != Null)
        && NoClashes(schema, old(store.model), rows)
      ensures r.Done? ==>
        BatchAdded(schema, old(store.model), old(HighWater(store.env, store.states)), rows, store.model)
      ensures r.Done? && inTx ==>
        LoggedInserts(old(wal.Records()), wal.Records(), old(HighWater(store.env, store.states)), |rows|, store.model)
      ensures !r.Done? ==> Untouched()
      ensures old(Zoned()) ==> Zoned()
      ensures r.Done? ==> |old(store.slabs)| <= |store.slabs|
      ensures r.Done? ==>
        store.mm.bytes ==
        RowsWritten(store.env, Enlarged(store.env, old(store.mm.bytes), |store.slabs| - |old(store.slabs)|),
                    old(HighWater(store.env, store.states)), Restricted(schema, rows))
      ensures (old(Restorable()) ==> Restorable()) && (old(AllBuilt()) ==> AllBuilt())
    {
      hide Valid, Zoned, Restorable, AllBuilt, RowsWritten, Enlarged, StoreOk, Derived, TxOk, TxAt, UniqueMap.Agrees;
      hide MultiIndex.Agrees, RangesAgree, Distinct, RowCanonical, HighWater;
      hide W.Wal.Records, Restrict, Shaped, Storable, Canonical, PutAll, LeastSlabs, InsertRecords;
      hide NoClashes, BatchAdded, LoggedInserts, UniqueColumns, Restricted;
      LiveRows();
      ShapedAll(schema, rows);
      ghost var m, hw, log := store.model, HighWater(store.env, store.states), wal.Records();
      var bad := CheckShapes(schema, rows);
      if bad.Some? {
        return bad.value;
      }
      BatchIs(schema, m, hw, rows);
      Parts();
      DerivedParts(store.model);
      NextIsFree();
      var fulls := Restricted(schema, rows);
      var clash := unique.ValidateBatch(fulls, store.model, HighWater(store.env, store.states));
      if clash.Some? {
        return Duplicate(clash.value);
      }
      AllCanonical(schema, rows);
      InsertAll(fulls);
      InsertsLogged(log, hw, fulls, m);
      r := Done(|rows|);
    }

    method InsertAll(rows: seq<Row>)
      requires Valid() && forall i :: 0 <= i < |rows| ==> RowCanonical(schema, rows[i])
      requires Distinct(PutAll(store.model, HighWater(store.env, store.states), rows), UniqueColumns(schema))
      modifies `txState, `txOps, store, store.mm, store.slabs, unique, hash.indexes.Values, ranges.Values, wal`file
      modifies wal`buffer, wal`log
      ensures Valid() && hash == old(hash)
      ensures store.mm == old(store.mm) || fresh(store.mm)
      ensures forall s :: s in store.slabs ==> s in old(store.slabs) || fresh(s)
      ensures HighWater(store.env, store.states) == old(HighWater(store.env, store.states)) + |rows|
      ensures store.model == PutAll(old(store.model), old(HighWater(store.env, store.states)), rows)
      ensures LeastSlabs(store.env, |old(store.slabs)|, |store.slabs|, HighWater(store.env, store.states))
      ensures wal.Records() ==
        old(wal.Records()) + (if inTx then InsertRecords(old(HighWater(store.env, store.states)), rows) else [])
      ensures old(Zoned()) ==> Zoned()
      ensures |old(store.slabs)| <= |store.slabs|
      ensures store.mm.bytes ==
        RowsWritten(store.env, Enlarged(store.env, old(store.mm.bytes), |store.slabs| - |old(store.slabs)|),
                    old(HighWater(store.env, store.states)), rows)
      ensures (old(Restorable()) ==> Restorable()) && (old(AllBuilt()) ==> AllBuilt())
    {
      hide *;
      Parts();
      StoreParts();
      NextIsFree();
      TxHere();
      ghost var was := R.Image(store.model, HighWater(store.env, store.states));
      ghost var maps, log := store.states, txState;
      RestorableIs();
      ZonedIs();
      var start := store.BatchInsert(rows);
      ZonedIs();
      StoreWhole();
      NoteBatch(start, rows, was.rows);
      TxNow(R.Image(store.model, start + |rows|));
      Whole();
      StillRestorable(maps, log);
      StillBuilt(maps);
    }

    /** Per row of a batch: indexes, unique map, undo entry, log record. */
    method NoteBatch(start: nat, rows: seq<Row>, ghost m: map<nat, Row>)
      requires Derived(m) && TxAt(R.Image(m, start)) && forall j :: j in m ==> j < start
      requires Distinct(PutAll(m, start, rows), UniqueColumns(schema))
      modifies `txState, `txOps, unique, hash.indexes.Values, ranges.Values, wal`file, wal`buffer, wal`log
      ensures Derived(PutAll(m, start, rows)) && TxAt(R.Image(PutAll(m, start, rows), start + |rows|))
      ensures hash == old(hash)
      ensures wal.Records() == old(wal.Records()) + (if inTx then InsertRecords(start, rows) else [])
      ensures MoreUndos(old(txState), txState)
    {
      hide *;
      SameUndos(txState);
      PutAllNone(m, start);
      NoRecords(start);
      assert rows[..0] == [];
      for k := 0 to |rows|
        invariant hash == old(hash) && Derived(PutAll(m, start, rows[..k]))
        invariant TxAt(R.Image(PutAll(m, start, rows[..k]), start + k))
        invariant wal.Records() == old(wal.Records()) + (if inTx then InsertRecords(start, rows[..k]) else [])
        invariant MoreUndos(old(txState), txState)
      {
        ghost var log := txState;
        NoteBatchRow(start, rows, k, m);
        MoreUndosTrans(old(txState), log, txState);
        RecordsPush(start, rows, k);
      }
      assert rows[..|rows|] == rows;
    }

    method NoteBatchRow(start: nat, rows: seq<Row>, k: nat, ghost m: map<nat, Row>)
      requires k < |rows| && (forall j :: j in m ==> j < start)
      requires Distinct(PutAll(m, start, rows), UniqueColumns(schema))
      requires Derived(PutAll(m, start, rows[..k])) && TxAt(R.Image(PutAll(m, start, rows[..k]), start + k))
      modifies `txState, `txOps, unique, hash.indexes.Values, ranges.Values, wal`file, wal`buffer, wal`log
      ensures hash == old(hash)
      ensures Derived(PutAll(m, start, rows[..k + 1])) && TxAt(R.Image(PutAll(m, start, rows[..k + 1]), start + k + 1))
      ensures wal.Records() == old(wal.Records()) + (if inTx then [W.Insert(start + k, rows[k])] else [])
      ensures MoreUndos(old(txState), txState)
    {
      hide *;
      ghost var was := R.Image(PutAll(m, start, rows[..k]), start + k);
      DerivedParts(was.rows);
      BatchRowFree(m, start, rows, k);
      NoteInserted(start + k, rows[k], was);
    }

    lemma BatchRowFree(m: map<nat, Row>, start: nat, rows: seq<Row>, k: nat)
      requires k < |rows| && (forall j :: j in m ==> j < start)
      requires Distinct(PutAll(m, start, rows), UniqueColumns(schema))
      requires Distinct(PutAll(m, start, rows[..k]), UniqueColumns(schema)) && unique.cols == UniqueColumns(schema)
      ensures start + k !in PutAll(m, start, rows[..k])
      ensures Unclashed(PutAll(m, start, rows[..k]), UniqueColumns(schema), start + k, rows[k])
      ensures PutAll(m, start, rows[..k + 1]) == PutAll(m, start, rows[..k])[start + k := rows[k]]
    {
      hide Distinct, Unclashed;
      unique.BatchStep(m, start, rows, k);
      PutAllHas(m, start, rows[..k]);
      PutAllPush(m, start, rows[..k], rows[k]);
      assert rows[..k + 1] == rows[..k] + [rows[k]];
    }

    // ---- transactions ---------------------------------------------------------------

    /** Opens a transaction; a nested one is refused. */
    method Begin() returns (ok: bool)
      requires Valid()
      modifies `inTx, `txState, `txBase, `txOps, `txLog, wal`file, wal`buffer, wal`log, wal`txid, wal`inTx
      ensures Valid() && ok == !old(inTx) && inTx
      ensures ok ==>
        txBase == R.Image(store.model, HighWater(store.env, store.states)) && txLog == old(wal.Records()) && txOps == []
      ensures ok ==> wal.txid == old(wal.txid) + 1 && wal.Records() == old(wal.Records()) + [W.Begin(wal.txid)]
      ensures !ok ==> unchanged(this) && unchanged(wal)
      ensures ok ==> txState == [] && Restorable()
    {
      hide *;
      Parts();
      if inTx {
        return false;
      }
      DerivedParts(store.model);
      NextIsFree();
      IdleLog();
      txLog := wal.Records();
      wal.BeginTx();
      inTx, txState := true, [];
      txBase, txOps := R.Image(store.model, HighWater(store.env, store.states)), [];
      TxBegins();
      TxNow(txBase);
      Whole();
      NothingToRestore();
      ok := true;
    }

    lemma NothingToRestore()
      requires StoreOk() && txState == []
      ensures Restorable()
    {
    }

    lemma IdleLog()
      requires TxOk() && !inTx
      ensures wal.Valid() && wal.buffer == [] && !wal.inTx
    {
      hide W.Wal.Valid;
    }

    lemma TxBegins()
      requires inTx && wal.Valid() && wal.inTx && |wal.buffer| <= 1 && txState == [] && txOps == []
      requires wal.Records() == txLog + [W.Begin(wal.txid)]
      requires Distinct(txBase.rows, UniqueColumns(schema)) && forall j :: j in txBase.rows ==> j < txBase.next
      ensures TxAt(txBase)
    {
      assert txLog + [W.Begin(wal.txid)] + [] == txLog + [W.Begin(wal.txid)];
    }

    /** Ends the transaction; all it did is on record. */
    method Commit()
      requires Valid() && inTx
      modifies `inTx, `txState, wal`file, wal`buffer, wal`log, wal`inTx
      ensures Valid() && !inTx
      ensures wal.Records() == txLog + W.TxRecords(W.Tx(wal.txid, txOps, W.Committed))
      ensures wal.file == W.WriteRecords(wal.found, wal.Records())
      ensures R.LegalRun(txBase, txOps, UniqueColumns(schema))
      ensures R.Run(txBase, txOps) == R.Image(store.model, HighWater(store.env, store.states))
    {
      hide Valid, StoreOk, Derived, HighWater, Undoes, R.LegalRun, R.Run, W.Wal.Valid, W.Wal.Records, W.WriteRecords;
      hide W.TxRecords;
      hide TxOk, TxAt;
      Parts();
      RunHere();
      EndOfLog();
      wal.CommitTx();
      inTx, txState := false, [];
      TxIdle();
      Whole();
    }

    /** Undoes everything since the transaction began, newest first. */
    method Rollback()
      requires Valid() && inTx
      modifies `inTx, `txState, store, store.mm, store.slabs, unique, hash.indexes.Values, ranges.Values
      modifies wal`file, wal`buffer, wal`log, wal`inTx
      ensures Valid() && !inTx && hash == old(hash) && store.mm == old(store.mm) && store.slabs == old(store.slabs)
      ensures store.model == txBase.rows
      ensures HighWater(store.env, store.states) == old(HighWater(store.env, store.states))
      ensures wal.Records() == txLog + W.TxRecords(W.Tx(wal.txid, txOps, W.RolledBack))
      ensures wal.file == W.WriteRecords(wal.found, wal.Records())
      ensures store.env.rps > 0 && store.mm.bytes == UndoneBytes(store.env, old(store.mm.bytes), old(txState))
      ensures old(Zoned() && Restorable()) ==> Zoned()
      ensures SameMaps(MapsUndone(store.env, old(store.states), old(txState)), store.states)
      ensures old(Zoned()) ==>
        (Zoned() <==>
          RestoredCovered(store.env, MapsUndone(store.env, old(store.states), old(txState)), old(txState), txBase.rows))
    {
      hide *;
      Parts();
      StoreParts();
      RestorableIs();
      ZonedIs();
      UndoHere();
      EndOfLog();
      wal.RollbackTx();
      inTx := false;
      UndoAll(txState, txBase.rows);
      ForgetUndos();
      ZonedIs();
    }

    /** The transaction is over: nothing to undo, nothing buffered. */
    method ForgetUndos()
      requires StoreOk() && Derived(store.model) && !inTx && wal.Valid() && wal.buffer == [] && !wal.inTx
      modifies `txState, wal`buffer, wal`log
      ensures Valid() && wal.Records() == old(wal.Records())
    {
      hide *;
      txState := [];
      assert wal.Records()[..|wal.Records()|] == wal.Records();
      wal.DropBuffer();
      TxIdle();
      Whole();
    }

    /** Plays the list back, newest entry first. */
    method UndoAll(log: seq<Undo>, ghost base: map<nat, Row>)
      requires StoreOk() && Derived(store.model)
      requires Undoes(schema, log, store.model, HighWater(store.env, store.states), base)
      modifies store, store.mm, store.slabs, unique, hash.indexes.Values, ranges.Values
      ensures StoreOk() && Derived(store.model) && store.model == base
      ensures hash == old(hash) && store.mm == old(store.mm) && store.slabs == old(store.slabs)
      ensures HighWater(store.env, store.states) == old(HighWater(store.env, store.states))
      ensures store.env.rps > 0 && store.mm.bytes == UndoneBytes(store.env, old(store.mm.bytes), log)
      ensures
        old(ZonesCover(store.env, store.states, store.model) && CoveredUndos(store.env, store.states, log)) ==>
        ZonesCover(store.env, store.states, store.model)
      ensures SameMaps(MapsUndone(store.env, old(store.states), log), store.states)
      ensures old(ZonesCover(store.env, store.states, store.model)) ==>
        (ZonesCover(store.env, store.states, base) <==>
          RestoredCovered(store.env, MapsUndone(store.env, old(store.states), log), log, base))
    {
      hide *;
      StoreParts();
      ghost var (found, m) := (store.states, store.model);
      ghost var end := MapsUndone(store.env, found, log);
      StillSameMaps(end, end, end);
      if ZonesCover(store.env, found, m) {
        AllCovered(store.env, found, m, log);
      }
      ghost var covered :=
        ZonesCover(store.env, store.states, store.model) && CoveredUndos(store.env, store.states, log);
      var k := |log|;
      assert log[..k] == log;
      while k > 0
        invariant 0 <= k <= |log|
        invariant StoreOk() && Derived(store.model)
        invariant hash == old(hash) && store.mm == old(store.mm) && store.slabs == old(store.slabs)
        invariant HighWater(store.env, store.states) == old(HighWater(store.env, store.states))
        invariant Undoes(schema, log[..k], store.model, HighWater(store.env, store.states), base)
        invariant store.env.rps > 0 &&
          UndoneBytes(store.env, old(store.mm.bytes), log) == UndoneBytes(store.env, store.mm.bytes, log[..k])
        invariant covered ==>
          ZonesCover(store.env, store.states, store.model) && CoveredUndos(store.env, store.states, log[..k])
        invariant SameMaps(end, MapsUndone(store.env, store.states, log[..k]))
        invariant ZonesCover(store.env, found, m) ==> CoveredBut(store.env, store.states, store.model, log, k)
      {
        k := k - 1;
        ghost var (maps, rows) := (store.states, store.model);
        UndoneStep(store.env, store.mm.bytes, log, k);
        LastUndo(schema, log, k, store.model, HighWater(store.env, store.states), base);
        if covered {
          CoveredStep(store.env, maps, log, k);
        }
        UndoOne(log[k]);
        StillCoveredUndos(maps, log[..k]);
        MapsStep(store.env, maps, store.states, log, k);
        StillSameMaps(end, MapsUndone(store.env, maps, log[..k + 1]), MapsUndone(store.env, store.states, log[..k]));
        if ZonesCover(store.env, found, m) {
          CoveredButStep(store.env, maps, store.states, rows, log, k);
        }
      }
      assert log[..0] == [];
      NothingUndone(store.env, store.mm.bytes);
      NothingToUndo(schema, store.model, HighWater(store.env, store.states), base);
      NoMapsUndone(store.env, store.states);
      if ZonesCover(store.env, found, m) {
        ZonesAfterUndoing(store.env, end, store.states, log, base);
      }
    }

    lemma StillCoveredUndos(maps: States, log: seq<Undo>)
      requires store.env.rps > 0 && ZonesGrow(maps, store.states)
      ensures CoveredUndos(store.env, maps, log) ==> CoveredUndos(store.env, store.states, log)
    {
      hide ZonesGrow, ZoneCoversRow;
      if CoveredUndos(store.env, maps, log) {
        UndosStillCovered(store.env, maps, store.states, log, log);
      }
    }

    /** One undo entry is played back. */
    method UndoOne(u: Undo)
      requires StoreOk() && Derived(store.model) && Led(schema, u, store.model, HighWater(store.env, store.states))
      requires Distinct(Prev(u, store.model), UniqueColumns(schema))
      modifies store, store.mm, store.slabs, unique, hash.indexes.Values, ranges.Values
      ensures StoreOk() && Derived(store.model) && hash == old(hash) && store.mm == old(store.mm)
      ensures store.slabs == old(store.slabs)
      ensures store.model == Prev(u, old(store.model))
      ensures HighWater(store.env, store.states) == old(HighWater(store.env, store.states))
      ensures store.env.rps > 0 && store.mm.bytes == UndoBytes(store.env, old(store.mm.bytes), u)
      ensures ZonesGrow(old(store.states), store.states)
      ensures
        && old(ZonesCover(store.env, store.states, store.model))
        && (u.UndoDelete? ==> old(ZoneCoversRow(store.env, store.states, u.idx, u.row)))
        ==> ZonesCover(store.env, store.states, store.model)
      ensures SameMaps(MapsUndo(store.env, old(store.states), u), store.states)
      ensures u.UndoUpdate? ==> ZoneCoversRow(store.env, store.states, u.idx, u.row)
    {
      hide *;
      StoreParts();
      MapsUndoIs(store.env, store.states, u);
      UndoBytesIs(store.env, store.mm.bytes, u);
      LedIs(schema, u, store.model, HighWater(store.env, store.states));
      ghost var was := store.model;
      match u {
        case UndoInsert(i, row) =>
          store.Delete(i);
          StoreWhole();
          NoteRemoved(i, row, was);
        case UndoUpdate(i, row) =>
          UndoneUpdate(i, row);
        case UndoDelete(i, row) =>
          PrevIsFree(schema, u, was);
          store.Restore(i, row);
          StoreWhole();
          NoteAdded(i, row, was);
      }
    }

    /** The old row goes back; its unique values are free, so this cannot fail. */
    method UndoneUpdate(i: nat, row: Row)
      requires StoreOk() && Derived(store.model) && i in store.model && RowCanonical(schema, row)
      requires Distinct(store.model[i := row], UniqueColumns(schema))
      modifies store, store.mm, store.slabs, unique, hash.indexes.Values, ranges.Values
      ensures StoreOk() && Derived(store.model) && hash == old(hash) && store.mm == old(store.mm)
      ensures store.slabs == old(store.slabs)
      ensures store.model == old(store.model)[i := row]
      ensures HighWater(store.env, store.states) == old(HighWater(store.env, store.states))
      ensures store.env.rps > 0 && store.mm.bytes == Written(store.env, old(store.mm.bytes), i, row)
      ensures ZonesGrow(old(store.states), store.states)
      ensures SameMaps(MapsAfter(store.env, old(store.states), i, row), store.states)
      ensures ZoneCoversRow(store.env, store.states, i, row)
      ensures old(ZonesCover(store.env, store.states, store.model)) ==> ZonesCover(store.env, store.states, store.model)
    {
      hide *;
      StoreParts();
      DerivedParts(store.model);
      ghost var was := store.model;
      var current := store.GetRow(i);
      store.Update(i, row);
      StoreWhole();
      NoteChangedRow(i, current.value, row, was);
    }

    /** Indexes, then the unique map, after row i went back to `row`. */
    method NoteChangedRow(i: nat, oldRow: Row, row: Row, ghost m: map<nat, Row>)
      requires Derived(m) && i in m && m[i] == oldRow && Distinct(m[i := row], UniqueColumns(schema))
      modifies unique, hash.indexes.Values, ranges.Values
      ensures Derived(m[i := row])
    {
      hide *;
      DerivedParts(m);
      ChangeIs(i, Changed(oldRow, row), m);
      NoteIndexes(i, Changed(oldRow, row), m);
      FreeInPrev(m, i, row);
      var clash := unique.Update(i, oldRow, row, m);
      DerivedWhole(m[i := row]);
    }

    lemma FreeInPrev(m: map<nat, Row>, i: nat, row: Row)
      requires Distinct(m[i := row], UniqueColumns(schema))
      ensures Unclashed(m, UniqueColumns(schema), i, row)
    {
      var after := m[i := row];
      assert Unclashed(after, UniqueColumns(schema), i, after[i]);
      UnclashedBefore(m, after, UniqueColumns(schema), i, row);
    }

    lemma UndoHere()
      requires TxOk() && inTx
      ensures Undoes(schema, txState, store.model, HighWater(store.env, store.states), txBase.rows) && wal.inTx
    {
    }

    lemma RunHere()
      requires TxOk() && inTx
      ensures R.LegalRun(txBase, txOps, UniqueColumns(schema))
      ensures R.Run(txBase, txOps) == R.Image(store.model, HighWater(store.env, store.states))
    {
      hide R.LegalRun, R.Run, W.Wal.Valid, Undoes, HighWater;
    }

    lemma EndOfLog()
      requires TxOk() && inTx
      ensures wal.Valid() && wal.inTx
      ensures wal.Records() + [W.Rollback(wal.txid)] == txLog + W.TxRecords(W.Tx(wal.txid, txOps, W.RolledBack))
      ensures |txLog| + |wal.buffer| <= |wal.Records()|
      ensures wal.Records() + [W.Commit(wal.txid)] == txLog + W.TxRecords(W.Tx(wal.txid, txOps, W.Committed))
    {
      hide R.LegalRun, R.Run, W.Wal.Valid, Undoes, HighWater;
    }

    lemma LogSoFar()
      requires Valid() && inTx
      ensures wal.Records() == txLog + [W.Begin(wal.txid)] + txOps
    {
      hide StoreOk, Derived, R.LegalRun, R.Run, Undoes, W.Wal.Valid;
      Parts();
    }

    lemma RunSoFar()
      requires Valid() && inTx
      ensures R.LegalRun(txBase, txOps, UniqueColumns(schema))
      ensures R.Run(txBase, txOps) == R.Image(store.model, HighWater(store.env, store.states))
    {
      hide StoreOk, Derived, R.LegalRun, R.Run;
      Parts();
    }

    lemma TxIdle()
      requires wal.Valid() && wal.buffer == [] && !inTx && !wal.inTx
      ensures TxOk()
    {
    }
  }
}
