/** UNIQUE columns: which row owns which value, and what a write must not repeat. */
module UniqueKeys {
  import opened Values

  type Owned = map<Value, nat>

  type Owners = map<Col, Owned>

  /** Different values in every unique column. */
  predicate Apart(a: Row, b: Row, cols: seq<Col>) { forall c :: c in cols ==> Get(a, c) != Get(b, c) }

  /** No row but idx itself holds a value of `row` in a unique column. */
  ghost predicate Unclashed(m: map<nat, Row>, cols: seq<Col>, idx: nat, row: Row) {
    forall j :: j in m && j != idx ==> Apart(m[j], row, cols)
  }

  /** c is the first unique column in which another row holds the value of `row`. */
  ghost predicate FirstHeld(m: map<nat, Row>, cols: seq<Col>, idx: nat, row: Row, c: Col) {
    exists k ::
      && 0 <= k < |cols| && cols[k] == c && (exists j :: j in m && j != idx && Get(m[j], c) == Get(row, c))
      && forall j :: j in m && j != idx ==> Apart(m[j], row, cols[..k])
  }

  /** Rows differ in every unique column. */
  ghost predicate Distinct(m: map<nat, Row>, cols: seq<Col>) {
    forall i :: i in m ==> Unclashed(m, cols, i, m[i])
  }

  lemma DistinctLess(m: map<nat, Row>, cols: seq<Col>, i: nat)
    requires Distinct(m, cols)
    ensures Distinct(m - {i}, cols)
  {
    forall j | j in m - {i}
      ensures Unclashed(m - {i}, cols, j, m[j])
    {
      assert Unclashed(m, cols, j, m[j]);
    }
  }

  lemma DistinctMore(m: map<nat, Row>, cols: seq<Col>, i: nat, row: Row)
    requires Distinct(m - {i}, cols)
    ensures Distinct(m[i := row], cols) <==> Unclashed(m, cols, i, row)
  {
    var m' := m[i := row];
    if Unclashed(m, cols, i, row) {
      forall j, k | j in m' && k in m' && k != j
        ensures Apart(m'[k], m'[j], cols)
      {
        if j != i && k != i {
          var less := m - {i};
          assert j in less && k in less && Unclashed(less, cols, j, less[j]);
        }
      }
    }
    if Distinct(m', cols) {
      assert Unclashed(m', cols, i, m'[i]);
      forall j | j in m && j != i
        ensures Apart(m[j], row, cols)
      {
        assert m'[j] == m[j];
      }
    }
  }

  // a value free in a batch's final map was free before the batch
  lemma UnclashedBefore(m: map<nat, Row>, m': map<nat, Row>, cols: seq<Col>, idx: nat, row: Row)
    requires Unclashed(m', cols, idx, row) && forall j :: j in m && j != idx ==> j in m' && m'[j] == m[j]
    ensures Unclashed(m, cols, idx, row)
  {
  }

  /** The owner maps hold exactly the values of the rows in m, column by column. */
  ghost predicate IsOwnersOf(owners: Owners, cols: seq<Col>, m: map<nat, Row>) {
    && (forall c :: c in owners <==> c in cols)
    && forall c, v, i :: c in cols ==> (Owns(owners, c, v, i) <==> i in m && Get(m[i], c) == v)
  }

  predicate Owns(owners: Owners, c: Col, v: Value, i: nat) { c in owners && v in owners[c] && owners[c][v] == i }

  // the key is given up only by the row that holds it
  function Gave(owned: Owned, key: Value, idx: nat): Owned {
    if key in owned && owned[key] == idx then owned - {key} else owned
  }

  function Took(owned: Owned, key: Value, idx: nat): Owned { owned[key := idx] }

  // rows with owner maps differ in every unique column
  lemma OwnersAreDistinct(owners: Owners, cols: seq<Col>, m: map<nat, Row>)
    requires IsOwnersOf(owners, cols, m)
    ensures Distinct(m, cols)
  {
    forall i, j | i in m && j in m && j != i
      ensures Apart(m[j], m[i], cols)
    {
      forall c | c in cols
        ensures Get(m[j], c) != Get(m[i], c)
      {
        assert Owns(owners, c, Get(m[i], c), i) && Owns(owners, c, Get(m[j], c), j);
      }
    }
  }

  // the rows determine the owner maps
  lemma OwnersUnique(a: Owners, b: Owners, cols: seq<Col>, m: map<nat, Row>)
    requires IsOwnersOf(a, cols, m) && IsOwnersOf(b, cols, m)
    ensures a == b
  {
    forall c | c in cols
      ensures a[c] == b[c]
    {
      forall v
        ensures v in a[c] ==> v in b[c] && b[c][v] == a[c][v]
        ensures v in b[c] ==> v in a[c]
      {
        if v in a[c] {
          assert Owns(a, c, v, a[c][v]);
          assert Owns(b, c, v, a[c][v]);
        }
        if v in b[c] {
          assert Owns(b, c, v, b[c][v]);
          assert Owns(a, c, v, b[c][v]);
        }
      }
    }
  }

  predicate NoRepeats(cols: seq<Col>) { forall i, j :: 0 <= i < j < |cols| ==> cols[i] != cols[j] }

  class UniqueMap {
    const cols: seq<Col>
    var owners: Owners

    constructor (cols: seq<Col>)
      requires NoRepeats(cols)
      ensures this.cols == cols && Agrees(map[])
    {
      this.cols := cols;
      owners := map c | c in cols :: map[];
    }

    method Reset()
      requires NoRepeats(cols)
      modifies this
      ensures Agrees(map[])
    {
      owners := map c | c in cols :: map[];
    }

    ghost predicate Agrees(m: map<nat, Row>)
      reads this
    {
      NoRepeats(cols) && IsOwnersOf(owners, cols, m)
    }

    /** _validate_unique: the first column whose value another row owns. */
    method Validate(row: Row, existing: Option<nat>, ghost m: map<nat, Row>, ghost idx: nat)
      returns (clash: Option<Col>)
      requires Agrees(m) && (if existing.Some? then existing.value == idx else idx !in m)
      ensures clash.None? <==> Unclashed(m, cols, idx, row)
      ensures clash.Some? ==>
        clash.value in cols && exists j :: j in m && j != idx && Get(m[j], clash.value) == Get(row, clash.value)
      ensures clash.Some? ==> FirstHeld(m, cols, idx, row, clash.value)
    {
      for k := 0 to |cols|
        invariant forall j :: j in m && j != idx ==> Apart(m[j], row, cols[..k])
      {
        var c := cols[k];
        assert cols[..k + 1] == cols[..k] + [c];
        var key := Get(row, c);
        if key in owners[c] && (existing.None? || owners[c][key] != existing.value) {
          assert Owns(owners, c, key, owners[c][key]);
          return Some(c);
        }
        forall j | j in m && j != idx
          ensures Get(m[j], c) != key
        {
          assert Owns(owners, c, Get(m[j], c), j);
        }
      }
      assert cols[..|cols|] == cols;
      clash := None;
    }

    method Insert(idx: nat, row: Row, ghost m: map<nat, Row>)
      requires Agrees(m - {idx}) && Unclashed(m, cols, idx, row)
      modifies this
      ensures Agrees(m[idx := row])
    {
      ghost var was := owners;
      Register(idx, row);
      Registered(was, owners, idx, row, m);
    }

    /** _unique_insert: idx takes the row's values, whoever holds them. */
    method Register(idx: nat, row: Row)
      requires NoRepeats(cols) && forall c :: c in owners <==> c in cols
      modifies this
      ensures forall c :: c in owners <==> c in cols
      ensures forall c :: c in cols ==> owners[c] == Took(old(owners)[c], Get(row, c), idx)
    {
      for k := 0 to |cols|
        invariant forall c :: c in owners <==> c in cols
        invariant forall i :: 0 <= i < k ==> owners[cols[i]] == Took(old(owners)[cols[i]], Get(row, cols[i]), idx)
        invariant forall i :: k <= i < |cols| ==> owners[cols[i]] == old(owners)[cols[i]]
      {
        var c := cols[k];
        owners := owners[c := Took(owners[c], Get(row, c), idx)];
      }
    }

    lemma Registered(was: Owners, now: Owners, idx: nat, row: Row, m: map<nat, Row>)
      requires IsOwnersOf(was, cols, m - {idx}) && Unclashed(m, cols, idx, row)
      requires forall c :: c in now <==> c in cols
      requires forall c :: c in cols ==> now[c] == Took(was[c], Get(row, c), idx)
      ensures IsOwnersOf(now, cols, m[idx := row])
    {
      forall c, v, i | c in cols
        ensures Owns(now, c, v, i) <==> i in m[idx := row] && Get(m[idx := row][i], c) == v
      {
        assert Owns(was, c, v, i) <==> i in m - {idx} && Get(m[i], c) == v;
      }
    }

    /** Gives up the values idx owns; those of other rows stay. */
    method Delete(idx: nat, row: Row, ghost m: map<nat, Row>)
      requires Agrees(m) && (idx in m ==> forall c :: c in cols ==> Get(row, c) == Get(m[idx], c))
      modifies this
      ensures Agrees(m - {idx})
      ensures forall c :: c in cols ==> c in owners && owners[c] == Gave(old(owners)[c], Get(row, c), idx)
    {
      ghost var was := owners;
      for k := 0 to |cols|
        invariant forall c :: c in owners <==> c in cols
        invariant forall i :: 0 <= i < k ==> owners[cols[i]] == Gave(was[cols[i]], Get(row, cols[i]), idx)
        invariant forall i :: k <= i < |cols| ==> owners[cols[i]] == was[cols[i]]
      {
        var c := cols[k];
        var key := Get(row, c);
        if key in owners[c] && owners[c][key] == idx {
          owners := owners[c := owners[c] - {key}];
        }
      }
      Released(was, owners, idx, row, m);
    }

    lemma Released(was: Owners, now: Owners, idx: nat, row: Row, m: map<nat, Row>)
      requires IsOwnersOf(was, cols, m) && (idx in m ==> forall c :: c in cols ==> Get(row, c) == Get(m[idx], c))
      requires forall c :: c in now <==> c in cols
      requires forall c :: c in cols ==> now[c] == Gave(was[c], Get(row, c), idx)
      ensures IsOwnersOf(now, cols, m - {idx})
    {
      forall c, v, i | c in cols
        ensures Owns(now, c, v, i) <==> i in m - {idx} && Get(m[i], c) == v
      {
        assert Owns(was, c, v, i) <==> i in m && Get(m[i], c) == v;
        assert Owns(was, c, Get(row, c), idx) <==> idx in m && Get(m[idx], c) == Get(row, c);
      }
    }

    /** _unique_update: moves idx from its old values to the new ones, or puts the old ones back. */
    method Update(idx: nat, oldRow: Row, newRow: Row, ghost m: map<nat, Row>) returns (clash: Option<Col>)
      requires Agrees(m) && (idx in m ==> m[idx] == oldRow)
      modifies this
      ensures clash.None? <==> Unclashed(m, cols, idx, newRow)
      ensures clash.None? ==> Agrees(m[idx := newRow])
      ensures clash.Some? ==> clash.value in cols && (idx in m ==> owners == old(owners))
      ensures clash.Some? ==> FirstHeld(m - {idx}, cols, idx, newRow, clash.value)
    {
      ghost var was := owners;
      OwnersAreDistinct(owners, cols, m);
      Delete(idx, oldRow, m);
      clash := Validate(newRow, Some(idx), m - {idx}, idx);
      assert forall j :: j in m - {idx} <==> j in m && j != idx;
      if clash.None? {
        Insert(idx, newRow, m);
      } else {
        Register(idx, oldRow);
        PutBack(was, owners, idx, oldRow, m);
      }
    }

    lemma TookBack(owned: Owned, key: Value, idx: nat)
      requires key in owned && owned[key] == idx
      ensures Took(Gave(owned, key, idx), key, idx) == owned
    {
    }

    lemma PutBack(was: Owners, now: Owners, idx: nat, row: Row, m: map<nat, Row>)
      requires IsOwnersOf(was, cols, m) && Distinct(m, cols) && (idx in m ==> m[idx] == row)
      requires forall c :: c in now <==> c in cols
      requires forall c :: c in cols ==> now[c] == Took(Gave(was[c], Get(row, c), idx), Get(row, c), idx)
      ensures idx in m ==> now == was
    {
      hide Distinct, Took, Gave;
      if idx in m {
        forall c | c in cols
          ensures now[c] == was[c]
        {
          assert Owns(was, c, Get(row, c), idx);
          TookBack(was[c], Get(row, c), idx);
        }
        assert now.Keys == was.Keys;
      }
    }

    /** The uniqueness pass of a batch: against the stored rows, then within the batch. */
    method ValidateBatch(rows: seq<Row>, ghost m: map<nat, Row>, ghost start: nat) returns (clash: Option<Col>)
      requires Agrees(m) && forall j :: j in m ==> j < start
      ensures clash.None? <==> Distinct(PutAll(m, start, rows), cols)
      ensures clash.Some? ==> clash.value in cols
    {
      hide *;
      var seen: map<Col, set<Value>> := map c | c in cols :: {};
      NothingSeen(seen, m, start);
      for k := 0 to |rows|
        invariant Seen(seen, rows[..k]) && Distinct(PutAll(m, start, rows[..k]), cols)
      {
        clash, seen := CheckOne(seen, rows, k, m, start);
        if clash.Some? {
          return;
        }
      }
      assert rows[..|rows|] == rows;
      clash := None;
    }

    lemma NothingSeen(seen: map<Col, set<Value>>, m: map<nat, Row>, start: nat)
      requires Agrees(m) && seen == map c | c in cols :: {}
      ensures NoRepeats(cols)
      ensures forall rows: seq<Row> :: Seen(seen, rows[..0]) && Distinct(PutAll(m, start, rows[..0]), cols)
    {
      PutAllNone(m, start);
      OwnersAreDistinct(owners, cols, m);
      assert forall rows: seq<Row> :: rows[..0] == [];
      assert Seen(seen, []);
    }

    /** Row k of the batch, checked against the stored rows and the rows before it. */
    method CheckOne(seen: map<Col, set<Value>>, rows: seq<Row>, k: nat, ghost m: map<nat, Row>, ghost start: nat)
      returns (clash: Option<Col>, now: map<Col, set<Value>>)
      requires Agrees(m) && NoRepeats(cols) && (forall j :: j in m ==> j < start) && k < |rows|
      requires Seen(seen, rows[..k]) && Distinct(PutAll(m, start, rows[..k]), cols)
      ensures clash.Some? ==> clash.value in cols && !Distinct(PutAll(m, start, rows), cols)
      ensures clash.None? ==> Seen(now, rows[..k + 1]) && Distinct(PutAll(m, start, rows[..k + 1]), cols)
    {
      hide *;
      now := seen;
      BatchStep(m, start, rows, k);
      ApartFromBatch(m, start, rows, k);
      clash := Validate(rows[k], None, m, start + k);
      if clash.None? {
        assert rows[..k + 1] == rows[..k] + [rows[k]];
        clash, now := NoteSeen(seen, rows[..k], rows[k]);
      }
    }

    // what a row must differ from: the stored rows and the earlier rows of its batch
    lemma ApartFromBatch(m: map<nat, Row>, start: nat, rows: seq<Row>, k: nat)
      requires k < |rows| && forall j :: j in m ==> j < start
      ensures Unclashed(PutAll(m, start, rows[..k]), cols, start + k, rows[k]) <==>
        Unclashed(m, cols, start + k, rows[k]) && forall j :: 0 <= j < k ==> Apart(rows[..k][j], rows[k], cols)
      ensures start + k !in m
    {
      PutAllHas(m, start, rows[..k]);
      var sofar := PutAll(m, start, rows[..k]);
      if Unclashed(sofar, cols, start + k, rows[k]) {
        forall j | 0 <= j < k
          ensures Apart(rows[j], rows[k], cols)
        {
          assert sofar[start + j] == rows[j];
        }
        UnclashedBefore(m, sofar, cols, start + k, rows[k]);
      }
      if Unclashed(m, cols, start + k, rows[k]) && forall j :: 0 <= j < k ==> Apart(rows[..k][j], rows[k], cols) {
        forall h | h in sofar && h != start + k
          ensures Apart(sofar[h], rows[k], cols)
        {
          if h >= start {
            assert sofar[h] == rows[..k][h - start];
          }
        }
      }
    }

    ghost predicate Seen(seen: map<Col, set<Value>>, rows: seq<Row>) {
      && (forall c :: c in seen <==> c in cols)
      && forall c, v :: c in cols ==> (v in seen[c] <==> Holds(rows, c, v))
    }

    ghost predicate Holds(rows: seq<Row>, c: Col, v: Value) { exists j :: 0 <= j < |rows| && Get(rows[j], c) == v }

    // a batch is distinct up to row k + 1 when it is up to row k and row k clashes with nothing before
    lemma BatchStep(m: map<nat, Row>, start: nat, rows: seq<Row>, k: nat)
      requires k < |rows| && Distinct(PutAll(m, start, rows[..k]), cols) && forall j :: j in m ==> j < start
      ensures Distinct(PutAll(m, start, rows[..k + 1]), cols) <==>
        Unclashed(PutAll(m, start, rows[..k]), cols, start + k, rows[k])
      ensures Distinct(PutAll(m, start, rows), cols) ==>
        Unclashed(PutAll(m, start, rows[..k]), cols, start + k, rows[k])
    {
      hide Distinct, Unclashed, PutAll;
      var sofar := PutAll(m, start, rows[..k]);
      PutAllHas(m, start, rows[..k]);
      PutAllPush(m, start, rows[..k], rows[k]);
      assert rows[..k + 1] == rows[..k] + [rows[k]];
      assert sofar - {start + k} == sofar;
      DistinctMore(sofar, cols, start + k, rows[k]);
      if Distinct(PutAll(m, start, rows), cols) {
        FreeInWhole(m, start, rows, k);
      }
    }

    lemma FreeInWhole(m: map<nat, Row>, start: nat, rows: seq<Row>, k: nat)
      requires k < |rows| && Distinct(PutAll(m, start, rows), cols) && forall j :: j in m ==> j < start
      ensures Unclashed(PutAll(m, start, rows[..k]), cols, start + k, rows[k])
    {
      hide PutAll;
      var sofar, all := PutAll(m, start, rows[..k]), PutAll(m, start, rows);
      PutAllHas(m, start, rows[..k]);
      PutAllHas(m, start, rows);
      assert Unclashed(all, cols, start + k, all[start + k]);
      UnclashedBefore(sofar, all, cols, start + k, rows[k]);
    }

    /** One row of the `seen` loop: a repeated value, or every value noted. */
    method NoteSeen(seen: map<Col, set<Value>>, ghost before: seq<Row>, row: Row)
      returns (clash: Option<Col>, now: map<Col, set<Value>>)
      requires Seen(seen, before) && NoRepeats(cols)
      ensures clash.Some? ==> clash.value in cols && exists j :: 0 <= j < |before| && !Apart(before[j], row, cols)
      ensures clash.None? ==> Seen(now, before + [row])
      ensures clash.None? ==> forall j :: 0 <= j < |before| ==> Apart(before[j], row, cols)
    {
      now := seen;
      for k := 0 to |cols|
        invariant forall c :: c in now <==> c in cols
        invariant forall i :: 0 <= i < k ==> now[cols[i]] == seen[cols[i]] + {Get(row, cols[i])}
        invariant forall i :: 0 <= i < k ==> Get(row, cols[i]) !in seen[cols[i]]
        invariant forall i :: k <= i < |cols| ==> now[cols[i]] == seen[cols[i]]
      {
        var c := cols[k];
        var key := Get(row, c);
        if key in now[c] {
          assert Holds(before, c, key);
          ghost var j :| 0 <= j < |before| && Get(before[j], c) == key;
          assert !Apart(before[j], row, cols);
          return Some(c), now;
        }
        now := now[c := now[c] + {key}];
      }
      clash := None;
      SeenPush(seen, now, before, row);
    }

    lemma SeenPush(seen: map<Col, set<Value>>, now: map<Col, set<Value>>, before: seq<Row>, row: Row)
      requires Seen(seen, before) && forall c :: c in now <==> c in cols
      requires forall c :: c in cols ==> now[c] == seen[c] + {Get(row, c)} && Get(row, c) !in seen[c]
      ensures Seen(now, before + [row])
      ensures forall j :: 0 <= j < |before| ==> Apart(before[j], row, cols)
    {
      var after := before + [row];
      forall c, v | c in cols
        ensures v in now[c] <==> Holds(after, c, v)
      {
        HoldsPush(before, row, c, v);
        assert v in seen[c] <==> Holds(before, c, v);
      }
      forall j, c | 0 <= j < |before| && c in cols
        ensures Get(before[j], c) != Get(row, c)
      {
        assert Get(row, c) in seen[c] <==> Holds(before, c, Get(row, c));
      }
    }

    lemma HoldsPush(before: seq<Row>, row: Row, c: Col, v: Value)
      ensures Holds(before + [row], c, v) <==> Holds(before, c, v) || Get(row, c) == v
    {
      var after := before + [row];
      assert after[|before|] == row;
      if Holds(before, c, v) {
        var j :| 0 <= j < |before| && Get(before[j], c) == v;
        assert Get(after[j], c) == v;
      }
    }
  }
}
