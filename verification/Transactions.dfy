/** Whole transactions: any run of operations, then commit or rollback. */
module Transactions {
  import opened Bits
  import opened Values
  import opened Codec
  import opened Layout
  import opened Images
  import opened Slabs
  import opened Indexes
  import opened Crash
  import opened Stores
  import opened Persist
  import opened UniqueKeys
  import opened SnapDBs
  import opened Lookups
  import W = Wals
  import R = Recovery

  /** The writes of a transaction, and the one read that leaves something behind: zone maps. */
  datatype RowOp =
    | DoInsert(row: Row)
    | DoBatch(rows: seq<Row>)
    | DoUpdate(idx: int, row: Row)
    | DoDelete(idx: int)
    | DoRangeFind(column: Col, low: Bound, high: Bound)

  predicate Acceptable(schema: Schema, op: RowOp) {
    match op
    case DoInsert(row) => Storable(schema, row)
    case DoBatch(rows) => forall i :: 0 <= i < |rows| ==> Storable(schema, rows[i])
    case DoUpdate(_, row) => Storable(schema, row)
    case _ => true
  }

  // ---- what operations mean --------------------------------------------------------

  /** The operation goes through: columns there and not null, unique values free, the row live. */
  ghost predicate Accepted(schema: Schema, s: R.Image, op: RowOp) {
    match op
    case DoInsert(row) => Shaped(schema, row) && Unclashed(s.rows, UniqueColumns(schema), s.next, Restrict(schema, row))
    case DoBatch(rows) =>
      && (forall i :: 0 <= i < |rows| ==> Shaped(schema, rows[i]))
      && Distinct(PutAll(s.rows, s.next, Restricted(schema, rows)), UniqueColumns(schema))
    case DoUpdate(idx, row) =>
      && idx >= 0 && idx in s.rows && Shaped(schema, s.rows[idx] + row)
      && Unclashed(s.rows, UniqueColumns(schema), idx, Merged(schema, s.rows[idx], row))
    case DoDelete(idx) => idx >= 0 && idx in s.rows
    case DoRangeFind(_, _, _) => false
  }

  /** What the operation makes of the live rows and the next row number; a refused one changes nothing. */
  ghost function Meaning(schema: Schema, s: R.Image, op: RowOp): R.Image {
    if !Accepted(schema, s, op) then s
    else
      match op
      case DoInsert(row) => R.Image(s.rows[s.next := Restrict(schema, row)], s.next + 1)
      case DoBatch(rows) => R.Image(PutAll(s.rows, s.next, Restricted(schema, rows)), s.next + |rows|)
      case DoUpdate(idx, row) => R.Image(s.rows[idx := Merged(schema, s.rows[idx], row)], s.next)
      case DoDelete(idx) => R.Image(s.rows - {idx}, s.next)
  }

  ghost function MeaningAll(schema: Schema, s: R.Image, ops: seq<RowOp>): R.Image {
    if ops == [] then s else Meaning(schema, MeaningAll(schema, s, ops[..|ops| - 1]), ops[|ops| - 1])
  }

  /** The records the operation logs inside a transaction. */
  ghost function Logged(schema: Schema, s: R.Image, op: RowOp): W.Log {
    if !Accepted(schema, s, op) then []
    else
      match op
      case DoInsert(row) => [W.Insert(s.next, Restrict(schema, row))]
      case DoBatch(rows) => InsertRecords(s.next, Restricted(schema, rows))
      case DoUpdate(idx, row) => [W.Update(idx, Merged(schema, s.rows[idx], row))]
      case DoDelete(idx) => [W.Delete(idx)]
  }

  ghost function LoggedAll(schema: Schema, s: R.Image, ops: seq<RowOp>): W.Log {
    if ops == [] then []
    else
      LoggedAll(schema, s, ops[..|ops| - 1]) +
        Logged(schema, MeaningAll(schema, s, ops[..|ops| - 1]), ops[|ops| - 1])
  }

  // The records replayed one after the other mean what the operations mean.
  lemma {:induction false} LoggedIsMeant(schema: Schema, s: R.Image, ops: seq<RowOp>)
    ensures R.Run(s, LoggedAll(schema, s, ops)) == MeaningAll(schema, s, ops)
  {
    if ops != [] {
      hide Meaning, Logged;
      var front, op := ops[..|ops| - 1], ops[|ops| - 1];
      LoggedIsMeant(schema, s, front);
      OneIsMeant(schema, MeaningAll(schema, s, front), op);
      R.RunAppend(s, LoggedAll(schema, s, front), Logged(schema, MeaningAll(schema, s, front), op));
    }
  }

  lemma OneIsMeant(schema: Schema, s: R.Image, op: RowOp)
    ensures R.Run(s, Logged(schema, s, op)) == Meaning(schema, s, op)
  {
    hide Shaped, Unclashed, Distinct, Restrict;
    if Accepted(schema, s, op) {
      if op.DoBatch? {
        BatchIsMeant(s, Restricted(schema, op.rows));
      } else {
        var recs := Logged(schema, s, op);
        assert recs[..0] == [];
      }
    }
  }

  lemma {:induction false} BatchIsMeant(s: R.Image, rows: seq<Row>)
    ensures R.Run(s, InsertRecords(s.next, rows)) == R.Image(PutAll(s.rows, s.next, rows), s.next + |rows|)
  {
    if rows != [] {
      var n := |rows| - 1;
      BatchIsMeant(s, rows[..n]);
      var recs := InsertRecords(s.next, rows);
      assert recs[..n] == InsertRecords(s.next, rows[..n]);
    }
  }

  // ---- what the indexes and the unique map hold -------------------------------

  /** The contents of every derived structure. */
  datatype Derivation = Derivation(owners: Owners, buckets: map<Col, Buckets>, totals: map<Col, int>,
                                   items: map<Col, seq<Entry>>)

  ghost function Current(db: SnapDB): Derivation
    reads db, db.unique, db.hash, db.hash.indexes.Values, db.ranges.Values
  {
    Derivation(db.unique.owners,
               map c | c in db.hash.indexes :: db.hash.indexes[c].index,
               map c | c in db.hash.indexes :: db.hash.indexes[c].total,
               map c | c in db.ranges :: db.ranges[c].items)
  }

  ghost predicate IsDerivationOf(d: Derivation, cols: seq<Col>, m: map<nat, Row>) {
    && IsOwnersOf(d.owners, cols, m)
    && d.totals.Keys == d.buckets.Keys
    && (forall c :: c in d.buckets ==> IsIndexOf(d.buckets[c], c, m) && d.totals[c] == |m|)
    && forall c :: c in d.items ==> IsItemsOf(d.items[c], c, m)
  }

  // In every valid state the derived structures are those of the live rows.
  lemma CurrentIsDerivation(db: SnapDB)
    requires db.Valid()
    ensures IsDerivationOf(Current(db), UniqueColumns(db.schema), db.store.model)
    ensures Current(db).buckets.Keys == db.hash.indexes.Keys && Current(db).items.Keys == db.ranges.Keys
  {
    hide *;
    db.Parts();
    db.DerivedParts(db.store.model);
    OwnersOf(db.unique, db.store.model);
    BucketsOf(db.hash, db.store.model);
    ItemsOf(db.ranges, db.store.model);
    Together(db, db.store.model);
  }

  lemma OwnersOf(unique: UniqueMap, m: map<nat, Row>)
    requires unique.Agrees(m)
    ensures IsOwnersOf(unique.owners, unique.cols, m)
  {
  }

  lemma BucketsOf(hash: MultiIndex, m: map<nat, Row>)
    requires hash.Agrees(m)
    ensures forall c :: c in hash.indexes ==> IsIndexOf(hash.indexes[c].index, c, m) && hash.indexes[c].total == |m|
  {
    hide IsIndexOf;
  }

  lemma ItemsOf(ranges: RangeIndexes, m: map<nat, Row>)
    requires RangesAgree(ranges, m)
    ensures forall c :: c in ranges ==> IsItemsOf(ranges[c].items, c, m)
  {
    hide IsItemsOf;
  }

  lemma Together(db: SnapDB, m: map<nat, Row>)
    requires IsOwnersOf(db.unique.owners, UniqueColumns(db.schema), m)
    requires forall c :: c in db.hash.indexes ==>
      IsIndexOf(db.hash.indexes[c].index, c, m) && db.hash.indexes[c].total == |m|
    requires forall c :: c in db.ranges ==> IsItemsOf(db.ranges[c].items, c, m)
    ensures IsDerivationOf(Current(db), UniqueColumns(db.schema), m)
    ensures Current(db).buckets.Keys == db.hash.indexes.Keys && Current(db).items.Keys == db.ranges.Keys
  {
    hide IsOwnersOf, IsIndexOf, IsItemsOf, UniqueColumns;
  }

  // The same rows and the same set of indexes: the same contents.
  lemma DerivationUnique(a: Derivation, b: Derivation, cols: seq<Col>, m: map<nat, Row>)
    requires IsDerivationOf(a, cols, m) && IsDerivationOf(b, cols, m)
    requires a.buckets.Keys == b.buckets.Keys && a.items.Keys == b.items.Keys
    ensures a == b
  {
    OwnersUnique(a.owners, b.owners, cols, m);
    forall c | c in a.buckets
      ensures a.buckets[c] == b.buckets[c]
    {
      IndexUnique(a.buckets[c], b.buckets[c], c, m);
    }
    forall c | c in a.items
      ensures a.items[c] == b.items[c]
    {
      ItemsUnique(a.items[c], b.items[c], c, m);
    }
  }

  // ---- one operation, then any number ---------------------------------------------

  /** The live rows and the next row number. */
  ghost function Here(db: SnapDB): R.Image
    reads db.store
  {
    R.Image(db.store.model, HighWater(db.store.env, db.store.states))
  }

  /** The file's bytes and the number of its slabs. */
  datatype FileState = FileState(bytes: seq<byte>, slabs: nat)

  ghost function OnFile(db: SnapDB): FileState
    reads db.store, db.store.mm
  {
    FileState(db.store.mm.bytes, |db.store.states|)
  }

  /** Rows written and units added lead from one to the other. */
  ghost predicate FileEvolves(env: Env, a: FileState, b: FileState) {
    env.rps > 0 && Evolves(env, a.bytes, a.slabs, b.bytes, b.slabs)
  }

  lemma FileIs(db: SnapDB)
    ensures OnFile(db) == FileState(db.store.mm.bytes, |db.store.states|)
  {
  }

  lemma FileGoesOn(env: Env, a: FileState, b: FileState, c: FileState)
    requires FileEvolves(env, a, b) && FileEvolves(env, b, c)
    ensures FileEvolves(env, a, c)
  {
    hide Evolves;
    EvolvesOn(env, a.bytes, a.slabs, b.bytes, b.slabs, c.bytes, c.slabs);
  }

  lemma FileStays(db: SnapDB)
    requires db.Valid()
    ensures FileEvolves(db.store.env, OnFile(db), OnFile(db))
  {
    hide SnapDB.Valid, Evolves;
    SlabsAre(db);
    StaysSame(db.store.env, db.store.mm.bytes, |db.store.states|);
  }

  method Perform(db: SnapDB, op: RowOp) returns (r: Outcome)
    requires db.Valid() && Acceptable(db.schema, op)
    modifies db`txState, db`txOps, db.store, db.store.mm, db.store.slabs, db.unique
    modifies db.hash.indexes.Values, db.ranges.Values, db.wal`file, db.wal`buffer, db.wal`log
    ensures db.Valid() && db.hash == old(db.hash)
    ensures db.store.mm == old(db.store.mm) || fresh(db.store.mm)
    ensures forall s :: s in db.store.slabs ==> s in old(db.store.slabs) || fresh(s)
    ensures Here(db) == Meaning(db.schema, old(Here(db)), op)
    ensures db.wal.Records() == old(db.wal.Records()) + (if db.inTx then Logged(db.schema, old(Here(db)), op) else [])
    ensures old(db.Zoned()) ==> db.Zoned()
    ensures old(db.AllBuilt()) ==> db.AllBuilt()
    ensures old(db.Zoned() && db.Restorable()) && (!op.DoRangeFind? || old(db.AllBuilt())) ==> db.Restorable()
    ensures FileEvolves(db.store.env, old(OnFile(db)), OnFile(db))
  {
    hide Evolves;
    hide SnapDB.Valid, SnapDB.Zoned, SnapDB.Restorable, Storable, HighWater, Shaped, Unclashed, Distinct, Restrict;
    hide PutAll;
    hide W.Wal.Records, LeastSlabs, Written, RowsWritten, Enlarged, InsertRecords, Merged;
    hide Clash, NoClashes, FirstTaken, FirstBad, StoredAs, UpdatedTo, BatchAdded, LoggedInserts, UniqueColumns, Names;
    ghost var (bytes, n, was) := (db.store.mm.bytes, |db.store.states|, Here(db));
    SlabsAre(db);
    StaysSame(db.store.env, bytes, n);
    match op {
      case DoInsert(row) =>
        r := db.Insert(row);
        if r.Done? {
          InsertedEvolves(db, bytes, n, r.idx, row);
        }
      case DoBatch(rows) =>
        r := db.BatchInsert(rows);
        if r.Done? {
          AppendedEvolves(db, bytes, n, was.next, rows);
        }
      case DoUpdate(idx, row) =>
        r := db.Update(idx, row);
        if r.Done? {
          RewrittenEvolves(db, bytes, idx);
        }
        SlabsAre(db);
      case DoDelete(idx) =>
        r := db.Delete(idx);
        SlabsAre(db);
      case DoRangeFind(column, low, high) =>
        PerformRead(db, column, low, high);
        r := Done(0);
    }
  }

  lemma SlabsAre(db: SnapDB)
    requires db.Valid()
    ensures |db.store.slabs| == |db.store.states| && db.store.env.rps > 0
  {
    hide SnapDB.Derived, SnapDB.TxOk;
    db.Parts();
    db.StoreParts();
    db.store.Parts();
  }

  // an insert, or a batch, adds units and writes rows into them and the slots that were free
  lemma AppendedEvolves(db: SnapDB, bytes: seq<byte>, n: nat, g: nat, rows: seq<Row>)
    requires db.Valid() && db.store.env.rps > 0 && LeastSlabs(db.store.env, n, |db.store.slabs|, g + |rows|)
    requires forall i :: 0 <= i < |rows| ==> Shaped(db.schema, rows[i]) && Storable(db.schema, rows[i])
    requires db.store.mm.bytes ==
      RowsWritten(db.store.env, Enlarged(db.store.env, bytes, |db.store.slabs| - n), g, Restricted(db.schema, rows))
    ensures Evolves(db.store.env, bytes, n, db.store.mm.bytes, |db.store.states|)
  {
    hide SnapDB.Derived, SnapDB.TxOk, RowCanonical, Shaped, Storable, Restrict, Store.Valid, Evolves, RowsWritten;
    hide Enlarged;
    db.Parts();
    db.StoreParts();
    SlabsAre(db);
    var fulls := Restricted(db.schema, rows);
    forall i | 0 <= i < |fulls|
      ensures db.store.env.codec.canon(fulls[i])
    {
      ShapedIsCanonical(db.schema, rows[i]);
    }
    AppendEvolves(db.store.env, bytes, n, |db.store.slabs|, g, fulls);
  }

  lemma InsertedEvolves(db: SnapDB, bytes: seq<byte>, n: nat, g: nat, row: Row)
    requires db.Valid() && db.store.env.rps > 0 && LeastSlabs(db.store.env, n, |db.store.slabs|, g + 1)
    requires Shaped(db.schema, row) && Storable(db.schema, row)
    requires db.store.mm.bytes ==
      Written(db.store.env, Enlarged(db.store.env, bytes, |db.store.slabs| - n), g, Restrict(db.schema, row))
    ensures Evolves(db.store.env, bytes, n, db.store.mm.bytes, |db.store.states|)
  {
    hide SnapDB.Valid, Evolves, Enlarged, Shaped, Storable, Restrict, Written;
    assert Restricted(db.schema, [row]) == [Restrict(db.schema, row)];
    assert [Restrict(db.schema, row)][..0] == [];
    AppendedEvolves(db, bytes, n, g, [row]);
  }

  // an update writes one slot
  lemma RewrittenEvolves(db: SnapDB, bytes: seq<byte>, g: nat)
    requires db.Valid() && db.store.env.rps > 0 && g in db.store.model
    requires db.store.mm.bytes == Written(db.store.env, bytes, g, db.store.model[g])
    ensures Evolves(db.store.env, bytes, |db.store.states|, db.store.mm.bytes, |db.store.states|)
  {
    hide SnapDB.Derived, SnapDB.TxOk, RowCanonical, Evolves, Written, HighWater;
    db.Parts();
    db.StoreParts();
    db.store.Parts();
    LiveHandedOut(db.store.env, db.store.mm.bytes, db.store.states, db.store.model, g);
    WriteEvolves(db.store.env, bytes, |db.store.states|, g, db.store.model[g]);
  }

  /** A range search in the middle of a transaction. */
  method PerformRead(db: SnapDB, column: Col, low: Bound, high: Bound)
    requires db.Valid()
    modifies db.store`states, db.store.slabs`zoneMin, db.store.slabs`zoneMax, db.store.slabs`zoneBuilt
    ensures db.Valid() && HighWater(db.store.env, db.store.states) == old(HighWater(db.store.env, db.store.states))
    ensures |db.store.states| == |old(db.store.states)|
    ensures old(db.Zoned()) ==> db.Zoned()
    ensures old(db.AllBuilt()) ==> db.AllBuilt()
    ensures old(db.Restorable()) && old(db.AllBuilt()) ==> db.Restorable()
  {
    hide *;
    db.RestorableIs();
    var found := RangeFind(db, column, low, high);
    db.RestorableIs();
  }

  /** No operation is a range search. */
  predicate Blind(ops: seq<RowOp>) { forall i :: 0 <= i < |ops| ==> !ops[i].DoRangeFind? }

  /** Operations one after the other; refused ones change nothing. */
  method PerformAll(db: SnapDB, ops: seq<RowOp>)
    requires db.Valid() && forall i :: 0 <= i < |ops| ==> Acceptable(db.schema, ops[i])
    modifies db`txState, db`txOps, db.store, db.store.mm, db.store.slabs, db.unique
    modifies db.hash.indexes.Values, db.ranges.Values, db.wal`file, db.wal`buffer, db.wal`log
    ensures db.Valid() && db.hash == old(db.hash)
    ensures db.store.mm == old(db.store.mm) || fresh(db.store.mm)
    ensures forall s :: s in db.store.slabs ==> s in old(db.store.slabs) || fresh(s)
    ensures Here(db) == MeaningAll(db.schema, old(Here(db)), ops)
    ensures db.wal.Records() ==
      old(db.wal.Records()) + (if db.inTx then LoggedAll(db.schema, old(Here(db)), ops) else [])
    ensures old(db.Zoned()) ==> db.Zoned()
    ensures old(db.Zoned() && db.Restorable()) && (Blind(ops) || old(db.AllBuilt())) ==> db.Restorable()
    ensures FileEvolves(db.store.env, old(OnFile(db)), OnFile(db))
  {
    hide *;
    ghost var start := Start(Here(db), db.wal.Records(), OnFile(db), db.Zoned(), db.AllBuilt(),
                             db.Zoned() && db.Restorable() && (Blind(ops) || db.AllBuilt()));
    NothingPerformed(db, ops, start);
    for i := 0 to |ops|
      invariant db.Valid() && db.hash == old(db.hash) && Performed(db, ops, i, start)
      invariant db.store.mm == old(db.store.mm) || fresh(db.store.mm)
      invariant forall s :: s in db.store.slabs ==> s in old(db.store.slabs) || fresh(s)
    {
      assert forall k :: 0 <= k < |db.store.slabs| ==> db.store.slabs[k] in db.store.slabs;
      PerformNext(db, ops, i, start);
    }
    PerformedIs(db, ops, |ops|, start);
    assert ops[..|ops|] == ops;
  }

  /** A database as a run of operations finds it: rows, log, file, and whether its zone maps are sound, all
      built, and safe from a rollback. */
  datatype Start = Start(here: R.Image, log: W.Log, file: FileState, zoned: bool, built: bool, safe: bool)

  /** Where the first i operations lead. */
  ghost predicate Performed(db: SnapDB, ops: seq<RowOp>, i: nat, start: Start)
    reads db, db.store, db.store.mm, db.wal
  {
    && i <= |ops| && Here(db) == MeaningAll(db.schema, start.here, ops[..i])
    && db.wal.Records() == start.log + (if db.inTx then LoggedAll(db.schema, start.here, ops[..i]) else [])
    && (start.zoned ==> db.Zoned()) && (start.built ==> db.AllBuilt())
    && (start.safe ==> start.zoned && db.Restorable() && (Blind(ops) || start.built))
    && FileEvolves(db.store.env, start.file, OnFile(db))
  }

  lemma NothingPerformed(db: SnapDB, ops: seq<RowOp>, start: Start)
    requires db.Valid()
    requires start == Start(Here(db), db.wal.Records(), OnFile(db), db.Zoned(), db.AllBuilt(),
                            db.Zoned() && db.Restorable() && (Blind(ops) || db.AllBuilt()))
    ensures Performed(db, ops, 0, start)
  {
    hide SnapDB.Valid, SnapDB.Zoned, SnapDB.AllBuilt, SnapDB.Restorable, Evolves, MeaningAll, LoggedAll, W.Wal.Records;
    hide Here;
    hide Blind, FileEvolves, OnFile;
    FileStays(db);
    NoOps(db.schema, Here(db), ops);
  }

  lemma PerformedIs(db: SnapDB, ops: seq<RowOp>, i: nat, start: Start)
    requires Performed(db, ops, i, start)
    ensures i <= |ops| && Here(db) == MeaningAll(db.schema, start.here, ops[..i])
    ensures db.wal.Records() == start.log + (if db.inTx then LoggedAll(db.schema, start.here, ops[..i]) else [])
    ensures (start.zoned ==> db.Zoned()) && (start.built ==> db.AllBuilt())
    ensures start.safe ==> start.zoned && db.Restorable() && (Blind(ops) || start.built)
    ensures FileEvolves(db.store.env, start.file, OnFile(db))
  {
    hide SnapDB.Zoned, SnapDB.AllBuilt, SnapDB.Restorable, FileEvolves, OnFile, MeaningAll, LoggedAll, W.Wal.Records;
    hide Here;
    hide Blind;
  }

  lemma PerformedWhole(db: SnapDB, ops: seq<RowOp>, i: nat, start: Start)
    requires i <= |ops| && Here(db) == MeaningAll(db.schema, start.here, ops[..i])
    requires db.wal.Records() == start.log + (if db.inTx then LoggedAll(db.schema, start.here, ops[..i]) else [])
    requires (start.zoned ==> db.Zoned()) && (start.built ==> db.AllBuilt())
    requires start.safe ==> start.zoned && db.Restorable() && (Blind(ops) || start.built)
    requires FileEvolves(db.store.env, start.file, OnFile(db))
    ensures Performed(db, ops, i, start)
  {
    hide SnapDB.Zoned, SnapDB.AllBuilt, SnapDB.Restorable, FileEvolves, OnFile, MeaningAll, LoggedAll, W.Wal.Records;
    hide Here;
    hide Blind;
  }

  method PerformNext(db: SnapDB, ops: seq<RowOp>, i: nat, ghost start: Start)
    requires db.Valid() && i < |ops| && Acceptable(db.schema, ops[i]) && Performed(db, ops, i, start)
    modifies db`txState, db`txOps, db.store, db.store.mm, db.store.slabs, db.unique
    modifies db.hash.indexes.Values, db.ranges.Values, db.wal`file, db.wal`buffer, db.wal`log
    ensures db.Valid() && db.hash == old(db.hash) && Performed(db, ops, i + 1, start)
    ensures db.store.mm == old(db.store.mm) || fresh(db.store.mm)
    ensures forall s :: s in db.store.slabs ==> s in old(db.store.slabs) || fresh(s)
  {
    hide *;
    PerformedIs(db, ops, i, start);
    OneMoreOp(db.schema, start.here, ops, i);
    ghost var file := OnFile(db);
    var r := Perform(db, ops[i]);
    FileGoesOn(db.store.env, start.file, file, OnFile(db));
    PerformedWhole(db, ops, i + 1, start);
  }

  lemma NoOps(schema: Schema, s: R.Image, ops: seq<RowOp>)
    ensures MeaningAll(schema, s, ops[..0]) == s && LoggedAll(schema, s, ops[..0]) == []
  {
  }

  lemma OneMoreOp(schema: Schema, s: R.Image, ops: seq<RowOp>, i: nat)
    requires i < |ops|
    ensures MeaningAll(schema, s, ops[..i + 1]) == Meaning(schema, MeaningAll(schema, s, ops[..i]), ops[i])
    ensures LoggedAll(schema, s, ops[..i + 1]) ==
      LoggedAll(schema, s, ops[..i]) + Logged(schema, MeaningAll(schema, s, ops[..i]), ops[i])
    ensures Blind(ops) ==> !ops[i].DoRangeFind?
  {
    hide Meaning, Logged;
    assert ops[..i + 1][..i] == ops[..i];
  }

  /** A transaction under way: its operations are done, its end not yet decided. */
  method BeginAndPerform(db: SnapDB, ops: seq<RowOp>)
    requires db.Valid() && !db.inTx && forall i :: 0 <= i < |ops| ==> Acceptable(db.schema, ops[i])
    modifies db`inTx, db`txState, db`txBase, db`txOps, db`txLog
    modifies db.store, db.store.mm, db.store.slabs, db.unique, db.hash.indexes.Values, db.ranges.Values
    modifies db.wal`file, db.wal`buffer, db.wal`log, db.wal`txid, db.wal`inTx
    ensures db.Valid() && db.inTx && db.hash == old(db.hash)
    ensures db.store.mm == old(db.store.mm) || fresh(db.store.mm)
    ensures forall s :: s in db.store.slabs ==> s in old(db.store.slabs) || fresh(s)
    ensures db.txBase == old(Here(db)) && db.txLog == old(db.wal.Records()) && db.wal.txid == old(db.wal.txid) + 1
    ensures db.txOps == LoggedAll(db.schema, db.txBase, ops)
    ensures R.LegalRun(db.txBase, db.txOps, UniqueColumns(db.schema))
    ensures Here(db) == MeaningAll(db.schema, db.txBase, ops)
    ensures Undoes(db.schema, db.txState, Here(db).rows, Here(db).next, db.txBase.rows)
    ensures old(db.Zoned()) ==> db.Zoned()
    ensures old(db.Zoned()) && (Blind(ops) || old(db.AllBuilt())) ==> db.Restorable()
    ensures FileEvolves(db.store.env, old(OnFile(db)), OnFile(db))
    ensures db.txBase.rows == old(db.store.model) && |db.txBase.rows| == old(db.store.totalRows)
    ensures IsDerivationOf(old(Current(db)), UniqueColumns(db.schema), db.txBase.rows)
    ensures old(Current(db)).buckets.Keys == db.hash.indexes.Keys && old(Current(db)).items.Keys == db.ranges.Keys
  {
    hide *;
    ghost var was := Here(db);
    DerivedBefore(db);
    HereIs(db);
    var begun := db.Begin();
    HereIs(db);
    PerformAll(db, ops);
    LoggedHere(db, LoggedAll(db.schema, was, ops));
    HereIs(db);
    db.Parts();
    db.UndoHere();
  }

  /** After undoing the list over these zone maps: if they were sound they are now, exactly when the maps it leads to
      cover the deleted rows it brought back. */
  ghost predicate ZonesDecided(db: SnapDB, sound: bool, maps: States, undos: seq<Undo>, rows: map<nat, Row>)
    reads db.store
  {
    && db.store.env.rps > 0 && SameMaps(MapsUndone(db.store.env, maps, undos), db.store.states)
    && (sound ==> (db.Zoned() <==>
                     RestoredCovered(db.store.env, MapsUndone(db.store.env, maps, undos), undos, rows)))
  }

  lemma ZonesDecidedIs(db: SnapDB, sound: bool, maps: States, undos: seq<Undo>, rows: map<nat, Row>)
    requires db.store.env.rps > 0 && SameMaps(MapsUndone(db.store.env, maps, undos), db.store.states)
    requires sound ==> (db.Zoned() <==>
      RestoredCovered(db.store.env, MapsUndone(db.store.env, maps, undos), undos, rows))
    ensures ZonesDecided(db, sound, maps, undos, rows)
  {
    hide SnapDB.Zoned, RestoredCovered, SameMaps, MapsUndone;
  }

  lemma ZonedHere(db: SnapDB)
    ensures db.Zoned() ==> db.store.env.rps > 0 && ZonesCover(db.store.env, db.store.states, Here(db).rows)
  {
    hide ZonesCover;
  }

  lemma DecidedBefore(db: SnapDB, before: bool, sound: bool, maps: States, undos: seq<Undo>, rows: map<nat, Row>)
    requires ZonesDecided(db, sound, maps, undos, rows) && (before ==> sound)
    ensures ZonesDecided(db, before, maps, undos, rows)
  {
    hide SnapDB.Zoned, RestoredCovered, SameMaps, MapsUndone;
  }

  /** Rolls back; all that is derived from the rows becomes what it was when they were the same. */
  method RollBackTo(db: SnapDB, ghost before: Derivation)
    requires db.Valid() && db.inTx && IsDerivationOf(before, UniqueColumns(db.schema), db.txBase.rows)
    requires before.buckets.Keys == db.hash.indexes.Keys && before.items.Keys == db.ranges.Keys
    modifies db`inTx, db`txState, db.store, db.store.mm, db.store.slabs, db.unique, db.hash.indexes.Values
    modifies db.ranges.Values
    modifies db.wal`file, db.wal`buffer, db.wal`log, db.wal`inTx
    ensures db.Valid() && !db.inTx && db.hash == old(db.hash) && db.store.mm == old(db.store.mm)
    ensures db.store.slabs == old(db.store.slabs)
    ensures Here(db) == R.Image(db.txBase.rows, old(Here(db)).next) && db.store.totalRows == |db.txBase.rows|
    ensures Current(db) == before
    ensures db.wal.Records() == db.txLog + W.TxRecords(W.Tx(db.wal.txid, db.txOps, W.RolledBack))
    ensures db.wal.file == W.WriteRecords(db.wal.found, db.wal.Records())
    ensures old(db.Zoned() && db.Restorable()) ==> db.Zoned()
    ensures ZonesDecided(db, old(db.Zoned()), old(db.store.states), old(db.txState), db.txBase.rows)
    ensures FileEvolves(db.store.env, old(OnFile(db)), OnFile(db))
  {
    hide *;
    HereIs(db);
    ghost var (bytes, n, log) := (db.store.mm.bytes, |db.store.states|, db.txState);
    ghost var (sound, maps) := (db.Zoned(), db.store.states);
    FileIs(db);
    UndosFit(db);
    SlabsAre(db);
    db.Rollback();
    ZonesDecidedIs(db, sound, maps, log, db.txBase.rows);
    SlabsAre(db);
    UndoneEvolves(db.store.env, bytes, n, log);
    FileUndone(db, bytes, n);
    HereIs(db);
    CountIsSize(db);
    CurrentIsDerivation(db);
    SameContents(db, before);
  }

  lemma FileUndone(db: SnapDB, bytes: seq<byte>, n: nat)
    requires db.store.env.rps > 0 && Evolves(db.store.env, bytes, n, db.store.mm.bytes, n) && |db.store.states| == n
    ensures FileEvolves(db.store.env, FileState(bytes, n), OnFile(db))
  {
    hide Evolves;
  }

  /** The end of a transaction: rolled back or committed. */
  method EndTransaction(db: SnapDB, fails: bool, ghost before: Derivation)
    requires db.Valid() && db.inTx && IsDerivationOf(before, UniqueColumns(db.schema), db.txBase.rows)
    requires before.buckets.Keys == db.hash.indexes.Keys && before.items.Keys == db.ranges.Keys
    modifies db`inTx, db`txState, db.store, db.store.mm, db.store.slabs, db.unique, db.hash.indexes.Values
    modifies db.ranges.Values
    modifies db.wal`file, db.wal`buffer, db.wal`log, db.wal`inTx
    ensures db.Valid() && !db.inTx && db.hash == old(db.hash) && db.store.mm == old(db.store.mm)
    ensures db.store.slabs == old(db.store.slabs)
    ensures Here(db) == if fails then R.Image(db.txBase.rows, old(Here(db)).next) else old(Here(db))
    ensures fails ==>
      db.store.model == db.txBase.rows && db.store.totalRows == |db.txBase.rows| && Current(db) == before
    ensures db.wal.Records() ==
      db.txLog + W.TxRecords(W.Tx(db.wal.txid, db.txOps, if fails then W.RolledBack else W.Committed))
    ensures db.wal.file == W.WriteRecords(db.wal.found, db.wal.Records())
    ensures old(db.Zoned() && (!fails || db.Restorable())) ==> db.Zoned()
    ensures fails ==> ZonesDecided(db, old(db.Zoned()), old(db.store.states), old(db.txState), db.txBase.rows)
    ensures FileEvolves(db.store.env, old(OnFile(db)), OnFile(db))
  {
    hide *;
    FileStays(db);
    if fails {
      RollBackTo(db, before);
      HereIs(db);
    } else {
      db.Commit();
    }
  }

  /** A transaction block: its operations one after the other, some perhaps refused, then commit or rollback. */
  method Transaction(db: SnapDB, ops: seq<RowOp>, fails: bool) returns (ghost maps: States, ghost undos: seq<Undo>)
    requires db.Valid() && !db.inTx && forall i :: 0 <= i < |ops| ==> Acceptable(db.schema, ops[i])
    modifies db`inTx, db`txState, db`txBase, db`txOps, db`txLog
    modifies db.store, db.store.mm, db.store.slabs, db.unique, db.hash.indexes.Values, db.ranges.Values
    modifies db.wal`file, db.wal`buffer, db.wal`log, db.wal`txid, db.wal`inTx
    ensures db.Valid() && !db.inTx && db.hash == old(db.hash)
    ensures db.store.mm == old(db.store.mm) || fresh(db.store.mm)
    ensures forall s :: s in db.store.slabs ==> s in old(db.store.slabs) || fresh(s)
    ensures R.LegalRun(old(Here(db)), LoggedAll(db.schema, old(Here(db)), ops), UniqueColumns(db.schema))
    ensures Here(db).next == MeaningAll(db.schema, old(Here(db)), ops).next
    ensures !fails ==> Here(db) == MeaningAll(db.schema, old(Here(db)), ops)
    ensures fails ==> db.store.model == old(db.store.model) && db.store.totalRows == old(db.store.totalRows)
    ensures fails ==> Current(db) == old(Current(db))
    ensures db.wal.Records() == old(db.wal.Records()) +
      W.TxRecords(W.Tx(db.wal.txid, LoggedAll(db.schema, old(Here(db)), ops),
          if fails then W.RolledBack else W.Committed))
    ensures db.wal.txid == old(db.wal.txid) + 1 && db.wal.file == W.WriteRecords(db.wal.found, db.wal.Records())
    ensures old(db.Zoned()) && (!fails || Blind(ops) || old(db.AllBuilt())) ==> db.Zoned()
    ensures fails ==>
      var now := MeaningAll(db.schema, old(Here(db)), ops);
      && Undoes(db.schema, undos, now.rows, now.next, db.store.model)
      && (old(db.Zoned()) ==> db.store.env.rps > 0 && ZonesCover(db.store.env, maps, now.rows))
      && ZonesDecided(db, old(db.Zoned()), maps, undos, db.store.model)
    ensures FileEvolves(db.store.env, old(OnFile(db)), OnFile(db))
  {
    hide *;
    ghost var (before, found) := (Current(db), OnFile(db));
    BeginAndPerform(db, ops);
    assert forall k :: 0 <= k < |db.store.slabs| ==> db.store.slabs[k] in db.store.slabs;
    ghost var now := OnFile(db);
    maps, undos := db.store.states, db.txState;
    ghost var sound := db.Zoned();
    ZonedHere(db);
    EndTransaction(db, fails, before);
    if fails {
      DecidedBefore(db, old(db.Zoned()), sound, maps, undos, db.store.model);
    }
    FileGoesOn(db.store.env, found, now, OnFile(db));
  }

  lemma DerivedBefore(db: SnapDB)
    requires db.Valid()
    ensures IsDerivationOf(Current(db), UniqueColumns(db.schema), Here(db).rows)
    ensures Current(db).buckets.Keys == db.hash.indexes.Keys && Current(db).items.Keys == db.ranges.Keys
    ensures db.store.totalRows == |Here(db).rows|
  {
    hide SnapDB.Valid, IsDerivationOf, Current, HighWater;
    CurrentIsDerivation(db);
    CountIsSize(db);
  }

  /** What undoing writes back are rows in slots the file has. */
  ghost predicate UndosInFile(env: Env, n: nat, log: seq<Undo>)
    requires env.rps > 0
  {
    forall i :: 0 <= i < |log| && !log[i].UndoInsert? ==> env.SlabOf(log[i].idx) < n && env.codec.canon(log[i].row)
  }

  lemma UndosFit(db: SnapDB)
    requires db.Valid() && db.inTx
    ensures db.store.env.rps > 0 && UndosInFile(db.store.env, |db.store.states|, db.txState)
  {
    hide SnapDB.Derived, RowCanonical, HighWater, R.LegalRun, R.Run, W.Wal.Valid, Undoes, Distinct;
    db.Parts();
    db.StoreParts();
    db.store.Parts();
    db.NextIsFree();
    UndosBelow(db.schema, db.txState, db.store.model, HighWater(db.store.env, db.store.states), db.txBase.rows);
    forall i | 0 <= i < |db.txState| && !db.txState[i].UndoInsert?
      ensures db.store.env.SlabOf(db.txState[i].idx) < |db.store.states|
    {
      HandedOut(db.store.env, db.store.states, db.txState[i].idx);
    }
  }

  lemma {:induction false} UndosBelow(schema: Schema, log: seq<Undo>, m: map<nat, Row>, hw: nat, base: map<nat, Row>)
    requires Undoes(schema, log, m, hw, base) && forall g :: g in m ==> g < hw
    ensures forall i :: 0 <= i < |log| && !log[i].UndoInsert? ==> log[i].idx < hw && RowCanonical(schema, log[i].row)
  {
    if log != [] {
      hide Distinct, RowCanonical;
      var front, u := log[..|log| - 1], log[|log| - 1];
      UndosBelow(schema, front, Prev(u, m), hw, base);
      assert forall i :: 0 <= i < |front| ==> front[i] == log[i];
    }
  }

  lemma {:induction false} UndoneEvolves(env: Env, bytes: seq<byte>, n: nat, log: seq<Undo>)
    requires env.rps > 0 && UndosInFile(env, n, log)
    ensures Evolves(env, bytes, n, UndoneBytes(env, bytes, log), n)
    decreases |log|
  {
    hide Evolves, Written;
    StaysSame(env, bytes, n);
    if log != [] {
      var front, u := log[..|log| - 1], log[|log| - 1];
      assert forall i :: 0 <= i < |front| ==> front[i] == log[i];
      if !u.UndoInsert? {
        WriteEvolves(env, bytes, n, u.idx, u.row);
      }
      UndoneEvolves(env, UndoBytes(env, bytes, u), n, front);
      EvolvesOn(env, bytes, n, UndoBytes(env, bytes, u), n, UndoneBytes(env, bytes, log), n);
    }
  }

  lemma HereIs(db: SnapDB)
    ensures Here(db) == R.Image(db.store.model, HighWater(db.store.env, db.store.states))
  {
  }

  // the records logged since the transaction began are those its invariant speaks of
  lemma LoggedHere(db: SnapDB, recs: W.Log)
    requires db.Valid() && db.inTx && db.wal.Records() == db.txLog + [W.Begin(db.wal.txid)] + recs
    ensures db.txOps == recs && R.LegalRun(db.txBase, recs, UniqueColumns(db.schema))
    ensures R.Run(db.txBase, recs) == Here(db)
  {
    hide SnapDB.Valid, R.LegalRun, R.Run, HighWater, W.Wal.Records;
    db.RunSoFar();
    db.LogSoFar();
    var start := db.txLog + [W.Begin(db.wal.txid)];
    assert db.txOps == (start + db.txOps)[|start|..] && recs == (start + recs)[|start|..];
  }

  // ---- zone maps and rollback -------------------------------------------------------

  /** The only slab holds rows 0 and 1, with a < b in column c, and its zone map is not built yet, as after opening. */
  ghost predicate TwoRows(db: SnapDB, c: Col, a: int, b: int)
    reads db.store
  {
    && TwoValues(db.store.env, db.store.model, c, a, b) && |db.store.states| == 1
    && !db.store.states[0].zoneBuilt && db.store.states[0].zoneMin == map[] == db.store.states[0].zoneMax
  }

  /** A failing run: row 1 is deleted in a transaction, a range search builds the zone map without it, and
      rollback puts it back behind the map. It is live again, and a range search for its value skips it. */
  method RollbackHidesRow(db: SnapDB, c: Col, a: int, b: int) returns (found: Found)
    requires db.Valid() && !db.inTx && TwoRows(db, c, a, b) && db.Zoned() && c in Names(db.schema) && c !in db.ranges
    modifies db`inTx, db`txState, db`txBase, db`txOps, db`txLog
    modifies db.store, db.store.mm, db.store.slabs, db.unique, db.hash.indexes.Values, db.ranges.Values
    modifies db.wal`file, db.wal`buffer, db.wal`log, db.wal`txid, db.wal`inTx
    ensures db.Valid() && db.store.model == old(db.store.model) && !db.Zoned()
    ensures 1 in db.store.model && InRange(Get(db.store.model[1], c), At(Num(b), true), At(Num(b), true))
    ensures found == Found.Rows([])
  {
    hide *;
    ghost var m := db.store.model;
    TwoParts(db, c, a, b);
    SearchWithoutRow(db, c, a, b);
    assert forall k :: 0 <= k < |db.store.slabs| ==> db.store.slabs[k] in db.store.slabs;
    ghost var built := db.store.states;
    OneDelete(m[1]);
    NoUpdatesNoMaps(db.store.env, built, db.txState);
    db.Rollback();
    ghost var restored := db.store.states;
    found := RangeFind(db, c, At(Num(b), true), At(Num(b), true));
    db.ZonedIs();
    SameSize(built, restored);
    assert MapReady(db.store.env, m, 0, restored[0], db.store.states[0]);
    RowSkipped(db.store.env, built, restored, db.store.states, m, c, a, b);
    RowUncovered(db.store.env, db.store.states, m, c, a, b);
    OneUncovered(db.store.env, db.store.states, m, 1);
  }

  /** The first half of it: with row 1 deleted, the search builds a map that row 0 alone decides. */
  method SearchWithoutRow(db: SnapDB, c: Col, a: int, b: int)
    requires db.Valid() && !db.inTx && TwoRows(db, c, a, b) && db.Zoned() && c in Names(db.schema) && c !in db.ranges
    modifies db`inTx, db`txState, db`txBase, db`txOps, db`txLog
    modifies db.store, db.store.mm, db.store.slabs, db.unique, db.hash.indexes.Values, db.ranges.Values
    modifies db.wal`file, db.wal`buffer, db.wal`log, db.wal`txid, db.wal`inTx
    ensures db.Valid() && db.inTx && db.store.mm == old(db.store.mm) && db.store.slabs == old(db.store.slabs)
    ensures db.hash == old(db.hash)
    ensures db.txBase.rows == old(db.store.model) && 1 in db.txBase.rows
    ensures db.txState == [UndoDelete(1, db.txBase.rows[1])]
    ensures |db.store.states| == 1 && HasBounds(db.store.states[0], c, Num(a))
  {
    hide *;
    ghost var (m, maps) := (db.store.model, db.store.states);
    TwoParts(db, c, a, b);
    DeleteSecond(db);
    ghost var unbuilt := db.store.states;
    SameSize(maps, unbuilt);
    var some := RangeFind(db, c, Open, Open);
    db.ZonedIs();
    assert MapReady(db.store.env, db.store.model, 0, unbuilt[0], db.store.states[0]);
    MapLacksRow(db.store.env, maps, unbuilt, db.store.states, m, c, a, b);
  }

  method DeleteSecond(db: SnapDB)
    requires db.Valid() && !db.inTx && 1 in db.store.model && db.Zoned()
    modifies db`inTx, db`txState, db`txBase, db`txOps, db`txLog
    modifies db.store, db.store.mm, db.store.slabs, db.unique, db.hash.indexes.Values, db.ranges.Values
    modifies db.wal`file, db.wal`buffer, db.wal`log, db.wal`txid, db.wal`inTx
    ensures db.Valid() && db.inTx && db.store.mm == old(db.store.mm) && db.store.slabs == old(db.store.slabs)
    ensures db.hash == old(db.hash) && db.Zoned() && SameMaps(old(db.store.states), db.store.states)
    ensures db.txBase.rows == old(db.store.model) && db.store.model == old(db.store.model) - {1}
    ensures db.txState == [UndoDelete(1, old(db.store.model)[1])]
  {
    hide *;
    OneDelete(db.store.model[1]);
    var begun := db.Begin();
    var gone := db.Delete(1);
  }

  lemma SameSize(a: States, b: States)
    ensures SameMaps(a, b) ==> |a| == |b|
  {
  }

  /** The built map's bounds for column c are both v. */
  ghost predicate HasBounds(s: SlabState, c: Col, v: Value) {
    s.zoneBuilt && c in s.zoneMin && c in s.zoneMax && s.zoneMin[c] == v == s.zoneMax[c]
  }

  lemma TwoParts(db: SnapDB, c: Col, a: int, b: int)
    requires TwoRows(db, c, a, b)
    ensures TwoValues(db.store.env, db.store.model, c, a, b) && |db.store.states| == 1
    ensures !db.store.states[0].zoneBuilt && db.store.states[0].zoneMin == map[] == db.store.states[0].zoneMax
    ensures 1 in db.store.model && InRange(Get(db.store.model[1], c), At(Num(b), true), At(Num(b), true))
  {
  }

  /** Column c of the two rows. */
  ghost predicate TwoValues(env: Env, m: map<nat, Row>, c: Col, a: int, b: int) {
    && env.rps > 0 && c in env.zoneCols && a < b && env.SlabOf(0) == env.SlabOf(1) == 0
    && m.Keys == {0, 1} && Get(m[0], c) == Num(a) && Get(m[1], c) == Num(b)
  }

  // a map built from row 0 alone has its value at both ends
  lemma MapLacksRow(env: Env, maps: States, unbuilt: States, built: States, m: map<nat, Row>, c: Col, a: int, b: int)
    requires TwoValues(env, m, c, a, b) && |maps| == 1 == |built| && SameMaps(maps, unbuilt)
    requires !maps[0].zoneBuilt && maps[0].zoneMin == map[] == maps[0].zoneMax
    requires MapReady(env, m - {1}, 0, unbuilt[0], built[0]) && ZonesCover(env, built, m - {1})
    ensures HasBounds(built[0], c, Num(a))
  {
    assert 0 in m - {1};
    assert ZoneCoversRow(env, built, 0, m[0]);
    var i :| 0 <= i < |env.zoneCols| && env.zoneCols[i] == c;
    assert ZoneHas(built[0].zoneMin, built[0].zoneMax, env.zoneCols[i], Get(m[0], env.zoneCols[i]));
  }

  // with those bounds the search for row 1's value skips the slab
  lemma RowSkipped(env: Env, built: States, restored: States, now: States, m: map<nat, Row>, c: Col, a: int, b: int)
    requires TwoValues(env, m, c, a, b) && |built| == 1 == |now| && SameMaps(built, restored)
    requires HasBounds(built[0], c, Num(a)) && MapReady(env, m, 0, restored[0], now[0])
    ensures var (low, n) := (At(Num(b), true), Times(|now|, env.rps));
      Payload(Select(Unpruned(env, now, m, c, low, low), RangePred(c, low, low), n)) == []
    ensures HasBounds(now[0], c, Num(a))
  {
    var low := At(Num(b), true);
    assert now[0] == restored[0] && HasBounds(now[0], c, Num(a));
    NothingReached(env, now, m, c, low);
    SelectFromNothing(RangePred(c, low, low), Times(|now|, env.rps));
  }

  lemma NothingReached(env: Env, now: States, m: map<nat, Row>, c: Col, low: Bound)
    requires env.rps > 0 && |now| == 1 && c in now[0].zoneMin && c in now[0].zoneMax
    requires low.At? && low.inclusive && Lt(now[0].zoneMax[c], low.v)
    ensures Unpruned(env, now, m, c, low, low) == map[]
  {
  }

  // ... and does not cover the row
  lemma RowUncovered(env: Env, now: States, m: map<nat, Row>, c: Col, a: int, b: int)
    requires TwoValues(env, m, c, a, b) && |now| == 1 && HasBounds(now[0], c, Num(a))
    ensures 1 in m && !ZoneCoversRow(env, now, 1, m[1])
  {
    var i :| 0 <= i < |env.zoneCols| && env.zoneCols[i] == c;
    assert !ZoneHas(now[0].zoneMin, now[0].zoneMax, env.zoneCols[i], Get(m[1], env.zoneCols[i]));
  }

  lemma OneUncovered(env: Env, now: States, m: map<nat, Row>, g: nat)
    requires env.rps > 0 && g in m && !ZoneCoversRow(env, now, g, m[g])
    ensures !ZonesCover(env, now, m)
  {
  }

  lemma {:induction false} SelectFromNothing(p: Row -> bool, n: nat)
    ensures Select(map[], p, n) == []
  {
    if n > 0 {
      SelectFromNothing(p, n - 1);
    }
  }

  lemma OneDelete(row: Row)
    ensures [] + [UndoDelete(1, row)] == [UndoDelete(1, row)] && NoUpdates([UndoDelete(1, row)])
  {
  }

  lemma CountIsSize(db: SnapDB)
    requires db.Valid()
    ensures db.store.totalRows == |db.store.model|
  {
    db.Parts();
    db.StoreParts();
    db.store.Parts();
  }

  lemma SameContents(db: SnapDB, before: Derivation)
    requires IsDerivationOf(before, UniqueColumns(db.schema), db.store.model)
    requires IsDerivationOf(Current(db), UniqueColumns(db.schema), db.store.model)
    requires before.buckets.Keys == Current(db).buckets.Keys && before.items.Keys == Current(db).items.Keys
    ensures Current(db) == before
  {
    hide *;
    DerivationUnique(Current(db), before, UniqueColumns(db.schema), db.store.model);
  }

  // ---- a batch is its rows one by one ---------------------------------------------------

  /** Inserts the rows one at a time, all or the first ones up to an error: all of them exactly when a batch goes
      through. */
  method InsertEach(db: SnapDB, rows: seq<Row>) returns (done: bool)
    requires db.Valid() && forall i :: 0 <= i < |rows| ==> Storable(db.schema, rows[i])
    modifies db`txState, db`txOps, db.store, db.store.mm, db.store.slabs, db.unique
    modifies db.hash.indexes.Values, db.ranges.Values, db.wal`file, db.wal`buffer, db.wal`log
    ensures db.Valid() && db.hash == old(db.hash)
    ensures done <==> Accepted(db.schema, old(Here(db)), DoBatch(rows))
    ensures done ==> Here(db) == Meaning(db.schema, old(Here(db)), DoBatch(rows))
    ensures done ==> LeastSlabs(db.store.env, |old(db.store.slabs)|, |db.store.slabs|, Here(db).next)
    ensures done ==> db.store.env.rps > 0 && |old(db.store.slabs)| <= |db.store.slabs|
    ensures done ==>
      db.store.mm.bytes ==
      RowsWritten(db.store.env,
          Enlarged(db.store.env, old(db.store.mm.bytes), |db.store.slabs| - |old(db.store.slabs)|),
                  old(Here(db)).next, Restricted(db.schema, rows))
  {
    hide *;
    ghost var (was, bytes, n0) := (Here(db), db.store.mm.bytes, |db.store.slabs|);
    NoneYet(db, rows);
    for i := 0 to |rows|
      invariant db.Valid() && db.hash == old(db.hash) && Partway(db, rows, i, was, bytes, n0)
      invariant db.store.mm == old(db.store.mm) || fresh(db.store.mm)
      invariant forall s :: s in db.store.slabs ==> s in old(db.store.slabs) || fresh(s)
    {
      assert forall k :: 0 <= k < |db.store.slabs| ==> db.store.slabs[k] in db.store.slabs;
      done := InsertNext(db, rows, i, was, bytes, n0);
      if !done {
        return;
      }
    }
    AllThere(db, rows, was, bytes, n0);
    done := true;
  }

  /** The first i rows are in, everything as if the file had grown first and they had been written then. */
  ghost predicate Partway(db: SnapDB, rows: seq<Row>, i: nat, was: R.Image, bytes: seq<byte>, n0: nat)
    reads db.store, db.store.mm
  {
    var fulls := Restricted(db.schema, rows);
    && i <= |rows| && (forall k :: 0 <= k < i ==> Shaped(db.schema, rows[k]))
    && (forall j :: j in was.rows ==> j < was.next)
    && Here(db) == R.Image(PutAll(was.rows, was.next, fulls[..i]), was.next + i)
    && LeastSlabs(db.store.env, n0, |db.store.slabs|, was.next + i) && Fitting(db.store.env, bytes, n0, fulls, i)
    && db.store.mm.bytes ==
       RowsWritten(db.store.env, Enlarged(db.store.env, bytes, |db.store.slabs| - n0), was.next, fulls[..i])
  }

  lemma NoneYet(db: SnapDB, rows: seq<Row>)
    requires db.Valid()
    ensures Partway(db, rows, 0, Here(db), db.store.mm.bytes, |db.store.slabs|)
  {
    hide SnapDB.Valid, Shaped, PutAll, HighWater, LeastSlabs, Fitting, RowsWritten, Enlarged;
    ghost var fulls := Restricted(db.schema, rows);
    NoneOf(fulls, db.store.model, HighWater(db.store.env, db.store.states));
    SlabsNow(db);
    NoBytes(db, fulls, Here(db).next);
    AllInserted(db);
    FitsHere(db, fulls);
  }

  lemma PartwayIs(db: SnapDB, rows: seq<Row>, i: nat, was: R.Image, bytes: seq<byte>, n0: nat)
    requires Partway(db, rows, i, was, bytes, n0)
    ensures var fulls := Restricted(db.schema, rows);
      && i <= |rows| && (forall k :: 0 <= k < i ==> Shaped(db.schema, rows[k]))
      && (forall j :: j in was.rows ==> j < was.next)
      && db.store.model == PutAll(was.rows, was.next, fulls[..i])
      && HighWater(db.store.env, db.store.states) == was.next + i
      && LeastSlabs(db.store.env, n0, |db.store.slabs|, was.next + i) && Fitting(db.store.env, bytes, n0, fulls, i)
      && db.store.env.rps > 0 && n0 <= |db.store.slabs| && db.store.mm.bytes ==
         RowsWritten(db.store.env, Enlarged(db.store.env, bytes, |db.store.slabs| - n0), was.next, fulls[..i])
  {
    hide Shaped, PutAll, HighWater, RowsWritten, Enlarged, LawfulCodec;
  }

  lemma PartwayWhole(db: SnapDB, rows: seq<Row>, i: nat, was: R.Image, bytes: seq<byte>, n0: nat)
    requires var fulls := Restricted(db.schema, rows);
      && i <= |rows| && (forall k :: 0 <= k < i ==> Shaped(db.schema, rows[k]))
      && (forall j :: j in was.rows ==> j < was.next)
      && db.store.model == PutAll(was.rows, was.next, fulls[..i])
      && HighWater(db.store.env, db.store.states) == was.next + i
      && LeastSlabs(db.store.env, n0, |db.store.slabs|, was.next + i) && Fitting(db.store.env, bytes, n0, fulls, i)
      && db.store.mm.bytes ==
         RowsWritten(db.store.env, Enlarged(db.store.env, bytes, |db.store.slabs| - n0), was.next, fulls[..i])
    ensures Partway(db, rows, i, was, bytes, n0)
  {
    hide Shaped, PutAll, HighWater, RowsWritten, Enlarged, LawfulCodec;
  }

  /** One more of the rows; refused only if the batch would be. */
  method InsertNext(db: SnapDB, rows: seq<Row>, i: nat, ghost was: R.Image, ghost bytes: seq<byte>, ghost n0: nat)
    returns (ok: bool)
    requires db.Valid() && i < |rows| && Storable(db.schema, rows[i]) && Partway(db, rows, i, was, bytes, n0)
    modifies db`txState, db`txOps, db.store, db.store.mm, db.store.slabs, db.unique
    modifies db.hash.indexes.Values, db.ranges.Values, db.wal`file, db.wal`buffer, db.wal`log
    ensures db.Valid() && db.hash == old(db.hash)
    ensures db.store.mm == old(db.store.mm) || fresh(db.store.mm)
    ensures forall s :: s in db.store.slabs ==> s in old(db.store.slabs) || fresh(s)
    ensures ok ==> Partway(db, rows, i + 1, was, bytes, n0)
    ensures !ok ==> !Accepted(db.schema, was, DoBatch(rows))
  {
    hide *;
    ghost var (fulls, n) := (Restricted(db.schema, rows), |db.store.slabs|);
    PartwayIs(db, rows, i, was, bytes, n0);
    RowByRow(db, rows, i, was);
    var r := db.Insert(rows[i]);
    ok := r.Done?;
    if ok {
      OneMoreFits(db, bytes, n0, rows, fulls, i);
      OneMoreRow(db.store.env, bytes, n0, n, |db.store.slabs|, was.next, fulls, i);
      PartwayWhole(db, rows, i + 1, was, bytes, n0);
    }
  }

  lemma AllThere(db: SnapDB, rows: seq<Row>, was: R.Image, bytes: seq<byte>, n0: nat)
    requires db.Valid() && Partway(db, rows, |rows|, was, bytes, n0)
    ensures Accepted(db.schema, was, DoBatch(rows)) && Here(db) == Meaning(db.schema, was, DoBatch(rows))
    ensures LeastSlabs(db.store.env, n0, |db.store.slabs|, Here(db).next)
    ensures db.store.env.rps > 0 && n0 <= |db.store.slabs|
    ensures db.store.mm.bytes ==
      RowsWritten(db.store.env, Enlarged(db.store.env, bytes, |db.store.slabs| - n0), was.next,
        Restricted(db.schema, rows))
  {
    hide *;
    var fulls := Restricted(db.schema, rows);
    assert fulls[..|rows|] == fulls;
    PartwayIs(db, rows, |rows|, was, bytes, n0);
    BatchAccepted(db.schema, was, rows);
    AllInserted(db);
    HereIs(db);
  }

  lemma BatchAccepted(schema: Schema, s: R.Image, rows: seq<Row>)
    ensures Accepted(schema, s, DoBatch(rows)) <==>
      && (forall i :: 0 <= i < |rows| ==> Shaped(schema, rows[i]))
      && Distinct(PutAll(s.rows, s.next, Restricted(schema, rows)), UniqueColumns(schema))
    ensures Accepted(schema, s, DoBatch(rows)) ==>
      Meaning(schema, s, DoBatch(rows)) == R.Image(PutAll(s.rows, s.next, Restricted(schema, rows)), s.next + |rows|)
  {
  }

  // an accepted batch has no row that would be refused in its turn
  lemma RowByRow(db: SnapDB, rows: seq<Row>, i: nat, was: R.Image)
    requires db.Valid() && i < |rows| && forall j :: j in was.rows ==> j < was.next
    requires db.store.model == PutAll(was.rows, was.next, Restricted(db.schema, rows)[..i])
    ensures var fulls := Restricted(db.schema, rows);
      && fulls[i] == Restrict(db.schema, rows[i])
      && PutAll(was.rows, was.next, fulls[..i + 1]) == db.store.model[was.next + i := fulls[i]]
    ensures Accepted(db.schema, was, DoBatch(rows)) ==>
      Shaped(db.schema, rows[i]) &&
      Unclashed(db.store.model, UniqueColumns(db.schema), was.next + i, Restrict(db.schema, rows[i]))
  {
    hide SnapDB.Valid, Shaped, Unclashed, Distinct, Restrict, PutAll;
    var fulls := Restricted(db.schema, rows);
    assert fulls[..i + 1] == fulls[..i] + [fulls[i]];
    PutAllPush(was.rows, was.next, fulls[..i], fulls[i]);
    AllInserted(db);
    if Accepted(db.schema, was, DoBatch(rows)) {
      db.unique.BatchStep(was.rows, was.next, fulls, i);
    }
  }

  lemma AllInserted(db: SnapDB)
    requires db.Valid()
    ensures Distinct(db.store.model, UniqueColumns(db.schema)) && db.unique.cols == UniqueColumns(db.schema)
    ensures forall j :: j in db.store.model ==> j < HighWater(db.store.env, db.store.states)
  {
    hide SnapDB.StoreOk, SnapDB.Derived, SnapDB.TxOk, UniqueMap.Agrees, MultiIndex.Agrees, RangesAgree, Distinct;
    hide HighWater;
    db.Parts();
    db.DerivedParts(db.store.model);
    db.NextIsFree();
  }

  lemma NoBytes(db: SnapDB, rows: seq<Row>, g: nat)
    requires db.Valid()
    ensures db.store.env.rps > 0 && db.store.mm.bytes ==
      RowsWritten(db.store.env, Enlarged(db.store.env, db.store.mm.bytes, 0), g, rows[..0])
  {
    hide SnapDB.Derived, SnapDB.TxOk;
    db.Parts();
    NotEnlarged(db.store.env, db.store.mm.bytes);
    assert rows[..0] == [];
  }

  /** The bytes found and the rows so far are as the file layout asks. */
  ghost predicate Fitting(env: Env, bytes: seq<byte>, n0: nat, rows: seq<Row>, i: nat) {
    && env.Wf() && env.Lawful() && |bytes| == env.UnitStart(n0)
    && i <= |rows| && forall k :: 0 <= k < i ==> env.codec.canon(rows[k])
  }

  lemma FitsHere(db: SnapDB, rows: seq<Row>)
    requires db.Valid()
    ensures Fitting(db.store.env, db.store.mm.bytes, |db.store.slabs|, rows, 0)
  {
    hide SnapDB.Derived, SnapDB.TxOk;
    db.Parts();
    db.StoreParts();
    db.store.Parts();
  }

  lemma OneMoreFits(db: SnapDB, bytes: seq<byte>, n0: nat, rows: seq<Row>, fulls: seq<Row>, i: nat)
    requires db.Valid() && i < |rows| && fulls == Restricted(db.schema, rows)
    requires Fitting(db.store.env, bytes, n0, fulls, i) && Shaped(db.schema, rows[i]) && Storable(db.schema, rows[i])
    ensures Fitting(db.store.env, bytes, n0, fulls, i + 1)
  {
    hide SnapDB.Derived, SnapDB.TxOk, RowCanonical, Shaped, Storable, Restrict, Store.Valid, LawfulCodec;
    db.Parts();
    db.StoreParts();
    ShapedIsCanonical(db.schema, rows[i]);
  }

  // one row more, the file grown in between, is the same as all growth first and then all rows
  lemma OneMoreRow(env: Env, bytes: seq<byte>, n0: nat, n: nat, m: nat, g: nat, rows: seq<Row>, i: nat)
    requires i < |rows| && Fitting(env, bytes, n0, rows, i)
    requires LeastSlabs(env, n0, n, g + i) && LeastSlabs(env, n, m, g + i + 1)
    ensures n0 <= n <= m && LeastSlabs(env, n0, m, g + i + 1)
    ensures Written(env, Enlarged(env, RowsWritten(env, Enlarged(env, bytes, n - n0), g, rows[..i]), m - n), g + i,
        rows[i])
         == RowsWritten(env, Enlarged(env, bytes, m - n0), g, rows[..i + 1])
  {
    hide LawfulCodec, Written, Enlarged, RowsWritten;
    LeastSlabsTwice(env, n0, n, m, g + i, g + i + 1);
    UnitsAppended(env, n0, n - n0);
    assert |Enlarged(env, bytes, n - n0)| == env.UnitStart(n);
    RowsThenGrow(env, Enlarged(env, bytes, n - n0), n, g, rows[..i], m - n);
    EnlargedTwice(env, bytes, n - n0, m - n);
    assert rows[..i + 1] == rows[..i] + [rows[i]];
    RowsWrittenPush(env, Enlarged(env, bytes, m - n0), g, rows[..i], rows[i]);
  }

  lemma NoneOf(rows: seq<Row>, m: map<nat, Row>, g: nat)
    ensures PutAll(m, g, rows[..0]) == m
  {
    assert rows[..0] == [];
  }

  lemma SlabsNow(db: SnapDB)
    requires db.Valid()
    ensures LeastSlabs(db.store.env, |db.store.slabs|, |db.store.slabs|, HighWater(db.store.env, db.store.states))
  {
    hide SnapDB.Derived, SnapDB.TxOk;
    db.Parts();
    db.StoreParts();
    db.store.Parts();
    HighWaterFits(db.store.env, db.store.states);
  }

  // Two databases over the same file layout with the same rows, next number and least number of slabs,
  // which appended the same rows to the same file, hold the same bytes and agree slab by slab, in counts
  // and live flags, and in every index they share. A batch, and the same rows inserted one by one, reach
  // just that.
  lemma SameReached(a: SnapDB, b: SnapDB, n0: nat, bytes: seq<byte>, g: nat, rows: seq<Row>)
    requires a.Valid() && b.Valid() && a.schema == b.schema && a.store.env == b.store.env
    requires a.store.model == b.store.model
    requires HighWater(a.store.env, a.store.states) == HighWater(b.store.env, b.store.states)
    requires LeastSlabs(a.store.env, n0, |a.store.slabs|, HighWater(a.store.env, a.store.states))
    requires LeastSlabs(b.store.env, n0, |b.store.slabs|, HighWater(b.store.env, b.store.states))
    requires a.store.env.rps > 0 && a.store.mm.bytes ==
      RowsWritten(a.store.env, Enlarged(a.store.env, bytes, |a.store.slabs| - n0), g, rows)
    requires b.store.mm.bytes == RowsWritten(b.store.env, Enlarged(b.store.env, bytes, |b.store.slabs| - n0), g, rows)
    ensures a.store.mm.bytes == b.store.mm.bytes
    ensures |a.store.states| == |b.store.states|
    ensures forall k :: 0 <= k < |a.store.states| ==>
      a.store.states[k].count == b.store.states[k].count && a.store.states[k].live == b.store.states[k].live
    ensures a.unique.owners == b.unique.owners
    ensures a.hash.indexes.Keys == b.hash.indexes.Keys && a.ranges.Keys == b.ranges.Keys ==> Current(a) == Current(b)
  {
    hide *;
    CurrentIsDerivation(a);
    CurrentIsDerivation(b);
    StoreIs(a);
    StoreIs(b);
    LeastSlabsUnique(a.store.env, n0, |a.store.slabs|, |b.store.slabs|, HighWater(a.store.env, a.store.states));
    SameRowsSameSlabs(a.store.env, a.store.mm.bytes, b.store.mm.bytes, a.store.states, b.store.states, a.store.model);
    SameOwners(a, b);
    if a.hash.indexes.Keys == b.hash.indexes.Keys && a.ranges.Keys == b.ranges.Keys {
      DerivationUnique(Current(a), Current(b), UniqueColumns(a.schema), a.store.model);
    }
  }

  lemma SameOwners(a: SnapDB, b: SnapDB)
    requires IsDerivationOf(Current(a), UniqueColumns(a.schema), a.store.model)
    requires IsDerivationOf(Current(b), UniqueColumns(b.schema), b.store.model)
    requires a.schema == b.schema && a.store.model == b.store.model
    ensures a.unique.owners == b.unique.owners
  {
    hide IsOwnersOf, IsIndexOf, IsItemsOf;
    OwnersUnique(a.unique.owners, b.unique.owners, UniqueColumns(a.schema), a.store.model);
  }

  lemma StoreIs(db: SnapDB)
    requires db.Valid()
    ensures Consistent(db.store.env, db.store.mm.bytes, db.store.states, db.store.model) && db.store.env.rps > 0
    ensures FilledUpTo(db.store.env, db.store.states, |db.store.states| - 1) && |db.store.states| == |db.store.slabs|
  {
    hide SnapDB.Derived, SnapDB.TxOk;
    db.Parts();
    db.StoreParts();
    db.store.Parts();
  }
}
