/** Creating, opening, recovering, checkpointing and compacting a database. */
module Lifecycle {
  import opened Bits
  import opened Values
  import opened Codec
  import opened Layout
  import opened Images
  import opened Indexes
  import opened Slabs
  import opened Persist
  import opened Stores
  import opened UniqueKeys
  import opened SnapDBs
  import opened Lookups
  import O = OldLogs
  import W = Wals
  import R = Recovery

  // ---- the unique map of an opened database ----------------------------------------

  /** _rebuild_unique_constraints: the scan registers every row, or stops at the first clash. */
  method RebuildUnique(db: SnapDB) returns (clash: Option<Col>)
    requires db.StoreOk() && db.unique.cols == UniqueColumns(db.schema)
    modifies db.unique
    ensures clash.None? <==> Distinct(db.store.model, UniqueColumns(db.schema))
    ensures clash.None? ==> db.unique.Agrees(db.store.model)
  {
    hide *;
    ColumnsApart(db);
    db.unique.Reset();
    var rows := AllRows(db);
    assert rows[..0] == [];
    NothingListed();
    for k := 0 to |rows|
      invariant db.unique.Agrees(Listed(rows[..k]))
    {
      ListedStep(rows, k, db.store.model, db.unique.cols);
      clash := db.unique.Validate(rows[k].1, Some(rows[k].0), Listed(rows[..k]), rows[k].0);
      if clash.Some? {
        return;
      }
      db.unique.Insert(rows[k].0, rows[k].1, Listed(rows[..k]));
    }
    clash := None;
    assert rows[..|rows|] == rows;
    ListingIs(rows, db.store.model);
    OwnersAreDistinctOf(db.unique, db.store.model);
  }

  lemma ColumnsApart(db: SnapDB)
    requires db.StoreOk()
    ensures NoRepeats(UniqueColumns(db.schema))
  {
    db.StoreParts();
    UniqueColumnsApart(db.schema);
  }

  lemma NothingListed()
    ensures Listed([]) == map[]
  {
  }

  lemma ListingIs(rows: seq<(nat, Row)>, m: map<nat, Row>)
    requires IsListing(rows, m)
    ensures Listed(rows) == m
  {
  }

  lemma OwnersAreDistinctOf(unique: UniqueMap, m: map<nat, Row>)
    requires unique.Agrees(m)
    ensures Distinct(m, unique.cols)
  {
    OwnersAreDistinct(unique.owners, unique.cols, m);
  }

  lemma ListedStep(rows: seq<(nat, Row)>, k: nat, m: map<nat, Row>, cols: seq<Col>)
    requires k < |rows| && IsListing(rows, m)
    ensures Listed(rows[..k + 1]) == Listed(rows[..k])[rows[k].0 := rows[k].1]
    ensures Listed(rows[..k]) - {rows[k].0} == Listed(rows[..k])
    ensures Distinct(m, cols) ==> Unclashed(Listed(rows[..k]), cols, rows[k].0, rows[k].1)
  {
    ListedPush(rows, k);
    ListedHas(rows[..k]);
    assert rows[k] in rows;
    if Distinct(m, cols) {
      var part := Listed(rows[..k]);
      forall j | j in part
        ensures j in m && m[j] == part[j]
      {
        assert (j, part[j]) in rows[..k];
        assert (j, part[j]) in rows;
      }
      assert Unclashed(m, cols, rows[k].0, m[rows[k].0]);
      UnclashedBefore(part, m, cols, rows[k].0, rows[k].1);
    }
  }

  // ---- replay ---------------------------------------------------------------------------

  /** The database in the middle of recovery: its unique map knows only the rows replay touched. */
  ghost predicate Recovering(db: SnapDB, s: R.Replayed)
    reads db, db.store, db.store.mm, db.store.slabs, db.unique, db.hash
  {
    var ok :=
      && db.StoreOk() && s.Reached? && s.rows == db.store.model
      && s.next == HighWater(db.store.env, db.store.states)
      && db.unique.cols == UniqueColumns(db.schema) && db.unique.Agrees(s.known) && KnownIn(s.known, s.rows)
      && db.hash.indexes == map[] && db.ranges == map[];
    ok
  }

  ghost predicate KnownIn(known: map<nat, Row>, rows: map<nat, Row>) {
    forall i :: i in known ==> i in rows && known[i] == rows[i]
  }

  lemma RecoveringParts(db: SnapDB, s: R.Replayed)
    requires Recovering(db, s)
    ensures db.StoreOk() && s.Reached? && s.rows == db.store.model && s.next == HighWater(db.store.env, db.store.states)
    ensures db.unique.cols == UniqueColumns(db.schema) && db.unique.Agrees(s.known)
    ensures forall i :: i in s.known ==> i in s.rows && s.known[i] == s.rows[i]
    ensures s.next !in s.rows && s.next !in s.known
    ensures db.hash.indexes == map[] && db.ranges == map[]
  {
    db.NextIsFree();
  }

  lemma RecoveringWhole(db: SnapDB, s: R.Replayed)
    requires db.StoreOk() && s.Reached? && s.rows == db.store.model
    requires s.next == HighWater(db.store.env, db.store.states)
    requires db.unique.cols == UniqueColumns(db.schema) && db.unique.Agrees(s.known)
    requires forall i :: i in s.known ==> i in s.rows && s.known[i] == s.rows[i]
    requires db.hash.indexes == map[] && db.ranges == map[]
    ensures Recovering(db, s)
  {
  }

  predicate LoggedRow(schema: Schema, rec: W.Rec) { rec.Insert? || rec.Update? ==> RowCanonical(schema, rec.row) }

  /** One record is replayed; false when a unique constraint stops it. */
  method RedoRecord(db: SnapDB, rec: W.Rec, ghost s: R.Replayed) returns (ok: bool)
    requires Recovering(db, s) && rec.IsOp() && LoggedRow(db.schema, rec)
    modifies db.store, db.store.mm, db.store.slabs, db.unique
    ensures db.store.mm == old(db.store.mm) || fresh(db.store.mm)
    ensures forall s :: s in db.store.slabs ==> s in old(db.store.slabs) || fresh(s)
    ensures ok ==> Recovering(db, R.Redo(UniqueColumns(db.schema), s, rec))
    ensures !ok ==> R.Redo(UniqueColumns(db.schema), s, rec).Stuck?
    ensures old(db.Zoned()) ==> db.Zoned()
  {
    hide Recovering, SnapDB.Zoned, SnapDB.StoreOk, Store.Valid, RowCanonical, Unclashed, HighWater, UniqueMap.Agrees;
    hide R.Redo;
    RecoveringParts(db, s);
    db.StoreParts();
    var here := db.store.GetRow(rec.idx);
    match rec {
      case Insert(i, row) =>
        ok := true;
        if here.None? {
          ok := RedoInsert(db, i, row, s);
        } else {
          SkippedIs(UniqueColumns(db.schema), s, rec);
        }
      case Update(i, row) =>
        ok := true;
        if here.Some? {
          ok := RedoUpdate(db, i, here.value, row, s);
        } else {
          SkippedIs(UniqueColumns(db.schema), s, rec);
        }
      case Delete(i) =>
        ok := true;
        if here.Some? {
          RedoDelete(db, i, here.value, s);
        } else {
          SkippedIs(UniqueColumns(db.schema), s, rec);
        }
    }
  }

  lemma SkippedIs(cols: seq<Col>, s: R.Replayed, rec: W.Rec)
    requires s.Reached? && KnownIn(s.known, s.rows) && rec.IsOp() && (rec.Insert? <==> rec.idx in s.rows)
    ensures R.Redo(cols, s, rec) == s
  {
    if rec.Delete? {
      assert s.rows - {rec.idx} == s.rows && s.known - {rec.idx} == s.known;
    }
  }

  method RedoInsert(db: SnapDB, i: nat, row: Row, ghost s: R.Replayed) returns (ok: bool)
    requires Recovering(db, s) && RowCanonical(db.schema, row) && s.Reached? && i !in s.rows
    modifies db.store, db.store.mm, db.store.slabs, db.unique
    ensures db.store.mm == old(db.store.mm) || fresh(db.store.mm)
    ensures forall s :: s in db.store.slabs ==> s in old(db.store.slabs) || fresh(s)
    ensures ok ==> Recovering(db, R.Redo(UniqueColumns(db.schema), s, W.Insert(i, row)))
    ensures !ok ==> R.Redo(UniqueColumns(db.schema), s, W.Insert(i, row)).Stuck?
    ensures old(db.Zoned()) ==> db.Zoned()
  {
    hide *;
    RecoveringParts(db, s);
    db.StoreParts();
    InsertRedone(UniqueColumns(db.schema), s, i, row);
    var clash := db.unique.Validate(row, None, s.known, s.next);
    ok := clash.None?;
    if ok {
      db.ZonedIs();
      var idx := db.store.Insert(row);
      db.ZonedIs();
      db.StoreWhole();
      db.unique.Insert(idx, row, s.known);
      RecoveringWhole(db, R.Reached(s.rows[s.next := row], s.next + 1, s.known[s.next := row]));
    }
  }

  lemma InsertRedone(cols: seq<Col>, s: R.Replayed, i: nat, row: Row)
    requires s.Reached? && i !in s.rows && s.next !in s.known
    ensures R.Redo(cols, s, W.Insert(i, row)) == if Unclashed(s.known, cols, s.next, row)
      then R.Reached(s.rows[s.next := row], s.next + 1, s.known[s.next := row]) else R.Stuck
    ensures s.known - {s.next} == s.known
  {
  }

  method RedoUpdate(db: SnapDB, i: nat, oldRow: Row, row: Row, ghost s: R.Replayed) returns (ok: bool)
    requires Recovering(db, s) && RowCanonical(db.schema, row) && s.Reached? && i in s.rows && s.rows[i] == oldRow
    modifies db.store, db.store.mm, db.store.slabs, db.unique
    ensures db.store.mm == old(db.store.mm) && db.store.slabs == old(db.store.slabs)
    ensures ok ==> Recovering(db, R.Redo(UniqueColumns(db.schema), s, W.Update(i, row)))
    ensures !ok ==> R.Redo(UniqueColumns(db.schema), s, W.Update(i, row)).Stuck?
    ensures old(db.Zoned()) ==> db.Zoned()
  {
    hide *;
    RecoveringParts(db, s);
    db.StoreParts();
    UpdateRedone(UniqueColumns(db.schema), s, i, row);
    var clash := db.unique.Update(i, oldRow, row, s.known);
    ok := clash.None?;
    if ok {
      db.ZonedIs();
      db.store.Update(i, row);
      db.ZonedIs();
      db.StoreWhole();
      RecoveringWhole(db, R.Reached(s.rows[i := row], s.next, s.known[i := row]));
    }
  }

  lemma UpdateRedone(cols: seq<Col>, s: R.Replayed, i: nat, row: Row)
    requires s.Reached? && i in s.rows
    ensures R.Redo(cols, s, W.Update(i, row)) == if Unclashed(s.known, cols, i, row)
      then R.Reached(s.rows[i := row], s.next, s.known[i := row]) else R.Stuck
  {
  }

  method RedoDelete(db: SnapDB, i: nat, oldRow: Row, ghost s: R.Replayed)
    requires Recovering(db, s) && s.Reached? && i in s.rows && s.rows[i] == oldRow
    modifies db.store, db.store.mm, db.store.slabs, db.unique
    ensures db.store.mm == old(db.store.mm) && db.store.slabs == old(db.store.slabs)
    ensures Recovering(db, R.Redo(UniqueColumns(db.schema), s, W.Delete(i)))
    ensures old(db.Zoned()) ==> db.Zoned()
  {
    hide *;
    RecoveringParts(db, s);
    db.StoreParts();
    DeleteRedone(UniqueColumns(db.schema), s, i);
    db.ZonedIs();
    db.store.Delete(i);
    db.ZonedIs();
    db.StoreWhole();
    db.unique.Delete(i, oldRow, s.known);
    RecoveringWhole(db, R.Reached(s.rows - {i}, s.next, s.known - {i}));
  }

  lemma DeleteRedone(cols: seq<Col>, s: R.Replayed, i: nat)
    requires s.Reached?
    ensures R.Redo(cols, s, W.Delete(i)) == R.Reached(s.rows - {i}, s.next, s.known - {i})
  {
  }

  lemma {:induction false} NetIsPart(recs: W.Log)
    ensures forall rec :: rec in W.Net(recs) ==> rec in recs
  {
    if recs != [] {
      var front, rec := recs[..|recs| - 1], recs[|recs| - 1];
      NetIsPart(front);
      if rec.Delete? {
        WithoutIsPart(W.Net(front), rec.idx);
      }
      assert forall x :: x in front ==> x in recs;
    }
  }

  lemma {:induction false} WithoutIsPart(recs: W.Log, idx: nat)
    ensures forall rec :: rec in W.Without(recs, idx) ==> rec in recs
  {
    if recs != [] {
      WithoutIsPart(recs[..|recs| - 1], idx);
      assert forall x :: x in recs[..|recs| - 1] ==> x in recs;
    }
  }

  lemma {:induction false} CommittedIsPart(log: W.Log, p: W.Parse)
    ensures forall rec :: rec in W.ParseLog(log, p).committed ==>
      rec in p.committed || rec in p.pending || (rec in log && rec.IsOp())
  {
    if log != [] {
      CommittedIsPart(log[1..], W.ParseStep(p, log[0]));
      assert forall x :: x in log[1..] ==> x in log;
    }
  }

  lemma ReplayedRecords(lines: seq<W.Line>)
    ensures forall rec :: rec in W.Net(W.CommittedIn(lines)) ==> rec.IsOp() && rec in W.WholePrefix(lines)
  {
    NetIsPart(W.CommittedIn(lines));
    CommittedIsPart(W.WholePrefix(lines), W.Parse([], []));
  }

  /** _recover_wal: parse, net, replay, then write everything down and clear the log. With nothing
      committed the log stays as it is, a torn end included. */
  method Recover(db: SnapDB) returns (ok: bool)
    requires Recovering(db, R.Reached(db.store.model, HighWater(db.store.env, db.store.states), map[]))
    requires HeaderFitsEnv(db.store.env) && db.wal.Valid() && !db.wal.inTx
    requires forall rec :: rec in W.WholePrefix(db.wal.file.lines) ==> LoggedRow(db.schema, rec)
    modifies db.store, db.store.mm, db.store.slabs, db.unique, db.wal
    ensures db.store.mm == old(db.store.mm) || fresh(db.store.mm)
    ensures forall s :: s in db.store.slabs ==> s in old(db.store.slabs) || fresh(s)
    ensures
      var start := R.Reached(old(db.store.model), old(HighWater(db.store.env, db.store.states)), map[]);
      var s := R.RedoAll(UniqueColumns(db.schema), start, W.Net(W.CommittedIn(old(db.wal.file.lines))));
      if ok then Recovering(db, s) else s.Stuck?
    ensures db.wal.Valid() && !db.wal.inTx
    ensures ok && W.CommittedIn(old(db.wal.file.lines)) != [] ==>
      Emptied(db.wal) && OnDisk(db.store.env, db.store.mm.bytes, db.store.states)
    ensures ok && W.CommittedIn(old(db.wal.file.lines)) == [] ==> unchanged(db.wal) && unchanged(db.store)
    ensures old(db.Zoned()) ==> db.Zoned()
  {
    hide *;
    ghost var lines := db.wal.file.lines;
    var log := W.Replay(db.wal.file.lines);
    var committed := W.CollectCommitted(log);
    CommittedIs(lines);
    if committed == [] {
      NothingToRedo(UniqueColumns(db.schema),
          R.Reached(db.store.model, HighWater(db.store.env, db.store.states), map[]));
      return true;
    }
    var netted := W.NetRecords(committed);
    ok := RedoNetted(db, netted, lines);
    if ok {
      ghost var start := R.Reached(old(db.store.model), old(HighWater(db.store.env, db.store.states)), map[]);
      ghost var s := R.RedoAll(UniqueColumns(db.schema), start, netted);
      RecoveringParts(db, s);
      db.StoreParts();
      db.ZonedIs();
      db.store.Flush();
      db.ZonedIs();
      db.StoreWhole();
      RecoveringWhole(db, s);
      db.wal.Clear();
      EmptiedIs(db.wal);
    }
  }

  /** Nothing is in the log, on disk or buffered. */
  ghost predicate Emptied(wal: W.Wal)
    reads wal
  {
    wal.Records() == [] && wal.buffer == [] && wal.file == wal.found == W.NO_LOG
  }

  lemma EmptiedIs(wal: W.Wal)
    ensures Emptied(wal) <==> wal.Records() == [] && wal.buffer == [] && wal.file == wal.found == W.NO_LOG
  {
  }

  lemma CommittedIs(lines: seq<W.Line>)
    ensures W.CommittedIn(lines) == W.ParseLog(W.WholePrefix(lines), W.Parse([], [])).committed
  {
  }

  lemma NothingToRedo(cols: seq<Col>, s: R.Replayed)
    ensures W.Net([]) == [] && R.RedoAll(cols, s, []) == s
  {
  }

  method RedoNetted(db: SnapDB, netted: W.Log, ghost lines: seq<W.Line>) returns (ok: bool)
    requires Recovering(db, R.Reached(db.store.model, HighWater(db.store.env, db.store.states), map[]))
    requires netted == W.Net(W.CommittedIn(lines))
    requires forall rec :: rec in W.WholePrefix(lines) ==> LoggedRow(db.schema, rec)
    modifies db.store, db.store.mm, db.store.slabs, db.unique
    ensures db.store.mm == old(db.store.mm) || fresh(db.store.mm)
    ensures forall s :: s in db.store.slabs ==> s in old(db.store.slabs) || fresh(s)
    ensures var s := R.RedoAll(UniqueColumns(db.schema),
        R.Reached(old(db.store.model), old(HighWater(db.store.env, db.store.states)), map[]), netted);
      if ok then Recovering(db, s) else s.Stuck?
    ensures old(db.Zoned()) ==> db.Zoned()
  {
    hide *;
    ghost var start := R.Reached(db.store.model, HighWater(db.store.env, db.store.states), map[]);
    ReplayedRecords(lines);
    NothingToRedo(UniqueColumns(db.schema), start);
    assert netted[..0] == [];
    for k := 0 to |netted|
      invariant Recovering(db, R.RedoAll(UniqueColumns(db.schema), start, netted[..k]))
      invariant db.store.mm == old(db.store.mm) || fresh(db.store.mm)
      invariant forall s :: s in db.store.slabs ==> s in old(db.store.slabs) || fresh(s)
      invariant old(db.Zoned()) ==> db.Zoned()
    {
      ghost var s := R.RedoAll(UniqueColumns(db.schema), start, netted[..k]);
      assert netted[k] in netted && netted[..k + 1] == netted[..k] + [netted[k]];
      assert forall i :: 0 <= i < |db.store.slabs| ==> db.store.slabs[i] in db.store.slabs;
      R.RedoPush(UniqueColumns(db.schema), start, netted[..k], netted[k]);
      ok := RedoRecord(db, netted[k], s);
      if !ok {
        StaysStuck(UniqueColumns(db.schema), start, netted, k + 1);
        return;
      }
    }
    assert netted[..|netted|] == netted;
    ok := true;
  }

  lemma {:induction false} StaysStuck(cols: seq<Col>, s: R.Replayed, recs: W.Log, k: nat)
    requires k <= |recs| && R.RedoAll(cols, s, recs[..k]).Stuck?
    ensures R.RedoAll(cols, s, recs).Stuck?
    decreases |recs|
  {
    if k == |recs| {
      assert recs[..k] == recs;
    } else {
      var front := recs[..|recs| - 1];
      assert front[..k] == recs[..k];
      StaysStuck(cols, s, front, k);
    }
  }

  // ---- opening ----------------------------------------------------------------------------

  datatype Opened = Ok(db: SnapDB) | ClashInLog | ClashInRows(c: Col)

  /** A database over a store, before anything is known about uniqueness. */
  lemma StartsRecovering(db: SnapDB, cipher: Cipher)
    requires db.store.Valid() && db.store.env.rps > 0 && WfSchema(db.schema)
    requires db.store.env == EnvOf(db.schema, cipher, db.store.env.schemaOffset, db.store.env.pageSize)
    requires db.unique.cols == UniqueColumns(db.schema) && db.unique.Agrees(map[])
    requires db.hash.indexes == map[] && db.ranges == map[]
    ensures Recovering(db, R.Reached(db.store.model, HighWater(db.store.env, db.store.states), map[]))
  {
    hide Store.Valid, UniqueMap.Agrees, HighWater;
    db.StoreWhole();
  }

  // with its unique map rebuilt and nothing indexed, the database is ready
  lemma NowReady(db: SnapDB)
    requires db.StoreOk() && db.unique.cols == UniqueColumns(db.schema) && db.unique.Agrees(db.store.model)
    requires db.hash.indexes == map[] && db.ranges == map[] && !db.inTx && db.wal.Valid() && db.wal.buffer == []
    requires !db.wal.inTx
    ensures db.Valid()
  {
    hide *;
    NowDerived(db);
    db.TxIdle();
    db.Whole();
  }

  /** What replay of the committed operations of a log makes of the rows found. */
  ghost function Replayed(schema: Schema, rows: map<nat, Row>, next: nat, file: W.LogFile): R.Replayed {
    R.RedoAll(UniqueColumns(schema), R.Reached(rows, next, map[]), W.Net(W.CommittedIn(file.lines)))
  }

  /** Opening succeeds exactly when neither replay nor the rows it leads to violate a unique column. */
  ghost predicate OpensAs(r: Opened, schema: Schema, s: R.Replayed) {
    && (r.ClashInLog? <==> s.Stuck?)
    && (r.Ok? <==> s.Reached? && Distinct(s.rows, UniqueColumns(schema)))
  }

  /** The log a database opened over `file` starts with: cleared if anything was committed, else as found. */
  function LogAfterOpen(file: W.LogFile): W.LogFile { if W.CommittedIn(file.lines) == [] then file else W.NO_LOG }

  /** Loads the file image, replays what the log committed, and rebuilds the unique map. */
  method Open(schema: Schema, cipher: Cipher, env: Env, bytes: seq<byte>, file: W.LogFile, ghost was: States,
              ghost rows: map<nat, Row>) returns (r: Opened)
    requires WfSchema(schema) && env == EnvOf(schema, cipher, env.schemaOffset, env.pageSize) && HeaderFitsEnv(env)
    requires OnDisk(env, bytes, was) && Consistent(env, bytes, was, rows) && FilledUpTo(env, was, |was| - 1)
    requires forall rec :: rec in W.WholePrefix(file.lines) ==> LoggedRow(schema, rec)
    ensures OpensAs(r, schema, Replayed(schema, rows, HighWater(env, was), file))
    ensures r.Ok? ==> fresh(r.db) && r.db.Valid() && r.db.schema == schema && !r.db.inTx && r.db.Zoned()
    ensures r.Ok? ==>
      var s := Replayed(schema, rows, HighWater(env, was), file);
      s.Reached? && r.db.store.model == s.rows && HighWater(r.db.store.env, r.db.store.states) == s.next
    ensures r.Ok? ==> r.db.wal.Records() == [] && r.db.wal.file == r.db.wal.found == LogAfterOpen(file)
    ensures r.Ok? && W.CommittedIn(file.lines) != [] ==> OnDisk(r.db.store.env, r.db.store.mm.bytes, r.db.store.states)
    ensures r.Ok? ==> r.db.store.env == env && r.db.hash.indexes == map[] && r.db.ranges == map[]
    ensures r.Ok? ==> fresh(r.db.store) && fresh(r.db.store.mm) && fresh(r.db.unique) && fresh(r.db.wal)
    ensures r.Ok? ==> forall s :: s in r.db.store.slabs ==> fresh(s)
    ensures r.Ok? && W.CommittedIn(file.lines) == [] ==> r.db.store.states == ReloadedAll(was)
  {
    hide *;
    var db := LoadDb(schema, cipher, env, bytes, file, was, rows);
    assert forall k :: 0 <= k < |db.store.slabs| ==> db.store.slabs[k] in db.store.slabs;
    r := Ready(db);
  }

  /** The last steps of opening: the log is replayed, the unique map rebuilt. */
  method Ready(db: SnapDB) returns (r: Opened)
    requires Recovering(db, R.Reached(db.store.model, HighWater(db.store.env, db.store.states), map[]))
    requires HeaderFitsEnv(db.store.env) && !db.inTx && db.wal.Valid() && !db.wal.inTx && db.wal.Records() == []
    requires db.wal.buffer == [] && db.wal.file == db.wal.found && db.Zoned()
    requires forall rec :: rec in W.WholePrefix(db.wal.file.lines) ==> LoggedRow(db.schema, rec)
    modifies db.store, db.store.mm, db.store.slabs, db.unique, db.wal
    ensures OpensAs(r, db.schema,
                    old(Replayed(db.schema, db.store.model, HighWater(db.store.env, db.store.states), db.wal.file)))
    ensures r.Ok? ==> r.db == db && db.Valid() && !db.inTx && db.Zoned()
    ensures r.Ok? ==>
      var s := old(Replayed(db.schema, db.store.model, HighWater(db.store.env, db.store.states), db.wal.file));
      s.Reached? && db.store.model == s.rows && HighWater(db.store.env, db.store.states) == s.next
    ensures r.Ok? ==> db.wal.Records() == [] && db.wal.file == db.wal.found == LogAfterOpen(old(db.wal.file))
    ensures r.Ok? && W.CommittedIn(old(db.wal.file.lines)) != [] ==>
      OnDisk(db.store.env, db.store.mm.bytes, db.store.states)
    ensures r.Ok? && W.CommittedIn(old(db.wal.file.lines)) == [] ==> db.store.states == old(db.store.states)
    ensures db.store.mm == old(db.store.mm) || fresh(db.store.mm)
    ensures forall s :: s in db.store.slabs ==> s in old(db.store.slabs) || fresh(s)
  {
    hide *;
    ghost var file, s :=
      db.wal.file, Replayed(db.schema, db.store.model, HighWater(db.store.env, db.store.states), db.wal.file);
    ReplayedIs(db.schema, db.store.model, HighWater(db.store.env, db.store.states), db.wal.file);
    var ok := Recover(db);
    LogKept(db.wal, file);
    if !ok {
      r := ClashInLog;
      OpensIs(r, db.schema, s);
      return;
    }
    RecoveringParts(db, s);
    var clash := RebuildUnique(db);
    if clash.Some? {
      r := ClashInRows(clash.value);
      OpensIs(r, db.schema, s);
      return;
    }
    NowReady(db);
    r := Ok(db);
    OpensIs(r, db.schema, s);
  }

  lemma ReplayedIs(schema: Schema, rows: map<nat, Row>, next: nat, file: W.LogFile)
    ensures Replayed(schema, rows, next, file) ==
      R.RedoAll(UniqueColumns(schema), R.Reached(rows, next, map[]), W.Net(W.CommittedIn(file.lines)))
  {
  }

  lemma OpensIs(r: Opened, schema: Schema, s: R.Replayed)
    requires r.ClashInLog? <==> s.Stuck?
    requires r.Ok? <==> s.Reached? && Distinct(s.rows, UniqueColumns(schema))
    ensures OpensAs(r, schema, s)
  {
  }

  lemma LogKept(wal: W.Wal, file: W.LogFile)
    ensures W.CommittedIn(file.lines) != [] && Emptied(wal) ==>
      wal.Records() == [] && wal.buffer == [] && wal.file == wal.found == LogAfterOpen(file)
    ensures W.CommittedIn(file.lines) == [] ==> LogAfterOpen(file) == file
  {
  }

  /** The database over a loaded image, its log as found. */
  method LoadDb(schema: Schema, cipher: Cipher, env: Env, bytes: seq<byte>, file: W.LogFile, ghost was: States,
                ghost rows: map<nat, Row>) returns (db: SnapDB)
    requires WfSchema(schema) && env == EnvOf(schema, cipher, env.schemaOffset, env.pageSize)
    requires OnDisk(env, bytes, was) && Consistent(env, bytes, was, rows) && FilledUpTo(env, was, |was| - 1)
    ensures fresh(db) && fresh(db.store) && fresh(db.store.mm) && (forall s :: s in db.store.slabs ==> fresh(s))
    ensures fresh(db.unique) && fresh(db.wal) && db.schema == schema && db.store.env == env && !db.inTx
    ensures db.wal.Valid() && !db.wal.inTx && db.wal.Records() == [] && db.wal.buffer == []
    ensures db.wal.file == db.wal.found == file
    ensures db.store.model == rows && HighWater(db.store.env, db.store.states) == HighWater(env, was) && db.Zoned()
    ensures db.store.states == ReloadedAll(was) && db.hash.indexes == map[] && db.ranges == map[]
    ensures Recovering(db, R.Reached(db.store.model, HighWater(db.store.env, db.store.states), map[]))
  {
    hide *;
    var mapping := new Mapping(bytes);
    var store := new Store.Over(env, mapping);
    store.LoadFrom(bytes, was, rows);
    var wal := new W.Wal.Open(file);
    db := new SnapDB(schema, store, wal);
    db.ZonedIs();
    StartsRecovering(db, cipher);
  }

  /** Reopening after a crash: the log file is what was left, cut off anywhere, of whole transactions
      since the image of `base` was persisted; the last flush since then wrote the first m of the records
      committed, and any row's bytes in the image found may be newer. */
  method OpenAfterCrash(schema: Schema, cipher: Cipher, env: Env, bytes: seq<byte>, file: W.LogFile, ghost was: States,
                        ghost rows: map<nat, Row>, ghost base: R.Image, ghost m: nat, ghost txs: seq<W.Tx>,
                        ghost cut: nat)
    returns (r: Opened)
    requires WfSchema(schema) && env == EnvOf(schema, cipher, env.schemaOffset, env.pageSize) && HeaderFitsEnv(env)
    requires OnDisk(env, bytes, was) && Consistent(env, bytes, was, rows) && FilledUpTo(env, was, |was| - 1)
    requires cut <= |W.Flatten(txs)| && W.WholePrefix(file.lines) == W.Flatten(txs)[..cut]
    requires forall i :: 0 <= i < |txs| ==> W.WfTx(txs[i])
    requires forall rec :: rec in W.Flatten(txs) ==> LoggedRow(schema, rec)
    requires var recs := W.CommittedOps(W.CutTxs(txs, cut));
      && R.LegalRun(base, recs, UniqueColumns(schema)) && m <= |recs|
      && R.LoadedFrom(R.Image(rows, HighWater(env, was)), R.Run(base, recs[..m]))
    ensures var recs := W.CommittedOps(W.CutTxs(txs, cut));
      var (flushed, final) := (R.Run(base, recs[..m]), W.Apply(base.rows, recs));
      r.Ok? && r.db.store.model == final <==>
        && R.Contiguous(final, flushed.next, HighWater(env, was))
        && R.AsFlushed(R.Image(rows, HighWater(env, was)), flushed, final, R.Updated(recs))
    ensures r.Ok? ==> r.db.Valid() && !r.db.inTx && fresh(r.db)
  {
    hide *;
    CommittedIs(file.lines);
    assert forall rec :: rec in W.WholePrefix(file.lines) ==> rec in W.Flatten(txs);
    ReplayedIs(schema, rows, HighWater(env, was), file);
    R.CrashRecovery(UniqueColumns(schema), base, m, R.Image(rows, HighWater(env, was)), txs, cut);
    FinalIsDistinct(UniqueColumns(schema), base, W.CommittedOps(W.CutTxs(txs, cut)));
    r := Open(schema, cipher, env, bytes, file, was, rows);
    IfOpens(r, schema, Replayed(schema, rows, HighWater(env, was), file));
  }

  lemma IfOpens(r: Opened, schema: Schema, s: R.Replayed)
    requires OpensAs(r, schema, s)
    ensures r.Ok? <==> s.Reached? && Distinct(s.rows, UniqueColumns(schema))
  {
  }

  lemma FinalIsDistinct(cols: seq<Col>, base: R.Image, recs: W.Log)
    requires R.LegalRun(base, recs, cols)
    ensures Distinct(W.Apply(base.rows, recs), cols)
  {
    R.RunIsApply(base, recs);
  }

  // ---- creating -----------------------------------------------------------------------------

  datatype CreateResult = NewDb(result: Opened) | PageTooBig | RowTooWide

  /** Opening where there is no file yet: an empty one is written. A log found beside it is replayed all the same. */
  method CreateDb(schema: Schema, cipher: Cipher, pageSize: nat, schemaJson: seq<byte>, file: W.LogFile)
    returns (r: CreateResult)
    requires WfSchema(schema) && HEADER_SIZE + |schemaJson| < Pow256(8)
    requires forall rec :: rec in W.WholePrefix(file.lines) ==> LoggedRow(schema, rec)
    ensures r.PageTooBig? <==> pageSize > 65535
    ensures r.RowTooWide? <==> pageSize <= 65535 && RowWidth(schema) > pageSize
    ensures r.NewDb? ==> OpensAs(r.result, schema, Replayed(schema, map[], 0, file))
    ensures r.NewDb? && r.result.Ok? ==>
      var (db, s) := (r.result.db, Replayed(schema, map[], 0, file));
      && fresh(db) && db.Valid() && !db.inTx && db.schema == schema && db.Zoned()
      && s.Reached? && db.store.model == s.rows && HighWater(db.store.env, db.store.states) == s.next
      && db.wal.Records() == [] && db.wal.file == db.wal.found == LogAfterOpen(file)
    ensures r.NewDb? && W.CommittedIn(file.lines) == [] ==>
      && r.result.Ok? && r.result.db.store.model == map[] && r.result.db.wal.file == file
      && |r.result.db.store.states| == 1 && HighWater(r.result.db.store.env, r.result.db.store.states) == 0
    ensures r.NewDb? && r.result.Ok? ==>
      var db := r.result.db;
      && db.store.env == EnvOf(schema, cipher, HEADER_SIZE + |schemaJson|, pageSize) && HeaderFitsEnv(db.store.env)
      && db.hash.indexes == map[] && db.ranges == map[]
      && fresh(db.store) && fresh(db.store.mm) && fresh(db.unique) && fresh(db.wal)
      && forall s :: s in db.store.slabs ==> fresh(s)
  {
    hide *;
    if pageSize > 65535 {
      return PageTooBig;
    }
    PageHoldsRows(schema, pageSize);
    if pageSize / RowWidth(schema) < 1 {
      return RowTooWide;
    }
    var env := EnvOf(schema, cipher, HEADER_SIZE + |schemaJson|, pageSize);
    EnvFits(schema, cipher, pageSize, schemaJson);
    var store := Create(env, schemaJson);
    var wal := new W.Wal.Open(file);
    var db := new SnapDB(schema, store, wal);
    db.ZonedIs();
    StartsRecovering(db, cipher);
    assert forall k :: 0 <= k < |db.store.slabs| ==> db.store.slabs[k] in db.store.slabs;
    var result := Ready(db);
    NothingReplayed(schema, file);
    IfOpens(result, schema, Replayed(schema, map[], 0, file));
    r := NewDb(result);
  }

  lemma NothingReplayed(schema: Schema, file: W.LogFile)
    ensures W.CommittedIn(file.lines) == [] ==>
      && Replayed(schema, map[], 0, file) == R.Reached(map[], 0, map[])
      && Distinct(map[], UniqueColumns(schema)) && LogAfterOpen(file) == file
  {
    hide UniqueColumns;
    NothingToRedo(UniqueColumns(schema), R.Reached(map[], 0, map[]));
  }

  lemma PageHoldsRows(schema: Schema, pageSize: nat)
    requires WfSchema(schema)
    ensures RowWidth(schema) > 0 && (pageSize / RowWidth(schema) < 1 <==> RowWidth(schema) > pageSize)
  {
    SlotsPerPage(pageSize, RowWidth(schema));
    if pageSize / RowWidth(schema) >= 1 {
      TimesAtLeast(pageSize / RowWidth(schema), RowWidth(schema));
      OneOrMore(pageSize / RowWidth(schema), RowWidth(schema));
    }
  }

  lemma OneOrMore(n: nat, w: nat)
    requires n >= 1
    ensures Times(n, w) >= w
  {
    TimesEnd(0, n, w);
  }

  lemma EnvFits(schema: Schema, cipher: Cipher, pageSize: nat, schemaJson: seq<byte>)
    requires WfSchema(schema) && HEADER_SIZE + |schemaJson| < Pow256(8) && pageSize <= 65535
    requires RowWidth(schema) <= pageSize
    ensures var env := EnvOf(schema, cipher, HEADER_SIZE + |schemaJson|, pageSize);
      && env.Wf() && env.Lawful() && HeaderFitsEnv(env)
      && env.schemaOffset == HEADER_SIZE + |schemaJson| && env.pageSize == pageSize
  {
    EnvOfIsWf(schema, cipher, HEADER_SIZE + |schemaJson|, pageSize);
    assert Pow256(2) == 256 * Pow256(1) && Pow256(1) == 256 * Pow256(0);
  }

  // ---- checkpoint and compaction ----------------------------------------------------------------

  /** Flushes the image and clears the log. Inside a transaction too, whose writes so far are in the image then,
      and whose records are gone. */
  method Checkpoint(db: SnapDB)
    requires db.Valid() && HeaderFitsEnv(db.store.env)
    modifies db.store.mm, db.wal
    ensures OnDisk(db.store.env, db.store.mm.bytes, db.store.states) && Emptied(db.wal)
    ensures db.StoreOk() && db.Derived(db.store.model) && (!db.inTx ==> db.Valid())
  {
    hide *;
    db.Parts();
    db.StoreParts();
    WalParts(db);
    db.store.Flush();
    db.StoreWhole();
    db.wal.Clear();
    EmptiedIs(db.wal);
    if !db.inTx {
      db.TxIdle();
      db.Whole();
    }
  }

  lemma WalParts(db: SnapDB)
    requires db.TxOk()
    ensures db.wal.Valid() && db.wal.inTx == db.inTx
  {
  }

  /** A checkpoint, then a crash: what comes back is what was there, the uncommitted rows of a transaction included. */
  method CheckpointAndReopen(db: SnapDB, cipher: Cipher) returns (r: Opened)
    requires db.Valid() && HeaderFitsEnv(db.store.env) && WfSchema(db.schema)
    requires db.store.env == EnvOf(db.schema, cipher, db.store.env.schemaOffset, db.store.env.pageSize)
    modifies db.store.mm, db.wal
    ensures r.Ok? && r.db.Valid() && r.db.store.model == old(db.store.model) && r.db.schema == db.schema
    ensures HighWater(r.db.store.env, r.db.store.states) == old(HighWater(db.store.env, db.store.states))
    ensures fresh(r.db) && r.db.store.env == db.store.env && r.db.store.states == ReloadedAll(old(db.store.states))
    ensures !r.db.inTx && r.db.Zoned() && r.db.hash.indexes == map[] && r.db.ranges == map[]
    ensures fresh(r.db.store) && fresh(r.db.store.mm) && fresh(r.db.unique) && fresh(r.db.wal)
    ensures forall s :: s in r.db.store.slabs ==> fresh(s)
  {
    hide *;
    Checkpoint(db);
    db.StoreParts();
    db.store.Parts();
    OwnersApart(db);
    NothingLeft(db.schema, db.store.model, HighWater(db.store.env, db.store.states));
    var file := W.LogFile([], true);
    r := Open(db.schema, cipher, db.store.env, db.store.mm.bytes, file, db.store.states, db.store.model);
    IfOpens(r, db.schema, Replayed(db.schema, db.store.model, HighWater(db.store.env, db.store.states), file));
  }

  lemma OwnersApart(db: SnapDB)
    requires db.Derived(db.store.model)
    ensures Distinct(db.store.model, UniqueColumns(db.schema))
  {
    hide UniqueMap.Agrees, MultiIndex.Agrees, RangesAgree;
    db.DerivedParts(db.store.model);
    OwnersAreDistinctOf(db.unique, db.store.model);
  }

  // an empty log leaves the rows found
  lemma NothingLeft(schema: Schema, rows: map<nat, Row>, next: nat)
    ensures W.CommittedIn([]) == []
    ensures W.WholePrefix([]) == [] && Replayed(schema, rows, next, W.LogFile([], true)) == R.Reached(rows, next, map[])
  {
    hide UniqueColumns;
    assert W.CommittedIn([]) == [];
    NothingToRedo(UniqueColumns(schema), R.Reached(rows, next, map[]));
  }

  /** compact(): only the live rows, in order, numbered from zero, with the same indexes over them. */
  method Compact(db: SnapDB, schemaJson: seq<byte>) returns (ghost rows: seq<Row>)
    requires db.Valid() && HeaderFitsEnv(db.store.env)
    requires HEADER_SIZE + |schemaJson| == db.store.env.schemaOffset
    modifies db`hash, db`ranges, db.store, db.unique, db.wal
    ensures db.StoreOk() && db.Derived(db.store.model) && (!db.inTx ==> db.Valid()) && Emptied(db.wal)
    ensures rows == Payload(old(Scan(db, Always)))
    ensures db.store.model == PutAll(map[], 0, rows) && HighWater(db.store.env, db.store.states) == |rows|
    ensures LeastSlabs(db.store.env, 1, |db.store.states|, |rows|)
    ensures db.Zoned()
    ensures forall c :: c in db.hash.indexes <==> c in old(db.hash.indexes)
    ensures forall c :: c in db.ranges <==> c in old(db.ranges)
    ensures exists nums :: RenumberedFrom(old(db.store.model), nums, db.store.model)
  {
    hide *;
    ghost var nums := RowNumbers(db);
    var indexColumns := db.hash.indexes.Keys;
    var rangeColumns := db.ranges.Keys;
    db.Parts();
    db.DerivedParts(db.store.model);
    rows := CompactRows(db, schemaJson);
    CreateIndexes(db, indexColumns);
    CreateRangeIndexes(db, rangeColumns);
    NumberedAnew(rows, nums, old(db.store.model));
  }

  /** nums are the numbers of all rows, rising; row k now is the one that had the k-th of them. */
  ghost predicate RenumberedFrom(was: map<nat, Row>, nums: seq<nat>, now: map<nat, Row>) {
    && Increasing(nums) && (forall i :: i in nums <==> i in was)
    && (forall k: nat :: k in now <==> k < |nums|)
    && forall k :: 0 <= k < |nums| ==> nums[k] in was && now[k] == was[nums[k]]
  }

  lemma RowNumbers(db: SnapDB) returns (nums: seq<nat>)
    requires db.Valid()
    ensures Numbered(Payload(Scan(db, Always)), nums, db.store.model)
    ensures forall i :: i in nums <==> i in db.store.model
  {
    hide *;
    db.Parts();
    ScanIsComplete(db);
    ScanIs(db, Always);
    nums := ScanNumbers(db.store.model, Always, HighWater(db.store.env, db.store.states));
    AllRowsAccepted();
  }

  lemma AllRowsAccepted()
    ensures forall row :: Always(row)
  {
  }

  lemma NumberedAnew(rows: seq<Row>, nums: seq<nat>, was: map<nat, Row>)
    requires Numbered(rows, nums, was) && forall i :: i in nums <==> i in was
    ensures RenumberedFrom(was, nums, PutAll(map[], 0, rows))
  {
    hide PutAll;
    PutAllHas(map[], 0, rows);
  }

  method CompactRows(db: SnapDB, schemaJson: seq<byte>) returns (ghost rows: seq<Row>)
    requires db.Valid() && HeaderFitsEnv(db.store.env)
    requires HEADER_SIZE + |schemaJson| == db.store.env.schemaOffset
    modifies db`hash, db`ranges, db.store, db.unique, db.wal
    ensures db.StoreOk() && db.Derived(db.store.model) && (!db.inTx ==> db.Valid()) && Emptied(db.wal)
    ensures rows == Payload(old(Scan(db, Always)))
    ensures db.store.model == PutAll(map[], 0, rows) && HighWater(db.store.env, db.store.states) == |rows|
    ensures LeastSlabs(db.store.env, 1, |db.store.states|, |rows|)
    ensures db.Zoned()
    ensures fresh(db.hash) && db.hash.indexes == map[] && db.ranges == map[]
  {
    hide *;
    db.Parts();
    db.StoreParts();
    WalParts(db);
    db.DerivedParts(db.store.model);
    ScanIsComplete(db);
    ghost var m, hw := db.store.model, HighWater(db.store.env, db.store.states);
    ScanIs(db, Always);
    rows := db.store.Compact(schemaJson);
    db.ZonedIs();
    RowsStayDistinct(m, hw, UniqueColumns(db.schema));
    db.StoreWhole();
    db.hash := new MultiIndex();
    db.ranges := map[];
    var clash := RebuildUnique(db);
    db.wal.Clear();
    EmptiedIs(db.wal);
    NowDerived(db);
    if !db.inTx {
      db.TxIdle();
      db.Whole();
    }
  }

  lemma NowDerived(db: SnapDB)
    requires db.StoreOk() && db.unique.cols == UniqueColumns(db.schema) && db.unique.Agrees(db.store.model)
    requires db.hash.indexes == map[] && db.ranges == map[]
    ensures db.Derived(db.store.model)
  {
    hide SnapDB.StoreOk, UniqueMap.Agrees;
    assert db.OverSchema();
    db.DerivedWhole(db.store.model);
  }

  /** The records of a run touch none of the rows renumbered 0 to n - 1 they are replayed over. */
  ghost predicate Untouching(recs: W.Log, end: map<nat, Row>, p: map<nat, Row>, n: nat) {
    O.NoneDropped(recs, n) && O.NoneAdded(recs, n) && O.NoneChanged(recs, end, p)
  }

  // A crash between putting the compacted file in place and clearing the log: opening replays a log of old row
  // numbers over renumbered rows. That leaves them alone if the log touches none of them, and, unless it
  // deletes the row with the next number, only then.
  lemma OldLogOverCompacted(schema: Schema, base: R.Image, rows: seq<Row>, file: W.LogFile)
    requires R.LegalRun(base, W.CommittedIn(file.lines), UniqueColumns(schema))
    ensures var (recs, p, n) := (W.CommittedIn(file.lines), PutAll(map[], 0, rows), |rows|);
      var (s, end) := (Replayed(schema, p, n, file), R.Run(base, recs).rows);
      && (Untouching(recs, end, p, n) ==> s.Reached? && s.rows == p && s.next == n)
      && (s.Reached? && s.rows == p ==> O.NoneDropped(recs, n) && O.NoneChanged(recs, end, p))
      && (n !in R.Deleted(recs) ==> (s.Reached? && s.rows == p <==> Untouching(recs, end, p, n)))
  {
    hide UniqueColumns, W.CommittedIn, R.LegalRun, R.Run, R.RedoAll, R.Deleted, W.Net, PutAll;
    hide O.NoneDropped, O.NoneAdded, O.NoneChanged;
    PackedFromZero(rows);
    O.OldLogHarmless(UniqueColumns(schema), base, PutAll(map[], 0, rows), |rows|, W.CommittedIn(file.lines));
  }

  lemma PackedFromZero(rows: seq<Row>)
    ensures O.Renumbered(PutAll(map[], 0, rows), |rows|)
  {
    PutAllHas(map[], 0, rows);
    var p := PutAll(map[], 0, rows);
    assert forall i: nat :: i in p <==> i < |rows|;
  }

  // With a committed delete of a row that is not the last one it does harm: of rows 0 and 1, row 0 is deleted, row 1
  // is compacted to row 0, and the delete, replayed, takes it away as well.
  lemma CompactedRowLost(schema: Schema, a: Row, b: Row)
    requires WfSchema(schema) && Distinct(map[0 := a, 1 := b], UniqueColumns(schema))
    ensures var (base, recs) := (R.Image(map[0 := a, 1 := b], 2), [W.Delete(0)]);
      var file := W.LogFile([W.Whole(W.Begin(1)), W.Whole(W.Delete(0)), W.Whole(W.Commit(1))], true);
      var rows := Payload(Select(R.Run(base, recs).rows, Always, 2));
      && R.LegalRun(base, recs, UniqueColumns(schema)) && W.CommittedIn(file.lines) == recs && rows == [b]
      && Replayed(schema, PutAll(map[], 0, rows), |rows|, file) == R.Reached(map[], 1, map[])
  {
    hide UniqueColumns, WfSchema;
    CommittedDelete();
    SecondStays(a, b, UniqueColumns(schema));
    ZeroRedone(UniqueColumns(schema), b);
  }

  lemma SecondStays(a: Row, b: Row, cols: seq<Col>)
    requires Distinct(map[0 := a, 1 := b], cols)
    ensures var (base, recs) := (R.Image(map[0 := a, 1 := b], 2), [W.Delete(0)]);
      R.LegalRun(base, recs, cols) && Payload(Select(R.Run(base, recs).rows, Always, 2)) == [b]
  {
    var base := R.Image(map[0 := a, 1 := b], 2);
    assert [] + [W.Delete(0)] == [W.Delete(0)];
    assert map[0 := a, 1 := b] - {0} == map[1 := b];
    R.RunPush(base, [], W.Delete(0), cols);
    OnlySecond(b);
  }

  lemma OnlySecond(b: Row)
    ensures Payload(Select(map[1 := b], Always, 2)) == [b]
  {
    assert Always(b);
    assert Select(map[1 := b], Always, 0) == [];
    assert Select(map[1 := b], Always, 1) == [];
    assert Select(map[1 := b], Always, 2) == [] + [(1, b)];
  }

  lemma CommittedDelete()
    ensures W.CommittedIn([W.Whole(W.Begin(1)), W.Whole(W.Delete(0)), W.Whole(W.Commit(1))]) == [W.Delete(0)]
  {
    var lines := [W.Whole(W.Begin(1)), W.Whole(W.Delete(0)), W.Whole(W.Commit(1))];
    var log: W.Log := [W.Begin(1), W.Delete(0), W.Commit(1)];
    assert lines[1..] == [W.Whole(W.Delete(0)), W.Whole(W.Commit(1))] && lines[2..] == [W.Whole(W.Commit(1))];
    assert lines[1..][1..] == lines[2..] && lines[2..][1..] == [];
    assert W.WholePrefix(lines[2..]) == [W.Commit(1)];
    assert W.WholePrefix(lines) == log;
    assert log[1..] == [W.Delete(0), W.Commit(1)] && log[1..][1..] == [W.Commit(1)] && [W.Commit(1)][1..] == [];
    assert W.ParseLog(log, W.Parse([], [])) == W.Parse([], [W.Delete(0)]);
  }

  lemma ZeroRedone(cols: seq<Col>, kept: Row)
    ensures R.RedoAll(cols, R.Reached(PutAll(map[], 0, [kept]), 1, map[]), W.Net([W.Delete(0)])) ==
      R.Reached(map[], 1, map[])
  {
    var start := R.Reached(PutAll(map[], 0, [kept]), 1, map[]);
    var netted := W.Net([W.Delete(0)]);
    assert netted == [W.Delete(0)] && netted[..0] == [];
    PutAllPush(map[], 0, [], kept);
    PutAllNone(map[], 0);
    assert [] + [kept] == [kept];
    assert start.rows == map[0 := kept] && start.rows - {0} == map[] && start.known - {0} == map[];
    assert R.Redo(cols, start, W.Delete(0)) == R.Reached(map[], 1, map[]);
    NothingToRedo(cols, start);
  }

  // renumbered from zero, rows that differed still differ
  lemma RowsStayDistinct(m: map<nat, Row>, n: nat, cols: seq<Col>)
    requires Distinct(m, cols)
    ensures Distinct(PutAll(map[], 0, Payload(Select(m, Always, n))), cols)
  {
    var s := Select(m, Always, n);
    var rows := Payload(s);
    SelectExact(m, Always, n);
    PutAllHas(map[], 0, rows);
    var packed := PutAll(map[], 0, rows);
    forall i, j | i in packed && j in packed && i != j
      ensures Apart(packed[j], packed[i], cols)
    {
      assert s[i] in s && s[j] in s && s[i].0 != s[j].0;
      assert Unclashed(m, cols, s[i].0, m[s[i].0]);
    }
  }

  method CreateIndexes(db: SnapDB, columns: set<Col>)
    requires db.StoreOk() && db.Derived(db.store.model) && db.hash.indexes == map[]
    modifies db.hash
    ensures db.StoreOk() && db.Derived(db.store.model) && (old(db.Valid()) ==> db.Valid())
    ensures forall c :: c in db.hash.indexes <==> c in columns
  {
    hide *;
    var rest := columns;
    while rest != {}
      invariant rest <= columns && db.hash == old(db.hash)
      invariant db.StoreOk() && db.Derived(db.store.model) && (old(db.Valid()) ==> db.Valid())
      invariant forall c :: c in db.hash.indexes <==> c in columns && c !in rest
    {
      var c :| c in rest;
      CreateIndex(db, c);
      rest := rest - {c};
    }
  }

  method CreateRangeIndexes(db: SnapDB, columns: set<Col>)
    requires db.StoreOk() && db.Derived(db.store.model) && db.ranges == map[] && columns <= Names(db.schema)
    modifies db`ranges
    ensures db.StoreOk() && db.Derived(db.store.model) && (old(db.Valid()) ==> db.Valid())
    ensures forall c :: c in db.ranges <==> c in columns
  {
    hide *;
    var rest := columns;
    while rest != {}
      invariant rest <= columns
      invariant db.StoreOk() && db.Derived(db.store.model) && (old(db.Valid()) ==> db.Valid())
      invariant forall c :: c in db.ranges <==> c in columns && c !in rest
    {
      var c :| c in rest;
      var made := CreateRangeIndex(db, c);
      rest := rest - {c};
    }
  }
}
