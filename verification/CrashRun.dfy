/** From a checkpoint through transactions to a crash, and back: what reopening gives. */
module CrashRuns {
  import opened Bits
  import opened Values
  import opened Codec
  import opened Layout
  import opened Images
  import opened Slabs
  import opened Persist
  import opened Crash
  import opened UniqueKeys
  import opened SnapDBs
  import opened Lookups
  import opened Transactions
  import opened Lifecycle
  import O = OldLogs
  import W = Wals
  import R = Recovery

  // ---- transactions one after the other ----------------------------------------------

  datatype Block = Block(ops: seq<RowOp>, fails: bool)

  predicate AcceptableAll(schema: Schema, ops: seq<RowOp>) { forall i :: 0 <= i < |ops| ==> Acceptable(schema, ops[i]) }

  /** A rolled-back block keeps the rows; the numbers it handed out stay used up. */
  ghost function AfterBlocks(schema: Schema, s: R.Image, blocks: seq<Block>): R.Image {
    if blocks == [] then s
    else
      var t, b := AfterBlocks(schema, s, blocks[..|blocks| - 1]), blocks[|blocks| - 1];
      if b.fails then R.Image(t.rows, MeaningAll(schema, t, b.ops).next) else MeaningAll(schema, t, b.ops)
  }

  /** The transactions the blocks log, numbered from id + 1 on. */
  ghost function BlockTxs(schema: Schema, s: R.Image, blocks: seq<Block>, id: int): seq<W.Tx> {
    if blocks == [] then []
    else
      var n := |blocks| - 1;
      BlockTxs(schema, s, blocks[..n], id) +
          [BlockTx(schema, AfterBlocks(schema, s, blocks[..n]), blocks[n], id + n + 1)]
  }

  ghost function BlockTx(schema: Schema, t: R.Image, b: Block, id: int): W.Tx {
    W.Tx(id, LoggedAll(schema, t, b.ops), if b.fails then W.RolledBack else W.Committed)
  }

  lemma BlockPush(schema: Schema, s: R.Image, blocks: seq<Block>, k: nat, id: int)
    requires k < |blocks|
    ensures AfterBlocks(schema, s, blocks[..k + 1]) ==
      var t, b := AfterBlocks(schema, s, blocks[..k]), blocks[k];
      if b.fails then R.Image(t.rows, MeaningAll(schema, t, b.ops).next) else MeaningAll(schema, t, b.ops)
    ensures BlockTxs(schema, s, blocks[..k + 1], id) ==
      BlockTxs(schema, s, blocks[..k], id) +
          [BlockTx(schema, AfterBlocks(schema, s, blocks[..k]), blocks[k], id + k + 1)]
  {
    hide MeaningAll, BlockTx;
    assert blocks[..k + 1][..k] == blocks[..k];
  }

  lemma NoBlocks(schema: Schema, s: R.Image, blocks: seq<Block>, id: int)
    ensures AfterBlocks(schema, s, blocks[..0]) == s && BlockTxs(schema, s, blocks[..0], id) == []
  {
  }

  // ---- what they log -------------------------------------------------------------------

  ghost predicate CanonicalRows(schema: Schema, m: map<nat, Row>) { forall g :: g in m ==> RowCanonical(schema, m[g]) }

  /** Records of row operations whose rows read back. */
  ghost predicate GoodRecords(schema: Schema, recs: W.Log) {
    forall rec :: rec in recs ==> rec.IsOp() && LoggedRow(schema, rec)
  }

  lemma OneLogged(schema: Schema, s: R.Image, op: RowOp)
    requires CanonicalRows(schema, s.rows) && Acceptable(schema, op)
    ensures CanonicalRows(schema, Meaning(schema, s, op).rows) && GoodRecords(schema, Logged(schema, s, op))
  {
    hide Shaped, Storable, Unclashed, Distinct, RowCanonical, Restrict;
    if Accepted(schema, s, op) {
      match op
      case DoInsert(row) => ShapedIsCanonical(schema, row);
      case DoBatch(rows) =>
        PutAllHas(s.rows, s.next, Restricted(schema, rows));
        forall i | 0 <= i < |rows|
          ensures RowCanonical(schema, Restrict(schema, rows[i]))
        {
          ShapedIsCanonical(schema, rows[i]);
        }
      case DoUpdate(idx, row) =>
        MergedIsStorable(schema, s.rows[idx], row);
        ShapedIsCanonical(schema, s.rows[idx] + row);
      case DoDelete(_) =>
    }
  }

  lemma {:induction false} AllLogged(schema: Schema, s: R.Image, ops: seq<RowOp>)
    requires CanonicalRows(schema, s.rows) && AcceptableAll(schema, ops)
    ensures CanonicalRows(schema, MeaningAll(schema, s, ops).rows) && GoodRecords(schema, LoggedAll(schema, s, ops))
  {
    if ops != [] {
      hide Meaning, Logged, Acceptable, RowCanonical;
      var front, op := ops[..|ops| - 1], ops[|ops| - 1];
      AllLogged(schema, s, front);
      OneLogged(schema, MeaningAll(schema, s, front), op);
    }
  }

  ghost predicate GoodTxs(schema: Schema, txs: seq<W.Tx>) {
    forall i :: 0 <= i < |txs| ==> W.WfTx(txs[i]) && GoodRecords(schema, txs[i].ops)
  }

  lemma {:induction false} BlocksLogged(schema: Schema, s: R.Image, blocks: seq<Block>, id: int)
    requires CanonicalRows(schema, s.rows) && forall i :: 0 <= i < |blocks| ==> AcceptableAll(schema, blocks[i].ops)
    ensures CanonicalRows(schema, AfterBlocks(schema, s, blocks).rows)
    ensures GoodTxs(schema, BlockTxs(schema, s, blocks, id))
  {
    if blocks != [] {
      hide MeaningAll, LoggedAll, AcceptableAll, RowCanonical;
      var n := |blocks| - 1;
      BlocksLogged(schema, s, blocks[..n], id);
      AllLogged(schema, AfterBlocks(schema, s, blocks[..n]), blocks[n].ops);
    }
  }

  lemma {:induction false} FlattenGood(schema: Schema, txs: seq<W.Tx>)
    requires GoodTxs(schema, txs)
    ensures forall rec :: rec in W.Flatten(txs) ==> LoggedRow(schema, rec)
  {
    if txs != [] {
      FlattenGood(schema, txs[1..]);
    }
  }

  // ---- the run ------------------------------------------------------------------------

  /** The committed records lead from the base to the rows now, whatever was rolled back in between. */
  ghost predicate LeadsTo(base: R.Image, recs: W.Log, now: R.Image, cols: seq<Col>) {
    R.LegalRun(base, recs, cols) && R.Run(base, recs).rows == now.rows && R.Run(base, recs).next <= now.next
  }

  lemma LeadsOn(schema: Schema, base: R.Image, txs: seq<W.Tx>, now: R.Image, b: Block, id: int, cols: seq<Col>)
    requires LeadsTo(base, W.CommittedOps(txs), now, cols) && R.LegalRun(now, LoggedAll(schema, now, b.ops), cols)
    ensures var after := MeaningAll(schema, now, b.ops);
      LeadsTo(base, W.CommittedOps(txs + [BlockTx(schema, now, b, id)]),
              if b.fails then R.Image(now.rows, after.next) else after, cols)
  {
    hide R.LegalRun, R.Run, MeaningAll, LoggedAll;
    var recs := LoggedAll(schema, now, b.ops);
    W.FlattenPush(txs, BlockTx(schema, now, b, id));
    LoggedIsMeant(schema, now, b.ops);
    if b.fails {
      assert W.CommittedOps(txs) + [] == W.CommittedOps(txs);
      R.RunBounds(now, recs, cols);
    } else {
      R.RunJoin(base, W.CommittedOps(txs), now, recs, cols);
    }
  }

  lemma LeadsFrom(base: R.Image, cols: seq<Col>)
    requires Distinct(base.rows, cols) && forall g :: g in base.rows ==> g < base.next
    ensures LeadsTo(base, [], base, cols)
  {
  }

  /** Transactions one after the other, each committed or rolled back. */
  method RunBlocks(db: SnapDB, blocks: seq<Block>)
    requires db.Valid() && !db.inTx && forall i :: 0 <= i < |blocks| ==> AcceptableAll(db.schema, blocks[i].ops)
    requires db.wal.file == W.WriteRecords(db.wal.found, db.wal.Records())
    modifies db`inTx, db`txState, db`txBase, db`txOps, db`txLog
    modifies db.store, db.store.mm, db.store.slabs, db.unique, db.hash.indexes.Values, db.ranges.Values
    modifies db.wal`file, db.wal`buffer, db.wal`log, db.wal`txid, db.wal`inTx
    ensures db.Valid() && !db.inTx && db.hash == old(db.hash)
    ensures db.store.mm == old(db.store.mm) || fresh(db.store.mm)
    ensures forall s :: s in db.store.slabs ==> s in old(db.store.slabs) || fresh(s)
    ensures Here(db) == AfterBlocks(db.schema, old(Here(db)), blocks)
    ensures db.wal.txid == old(db.wal.txid) + |blocks|
    ensures var txs := BlockTxs(db.schema, old(Here(db)), blocks, old(db.wal.txid));
      && db.wal.Records() == old(db.wal.Records()) + W.Flatten(txs)
      && LeadsTo(old(Here(db)), W.CommittedOps(txs), Here(db), UniqueColumns(db.schema))
    ensures db.wal.file == W.WriteRecords(db.wal.found, db.wal.Records())
    ensures FileEvolves(db.store.env, old(OnFile(db)), OnFile(db))
  {
    hide *;
    ghost var (s, id, found) := (Here(db), db.wal.txid, OnFile(db));
    FileStays(db);
    NoBlocks(db.schema, s, blocks, id);
    AllInserted(db);
    HereIs(db);
    LeadsFrom(s, UniqueColumns(db.schema));
    NothingFlat();
    for k := 0 to |blocks|
      invariant db.Valid() && !db.inTx && db.hash == old(db.hash) && db.wal.txid == id + k
      invariant db.store.mm == old(db.store.mm) || fresh(db.store.mm)
      invariant forall s :: s in db.store.slabs ==> s in old(db.store.slabs) || fresh(s)
      invariant Here(db) == AfterBlocks(db.schema, s, blocks[..k])
      invariant db.wal.Records() == old(db.wal.Records()) + W.Flatten(BlockTxs(db.schema, s, blocks[..k], id))
      invariant LeadsTo(s, W.CommittedOps(BlockTxs(db.schema, s, blocks[..k], id)), Here(db), UniqueColumns(db.schema))
      invariant db.wal.file == W.WriteRecords(db.wal.found, db.wal.Records())
      invariant FileEvolves(db.store.env, found, OnFile(db))
    {
      assert forall i :: 0 <= i < |db.store.slabs| ==> db.store.slabs[i] in db.store.slabs;
      ghost var (t, now) := (Here(db), OnFile(db));
      RunBlock(db, blocks[k]);
      BlockPush(db.schema, s, blocks, k, id);
      W.FlattenPush(BlockTxs(db.schema, s, blocks[..k], id), BlockTx(db.schema, t, blocks[k], id + k + 1));
      LeadsOn(db.schema, s, BlockTxs(db.schema, s, blocks[..k], id), t, blocks[k], id + k + 1,
          UniqueColumns(db.schema));
      FileGoesOn(db.store.env, found, now, OnFile(db));
    }
    assert blocks[..|blocks|] == blocks;
  }

  lemma NothingFlat()
    ensures W.Flatten([]) == [] && W.CommittedOps([]) == []
  {
  }

  method RunBlock(db: SnapDB, b: Block)
    requires db.Valid() && !db.inTx && AcceptableAll(db.schema, b.ops)
    modifies db`inTx, db`txState, db`txBase, db`txOps, db`txLog
    modifies db.store, db.store.mm, db.store.slabs, db.unique, db.hash.indexes.Values, db.ranges.Values
    modifies db.wal`file, db.wal`buffer, db.wal`log, db.wal`txid, db.wal`inTx
    ensures db.Valid() && !db.inTx && db.hash == old(db.hash)
    ensures db.store.mm == old(db.store.mm) || fresh(db.store.mm)
    ensures forall s :: s in db.store.slabs ==> s in old(db.store.slabs) || fresh(s)
    ensures R.LegalRun(old(Here(db)), LoggedAll(db.schema, old(Here(db)), b.ops), UniqueColumns(db.schema))
    ensures var (t, after) := (old(Here(db)), MeaningAll(db.schema, old(Here(db)), b.ops));
      Here(db) == if b.fails then R.Image(t.rows, after.next) else after
    ensures db.wal.txid == old(db.wal.txid) + 1 && db.wal.file == W.WriteRecords(db.wal.found, db.wal.Records())
    ensures db.wal.Records() ==
      old(db.wal.Records()) + W.TxRecords(BlockTx(db.schema, old(Here(db)), b, db.wal.txid))
    ensures FileEvolves(db.store.env, old(OnFile(db)), OnFile(db))
  {
    hide *;
    HereIs(db);
    BlockIs(db.schema, Here(db), b, db.wal.txid + 1);
    ghost var _, _ := Transaction(db, b.ops, b.fails);
    HereIs(db);
  }

  lemma BlockIs(schema: Schema, t: R.Image, b: Block, id: int)
    ensures BlockTx(schema, t, b, id) ==
      W.Tx(id, LoggedAll(schema, t, b.ops), if b.fails then W.RolledBack else W.Committed)
    ensures AcceptableAll(schema, b.ops) ==> forall i :: 0 <= i < |b.ops| ==> Acceptable(schema, b.ops[i])
  {
    hide LoggedAll, Acceptable;
  }

  // ---- the crash --------------------------------------------------------------------------

  /** What a crash leaves of a database that was checkpointed with the rows `base`, completed the transactions
      `done` and was at work on `last`, its rows in memory being `live`: a file that opens, with the rows
      flagged at the checkpoint, each as last written. */
  ghost predicate Wreck(schema: Schema, env: Env, base: R.Image, done: seq<W.Tx>, last: W.Tx, live: map<nat, Row>,
                        bytes: seq<byte>, was: States, rows: map<nat, Row>) {
    && LoadsAs(env, bytes, was, rows) && R.LoadedFrom(R.Image(rows, HighWater(env, was)), base)
    && (forall g :: g in rows && g in live ==> rows[g] == live[g])
    && GoodTxs(schema, done + [last]) && last.end == W.Committed
    && R.LegalRun(base, W.CommittedOps(done), UniqueColumns(schema))
    && R.LegalRun(base, W.CommittedOps(done) + last.ops, UniqueColumns(schema))
    && R.Run(base, W.CommittedOps(done) + last.ops).rows == live
  }

  /** The database from a checkpoint through whole transactions into the middle of one more, where the process dies. */
  method RunUntilCrash(db: SnapDB, blocks: seq<Block>, ops: seq<RowOp>)
    returns (ghost was: States, ghost rows: map<nat, Row>)
    requires db.Valid() && !db.inTx && AcceptableAll(db.schema, ops)
    requires forall i :: 0 <= i < |blocks| ==> AcceptableAll(db.schema, blocks[i].ops)
    requires OnDisk(db.store.env, db.store.mm.bytes, db.store.states) && Emptied(db.wal)
    modifies db`inTx, db`txState, db`txBase, db`txOps, db`txLog
    modifies db.store, db.store.mm, db.store.slabs, db.unique, db.hash.indexes.Values, db.ranges.Values
    modifies db.wal`file, db.wal`buffer, db.wal`log, db.wal`txid, db.wal`inTx
    ensures db.Valid() && db.inTx && db.wal.Valid() && db.wal.found == W.NO_LOG
    ensures
      var (base, id) := (old(Here(db)), old(db.wal.txid));
      var done, mid := BlockTxs(db.schema, base, blocks, id), AfterBlocks(db.schema, base, blocks);
      var last := BlockTx(db.schema, mid, Block(ops, false), id + |blocks| + 1);
      && Wreck(db.schema, db.store.env, base, done, last, db.store.model, db.store.mm.bytes, was, rows)
      && db.store.model == MeaningAll(db.schema, mid, ops).rows
      && R.Run(base, W.CommittedOps(done)).rows == mid.rows
      && db.wal.Records() + [W.Commit(last.txid)] == W.Flatten(done + [last])
      && |W.Flatten(done)| + |db.wal.buffer| <= |db.wal.Records()|
    ensures |was| == |db.store.states|
    ensures (|was| == |old(db.store.states)| ==> HighWater(db.store.env, was) == old(Here(db)).next)
  {
    hide *;
    ghost var (base, id, bytes, start, env) := (Here(db), db.wal.txid, db.store.mm.bytes, db.store.states,
        db.store.env);
    ghost var found := OnFile(db);
    FileIs(db);
    FlushedHere(db);
    EmptiedIs(db.wal);
    NothingLogged();
    RowsAreCanonical(db);
    RunBlocks(db, blocks);
    assert forall i :: 0 <= i < |db.store.slabs| ==> db.store.slabs[i] in db.store.slabs;
    ghost var (mid, done, now) := (Here(db), BlockTxs(db.schema, base, blocks, id), OnFile(db));
    ghost var last := BlockTx(db.schema, mid, Block(ops, false), id + |blocks| + 1);
    LeaveOpen(db, ops);
    FileGoesOn(env, found, now, OnFile(db));
    W.FlattenPush(done, last);
    BlockIs(db.schema, mid, Block(ops, false), id + |blocks| + 1);
    LastGood(db.schema, base, blocks, id, ops);
    LastLeads(db.schema, base, done, mid, ops, UniqueColumns(db.schema));
    HereIs(db);
    WreckedNow(db, base, bytes, start, done, last);
    was, rows :|
      && Wreck(db.schema, env, base, done, last, db.store.model, db.store.mm.bytes, was, rows)
      && SameUnlessGrown(db, start, was);
    GrownOrNot(db, start, was);
  }

  /** Opening finds as many slabs as there are; as many as at the checkpoint, and the next row number is its. */
  ghost predicate SameUnlessGrown(db: SnapDB, start: States, was: States)
    reads db.store
  {
    && |was| == |db.store.states|
    && (|was| == |start| ==> HighWater(db.store.env, was) == HighWater(db.store.env, start))
  }

  lemma GrownOrNot(db: SnapDB, start: States, was: States)
    requires SameUnlessGrown(db, start, was)
    ensures |was| == |db.store.states|
    ensures |was| == |start| ==> HighWater(db.store.env, was) == HighWater(db.store.env, start)
  {
  }

  lemma WreckedNow(db: SnapDB, base: R.Image, bytes: seq<byte>, start: States, done: seq<W.Tx>, last: W.Tx)
    requires db.Valid() && LoadsAs(db.store.env, bytes, start, base.rows) && base.next == HighWater(db.store.env, start)
    requires FileEvolves(db.store.env, FileState(bytes, |start|), OnFile(db))
    requires GoodTxs(db.schema, done + [last]) && last.end == W.Committed
    requires R.LegalRun(base, W.CommittedOps(done), UniqueColumns(db.schema))
    requires R.LegalRun(base, W.CommittedOps(done) + last.ops, UniqueColumns(db.schema))
    requires R.Run(base, W.CommittedOps(done) + last.ops).rows == db.store.model
    ensures exists was, rows ::
      && Wreck(db.schema, db.store.env, base, done, last, db.store.model, db.store.mm.bytes, was, rows)
      && SameUnlessGrown(db, start, was)
  {
    hide SnapDB.Valid, LoadsAs, HighWater, Evolves, GoodTxs, R.LegalRun, R.Run, Wreck;
    var (env, n) := (db.store.env, |db.store.states|);
    EvolvedLoads(env, bytes, start, base.rows, db.store.mm.bytes, n);
    var was, rows :|
      && LoadsAs(env, db.store.mm.bytes, was, rows) && |was| == n && rows.Keys == base.rows.Keys
      && HighWater(env, start) <= HighWater(env, was)
      && (n == |start| ==> HighWater(env, was) == HighWater(env, start));
    WreckIs(db, base, done, last, was, rows);
    assert SameUnlessGrown(db, start, was);
  }

  lemma NothingLogged()
    ensures W.WriteRecords(W.NO_LOG, []) == W.NO_LOG && forall log: W.Log :: [] + log == log
  {
  }

  lemma FlushedHere(db: SnapDB)
    requires db.Valid() && OnDisk(db.store.env, db.store.mm.bytes, db.store.states)
    ensures LoadsAs(db.store.env, db.store.mm.bytes, db.store.states, db.store.model) && db.store.env.rps > 0
    ensures Here(db) == R.Image(db.store.model, HighWater(db.store.env, db.store.states))
  {
    hide SnapDB.Derived, SnapDB.TxOk;
    db.Parts();
    db.StoreParts();
    db.store.Parts();
  }

  lemma RowsAreCanonical(db: SnapDB)
    requires db.Valid()
    ensures CanonicalRows(db.schema, Here(db).rows)
  {
    hide SnapDB.Derived, SnapDB.TxOk, RowCanonical;
    db.Parts();
    db.StoreParts();
    db.store.Parts();
  }

  /** A transaction under way: its operations are done, its end not yet logged. */
  method LeaveOpen(db: SnapDB, ops: seq<RowOp>)
    requires db.Valid() && !db.inTx && AcceptableAll(db.schema, ops)
    modifies db`inTx, db`txState, db`txBase, db`txOps, db`txLog
    modifies db.store, db.store.mm, db.store.slabs, db.unique, db.hash.indexes.Values, db.ranges.Values
    modifies db.wal`file, db.wal`buffer, db.wal`log, db.wal`txid, db.wal`inTx
    ensures db.Valid() && db.inTx && db.wal.Valid()
    ensures Here(db) == MeaningAll(db.schema, old(Here(db)), ops)
    ensures R.LegalRun(old(Here(db)), LoggedAll(db.schema, old(Here(db)), ops), UniqueColumns(db.schema))
    ensures db.wal.txid == old(db.wal.txid) + 1 && |old(db.wal.Records())| + |db.wal.buffer| <= |db.wal.Records()|
    ensures db.wal.Records() + [W.Commit(db.wal.txid)] ==
      old(db.wal.Records()) + W.TxRecords(BlockTx(db.schema, old(Here(db)), Block(ops, false), db.wal.txid))
    ensures FileEvolves(db.store.env, old(OnFile(db)), OnFile(db))
  {
    hide *;
    BlockIs(db.schema, Here(db), Block(ops, false), db.wal.txid + 1);
    BeginAndPerform(db, ops);
    db.Parts();
    db.EndOfLog();
  }

  lemma LastGood(schema: Schema, base: R.Image, blocks: seq<Block>, id: int, ops: seq<RowOp>)
    requires CanonicalRows(schema, base.rows) && AcceptableAll(schema, ops)
    requires forall i :: 0 <= i < |blocks| ==> AcceptableAll(schema, blocks[i].ops)
    ensures GoodTxs(schema, BlockTxs(schema, base, blocks, id) +
                            [BlockTx(schema, AfterBlocks(schema, base, blocks), Block(ops, false), id + |blocks| + 1)])
  {
    hide AcceptableAll, GoodRecords, LoggedAll, MeaningAll, CanonicalRows;
    BlocksLogged(schema, base, blocks, id);
    AllLogged(schema, AfterBlocks(schema, base, blocks), ops);
    RecordsAreOps(schema, LoggedAll(schema, AfterBlocks(schema, base, blocks), ops));
  }

  lemma RecordsAreOps(schema: Schema, recs: W.Log)
    requires GoodRecords(schema, recs)
    ensures forall i :: 0 <= i < |recs| ==> recs[i].IsOp()
  {
  }

  lemma LastLeads(schema: Schema, base: R.Image, done: seq<W.Tx>, mid: R.Image, ops: seq<RowOp>, cols: seq<Col>)
    requires LeadsTo(base, W.CommittedOps(done), mid, cols) && R.LegalRun(mid, LoggedAll(schema, mid, ops), cols)
    ensures R.LegalRun(base, W.CommittedOps(done), cols) && R.Run(base, W.CommittedOps(done)).rows == mid.rows
    ensures R.LegalRun(base, W.CommittedOps(done) + LoggedAll(schema, mid, ops), cols)
    ensures R.Run(base, W.CommittedOps(done) + LoggedAll(schema, mid, ops)).rows == MeaningAll(schema, mid, ops).rows
  {
    hide R.LegalRun, R.Run, MeaningAll, LoggedAll;
    LoggedIsMeant(schema, mid, ops);
    R.RunJoin(base, W.CommittedOps(done), mid, LoggedAll(schema, mid, ops), cols);
  }

  lemma WreckIs(db: SnapDB, base: R.Image, done: seq<W.Tx>, last: W.Tx, was: States, rows: map<nat, Row>)
    requires db.Valid() && LoadsAs(db.store.env, db.store.mm.bytes, was, rows)
    requires rows.Keys == base.rows.Keys && base.next <= HighWater(db.store.env, was)
    requires GoodTxs(db.schema, done + [last]) && last.end == W.Committed
    requires R.LegalRun(base, W.CommittedOps(done), UniqueColumns(db.schema))
    requires R.LegalRun(base, W.CommittedOps(done) + last.ops, UniqueColumns(db.schema))
    requires R.Run(base, W.CommittedOps(done) + last.ops).rows == db.store.model
    ensures Wreck(db.schema, db.store.env, base, done, last, db.store.model, db.store.mm.bytes, was, rows)
  {
    hide SnapDB.Derived, SnapDB.TxOk, R.LegalRun, R.Run, GoodTxs, OnDisk, HighWater, Consistent, FilledUpTo;
    db.Parts();
    db.StoreParts();
    db.store.Parts();
    SameBytesSameRows(db.store.env, db.store.mm.bytes, was, rows, db.store.states, db.store.model);
  }

  // ---- reopening ---------------------------------------------------------------------------

  /** Reopening a wreck whose log holds all of the transactions completed and any part of the last one: exactly
      the committed rows come back if and only if those inserted since the checkpoint have no gap below
      them, and no row the log does not update was left rewritten by the last transaction. */
  method Reopen(schema: Schema, cipher: Cipher, env: Env, bytes: seq<byte>, file: W.LogFile, ghost base: R.Image,
                ghost done: seq<W.Tx>, ghost last: W.Tx, ghost live: map<nat, Row>, ghost was: States,
                ghost rows: map<nat, Row>, ghost cut: nat) returns (r: Opened)
    requires WfSchema(schema) && env == EnvOf(schema, cipher, env.schemaOffset, env.pageSize) && HeaderFitsEnv(env)
    requires Wreck(schema, env, base, done, last, live, bytes, was, rows)
    requires |W.Flatten(done)| <= cut <= |W.Flatten(done + [last])|
    requires W.WholePrefix(file.lines) == W.Flatten(done + [last])[..cut]
    ensures
      var recs := W.CommittedOps(done) + (if cut == |W.Flatten(done + [last])| then last.ops else []);
      var final := R.Run(base, recs).rows;
      && (r.Ok? && r.db.store.model == final <==>
          && R.Contiguous(final, base.next, HighWater(env, was))
          && R.AsFlushed(R.Image(rows, HighWater(env, was)), base, final, R.Updated(recs)))
      && (Untouched(base, final, live) ==>
          R.AsFlushed(R.Image(rows, HighWater(env, was)), base, final, R.Updated(recs)))
    ensures cut == |W.Flatten(done + [last])| ==>
      (r.Ok? && r.db.store.model == live <==> R.Contiguous(live, base.next, HighWater(env, was)))
    ensures r.Ok? ==> r.db.Valid() && !r.db.inTx && fresh(r.db)
  {
    hide *;
    WreckParts(schema, env, base, done, last, live, bytes, was, rows);
    ghost var txs := done + [last];
    W.CutInLast(done, last, cut);
    W.FlattenPush(done, last);
    FlattenGood(schema, txs);
    GoodIsWf(schema, txs);
    ghost var recs := W.CommittedOps(done) + (if cut == |W.Flatten(txs)| then last.ops else []);
    assert W.CommittedOps(done) + [] == W.CommittedOps(done);
    assert recs[..0] == [];
    NoRun(base);
    R.RunIsApply(base, recs);
    LeftAsFlushed(base, recs, UniqueColumns(schema), live, R.Image(rows, HighWater(env, was)));
    r := OpenAfterCrash(schema, cipher, env, bytes, file, was, rows, base, 0, txs, cut);
  }

  /** The transaction under way left the rows of the checkpoint as they were committed. */
  ghost predicate Untouched(base: R.Image, final: map<nat, Row>, live: map<nat, Row>) {
    forall g :: g in base.rows && g in final ==> g in live && live[g] == final[g]
  }

  lemma WreckParts(schema: Schema, env: Env, base: R.Image, done: seq<W.Tx>, last: W.Tx, live: map<nat, Row>,
                   bytes: seq<byte>, was: States, rows: map<nat, Row>)
    requires Wreck(schema, env, base, done, last, live, bytes, was, rows)
    ensures OnDisk(env, bytes, was) && Consistent(env, bytes, was, rows) && FilledUpTo(env, was, |was| - 1)
    ensures R.LoadedFrom(R.Image(rows, HighWater(env, was)), base)
    ensures forall g :: g in rows && g in live ==> rows[g] == live[g]
    ensures GoodTxs(schema, done + [last]) && last.end == W.Committed
    ensures R.LegalRun(base, W.CommittedOps(done), UniqueColumns(schema))
    ensures R.LegalRun(base, W.CommittedOps(done) + last.ops, UniqueColumns(schema))
    ensures R.Run(base, W.CommittedOps(done) + last.ops).rows == live
  {
    hide OnDisk, Consistent, FilledUpTo, HighWater, GoodTxs, R.LegalRun, R.Run, R.LoadedFrom;
  }

  lemma GoodIsWf(schema: Schema, txs: seq<W.Tx>)
    requires GoodTxs(schema, txs)
    ensures forall i :: 0 <= i < |txs| ==> W.WfTx(txs[i])
  {
    hide GoodRecords;
  }

  lemma NoRun(base: R.Image)
    ensures R.Run(base, []) == base
  {
  }

  // rows the log does not update and the last transaction did not touch read as flushed
  lemma LeftAsFlushed(base: R.Image, recs: W.Log, cols: seq<Col>, live: map<nat, Row>, loaded: R.Image)
    requires R.LegalRun(base, recs, cols) && R.LoadedFrom(loaded, base)
    requires forall g :: g in loaded.rows && g in live ==> loaded.rows[g] == live[g]
    ensures Untouched(base, R.Run(base, recs).rows, live) ==>
      R.AsFlushed(loaded, base, R.Run(base, recs).rows, R.Updated(recs))
    ensures R.Run(base, recs).rows == live ==> Untouched(base, live, live)
  {
    hide R.LegalRun, R.Run, R.Updated;
    var final := R.Run(base, recs).rows;
    NoRun(base);
    assert recs[..0] == [];
    if Untouched(base, final, live) {
      forall g | g in base.rows && g in final && g !in R.Updated(recs)
        ensures loaded.rows[g] == base.rows[g]
      {
        R.RunLeaves(base, recs, cols, 0, g);
      }
    }
  }

  // ---- behind the log found on opening ---------------------------------------------------------

  // What transactions log after opening is found by the next recovery exactly if opening cleared the log
  // or the log found was sound; behind a torn or unfinished line none of it is.
  lemma FoundAgain(file: W.LogFile, txs: seq<W.Tx>)
    requires forall i :: 0 <= i < |txs| ==> W.WfTx(txs[i])
    ensures W.CommittedIn(W.WriteRecords(LogAfterOpen(file), W.Flatten(txs)).lines) == W.CommittedOps(txs) <==>
      W.CommittedIn(file.lines) != [] || W.Sound(file) || W.CommittedOps(txs) == []
  {
    hide W.WriteRecords, W.Flatten, W.CommittedOps;
    assert W.CommittedIn(W.NO_LOG.lines) == [];
    W.AfterReopening(LogAfterOpen(file), txs);
  }

  /** Transactions on a database just opened over the log `file`. */
  method RunAfterOpening(db: SnapDB, ghost file: W.LogFile, blocks: seq<Block>)
    requires db.Valid() && !db.inTx && forall i :: 0 <= i < |blocks| ==> AcceptableAll(db.schema, blocks[i].ops)
    requires db.wal.Records() == [] && db.wal.file == db.wal.found == LogAfterOpen(file)
    modifies db`inTx, db`txState, db`txBase, db`txOps, db`txLog
    modifies db.store, db.store.mm, db.store.slabs, db.unique, db.hash.indexes.Values, db.ranges.Values
    modifies db.wal`file, db.wal`buffer, db.wal`log, db.wal`txid, db.wal`inTx
    ensures db.Valid() && !db.inTx && Here(db) == AfterBlocks(db.schema, old(Here(db)), blocks)
    ensures
      var recs := W.CommittedOps(BlockTxs(db.schema, old(Here(db)), blocks, old(db.wal.txid)));
      W.CommittedIn(db.wal.file.lines) == recs <==> W.CommittedIn(file.lines) != [] || W.Sound(file) || recs == []
  {
    hide *;
    ghost var (base, id) := (Here(db), db.wal.txid);
    RowsAreCanonical(db);
    NothingWritten(db.wal.found);
    RunBlocks(db, blocks);
    BlocksLogged(db.schema, base, blocks, id);
    GoodIsWf(db.schema, BlockTxs(db.schema, base, blocks, id));
    FoundAgain(file, BlockTxs(db.schema, base, blocks, id));
  }

  lemma NothingWritten(f: W.LogFile)
    ensures W.WriteRecords(f, []) == f && forall log: W.Log :: [] + log == log
  {
  }

  // ---- end to end ----------------------------------------------------------------------------

  // what is on disk of the records appended, a torn line behind it or not
  lemma CrashedLog(wal: W.Wal, torn: bool, all: W.Log, cut: nat)
    requires wal.Valid() && wal.found == W.NO_LOG && cut + |wal.buffer| == |wal.Records()| && wal.Records() <= all
    ensures cut <= |all| && W.WholePrefix(wal.file.lines + (if torn then [W.Torn] else [])) == all[..cut]
  {
    hide W.WholePrefix, W.WriteRecords;
    var recs := wal.Records()[..cut];
    assert recs == all[..cut] && W.NO_LOG.lines == [];
    EmptyPrefix();
    W.ReadBack(W.NO_LOG, recs);
    W.PrefixPush(wal.file.lines, W.Torn);
    assert wal.file.lines + [] == wal.file.lines;
  }

  lemma EmptyPrefix()
    ensures W.WholePrefix([]) == [] && W.Sound(W.NO_LOG) && forall log: W.Log :: [] + log == log
  {
  }

  /** From a checkpoint through any transactions into one more, in which the process dies, its log cut at what
      was flushed or torn behind it; then the file is opened again. The rows committed come back, under
      their numbers, if and only if those inserted since the checkpoint have no gap below them and
      the transaction cut off left no row rewritten in place that the log does not update. */
  method CrashAndReopen(db: SnapDB, cipher: Cipher, blocks: seq<Block>, ops: seq<RowOp>, torn: bool)
    returns (r: Opened, ghost was: States, ghost rows: map<nat, Row>)
    requires db.Valid() && !db.inTx && AcceptableAll(db.schema, ops)
    requires forall i :: 0 <= i < |blocks| ==> AcceptableAll(db.schema, blocks[i].ops)
    requires OnDisk(db.store.env, db.store.mm.bytes, db.store.states) && Emptied(db.wal)
    requires WfSchema(db.schema) && HeaderFitsEnv(db.store.env)
    requires db.store.env == EnvOf(db.schema, cipher, db.store.env.schemaOffset, db.store.env.pageSize)
    modifies db`inTx, db`txState, db`txBase, db`txOps, db`txLog
    modifies db.store, db.store.mm, db.store.slabs, db.unique, db.hash.indexes.Values, db.ranges.Values
    modifies db.wal`file, db.wal`buffer, db.wal`log, db.wal`txid, db.wal`inTx
    ensures LoadsAs(db.store.env, db.store.mm.bytes, was, rows)
    ensures |was| == |db.store.states|
    ensures |was| == |old(db.store.states)| ==> HighWater(db.store.env, was) == old(Here(db)).next
    ensures
      var (base, final) := (old(Here(db)), AfterBlocks(db.schema, old(Here(db)), blocks).rows);
      var recs := W.CommittedOps(BlockTxs(db.schema, base, blocks, old(db.wal.txid)));
      var loaded := R.Image(rows, HighWater(db.store.env, was));
      && R.LegalRun(base, recs, UniqueColumns(db.schema)) && R.Run(base, recs).rows == final
      && R.LoadedFrom(loaded, base)
      && (r.Ok? && r.db.store.model == final <==>
          R.Contiguous(final, base.next, loaded.next) && R.AsFlushed(loaded, base, final, R.Updated(recs)))
      && (ops == [] ==> R.AsFlushed(loaded, base, final, R.Updated(recs)))
    ensures r.Ok? ==> r.db.Valid() && !r.db.inTx
  {
    hide *;
    ghost var (base, id) := (Here(db), db.wal.txid);
    was, rows := RunUntilCrash(db, blocks, ops);
    ghost var (done, mid) := (BlockTxs(db.schema, base, blocks, id), AfterBlocks(db.schema, base, blocks));
    ghost var last := BlockTx(db.schema, mid, Block(ops, false), id + |blocks| + 1);
    ghost var cut := |db.wal.Records()| - |db.wal.buffer|;
    var file := W.LogFile(db.wal.file.lines + (if torn then [W.Torn] else []), !torn);
    CrashedLog(db.wal, torn, W.Flatten(done + [last]), cut);
    WreckParts(db.schema, db.store.env, base, done, last, db.store.model, db.store.mm.bytes, was, rows);
    assert W.CommittedOps(done) + [] == W.CommittedOps(done);
    NothingDone(db.schema, base, mid, ops, db.store.model);
    LoadsIs(db.store.env, db.store.mm.bytes, was, rows);
    r := Reopen(db.schema, cipher, db.store.env, db.store.mm.bytes, file, base, done, last, db.store.model, was, rows,
        cut);
  }

  lemma NothingDone(schema: Schema, base: R.Image, mid: R.Image, ops: seq<RowOp>, live: map<nat, Row>)
    requires live == MeaningAll(schema, mid, ops).rows
    ensures ops == [] ==> Untouched(base, mid.rows, live)
  {
  }

  lemma LoadsIs(env: Env, bytes: seq<byte>, was: States, rows: map<nat, Row>)
    requires OnDisk(env, bytes, was) && Consistent(env, bytes, was, rows) && FilledUpTo(env, was, |was| - 1)
    ensures LoadsAs(env, bytes, was, rows)
  {
  }

  // ---- a crash in the middle of compaction -----------------------------------------------------

  /** From an empty log through any transactions into a compaction that dies between putting the new file in place
      and clearing the log; then the new file is opened over the old log. The compacted rows come back as they
      are if that log touches none of them, and, unless it deletes the row with the next number, only then. */
  method CrashInCompact(db: SnapDB, cipher: Cipher, schemaJson: seq<byte>, blocks: seq<Block>)
    returns (r: Opened, ghost packed: seq<Row>)
    requires db.Valid() && !db.inTx && Emptied(db.wal)
    requires forall i :: 0 <= i < |blocks| ==> AcceptableAll(db.schema, blocks[i].ops)
    requires WfSchema(db.schema) && HeaderFitsEnv(db.store.env)
    requires HEADER_SIZE + |schemaJson| == db.store.env.schemaOffset
    requires db.store.env == EnvOf(db.schema, cipher, db.store.env.schemaOffset, db.store.env.pageSize)
    modifies db`inTx, db`txState, db`txBase, db`txOps, db`txLog
    modifies db.store, db.store.mm, db.store.slabs, db.unique, db.hash.indexes.Values, db.ranges.Values
    modifies db.wal`file, db.wal`buffer, db.wal`log, db.wal`txid, db.wal`inTx
    ensures
      var after := AfterBlocks(db.schema, old(Here(db)), blocks);
      packed == Payload(Select(after.rows, Always, after.next))
    ensures
      var (base, after) := (old(Here(db)), AfterBlocks(db.schema, old(Here(db)), blocks));
      var recs := W.CommittedOps(BlockTxs(db.schema, base, blocks, old(db.wal.txid)));
      var (p, n) := (PutAll(map[], 0, packed), |packed|);
      && R.LegalRun(base, recs, UniqueColumns(db.schema)) && R.Run(base, recs).rows == after.rows
      && (Untouching(recs, after.rows, p, n) ==> r.Ok? && r.db.store.model == p)
      && (r.Ok? && r.db.store.model == p ==> O.NoneDropped(recs, n) && O.NoneChanged(recs, after.rows, p))
      && (n !in R.Deleted(recs) ==> (r.Ok? && r.db.store.model == p <==> Untouching(recs, after.rows, p, n)))
    ensures r.Ok? ==> r.db.Valid() && !r.db.inTx
  {
    hide *;
    var schema := db.schema;
    ghost var (base, id) := (Here(db), db.wal.txid);
    EmptiedIs(db.wal);
    NothingLogged();
    RowsAreCanonical(db);
    RunBlocks(db, blocks);
    BlocksLogged(schema, base, blocks, id);
    ghost var (after, txs) := (Here(db), BlockTxs(schema, base, blocks, id));
    LeadsIs(base, W.CommittedOps(txs), after, UniqueColumns(schema));
    OldLogIs(schema, txs);
    var file := db.wal.file;
    packed := PutCompacted(db, schemaJson, after);
    OldLogOverCompacted(schema, base, packed, file);
    r := Lifecycle.Open(schema, cipher, db.store.env, db.store.mm.bytes, file, db.store.states, db.store.model);
    IfOpens(r, schema, Replayed(schema, PutAll(map[], 0, packed), |packed|, file));
  }

  lemma LeadsIs(base: R.Image, recs: W.Log, now: R.Image, cols: seq<Col>)
    requires LeadsTo(base, recs, now, cols)
    ensures R.LegalRun(base, recs, cols) && R.Run(base, recs).rows == now.rows
  {
  }

  // what whole transactions wrote to an empty log
  lemma OldLogIs(schema: Schema, txs: seq<W.Tx>)
    requires GoodTxs(schema, txs)
    ensures var lines := W.WriteRecords(W.NO_LOG, W.Flatten(txs)).lines;
      && W.CommittedIn(lines) == W.CommittedOps(txs)
      && forall rec :: rec in W.WholePrefix(lines) ==> LoggedRow(schema, rec)
  {
    hide W.WriteRecords, W.Flatten, W.CommittedOps, W.WholePrefix, W.CommittedIn, GoodTxs, LoggedRow;
    EmptyPrefix();
    GoodIsWf(schema, txs);
    FlattenGood(schema, txs);
    W.ReadBack(W.NO_LOG, W.Flatten(txs));
    assert W.NO_LOG.lines == [];
    CommittedIs([]);
    W.AfterReopening(W.NO_LOG, txs);
  }

  lemma ScanAll(db: SnapDB)
    requires db.StoreOk()
    ensures Select(db.store.model, Always, Times(|db.store.states|, db.store.env.rps)) ==
      Select(db.store.model, Always, HighWater(db.store.env, db.store.states))
  {
    hide *;
    ScanIsComplete(db);
    ScanIs(db, Always);
  }

  /** The compacted file takes the place of the old one. */
  method PutCompacted(db: SnapDB, schemaJson: seq<byte>, ghost after: R.Image) returns (ghost packed: seq<Row>)
    requires db.Valid() && HeaderFitsEnv(db.store.env) && after == Here(db)
    requires HEADER_SIZE + |schemaJson| == db.store.env.schemaOffset
    modifies db.store
    ensures packed == Payload(Select(after.rows, Always, after.next))
    ensures OnDisk(db.store.env, db.store.mm.bytes, db.store.states)
    ensures Consistent(db.store.env, db.store.mm.bytes, db.store.states, db.store.model)
    ensures FilledUpTo(db.store.env, db.store.states, |db.store.states| - 1)
    ensures db.store.model == PutAll(map[], 0, packed) && HighWater(db.store.env, db.store.states) == |packed|
    ensures Distinct(db.store.model, UniqueColumns(db.schema))
  {
    hide *;
    HereIs(db);
    db.Parts();
    db.StoreParts();
    OwnersApart(db);
    RowsStayDistinct(after.rows, after.next, UniqueColumns(db.schema));
    ScanAll(db);
    packed := db.store.Compact(schemaJson);
    db.store.Parts();
  }
}
