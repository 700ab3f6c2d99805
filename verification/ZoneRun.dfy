/** From an empty database through two inserts, a reopening and a rollback to a row that a range search misses. */
module ZoneRuns {
  import opened Bits
  import opened Values
  import opened Codec
  import opened Layout
  import opened Images
  import opened Slabs
  import opened Persist
  import opened UniqueKeys
  import opened SnapDBs
  import opened Lookups
  import opened Transactions
  import opened Lifecycle
  import W = Wals

  const KEYED: Schema := [ColumnDef("k", IntKind(4, true), false)]

  lemma OneColumn(cipher: Cipher, schemaOffset: nat)
    ensures WfSchema(KEYED) && RowWidth(KEYED) == 4 && Names(KEYED) == {"k"} && UniqueColumns(KEYED) == []
    ensures var env := EnvOf(KEYED, cipher, schemaOffset, 4096); env.zoneCols == ["k"] && env.rps == 1024
  {
    assert KEYED[1..] == [];
    OneName();
  }

  lemma OneName()
    ensures Names(KEYED) == {"k"} && "k" in Names(KEYED)
  {
    assert KEYED[0].name == "k" && KEYED[0].name in Names(KEYED);
  }

  // a row with a small number in column k is taken as it is
  lemma SmallRow(n: int)
    requires 0 <= n <= 2
    ensures Storable(KEYED, map["k" := Num(n)]) && Shaped(KEYED, map["k" := Num(n)])
    ensures Restrict(KEYED, map["k" := Num(n)]) == map["k" := Num(n)]
    ensures forall m, i :: Unclashed(m, [], i, map["k" := Num(n)])
  {
    assert KEYED[1..] == [];
    assert Pow256(4) == 256 * Pow256(3) && Pow256(3) == 256 * Pow256(2) && Pow256(2) == 256 * Pow256(1);
    assert Pow256(1) == 256 * Pow256(0);
    OneName();
  }

  /** Rows 0 and 1, with 1 and 2 in column k, written, checkpointed and loaded again. */
  method TwoRowsReopened(cipher: Cipher, schemaJson: seq<byte>) returns (db: SnapDB)
    requires HEADER_SIZE + |schemaJson| < Pow256(8)
    ensures db.Valid() && !db.inTx && db.Zoned() && db.schema == KEYED && TwoRows(db, "k", 1, 2)
    ensures fresh(db) && fresh(db.store) && fresh(db.store.mm) && fresh(db.unique) && fresh(db.wal)
    ensures (forall s :: s in db.store.slabs ==> fresh(s)) && db.hash.indexes == map[] && db.ranges == map[]
    ensures db.store.model == map[0 := map["k" := Num(1)], 1 := map["k" := Num(2)]]
  {
    hide *;
    OneColumn(cipher, HEADER_SIZE + |schemaJson|);
    NothingCommitted();
    var created := CreateDb(KEYED, cipher, 4096, schemaJson, W.NO_LOG);
    var first := created.result.db;
    NoIndexes(first);
    SmallRow(1);
    SmallRow(2);
    SlabsAre(first);
    assert forall k :: 0 <= k < |first.store.slabs| ==> first.store.slabs[k] in first.store.slabs;
    var r0 := first.Insert(map["k" := Num(1)]);
    RowsFit(first.store.env, |first.store.slabs|, 1);
    NoIndexes(first);
    assert forall k :: 0 <= k < |first.store.slabs| ==> first.store.slabs[k] in first.store.slabs;
    var r1 := first.Insert(map["k" := Num(2)]);
    ghost var states := first.store.states;
    OneSlab(first);
    EnvParts(cipher, HEADER_SIZE + |schemaJson|);
    var again := CheckpointAndReopen(first, cipher);
    db := again.db;
    TwoAre(db, states);
  }

  lemma EnvParts(cipher: Cipher, schemaOffset: nat)
    ensures WfSchema(KEYED)
    ensures var env := EnvOf(KEYED, cipher, schemaOffset, 4096);
      env.schemaOffset == schemaOffset && env.pageSize == 4096
  {
    OneColumn(cipher, schemaOffset);
  }

  // two rows fit the one slab there is
  lemma OneSlab(db: SnapDB)
    requires db.Valid() && db.store.env.rps == 1024 && LeastSlabs(db.store.env, 1, |db.store.slabs|, 2)
    ensures |db.store.states| == 1
  {
    hide *;
    SlabsAre(db);
    RowsFit(db.store.env, |db.store.slabs|, 2);
  }

  lemma RowsFit(env: Env, n: nat, rows: nat)
    requires env.rps == 1024 && LeastSlabs(env, 1, n, rows) && rows <= 2
    ensures n == 1
  {
    TimesNext(0, env.rps);
    assert Times(0, env.rps) == 0;
    LeastSlabsUnique(env, 1, n, 1, rows);
  }

  lemma NoIndexes(db: SnapDB)
    ensures db.hash.indexes == map[] ==> db.hash.indexes.Values == {}
    ensures db.ranges == map[] ==> db.ranges.Values == {}
  {
  }

  lemma TwoAre(db: SnapDB, states: States)
    requires db.store.env.rps == 1024 && db.store.env.zoneCols == ["k"] && |states| == 1
    requires db.store.states == ReloadedAll(states)
    requires db.store.model == map[0 := map["k" := Num(1)], 1 := map["k" := Num(2)]]
    ensures TwoRows(db, "k", 1, 2)
  {
    assert db.store.model.Keys == {0, 1};
  }

  lemma NothingCommitted()
    ensures W.CommittedIn(W.NO_LOG.lines) == [] && W.WholePrefix(W.NO_LOG.lines) == []
  {
  }

  /** Row 1 is deleted in a transaction, a range search builds the zone map without it, and rollback puts it back
      behind the map: it is live again, and a range search for its value does not find it. */
  method RunHidesRow(cipher: Cipher, schemaJson: seq<byte>) returns (db: SnapDB, found: Found)
    requires HEADER_SIZE + |schemaJson| < Pow256(8)
    ensures db.Valid() && db.store.model == map[0 := map["k" := Num(1)], 1 := map["k" := Num(2)]] && !db.Zoned()
    ensures found == Found.Rows([])
  {
    hide *;
    db := TwoRowsReopened(cipher, schemaJson);
    NoIndexes(db);
    OneName();
    assert forall k :: 0 <= k < |db.store.slabs| ==> db.store.slabs[k] in db.store.slabs;
    found := RollbackHidesRow(db, "k", 1, 2);
  }
}
