/** Building indexes, and answering equality and range queries from an index or by a scan. */
module Lookups {
  import opened Bits
  import opened Values
  import opened Codec
  import opened Layout
  import opened Images
  import opened Indexes
  import opened Slabs
  import opened Persist
  import opened Stores
  import opened UniqueKeys
  import opened SnapDBs
  import Recovery

  // ---- lists of numbered rows -----------------------------------------------------

  /** The rows of a list by number. */
  function Listed(rows: seq<(nat, Row)>): map<nat, Row> {
    if rows == [] then map[] else Listed(rows[..|rows| - 1])[rows[|rows| - 1].0 := rows[|rows| - 1].1]
  }

  lemma {:induction false} ListedBelow(rows: seq<(nat, Row)>, bound: nat)
    requires forall i :: 0 <= i < |rows| ==> rows[i].0 < bound
    ensures forall g :: g in Listed(rows) ==> g < bound
  {
    if rows != [] {
      ListedBelow(rows[..|rows| - 1], bound);
    }
  }

  lemma {:induction false} ListedHas(rows: seq<(nat, Row)>)
    requires Ascending(rows)
    ensures forall e :: e in rows <==> e.0 in Listed(rows) && Listed(rows)[e.0] == e.1
  {
    if rows != [] {
      var front, last := rows[..|rows| - 1], rows[|rows| - 1];
      ListedHas(front);
      ListedBelow(front, last.0);
      assert rows == front + [last];
    }
  }

  lemma ListedPush(rows: seq<(nat, Row)>, k: nat)
    requires k < |rows| && Ascending(rows)
    ensures Listed(rows[..k + 1]) == Listed(rows[..k])[rows[k].0 := rows[k].1] && rows[k].0 !in Listed(rows[..k])
  {
    assert rows[..k + 1][..k] == rows[..k];
    ListedBelow(rows[..k], rows[k].0);
  }

  /** Every live row of m, in row-number order. */
  ghost predicate IsListing(rows: seq<(nat, Row)>, m: map<nat, Row>) {
    Ascending(rows) && Listed(rows) == m && forall e :: e in rows <==> e.0 in m && m[e.0] == e.1
  }

  lemma FullScanIsListing(m: map<nat, Row>, n: nat)
    requires forall g :: g in m ==> g < n
    ensures IsListing(Select(m, Always, n), m)
  {
    SelectExact(m, Always, n);
    ListedHas(Select(m, Always, n));
    var l := Listed(Select(m, Always, n));
    forall g
      ensures g in l <==> g in m
      ensures g in l ==> l[g] == m[g]
    {
      if g in l {
        assert (g, l[g]) in Select(m, Always, n);
      }
      if g in m {
        assert (g, m[g]) in Select(m, Always, n);
      }
    }
  }

  /** What a scan of the database with a predicate yields. */
  ghost function Scan(db: SnapDB, p: Row -> bool): seq<(nat, Row)>
    reads db.store
  {
    Select(db.store.model, p, HighWater(db.store.env, db.store.states))
  }

  lemma ScanIsComplete(db: SnapDB)
    requires db.StoreOk()
    ensures forall g :: g in db.store.model ==> g < HighWater(db.store.env, db.store.states)
    ensures forall p :: Select(db.store.model, p, Times(|db.store.states|, db.store.env.rps)) == Scan(db, p)
  {
    db.NextIsFree();
    db.store.Parts();
    var hw, n := HighWater(db.store.env, db.store.states), Times(|db.store.states|, db.store.env.rps);
    HighWaterFits(db.store.env, db.store.states);
    forall p: Row -> bool
      ensures Select(db.store.model, p, n) == Scan(db, p)
    {
      SelectBeyond(db.store.model, p, hw, n);
    }
  }

  lemma HighWaterFits(env: Env, states: States)
    requires WfStates(env, states)
    ensures HighWater(env, states) <= Times(|states|, env.rps)
  {
    if states != [] {
      assert WfState(env, states[|states| - 1]);
      TimesNext(|states| - 1, env.rps);
    }
  }

  /** `for idx, row in self` */
  method AllRows(db: SnapDB) returns (rows: seq<(nat, Row)>)
    requires db.StoreOk()
    ensures rows == Scan(db, Always) && IsListing(rows, db.store.model)
  {
    hide *;
    db.StoreParts();
    ScanIsComplete(db);
    rows := db.store.Rows();
    ListingIsBounded(db);
    FullScanIsListing(db.store.model, Times(|db.store.states|, db.store.env.rps));
  }

  lemma ListingIsBounded(db: SnapDB)
    requires db.StoreOk()
    ensures forall g :: g in db.store.model ==> g < Times(|db.store.states|, db.store.env.rps)
  {
    ScanIsComplete(db);
    db.store.Parts();
    HighWaterFits(db.store.env, db.store.states);
  }

  // ---- what a list of rows holds -----------------------------------------------------

  /** The numbers a row is stored under. */
  ghost function Holders(m: map<nat, Row>, row: Row): set<nat> { set i | i in m && m[i] == row }

  // a scan lists every accepted row as often as it is stored
  lemma CopiesFound(m: map<nat, Row>, p: Row -> bool, n: nat)
    requires forall g :: g in m ==> g < n
    ensures forall row :: multiset(Payload(Select(m, p, n)))[row] == if p(row) then |Holders(m, row)| else 0
  {
    forall row
      ensures multiset(Payload(Select(m, p, n)))[row] == if p(row) then |Holders(m, row)| else 0
    {
      CopiesBelow(m, p, n, row);
      assert Holders(m, row) == set i | i in m && i < n && m[i] == row;
    }
  }

  lemma {:induction false} CopiesBelow(m: map<nat, Row>, p: Row -> bool, n: nat, row: Row)
    ensures multiset(Payload(Select(m, p, n)))[row] ==
      if p(row) then |set i | i in m && i < n && m[i] == row| else 0
  {
    hide *;
    if n == 0 {
      NoRowYet(m, p);
      assert (set i | i in m && i < n && m[i] == row) == {};
    } else {
      CopiesBelow(m, p, n - 1, row);
      OneRowMore(m, p, n - 1);
      var below, now := set i | i in m && i < n - 1 && m[i] == row, set i | i in m && i < n && m[i] == row;
      if n - 1 in m && m[n - 1] == row {
        assert now == below + {n - 1};
      } else {
        assert now == below;
      }
    }
  }

  lemma NoRowYet(m: map<nat, Row>, p: Row -> bool)
    ensures Payload(Select(m, p, 0)) == []
  {
  }

  lemma OneRowMore(m: map<nat, Row>, p: Row -> bool, i: nat)
    ensures Payload(Select(m, p, i + 1)) ==
      if i in m && p(m[i]) then Payload(Select(m, p, i)) + [m[i]] else Payload(Select(m, p, i))
  {
    if i in m && p(m[i]) {
      PayloadAppend(Select(m, p, i), [(i, m[i])]);
      assert Payload([(i, m[i])]) == [m[i]];
    }
  }

  /** The rows are those under the given numbers, which rise. */
  ghost predicate Numbered(rows: seq<Row>, nums: seq<nat>, m: map<nat, Row>) {
    |rows| == |nums| && Increasing(nums) && forall k :: 0 <= k < |nums| ==> nums[k] in m && rows[k] == m[nums[k]]
  }

  // a scan lists exactly the accepted rows, by number
  lemma ScanNumbers(m: map<nat, Row>, p: Row -> bool, n: nat) returns (nums: seq<nat>)
    requires forall g :: g in m ==> g < n
    ensures Numbered(Payload(Select(m, p, n)), nums, m) && forall i :: i in nums <==> i in m && p(m[i])
  {
    var found := Select(m, p, n);
    SelectExact(m, p, n);
    nums := seq(|found|, k requires 0 <= k < |found| => found[k].0);
    forall k | 0 <= k < |found|
      ensures found[k].0 in m && m[found[k].0] == found[k].1 && p(found[k].1)
    {
      assert found[k] in found;
    }
    forall i | i in m && p(m[i])
      ensures i in nums
    {
      assert (i, m[i]) in found;
      var k :| 0 <= k < |found| && found[k] == (i, m[i]);
      assert nums[k] == i;
    }
  }

  // ---- building indexes -------------------------------------------------------------

  method FillHash(index: HashIndex, rows: seq<(nat, Row)>, ghost m: map<nat, Row>)
    requires index.Agrees(map[]) && IsListing(rows, m)
    modifies index
    ensures index.Agrees(m)
  {
    hide HashIndex.Agrees;
    assert rows[..0] == [];
    for k := 0 to |rows|
      invariant index.Agrees(Listed(rows[..k]))
    {
      ListedPush(rows, k);
      index.Insert(rows[k].0, rows[k].1, Listed(rows[..k]));
    }
    assert rows[..|rows|] == rows;
  }

  method CreateIndex(db: SnapDB, column: Col)
    requires db.StoreOk() && db.Derived(db.store.model)
    modifies db.hash
    ensures db.StoreOk() && db.Derived(db.store.model) && (old(db.Valid()) ==> db.Valid())
    ensures forall c :: c in db.hash.indexes <==> c in old(db.hash.indexes) || c == column
    ensures forall c :: c in old(db.hash.indexes) ==> db.hash.indexes[c] == old(db.hash.indexes)[c]
    ensures column !in old(db.hash.indexes) ==> fresh(db.hash.indexes[column])
  {
    hide *;
    ghost var valid := db.Valid();
    if valid {
      db.Parts();
    }
    if column in db.hash.indexes {
      return;
    }
    db.DerivedParts(db.store.model);
    var index := new HashIndex(column);
    var rows := AllRows(db);
    FillHash(index, rows, db.store.model);
    AddHash(db.hash, column, index, db.store.model);
    db.DerivedWhole(db.store.model);
    if valid {
      db.Whole();
    }
  }

  method AddHash(hash: MultiIndex, column: Col, index: HashIndex, ghost m: map<nat, Row>)
    requires hash.Agrees(m) && index.Agrees(m) && index.column == column
    modifies hash
    ensures hash.Agrees(m) && hash.indexes == old(hash.indexes)[column := index]
  {
    hide HashIndex.Agrees;
    hash.indexes := hash.indexes[column := index];
  }

  datatype IndexResult = Created | NoSuchColumn

  method CreateRangeIndex(db: SnapDB, column: Col) returns (r: IndexResult)
    requires db.StoreOk() && db.Derived(db.store.model)
    modifies db`ranges
    ensures db.StoreOk() && db.Derived(db.store.model) && (old(db.Valid()) ==> db.Valid())
    ensures r.Created? <==> column in Names(db.schema)
    ensures forall c :: c in db.ranges <==> c in old(db.ranges) || (r.Created? && c == column)
    ensures forall c :: c in old(db.ranges) ==> db.ranges[c] == old(db.ranges)[c]
    ensures forall c :: c in db.ranges && c !in old(db.ranges) ==> fresh(db.ranges[c])
  {
    hide *;
    ghost var valid := db.Valid();
    if valid {
      db.Parts();
    }
    if column !in Names(db.schema) {
      return NoSuchColumn;
    }
    r := Created;
    if column in db.ranges {
      return;
    }
    db.DerivedParts(db.store.model);
    var index := new RangeIndex(column);
    var rows := AllRows(db);
    ListingParts(rows, db.store.model);
    index.Build(rows, db.store.model);
    AddedRange(db.ranges, column, index, db.store.model);
    db.ranges := db.ranges[column := index];
    assert db.ranges.Keys == old(db.ranges.Keys) + {column};
    db.DerivedWhole(db.store.model);
    if valid {
      db.Whole();
    }
  }

  lemma ListingParts(rows: seq<(nat, Row)>, m: map<nat, Row>)
    requires IsListing(rows, m)
    ensures forall i, j :: 0 <= i < j < |rows| ==> rows[i].0 != rows[j].0
    ensures forall e :: e in rows <==> e.0 in m && m[e.0] == e.1
  {
  }

  lemma AddedRange(ranges: RangeIndexes, column: Col, index: RangeIndex, m: map<nat, Row>)
    requires RangesAgree(ranges, m) && index.Agrees(m) && index.column == column
    ensures RangesAgree(ranges[column := index], m)
  {
    hide RangeIndex.Agrees;
  }

  // ---- find ---------------------------------------------------------------------------

  datatype Found = Rows(rows: seq<Row>) | UnknownColumn(c: Col)

  /** The row has the value asked for in every column asked about. */
  ghost predicate HasPairs(row: Row, query: seq<(Col, Value)>) {
    forall k :: 0 <= k < |query| ==> query[k].0 in row && row[query[k].0] == query[k].1
  }

  function MatchesPred(query: seq<(Col, Value)>): Row -> bool { row => Matches(row, query) }

  /** find(): the rows matching every pair, in row-number order, from the hash indexes or by a scan. */
  method Find(db: SnapDB, query: seq<(Col, Value)>) returns (r: Found)
    requires db.Valid()
    ensures r.UnknownColumn? <==> exists k :: 0 <= k < |query| && query[k].0 !in Names(db.schema)
    ensures r.Rows? ==> r.rows == if query == [] then [] else Payload(Scan(db, MatchesPred(query)))
    ensures r.Rows? && query != [] ==> exists nums ::
      && Numbered(r.rows, nums, db.store.model)
      && forall i :: i in nums <==> i in db.store.model && HasPairs(db.store.model[i], query)
  {
    hide *;
    if query == [] {
      return Found.Rows([]);
    }
    var indexed := true;
    for k := 0 to |query|
      invariant forall j :: 0 <= j < k ==> query[j].0 in Names(db.schema)
      invariant indexed <==> forall j :: 0 <= j < k ==> query[j].0 in db.hash.indexes
    {
      if query[k].0 !in Names(db.schema) {
        return UnknownColumn(query[k].0);
      }
      indexed := indexed && query[k].0 in db.hash.indexes;
    }
    db.Parts();
    var rows;
    if indexed {
      rows := FindIndexed(db, query);
    } else {
      rows := FindScan(db, MatchesPred(query));
    }
    r := Found.Rows(rows);
    ghost var nums := NumbersFound(db, query);
  }

  // the scan's matches, column by column
  lemma NumbersFound(db: SnapDB, query: seq<(Col, Value)>) returns (nums: seq<nat>)
    requires db.StoreOk() && forall k :: 0 <= k < |query| ==> query[k].0 in Names(db.schema)
    ensures Numbered(Payload(Scan(db, MatchesPred(query))), nums, db.store.model)
    ensures forall i :: i in nums <==> i in db.store.model && HasPairs(db.store.model[i], query)
  {
    hide *;
    var m := db.store.model;
    ScanIsComplete(db);
    ScanIs(db, MatchesPred(query));
    nums := ScanNumbers(m, MatchesPred(query), HighWater(db.store.env, db.store.states));
    forall i | i in m
      ensures MatchesPred(query)(m[i]) <==> HasPairs(m[i], query)
    {
      db.LiveIsCanonical(i);
      MatchesColumns(db.schema, m[i], query);
    }
  }

  lemma MatchesColumns(schema: Schema, row: Row, query: seq<(Col, Value)>)
    requires RowCanonical(schema, row) && forall k :: 0 <= k < |query| ==> query[k].0 in Names(schema)
    ensures MatchesPred(query)(row) <==> HasPairs(row, query)
  {
  }

  method FindIndexed(db: SnapDB, query: seq<(Col, Value)>) returns (rows: seq<Row>)
    requires db.StoreOk() && db.Derived(db.store.model)
    requires query != [] && forall k :: 0 <= k < |query| ==> query[k].0 in db.hash.indexes
    ensures rows == Payload(Scan(db, MatchesPred(query)))
  {
    hide *;
    db.StoreParts();
    db.DerivedParts(db.store.model);
    var found := db.hash.Lookup(query, db.store.model);
    ghost var picked;
    rows, picked := Fetch(db, found.rows);
    PickedIsScan(db, query, found.rows, picked);
  }

  /** The rows with the given numbers, all live. */
  method Fetch(db: SnapDB, idxs: seq<nat>) returns (rows: seq<Row>, ghost picked: seq<(nat, Row)>)
    requires db.store.Valid() && forall i :: i in idxs ==> i in db.store.model
    ensures |picked| == |idxs| && forall i :: 0 <= i < |idxs| ==> picked[i] == (idxs[i], db.store.model[idxs[i]])
    ensures rows == Payload(picked)
  {
    hide *;
    rows, picked := [], [];
    PayloadNone();
    assert picked[..0] == [];
    for i := 0 to |idxs|
      invariant |picked| == i && forall j :: 0 <= j < i ==> picked[j] == (idxs[j], db.store.model[idxs[j]])
      invariant rows == Payload(picked)
    {
      var row := db.store.GetRow(idxs[i]);
      picked := picked + [(idxs[i], row.value)];
      PayloadPush(picked, i);
      assert picked[..i + 1] == picked && picked[..i] == picked[..|picked| - 1];
      rows := rows + [row.value];
    }
  }

  // row numbers of exactly the matching rows, in order, are the scan's
  lemma PickedIsScan(db: SnapDB, query: seq<(Col, Value)>, idxs: seq<nat>, picked: seq<(nat, Row)>)
    requires db.StoreOk() && Increasing(idxs)
    requires forall i :: i in idxs <==> i in db.store.model && Matches(db.store.model[i], query)
    requires |picked| == |idxs| && forall i :: 0 <= i < |idxs| ==> picked[i] == (idxs[i], db.store.model[idxs[i]])
    ensures picked == Scan(db, MatchesPred(query))
  {
    ScanIsComplete(db);
    PickedIsSelect(db.store.model, HighWater(db.store.env, db.store.states), query, idxs, picked);
  }

  lemma PickedIsSelect(m: map<nat, Row>, n: nat, query: seq<(Col, Value)>, idxs: seq<nat>, picked: seq<(nat, Row)>)
    requires (forall g :: g in m ==> g < n) && Increasing(idxs)
    requires forall i :: i in idxs <==> i in m && Matches(m[i], query)
    requires |picked| == |idxs| && forall i :: 0 <= i < |idxs| ==> picked[i] == (idxs[i], m[idxs[i]])
    ensures picked == Select(m, MatchesPred(query), n)
  {
    SelectExact(m, MatchesPred(query), n);
    forall e
      ensures e in picked <==> e in Select(m, MatchesPred(query), n)
    {
      if e in Select(m, MatchesPred(query), n) {
        assert e.0 in idxs;
        var i :| 0 <= i < |idxs| && idxs[i] == e.0;
        assert picked[i] == e;
      }
    }
    AscendingUnique(picked, Select(m, MatchesPred(query), n));
  }

  /** A scan that keeps the matching rows. */
  method FindScan(db: SnapDB, p: Row -> bool) returns (rows: seq<Row>)
    requires db.StoreOk()
    ensures rows == Payload(Scan(db, p))
  {
    hide *;
    var all := AllRows(db);
    FilterOfScan(db, p);
    rows := [];
    PayloadNone();
    FilterNone(all, p);
    for i := 0 to |all|
      invariant rows == Payload(Filter(all[..i], p))
    {
      FilterPayload(all, p, i);
      if p(all[i].1) {
        rows := rows + [all[i].1];
      }
    }
    assert all[..|all|] == all;
  }

  lemma FilterOfScan(db: SnapDB, p: Row -> bool)
    ensures Filter(Scan(db, Always), p) == Scan(db, p)
  {
    FilterSelect(db.store.model, p, HighWater(db.store.env, db.store.states));
  }

  lemma FilterNone(s: seq<(nat, Row)>, p: Row -> bool)
    ensures Payload(Filter(s[..0], p)) == []
  {
    assert s[..0] == [];
  }

  lemma FilterPayload(s: seq<(nat, Row)>, p: Row -> bool, i: nat)
    requires i < |s|
    ensures Payload(Filter(s[..i + 1], p)) == Payload(Filter(s[..i], p)) + (if p(s[i].1) then [s[i].1] else [])
  {
    assert s[..i + 1] == s[..i] + [s[i]];
    FilterPush(s[..i], s[i], p);
  }

  // ---- range_find -----------------------------------------------------------------------

  /** range_find(): by range index when there is one, else by the pruned scan, which builds zone maps on
      its way; with sound maps the same rows either way. */
  method RangeFind(db: SnapDB, column: Col, low: Bound, high: Bound) returns (r: Found)
    requires db.Valid()
    modifies db.store`states, db.store.slabs`zoneMin, db.store.slabs`zoneMax, db.store.slabs`zoneBuilt
    ensures db.Valid() && db.store.env.rps > 0 && |db.store.states| == |old(db.store.states)|
    ensures HighWater(db.store.env, db.store.states) == old(HighWater(db.store.env, db.store.states))
    ensures r.UnknownColumn? <==> column !in Names(db.schema)
    ensures r.Rows? && column in db.ranges ==>
      multiset(r.rows) == multiset(Payload(Scan(db, RangePred(column, low, high))))
    ensures r.Rows? && column !in db.ranges ==>
      r.rows == Payload(Select(Unpruned(db.store.env, db.store.states, db.store.model, column, low, high),
                               RangePred(column, low, high), Times(|db.store.states|, db.store.env.rps)))
    ensures r.Rows? && column !in db.ranges && old(db.Zoned()) ==>
      r.rows == Payload(Scan(db, RangePred(column, low, high)))
    ensures r.Rows? && (column in db.ranges || old(db.Zoned())) ==>
      && (NumBounds(low, high) ==> HoldsNumbers(r.rows, db.store.model, column, low, high))
      && (TextBounds(low, high) ==> HoldsTexts(r.rows, db.store.model, column, low, high))
    ensures r.Rows? ==> forall row :: row in r.rows ==> Wanted(db.store.model, column, low, high, row)
    ensures r.UnknownColumn? || column in db.ranges ==> db.store.states == old(db.store.states)
    ensures r.Rows? && column !in db.ranges ==> forall k :: 0 <= k < |db.store.states| ==>
      MapReady(db.store.env, db.store.model, k, old(db.store.states)[k], db.store.states[k])
    ensures old(db.Zoned()) ==> db.Zoned()
    ensures old(db.AllBuilt()) ==> db.store.states == old(db.store.states)
  {
    hide *;
    db.Parts();
    db.StoreParts();
    if column !in Names(db.schema) {
      return UnknownColumn(column);
    }
    var rows;
    if column in db.ranges {
      rows := RangeIndexed(db, column, low, high);
    } else {
      rows := RangeScanned(db, column, low, high);
    }
    r := Found.Rows(rows);
    db.Parts();
    RowsFound(db, column, low, high, rows);
  }

  /** Of the rows with an integer in the column, the list holds those with one between the bounds, each as often
      as it is stored. */
  ghost predicate HoldsNumbers(rows: seq<Row>, m: map<nat, Row>, column: Col, low: Bound, high: Bound)
    requires NumBounds(low, high)
  {
    forall row: Row :: column in row && row[column].Num? ==>
      multiset(rows)[row] == if NumWithin(row[column].n, low, high) then |Holders(m, row)| else 0
  }

  /** Of the rows with a text in the column, the list holds those with one between the bounds, each as often as it
      is stored. */
  ghost predicate HoldsTexts(rows: seq<Row>, m: map<nat, Row>, column: Col, low: Bound, high: Bound)
    requires TextBounds(low, high)
  {
    forall row: Row :: column in row && row[column].Text? ==>
      multiset(rows)[row] == if TextWithin(row[column].s, low, high) then |Holders(m, row)| else 0
  }

  /** A live row with a value in the column, which lies between the bounds. */
  ghost predicate Wanted(m: map<nat, Row>, column: Col, low: Bound, high: Bound, row: Row) {
    && Holders(m, row) != {} && column in row && row[column] != Null
    && (row[column].Num? && NumBounds(low, high) ==> NumWithin(row[column].n, low, high))
    && (row[column].Text? && TextBounds(low, high) ==> TextWithin(row[column].s, low, high))
  }

  // the rows a range search finds, seen through the integers and the texts themselves
  lemma RowsFound(db: SnapDB, column: Col, low: Bound, high: Bound, rows: seq<Row>)
    requires db.StoreOk() && db.store.env.rps > 0
    ensures multiset(rows) == multiset(Payload(Scan(db, RangePred(column, low, high)))) ==>
      && (NumBounds(low, high) ==> HoldsNumbers(rows, db.store.model, column, low, high))
      && (TextBounds(low, high) ==> HoldsTexts(rows, db.store.model, column, low, high))
      && forall row :: row in rows ==> Wanted(db.store.model, column, low, high, row)
    ensures rows == Payload(Select(Unpruned(db.store.env, db.store.states, db.store.model, column, low, high),
                                   RangePred(column, low, high), Times(|db.store.states|, db.store.env.rps))) ==>
      forall row :: row in rows ==> Wanted(db.store.model, column, low, high, row)
  {
    hide *;
    ListingIsBounded(db);
    ScanIsComplete(db);
    ScanIs(db, RangePred(column, low, high));
    var m, n := db.store.model, Times(|db.store.states|, db.store.env.rps);
    ghost var part := Unpruned(db.store.env, db.store.states, m, column, low, high);
    PartIsStored(db.store.env, db.store.states, m, column, low, high);
    if multiset(rows) == multiset(Payload(Scan(db, RangePred(column, low, high)))) {
      RowsInRange(m, m, HighWater(db.store.env, db.store.states), column, low, high, rows);
    }
    if rows == Payload(Select(part, RangePred(column, low, high), n)) {
      RowsInRange(part, m, n, column, low, high, rows);
    }
  }

  lemma PartIsStored(env: Env, states: States, m: map<nat, Row>, column: Col, low: Bound, high: Bound)
    requires env.rps > 0
    ensures var part := Unpruned(env, states, m, column, low, high); forall g :: g in part ==> g in m && part[g] == m[g]
  {
  }

  lemma RowsInRange(part: map<nat, Row>, m: map<nat, Row>, n: nat, column: Col, low: Bound, high: Bound,
                    rows: seq<Row>)
    requires (forall g :: g in m ==> g < n) && forall g :: g in part ==> g in m && part[g] == m[g]
    requires multiset(rows) == multiset(Payload(Select(part, RangePred(column, low, high), n)))
    ensures forall row :: row in rows ==> Wanted(m, column, low, high, row)
    ensures NumBounds(low, high) ==> HoldsNumbers(rows, part, column, low, high)
    ensures TextBounds(low, high) ==> HoldsTexts(rows, part, column, low, high)
  {
    hide Select, NumWithin, TextWithin, NumBounds, TextBounds, InRange;
    CopiesFound(part, RangePred(column, low, high), n);
    forall row
      ensures var v := Get(row, column);
        && (v.Num? && NumBounds(low, high) ==> (RangePred(column, low, high)(row) <==> NumWithin(v.n, low, high)))
        && (v.Text? && TextBounds(low, high) ==> (RangePred(column, low, high)(row) <==> TextWithin(v.s, low, high)))
        && (v.Null? ==> !RangePred(column, low, high)(row))
    {
      InRangeIs(Get(row, column), low, high);
    }
    forall row | row in rows
      ensures Wanted(m, column, low, high, row)
    {
      assert row in multiset(rows);
      assert Holders(part, row) <= Holders(m, row) && Holders(part, row) != {};
    }
  }

  method RangeScanned(db: SnapDB, column: Col, low: Bound, high: Bound) returns (rows: seq<Row>)
    requires db.Valid()
    modifies db.store`states, db.store.slabs`zoneMin, db.store.slabs`zoneMax, db.store.slabs`zoneBuilt
    ensures db.Valid() && db.store.env.rps > 0 && |db.store.states| == |old(db.store.states)|
    ensures HighWater(db.store.env, db.store.states) == old(HighWater(db.store.env, db.store.states))
    ensures rows == Payload(Select(Unpruned(db.store.env, db.store.states, db.store.model, column, low, high),
                                   RangePred(column, low, high), Times(|db.store.states|, db.store.env.rps)))
    ensures old(db.Zoned()) ==> db.Zoned() && rows == Payload(Scan(db, RangePred(column, low, high)))
    ensures forall k :: 0 <= k < |db.store.states| ==>
      MapReady(db.store.env, db.store.model, k, old(db.store.states)[k], db.store.states[k])
    ensures old(db.AllBuilt()) ==> db.store.states == old(db.store.states)
  {
    hide *;
    var found := RangeScanStored(db, column, low, high);
    rows := [];
    PayloadNone();
    for i := 0 to |found|
      modifies {}
      invariant rows == Payload(found[..i])
    {
      PayloadPush(found, i);
      rows := rows + [found[i].1];
    }
    assert found[..|found|] == found;
  }

  method RangeScanStored(db: SnapDB, column: Col, low: Bound, high: Bound) returns (found: seq<(nat, Row)>)
    requires db.Valid()
    modifies db.store`states, db.store.slabs`zoneMin, db.store.slabs`zoneMax, db.store.slabs`zoneBuilt
    ensures db.Valid() && db.store.env.rps > 0 && |db.store.states| == |old(db.store.states)|
    ensures HighWater(db.store.env, db.store.states) == old(HighWater(db.store.env, db.store.states))
    ensures found == Select(Unpruned(db.store.env, db.store.states, db.store.model, column, low, high),
                            RangePred(column, low, high), Times(|db.store.states|, db.store.env.rps))
    ensures old(db.Zoned()) ==> db.Zoned() && found == Scan(db, RangePred(column, low, high))
    ensures forall k :: 0 <= k < |db.store.states| ==>
      MapReady(db.store.env, db.store.model, k, old(db.store.states)[k], db.store.states[k])
    ensures old(db.AllBuilt()) ==> db.store.states == old(db.store.states)
  {
    hide *;
    db.Parts();
    db.StoreParts();
    db.TxHere();
    db.ZonedIs();
    ghost var was := db.store.states;
    found := db.store.RangeScan(column, low, high);
    db.ZonedIs();
    db.StoreWhole();
    db.TxNow(Recovery.Image(db.store.model, HighWater(db.store.env, db.store.states)));
    db.Whole();
    ScanIsComplete(db);
    BuiltMapsStay(db.store.env, db.store.model, was, db.store.states);
  }

  lemma BuiltMapsStay(env: Env, m: map<nat, Row>, was: States, now: States)
    requires env.rps > 0 && |was| == |now| && forall k :: 0 <= k < |now| ==> MapReady(env, m, k, was[k], now[k])
    ensures (forall k :: 0 <= k < |was| ==> was[k].zoneBuilt) ==> now == was
  {
    hide FromRows;
  }

  method RangeIndexed(db: SnapDB, column: Col, low: Bound, high: Bound) returns (rows: seq<Row>)
    requires db.StoreOk() && db.Derived(db.store.model) && column in db.ranges
    ensures multiset(rows) == multiset(Payload(Scan(db, RangePred(column, low, high))))
  {
    hide *;
    db.StoreParts();
    db.DerivedParts(db.store.model);
    RangeAgrees(db.ranges, column, db.store.model);
    var idxs := db.ranges[column].RangeLookup(low, high, db.store.model);
    ghost var picked;
    rows, picked := Fetch(db, idxs);
    ScanIsComplete(db);
    PickedSameRows(db.store.model, HighWater(db.store.env, db.store.states), column, low, high, idxs, picked);
    ScanIs(db, RangePred(column, low, high));
    SamePayload(picked, Scan(db, RangePred(column, low, high)));
  }

  lemma ScanIs(db: SnapDB, p: Row -> bool)
    ensures Scan(db, p) == Select(db.store.model, p, HighWater(db.store.env, db.store.states))
  {
  }

  lemma RangeAgrees(ranges: RangeIndexes, column: Col, m: map<nat, Row>)
    requires RangesAgree(ranges, m) && column in ranges
    ensures ranges[column].column == column && ranges[column].Agrees(m)
  {
  }

  // row numbers of exactly the rows in range, each once, are the scan's in another order
  lemma PickedSameRows(m: map<nat, Row>, n: nat, column: Col, low: Bound, high: Bound, idxs: seq<nat>,
                       picked: seq<(nat, Row)>)
    requires forall g :: g in m ==> g < n
    requires forall i :: i in idxs <==> i in m && InRange(Get(m[i], column), low, high)
    requires forall i, j :: 0 <= i < j < |idxs| ==> idxs[i] != idxs[j]
    requires |picked| == |idxs| && forall i :: 0 <= i < |idxs| ==> picked[i] == (idxs[i], m[idxs[i]])
    ensures multiset(picked) == multiset(Select(m, RangePred(column, low, high), n))
  {
    var p := RangePred(column, low, high);
    SelectExact(m, p, n);
    forall e
      ensures e in picked <==> e in Select(m, p, n)
    {
      if e in Select(m, p, n) {
        assert e.0 in idxs;
        var i :| 0 <= i < |idxs| && idxs[i] == e.0;
        assert picked[i] == e;
      }
    }
    OnceEach(picked);
    OnceEach(Select(m, p, n));
  }

  // a list without repeats holds every entry once
  lemma {:induction false} OnceEach(s: seq<(nat, Row)>)
    requires forall i, j :: 0 <= i < j < |s| ==> s[i].0 != s[j].0
    ensures forall e :: multiset(s)[e] == if e in s then 1 else 0
  {
    if s != [] {
      var front, last := s[..|s| - 1], s[|s| - 1];
      OnceEach(front);
      assert s == front + [last];
    }
  }

  lemma PayloadAppend(a: seq<(nat, Row)>, b: seq<(nat, Row)>)
    ensures Payload(a + b) == Payload(a) + Payload(b)
  {
  }

  lemma TakenOut(b: seq<(nat, Row)>, j: nat)
    requires j < |b|
    ensures multiset(b) == multiset(b[..j] + b[j + 1..]) + multiset{b[j]}
    ensures multiset(Payload(b)) == multiset(Payload(b[..j] + b[j + 1..])) + multiset{b[j].1}
  {
    var b1, b2 := b[..j], b[j + 1..];
    assert b == b1 + [b[j]] + b2;
    PayloadAppend(b1, b2);
    PayloadAppend(b1 + [b[j]], b2);
    PayloadAppend(b1, [b[j]]);
    assert Payload([b[j]]) == [b[j].1];
  }

  lemma Cancel(a: multiset<(nat, Row)>, b: multiset<(nat, Row)>, x: (nat, Row))
    requires a + multiset{x} == b + multiset{x}
    ensures a == b
  {
    forall e
      ensures a[e] == b[e]
    {
      assert (a + multiset{x})[e] == (b + multiset{x})[e];
    }
  }

  // reordering a list reorders its rows
  lemma {:induction false} SamePayload(a: seq<(nat, Row)>, b: seq<(nat, Row)>)
    requires multiset(a) == multiset(b)
    ensures multiset(Payload(a)) == multiset(Payload(b))
  {
    if a == [] {
      assert |multiset(b)| == 0;
    } else {
      hide Payload;
      var i := |a| - 1;
      assert a[i] in multiset(b);
      var j :| 0 <= j < |b| && b[j] == a[i];
      TakenOut(a, i);
      TakenOut(b, j);
      Cancel(multiset(a[..i] + a[i + 1..]), multiset(b[..j] + b[j + 1..]), a[i]);
      SamePayload(a[..i] + a[i + 1..], b[..j] + b[j + 1..]);
    }
  }
}
