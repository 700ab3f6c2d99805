/** Hash indexes over one column, their intersection, and sorted range indexes. */
module Indexes {
  import opened Values

  // ---- sorted sequences of row numbers --------------------------------------

  predicate Increasing(s: seq<nat>) { forall i, j :: 0 <= i < j < |s| ==> s[i] < s[j] }

  /** sorted(s) for a set of row numbers */
  method Sorted(s: set<nat>) returns (r: seq<nat>)
    ensures Increasing(r) && forall x :: x in r <==> x in s
  {
    r := [];
    var rest := s;
    while rest != {}
      invariant rest <= s && Increasing(r)
      invariant forall x :: x in r <==> x in s - rest
    {
      var x :| x in rest;
      var k := 0;
      while k < |r| && r[k] < x
        invariant 0 <= k <= |r| && forall i :: 0 <= i < k ==> r[i] < x
      {
        k := k + 1;
      }
      InsertedAt(r, k, x, s - rest);
      r := r[..k] + [x] + r[k..];
      rest := rest - {x};
    }
  }

  lemma InsertedAt(r: seq<nat>, k: nat, x: nat, seen: set<nat>)
    requires k <= |r| && Increasing(r) && x !in r && forall y :: y in r <==> y in seen
    requires forall i :: 0 <= i < k ==> r[i] < x
    requires k < |r| ==> x <= r[k]
    ensures Increasing(r[..k] + [x] + r[k..])
    ensures forall y :: y in r[..k] + [x] + r[k..] <==> y in seen + {x}
  {
    forall y
      ensures y in r[..k] + [x] + r[k..] <==> y in r || y == x
    {
      assert r == r[..k] + r[k..];
    }
  }

  // ---- hash index -----------------------------------------------------------

  type Buckets = map<Value, set<nat>>

  predicate InBucket(index: Buckets, v: Value, i: nat) { v in index && i in index[v] }

  /** The buckets hold exactly the rows in m, each under its value; none is empty. */
  ghost predicate IsIndexOf(index: Buckets, column: Col, m: map<nat, Row>) {
    && (forall v :: v in index ==> index[v] != {})
    && (forall v, i :: InBucket(index, v, i) <==> i in m && Get(m[i], column) == v)
  }

  // the rows determine the buckets, so agreeing with the same rows again is being restored
  lemma IndexUnique(a: Buckets, b: Buckets, column: Col, m: map<nat, Row>)
    requires IsIndexOf(a, column, m) && IsIndexOf(b, column, m)
    ensures a == b
  {
    assert forall v, i :: InBucket(a, v, i) <==> InBucket(b, v, i);
    forall v
      ensures v in a ==> v in b && a[v] <= b[v]
      ensures v in b ==> v in a && b[v] <= a[v]
    {
      if v in a {
        forall i | i in a[v]
          ensures v in b && i in b[v]
        {
          assert InBucket(a, v, i);
        }
      }
      if v in b {
        forall i | i in b[v]
          ensures v in a && i in a[v]
        {
          assert InBucket(b, v, i);
        }
      }
    }
    assert a.Keys == b.Keys;
    assert forall v :: v in a ==> a[v] == b[v];
  }

  class HashIndex {
    const column: Col
    var index: Buckets
    var total: int

    constructor (column: Col)
      ensures this.column == column && Agrees(map[])
    {
      this.column := column;
      index, total := map[], 0;
    }

    /** The buckets and the entry count are those of exactly the rows in m. */
    ghost predicate Agrees(m: map<nat, Row>)
      reads this
    {
      IsIndexOf(index, column, m) && total == |m|
    }

    method AddTo(key: Value, rowIdx: nat)
      requires forall v :: v in index ==> index[v] != {}
      modifies `index
      ensures forall v :: v in index ==> index[v] != {}
      ensures forall v, i :: InBucket(index, v, i) <==> InBucket(old(index), v, i) || (v == key && i == rowIdx)
    {
      if key !in index {
        index := index[key := {}];
      }
      index := index[key := index[key] + {rowIdx}];
      assert rowIdx in index[key];
    }

    method RemoveFrom(key: Value, rowIdx: nat)
      requires forall v :: v in index ==> index[v] != {}
      modifies `index
      ensures forall v :: v in index ==> index[v] != {}
      ensures forall v, i :: InBucket(index, v, i) <==> InBucket(old(index), v, i) && !(v == key && i == rowIdx)
    {
      if key in index {
        var bucket := index[key] - {rowIdx};
        assert forall i :: i in bucket <==> InBucket(index, key, i) && i != rowIdx;
        index := index[key := bucket];
        if bucket == {} {
          index := index - {key};
        }
      }
    }

    method Insert(rowIdx: nat, row: Row, ghost m: map<nat, Row>)
      requires Agrees(m) && rowIdx !in m
      modifies this
      ensures Agrees(m[rowIdx := row])
    {
      AddTo(Get(row, column), rowIdx);
      total := total + 1;
      assert m[rowIdx := row].Keys == m.Keys + {rowIdx};
      assert |m.Keys + {rowIdx}| == |m| + 1;
    }

    method Update(rowIdx: nat, oldRow: Row, newRow: Row, ghost m: map<nat, Row>)
      requires Agrees(m) && rowIdx in m && Get(oldRow, column) == Get(m[rowIdx], column)
      modifies this
      ensures Agrees(m[rowIdx := newRow])
    {
      assert m[rowIdx := newRow].Keys == m.Keys;
      var oldKey, newKey := Get(oldRow, column), Get(newRow, column);
      if oldKey == newKey {
        return;
      }
      RemoveFrom(oldKey, rowIdx);
      AddTo(newKey, rowIdx);
    }

    method Delete(rowIdx: nat, row: Row, ghost m: map<nat, Row>)
      requires Agrees(m) && rowIdx in m && Get(row, column) == Get(m[rowIdx], column)
      modifies this
      ensures Agrees(m - {rowIdx})
    {
      RemoveFrom(Get(row, column), rowIdx);
      total := total - 1;
      assert (m - {rowIdx}).Keys == m.Keys - {rowIdx};
      assert |m.Keys - {rowIdx}| == |m| - 1;
    }

    method Lookup(value: Value, ghost m: map<nat, Row>) returns (r: seq<nat>)
      requires Agrees(m)
      ensures Increasing(r) && forall i :: i in r <==> i in m && Get(m[i], column) == value
    {
      r := Sorted(if value in index then index[value] else {});
      assert forall i :: i in r <==> InBucket(index, value, i);
    }
  }

  // ---- several hash indexes -------------------------------------------------

  /** MultiIndex.lookup's three outcomes: nothing asked, an unindexed column, row numbers. */
  datatype Lookup = NoQuery | NoIndex(c: Col) | Rows(rows: seq<nat>)

  class MultiIndex {
    var indexes: map<Col, HashIndex>

    constructor ()
      ensures indexes == map[]
    {
      indexes := map[];
    }

    ghost predicate Agrees(m: map<nat, Row>)
      reads this, indexes.Values
    {
      var ok := forall c :: c in indexes ==> indexes[c].column == c && indexes[c].Agrees(m);
      ok
    }

    method Lookup(query: seq<(Col, Value)>, ghost m: map<nat, Row>) returns (r: Lookup)
      requires Agrees(m)
      ensures query == [] ==> r.NoQuery?
      ensures r.NoQuery? ==> query == []
      ensures r.NoIndex? ==> r.c !in indexes && exists k :: 0 <= k < |query| && query[k].0 == r.c
      ensures r.Rows? ==> Increasing(r.rows) && forall i :: i in r.rows <==> i in m && Matches(m[i], query)
      ensures query != [] && (forall k :: 0 <= k < |query| ==> query[k].0 in indexes) ==> r.Rows?
    {
      if query == [] {
        return NoQuery;
      }
      var results: set<nat> := {};
      for k := 0 to |query|
        invariant k > 0 ==> forall i :: i in results <==> i in m && Matches(m[i], query[..k])
      {
        var (c, v) := query[k];
        if c !in indexes {
          return NoIndex(c);
        }
        var found := indexes[c].Lookup(v, m);
        var matches := set i | i in found;
        MatchesPush(query, k);
        results := if k == 0 then matches else results * matches;
        assert forall i :: i in results <==> i in m && Matches(m[i], query[..k + 1]);
        if results == {} {
          MatchesPrefix(query, k + 1);
          return Rows([]);
        }
      }
      assert query[..|query|] == query;
      var rows := Sorted(results);
      r := Rows(rows);
    }
  }

  /** row[column] == value for every pair of the query */
  predicate Matches(row: Row, query: seq<(Col, Value)>) {
    forall k :: 0 <= k < |query| ==> Get(row, query[k].0) == query[k].1
  }

  lemma MatchesPush(query: seq<(Col, Value)>, k: nat)
    requires k < |query|
    ensures forall row ::
      Matches(row, query[..k + 1]) <==> Matches(row, query[..k]) && Get(row, query[k].0) == query[k].1
  {
    forall row
      ensures Matches(row, query[..k + 1]) <==> Matches(row, query[..k]) && Get(row, query[k].0) == query[k].1
    {
      assert query[..k + 1] == query[..k] + [query[k]];
    }
  }

  lemma MatchesPrefix(query: seq<(Col, Value)>, k: nat)
    requires k <= |query|
    ensures forall row :: Matches(row, query) ==> Matches(row, query[..k])
  {
  }

  // ---- range index ----------------------------------------------------------

  type Entry = (Value, nat)

  predicate EntryLt(a: Entry, b: Entry) { Lt(a.0, b.0) || (a.0 == b.0 && a.1 < b.1) }

  lemma EntryTotal(a: Entry, b: Entry)
    ensures EntryLt(a, b) || a == b || EntryLt(b, a)
    ensures !(EntryLt(a, b) && EntryLt(b, a)) && !EntryLt(a, a)
  {
    Total(a.0, b.0);
    Total(a.0, a.0);
  }

  predicate StrictlySorted(s: seq<Entry>) { forall i, j :: 0 <= i < j < |s| ==> EntryLt(s[i], s[j]) }

  // a strictly sorted sequence is determined by its entries
  lemma {:induction false} SortedUnique(s: seq<Entry>, t: seq<Entry>)
    requires StrictlySorted(s) && StrictlySorted(t) && forall e :: e in s <==> e in t
    ensures s == t
  {
    assert (s != [] ==> s[0] in s) && (t != [] ==> t[0] in t);
    if s != [] && t != [] {
      var s', t', x, y := s[..|s| - 1], t[..|t| - 1], s[|s| - 1], t[|t| - 1];
      assert s == s' + [x] && t == t' + [y];
      assert x in t && y in s;
      EntryTotal(x, y);
      forall e
        ensures e in s' <==> e in t'
      {
        EntryTotal(e, e);
        assert e in s <==> e in s' || e == x;
        assert e in t <==> e in t' || e == y;
      }
      SortedUnique(s', t');
    }
  }

  /** Where a binary search stands: the probe's value, and its row number or infinity. */
  datatype Probe = Probe(v: Value, idx: Option<int>)

  predicate BeforeProbe(e: Entry, p: Probe) {
    Lt(e.0, p.v) || (e.0 == p.v && (p.idx.None? || e.1 < p.idx.value))
  }

  // entries before a probe form a prefix of a sorted sequence
  lemma BeforeProbePrefix(s: seq<Entry>, p: Probe, i: nat, j: nat)
    requires StrictlySorted(s) && i < j < |s| && BeforeProbe(s[j], p)
    ensures BeforeProbe(s[i], p)
  {
    if Lt(s[i].0, s[j].0) && Lt(s[j].0, p.v) {
      Trans(s[i].0, s[j].0, p.v);
    }
  }

  /** bisect: the number of entries before the probe. */
  method Bisect(s: seq<Entry>, p: Probe) returns (pos: nat)
    requires StrictlySorted(s)
    ensures pos <= |s|
    ensures forall k :: 0 <= k < |s| ==> (k < pos <==> BeforeProbe(s[k], p))
  {
    var lo, hi := 0, |s|;
    while lo < hi
      invariant 0 <= lo <= hi <= |s|
      invariant forall k :: 0 <= k < lo ==> BeforeProbe(s[k], p)
      invariant forall k :: hi <= k < |s| ==> !BeforeProbe(s[k], p)
    {
      var mid := (lo + hi) / 2;
      if BeforeProbe(s[mid], p) {
        forall k | 0 <= k < mid
          ensures BeforeProbe(s[k], p)
        {
          BeforeProbePrefix(s, p, k, mid);
        }
        lo := mid + 1;
      } else {
        forall k | mid < k < |s|
          ensures !BeforeProbe(s[k], p)
        {
          if BeforeProbe(s[k], p) {
            BeforeProbePrefix(s, p, mid, k);
          }
        }
        hi := mid;
      }
    }
    pos := lo;
  }

  /** The entry of a row in m with a non-null value. */
  ghost predicate IsEntry(m: map<nat, Row>, column: Col, e: Entry) {
    e.1 in m && Get(m[e.1], column) == e.0 && !e.0.Null?
  }

  /** The entries of exactly the rows in m with a non-null value, strictly sorted. */
  ghost predicate IsItemsOf(items: seq<Entry>, column: Col, m: map<nat, Row>) {
    StrictlySorted(items) && forall e :: e in items <==> IsEntry(m, column, e)
  }

  // the rows determine the items
  lemma ItemsUnique(a: seq<Entry>, b: seq<Entry>, column: Col, m: map<nat, Row>)
    requires IsItemsOf(a, column, m) && IsItemsOf(b, column, m)
    ensures a == b
  {
    forall e
      ensures e in a <==> e in b
    {
      assert e in a <==> IsEntry(m, column, e);
    }
    SortedUnique(a, b);
  }

  /** The rows with the given numbers come in the order of their entries: by value, then by number. */
  ghost predicate InEntryOrder(m: map<nat, Row>, column: Col, r: seq<nat>)
    requires forall i :: i in r ==> i in m
  {
    forall i, j :: 0 <= i < j < |r| ==> EntryLt((Get(m[r[i]], column), r[i]), (Get(m[r[j]], column), r[j]))
  }

  ghost predicate NumColumn(m: map<nat, Row>, column: Col) {
    forall i :: i in m && column in m[i] && m[i][column] != Null ==> m[i][column].Num?
  }

  ghost predicate TextColumn(m: map<nat, Row>, column: Col) {
    forall i :: i in m && column in m[i] && m[i][column] != Null ==> m[i][column].Text?
  }

  // rows in range, by the integers or the texts themselves
  lemma FoundInRange(m: map<nat, Row>, column: Col, low: Bound, high: Bound, r: seq<nat>)
    requires forall i :: i in r <==> i in m && InRange(Get(m[i], column), low, high)
    ensures NumBounds(low, high) ==> forall i :: i in m && column in m[i] && m[i][column].Num? ==>
      (i in r <==> NumWithin(m[i][column].n, low, high))
    ensures TextBounds(low, high) ==> forall i :: i in m && column in m[i] && m[i][column].Text? ==>
      (i in r <==> TextWithin(m[i][column].s, low, high))
    ensures forall i :: i in r ==> column in m[i] && m[i][column] != Null
  {
    forall i | i in m
      ensures var v := Get(m[i], column);
        && (v.Num? && NumBounds(low, high) ==> (i in r <==> NumWithin(v.n, low, high)))
        && (v.Text? && TextBounds(low, high) ==> (i in r <==> TextWithin(v.s, low, high)))
        && (v.Null? ==> i !in r)
    {
      InRangeIs(Get(m[i], column), low, high);
    }
  }

  lemma FoundInOrder(m: map<nat, Row>, column: Col, r: seq<nat>)
    requires (forall i :: i in r ==> i in m && column in m[i] && m[i][column] != Null) && InEntryOrder(m, column, r)
    ensures NumColumn(m, column) ==> forall i, j :: 0 <= i < j < |r| ==>
      var (x, y) := (m[r[i]][column].n, m[r[j]][column].n); x < y || (x == y && r[i] < r[j])
    ensures TextColumn(m, column) ==> forall i, j :: 0 <= i < j < |r| ==>
      var (x, y) := (m[r[i]][column].s, m[r[j]][column].s); Precedes(x, y) || (x == y && r[i] < r[j])
  {
    forall i, j | 0 <= i < j < |r|
      ensures var (a, b) := (m[r[i]][column], m[r[j]][column]);
        && (a.Num? && b.Num? ==> a.n < b.n || (a.n == b.n && r[i] < r[j]))
        && (a.Text? && b.Text? ==> Precedes(a.s, b.s) || (a.s == b.s && r[i] < r[j]))
    {
      var (a, b) := (m[r[i]][column], m[r[j]][column]);
      assert EntryLt((Get(m[r[i]], column), r[i]), (Get(m[r[j]], column), r[j]));
      if a.Text? && b.Text? {
        BytesLtIs(a.s, b.s);
      }
    }
  }

  class RangeIndex {
    const column: Col
    var items: seq<Entry>

    constructor (column: Col)
      ensures this.column == column && Agrees(map[])
    {
      this.column := column;
      items := [];
    }

    /** The items are the non-null values of exactly the rows in m, strictly sorted. */
    ghost predicate Agrees(m: map<nat, Row>)
      reads this
    {
      IsItemsOf(items, column, m)
    }

    /** Inserts one entry where the sorted order wants it. */
    method Insort(e: Entry)
      requires StrictlySorted(items) && e !in items
      modifies this
      ensures StrictlySorted(items) && forall x :: x in items <==> x in old(items) || x == e
    {
      var pos := Bisect(items, Probe(e.0, Some(e.1)));
      forall k | 0 <= k < |items|
        ensures k < pos ==> EntryLt(items[k], e)
        ensures pos <= k ==> EntryLt(e, items[k])
      {
        EntryTotal(items[k], e);
      }
      items := items[..pos] + [e] + items[pos..];
    }

    /** Collects the entries of the listed rows, sorted. */
    method Build(rows: seq<(nat, Row)>, ghost m: map<nat, Row>)
      requires forall i, j :: 0 <= i < j < |rows| ==> rows[i].0 != rows[j].0
      requires forall e :: e in rows <==> e.0 in m && m[e.0] == e.1
      modifies this
      ensures Agrees(m)
    {
      items := [];
      for k := 0 to |rows|
        invariant StrictlySorted(items)
        invariant forall e ::
          e in items <==> !e.0.Null? && exists j :: 0 <= j < k && rows[j].0 == e.1 && Get(rows[j].1, column) == e.0
      {
        var value := Get(rows[k].1, column);
        if !value.Null? {
          Insort((value, rows[k].0));
        }
      }
      forall e
        ensures e in items <==> IsEntry(m, column, e)
      {
        if IsEntry(m, column, e) {
          assert (e.1, m[e.1]) in rows;
        }
      }
    }

    method Insert(rowIdx: nat, row: Row, ghost m: map<nat, Row>)
      requires Agrees(m) && rowIdx !in m
      modifies this
      ensures Agrees(m[rowIdx := row])
    {
      var value := Get(row, column);
      if value.Null? {
        return;
      }
      Insort((value, rowIdx));
    }

    method RemoveEntry(e: Entry)
      requires StrictlySorted(items)
      modifies this
      ensures StrictlySorted(items) && forall x :: x in items <==> x in old(items) && x != e
    {
      var pos := Bisect(items, Probe(e.0, Some(e.1)));
      forall k | 0 <= k < |items|
        ensures k < pos ==> items[k] != e
        ensures pos < k ==> items[k] != e
      {
        EntryTotal(e, e);
        if pos < k {
          EntryTotal(items[pos], e);
          EntryTotal(items[pos], items[k]);
        }
      }
      if pos < |items| && items[pos] == e {
        items := items[..pos] + items[pos + 1..];
      }
    }

    method Delete(rowIdx: nat, row: Row, ghost m: map<nat, Row>)
      requires Agrees(m) && rowIdx in m && Get(row, column) == Get(m[rowIdx], column)
      modifies this
      ensures Agrees(m - {rowIdx})
    {
      var value := Get(row, column);
      if value.Null? {
        return;
      }
      RemoveEntry((value, rowIdx));
    }

    method Update(rowIdx: nat, oldRow: Row, newRow: Row, ghost m: map<nat, Row>)
      requires Agrees(m) && rowIdx in m && Get(oldRow, column) == Get(m[rowIdx], column)
      modifies this
      ensures Agrees(m[rowIdx := newRow])
    {
      var oldValue, newValue := Get(oldRow, column), Get(newRow, column);
      if oldValue == newValue {
        return;
      }
      Delete(rowIdx, oldRow, m);
      Insert(rowIdx, newRow, m - {rowIdx});
      assert (m - {rowIdx})[rowIdx := newRow] == m[rowIdx := newRow];
    }

    /** Row numbers of the entries within the bounds, in value order. */
    method RangeLookup(low: Bound, high: Bound, ghost m: map<nat, Row>) returns (r: seq<nat>)
      requires Agrees(m)
      ensures forall i :: i in r <==> i in m && InRange(Get(m[i], column), low, high)
      ensures forall i, j :: 0 <= i < j < |r| ==> r[i] != r[j]
      ensures (forall i :: i in r ==> i in m) && InEntryOrder(m, column, r)
      ensures NumBounds(low, high) ==> forall i :: i in m && column in m[i] && m[i][column].Num? ==>
        (i in r <==> NumWithin(m[i][column].n, low, high))
      ensures TextBounds(low, high) ==> forall i :: i in m && column in m[i] && m[i][column].Text? ==>
        (i in r <==> TextWithin(m[i][column].s, low, high))
      ensures forall i :: i in r ==> column in m[i] && m[i][column] != Null
      ensures NumColumn(m, column) ==> forall i, j :: 0 <= i < j < |r| ==>
        var (x, y) := (m[r[i]][column].n, m[r[j]][column].n); x < y || (x == y && r[i] < r[j])
      ensures TextColumn(m, column) ==> forall i, j :: 0 <= i < j < |r| ==>
        var (x, y) := (m[r[i]][column].s, m[r[j]][column].s); Precedes(x, y) || (x == y && r[i] < r[j])
    {
      var start := 0;
      if low.At? {
        start := Bisect(items, Probe(low.v, Some(-1)));
        if !low.inclusive {
          start := Bisect(items, Probe(low.v, None));
        }
      }
      var end := |items|;
      if high.At? {
        if high.inclusive {
          end := Bisect(items, Probe(high.v, None));
        } else {
          end := Bisect(items, Probe(high.v, Some(-1)));
        }
      }
      forall k | 0 <= k < |items|
        ensures start <= k < end <==> InRange(items[k].0, low, high)
      {
        EntryInSlice(items[k], low, high);
        assert items[k] in items;
      }
      var slice := if start <= end then items[start..end] else [];
      r := seq(|slice|, k requires 0 <= k < |slice| => slice[k].1);
      RowsOfSlice(m, low, high, start, end, slice, r);
      FoundInRange(m, column, low, high, r);
      FoundInOrder(m, column, r);
    }

    lemma EntryInSlice(e: Entry, low: Bound, high: Bound)
      ensures low.At? ==>
        (!BeforeProbe(e, Probe(low.v, if low.inclusive then Some(-1) else None)) <==> AboveLow(e.0, low))
      ensures high.At? ==>
        (BeforeProbe(e, Probe(high.v, if high.inclusive then None else Some(-1))) <==> BelowHigh(e.0, high))
    {
      if low.At? { Total(e.0, low.v); }
      if high.At? { Total(e.0, high.v); }
    }

    lemma RowsOfSlice(m: map<nat, Row>, low: Bound, high: Bound, start: nat, end: nat, slice: seq<Entry>, r: seq<nat>)
      requires Agrees(m) && start <= |items| && end <= |items|
      requires forall k :: 0 <= k < |items| ==> (start <= k < end <==> InRange(items[k].0, low, high))
      requires slice == if start <= end then items[start..end] else []
      requires |r| == |slice| && forall k :: 0 <= k < |r| ==> r[k] == slice[k].1
      ensures forall i :: i in r <==> i in m && InRange(Get(m[i], column), low, high)
      ensures forall i, j :: 0 <= i < j < |r| ==> r[i] != r[j]
      ensures (forall i :: i in r ==> i in m) && InEntryOrder(m, column, r)
    {
      forall k | 0 <= k < |r|
        ensures r[k] in m && Get(m[r[k]], column) == slice[k].0 && InRange(slice[k].0, low, high)
      {
        assert slice[k] == items[start + k] && items[start + k] in items;
      }
      forall i | i in m && InRange(Get(m[i], column), low, high)
        ensures i in r
      {
        var e := (Get(m[i], column), i);
        assert e in items;
        var k :| 0 <= k < |items| && items[k] == e;
        assert r[k - start] == i;
      }
      forall i, j | 0 <= i < j < |r|
        ensures r[i] != r[j] && EntryLt(slice[i], slice[j])
      {
        assert EntryLt(items[start + i], items[start + j]);
        EntryTotal(slice[i], slice[j]);
      }
    }
  }

  // ---- keeping every index up to date -----------------------------------------

  type RangeIndexes = map<Col, RangeIndex>

  ghost predicate RangesAgree(ranges: RangeIndexes, m: map<nat, Row>)
    reads ranges.Values
  {
    var ok := forall c :: c in ranges ==> ranges[c].column == c && ranges[c].Agrees(m);
    ok
  }

  /** A change to one row, as the indexes see it. */
  datatype Change = Added(row: Row) | Changed(oldRow: Row, newRow: Row) | Removed(row: Row) {
    ghost predicate Fits(i: nat, m: map<nat, Row>) {
      match this
      case Added(_) => i !in m
      case Changed(oldRow, _) => i in m && m[i] == oldRow
      case Removed(row) => i in m && m[i] == row
    }

    ghost function After(i: nat, m: map<nat, Row>): map<nat, Row> {
      match this
      case Added(row) => m[i := row]
      case Changed(_, newRow) => m[i := newRow]
      case Removed(_) => m - {i}
    }
  }

  method NoteHash(index: HashIndex, i: nat, change: Change, ghost m: map<nat, Row>)
    requires index.Agrees(m) && change.Fits(i, m)
    modifies index
    ensures index.Agrees(change.After(i, m))
  {
    match change {
      case Added(row) => index.Insert(i, row, m);
      case Changed(oldRow, newRow) => index.Update(i, oldRow, newRow, m);
      case Removed(row) => index.Delete(i, row, m);
    }
  }

  method NoteRange(index: RangeIndex, i: nat, change: Change, ghost m: map<nat, Row>)
    requires index.Agrees(m) && change.Fits(i, m)
    modifies index
    ensures index.Agrees(change.After(i, m))
  {
    match change {
      case Added(row) => index.Insert(i, row, m);
      case Changed(oldRow, newRow) => index.Update(i, oldRow, newRow, m);
      case Removed(row) => index.Delete(i, row, m);
    }
  }

  method NoteHashes(indexes: MultiIndex, i: nat, change: Change, ghost m: map<nat, Row>)
    requires indexes.Agrees(m) && change.Fits(i, m)
    modifies indexes.indexes.Values
    ensures indexes.Agrees(change.After(i, m))
  {
    hide HashIndex.Agrees, Change.After, Change.Fits;
    var rest := indexes.indexes.Keys;
    while rest != {}
      invariant rest <= indexes.indexes.Keys
      invariant forall c :: c in indexes.indexes ==> indexes.indexes[c].column == c
      invariant forall c :: c in rest ==> indexes.indexes[c].Agrees(m)
      invariant forall c :: c in indexes.indexes && c !in rest ==> indexes.indexes[c].Agrees(change.After(i, m))
    {
      var c :| c in rest;
      NoteHash(indexes.indexes[c], i, change, m);
      rest := rest - {c};
    }
  }

  method NoteRanges(ranges: RangeIndexes, i: nat, change: Change, ghost m: map<nat, Row>)
    requires RangesAgree(ranges, m) && change.Fits(i, m)
    modifies ranges.Values
    ensures RangesAgree(ranges, change.After(i, m))
  {
    hide RangeIndex.Agrees, Change.After, Change.Fits;
    var rest := ranges.Keys;
    while rest != {}
      invariant rest <= ranges.Keys
      invariant forall c :: c in ranges ==> ranges[c].column == c
      invariant forall c :: c in rest ==> ranges[c].Agrees(m)
      invariant forall c :: c in ranges && c !in rest ==> ranges[c].Agrees(change.After(i, m))
    {
      var c :| c in rest;
      NoteRange(ranges[c], i, change, m);
      rest := rest - {c};
    }
  }
}
