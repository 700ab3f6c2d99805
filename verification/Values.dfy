/** Column values, their order, rows, and ordered selections from a row map. */
module Values {
  import opened Bits

  datatype Option<+T> = None | Some(value: T)

  /** Null, an integer, or the bytes of a text value. */
  datatype Value = Null | Num(n: int) | Text(s: seq<byte>)

  type Col = string
  type Row = map<Col, Value>

  // row.get(column)
  function Get(row: Row, c: Col): Value { if c in row then row[c] else Null }

  // ---- the order ------------------------------------------------------------

  predicate BytesLt(a: seq<byte>, b: seq<byte>) {
    b != [] && (a == [] || a[0] < b[0] || (a[0] == b[0] && BytesLt(a[1..], b[1..])))
  }

  predicate Lt(a: Value, b: Value) {
    match (a, b)
    case (Num(x), Num(y)) => x < y
    case (Text(x), Text(y)) => BytesLt(x, y)
    case (Null, _) => !b.Null?
    case (Num(_), Text(_)) => true
    case _ => false
  }

  predicate Le(a: Value, b: Value) { a == b || Lt(a, b) }

  lemma {:induction false} BytesTotal(a: seq<byte>, b: seq<byte>)
    ensures BytesLt(a, b) || a == b || BytesLt(b, a)
    ensures !(BytesLt(a, b) && BytesLt(b, a)) && !BytesLt(a, a)
  {
    if a != [] && b != [] {
      BytesTotal(a[1..], b[1..]);
      BytesTotal(a[1..], a[1..]);
      assert a == [a[0]] + a[1..] && b == [b[0]] + b[1..];
    } else if a != [] {
      BytesTotal(a[1..], a[1..]);
    }
  }

  lemma {:induction false} BytesTrans(a: seq<byte>, b: seq<byte>, c: seq<byte>)
    requires BytesLt(a, b) && BytesLt(b, c)
    ensures BytesLt(a, c)
  {
    if a != [] && a[0] == b[0] == c[0] {
      BytesTrans(a[1..], b[1..], c[1..]);
    }
  }

  lemma Total(a: Value, b: Value)
    ensures Lt(a, b) || a == b || Lt(b, a)
    ensures !(Lt(a, b) && Lt(b, a)) && !Lt(a, a)
  {
    if a.Text? && b.Text? {
      BytesTotal(a.s, b.s);
    }
    if a.Text? {
      BytesTotal(a.s, a.s);
    }
  }

  lemma Trans(a: Value, b: Value, c: Value)
    requires Lt(a, b) && Lt(b, c)
    ensures Lt(a, c)
  {
    if a.Text? && b.Text? && c.Text? {
      BytesTrans(a.s, b.s, c.s);
    }
  }

  /** The first place where the texts differ decides; a proper prefix comes first. */
  ghost predicate Precedes(a: seq<byte>, b: seq<byte>) {
    exists k :: 0 <= k <= |a| && k < |b| && a[..k] == b[..k] && (k == |a| || a[k] < b[k])
  }

  // what the byte by byte order comes to
  lemma {:induction false} BytesLtIs(a: seq<byte>, b: seq<byte>)
    ensures BytesLt(a, b) <==>
      exists k :: 0 <= k <= |a| && k < |b| && a[..k] == b[..k] && (k == |a| || a[k] < b[k])
  {
    if b != [] && a != [] && a[0] == b[0] {
      var x, y := a[1..], b[1..];
      BytesLtIs(x, y);
      if BytesLt(a, b) {
        var k :| 0 <= k <= |x| && k < |y| && x[..k] == y[..k] && (k == |x| || x[k] < y[k]);
        assert a[..k + 1] == [a[0]] + x[..k] && b[..k + 1] == [b[0]] + y[..k];
      }
      if Precedes(a, b) {
        var k :| 0 <= k <= |a| && k < |b| && a[..k] == b[..k] && (k == |a| || a[k] < b[k]);
        assert x[..k - 1] == a[..k][1..] && y[..k - 1] == b[..k][1..];
      }
    } else if BytesLt(a, b) {
      assert a[..0] == b[..0];
    } else {
      assert forall k :: 0 < k <= |a| && k < |b| && a[..k] == b[..k] ==> a[..k][0] == b[..k][0];
    }
  }

  // ---- comparisons ----------------------------------------------------------

  datatype Compare = IsEq | IsNe | IsGt | IsGte | IsLt | IsLte

  /** x op v; ordering a null raises in the original. */
  predicate OpHolds(op: Compare, x: Value, v: Value) {
    match op
    case IsEq => x == v
    case IsNe => x != v
    case IsGt => !x.Null? && Lt(v, x)
    case IsGte => !x.Null? && Le(v, x)
    case IsLt => !x.Null? && Lt(x, v)
    case IsLte => !x.Null? && Le(x, v)
  }

  /** x op v for integers. */
  ghost predicate NumCompares(op: Compare, x: int, v: int) {
    match op
    case IsEq => x == v
    case IsNe => x != v
    case IsGt => x > v
    case IsGte => x >= v
    case IsLt => x < v
    case IsLte => x <= v
  }

  /** x op v for texts. */
  ghost predicate TextCompares(op: Compare, x: seq<byte>, v: seq<byte>) {
    match op
    case IsEq => x == v
    case IsNe => x != v
    case IsGt => Precedes(v, x)
    case IsGte => x == v || Precedes(v, x)
    case IsLt => Precedes(x, v)
    case IsLte => x == v || Precedes(x, v)
  }

  /** Two integers, or two texts. */
  predicate Comparable(x: Value, v: Value) { (x.Num? && v.Num?) || (x.Text? && v.Text?) }

  ghost predicate Compares(op: Compare, x: Value, v: Value)
    requires Comparable(x, v)
  {
    if x.Num? then NumCompares(op, x.n, v.n) else TextCompares(op, x.s, v.s)
  }

  // a comparison answers as the integers or the texts themselves compare; a null is equal to a null only
  lemma OpHoldsIs(op: Compare, x: Value, v: Value)
    ensures x.Num? && v.Num? ==> (OpHolds(op, x, v) <==> NumCompares(op, x.n, v.n))
    ensures x.Text? && v.Text? ==> (OpHolds(op, x, v) <==> TextCompares(op, x.s, v.s))
    ensures x.Null? && OpHolds(op, x, v) ==> if op.IsNe? then v != Null else op.IsEq? && v == Null
    ensures op.IsEq? || op.IsNe? ==> (OpHolds(op, x, v) <==> (x == v <==> op.IsEq?))
  {
    if x.Text? && v.Text? {
      BytesLtIs(x.s, v.s);
      BytesLtIs(v.s, x.s);
    }
  }

  // ---- range conditions -----------------------------------------------------

  datatype Bound = Open | At(v: Value, inclusive: bool)

  predicate AboveLow(v: Value, low: Bound) {
    low.Open? || Lt(low.v, v) || (low.inclusive && v == low.v)
  }

  predicate BelowHigh(v: Value, high: Bound) {
    high.Open? || Lt(v, high.v) || (high.inclusive && v == high.v)
  }

  predicate InRange(v: Value, low: Bound, high: Bound) {
    !v.Null? && AboveLow(v, low) && BelowHigh(v, high)
  }

  predicate NumBounds(low: Bound, high: Bound) { (low.At? ==> low.v.Num?) && (high.At? ==> high.v.Num?) }

  predicate TextBounds(low: Bound, high: Bound) { (low.At? ==> low.v.Text?) && (high.At? ==> high.v.Text?) }

  /** x lies between integers. */
  ghost predicate NumWithin(x: int, low: Bound, high: Bound)
    requires NumBounds(low, high)
  {
    && (low.At? ==> if low.inclusive then low.v.n <= x else low.v.n < x)
    && (high.At? ==> if high.inclusive then x <= high.v.n else x < high.v.n)
  }

  /** x lies between texts. */
  ghost predicate TextWithin(x: seq<byte>, low: Bound, high: Bound)
    requires TextBounds(low, high)
  {
    && (low.At? ==> Precedes(low.v.s, x) || (low.inclusive && x == low.v.s))
    && (high.At? ==> Precedes(x, high.v.s) || (high.inclusive && x == high.v.s))
  }

  // a value is in range as the integers or the texts themselves lie; a null never is
  lemma InRangeIs(v: Value, low: Bound, high: Bound)
    ensures v.Num? && NumBounds(low, high) ==> (InRange(v, low, high) <==> NumWithin(v.n, low, high))
    ensures v.Text? && TextBounds(low, high) ==> (InRange(v, low, high) <==> TextWithin(v.s, low, high))
    ensures v.Null? ==> !InRange(v, low, high)
  {
    if v.Text? && TextBounds(low, high) {
      if low.At? {
        BytesLtIs(low.v.s, v.s);
      }
      if high.At? {
        BytesLtIs(v.s, high.v.s);
      }
    }
  }

  // ---- selections -----------------------------------------------------------

  /** The rows of m below index n that satisfy p, in index order: what a scan yields. */
  function Select(m: map<nat, Row>, p: Row -> bool, n: nat): (r: seq<(nat, Row)>) {
    if n == 0 then []
    else Select(m, p, n - 1) + (if n - 1 in m && p(m[n - 1]) then [(n - 1, m[n - 1])] else [])
  }

  predicate Ascending(s: seq<(nat, Row)>) { forall i, j :: 0 <= i < j < |s| ==> s[i].0 < s[j].0 }

  // a selection holds exactly the matching entries, each once, in index order
  lemma {:induction false} SelectExact(m: map<nat, Row>, p: Row -> bool, n: nat)
    ensures Ascending(Select(m, p, n))
    ensures forall e :: e in Select(m, p, n) <==> e.0 < n && e.0 in m && m[e.0] == e.1 && p(e.1)
  {
    if n > 0 {
      SelectExact(m, p, n - 1);
      var s := Select(m, p, n - 1);
      forall i | 0 <= i < |s|
        ensures s[i].0 < n - 1
      {
        assert s[i] in s;
      }
    }
  }

  // an ascending list is determined by its entries
  lemma {:induction false} AscendingUnique(s: seq<(nat, Row)>, t: seq<(nat, Row)>)
    requires Ascending(s) && Ascending(t)
    requires forall e :: e in s <==> e in t
    ensures s == t
  {
    assert (s != [] ==> s[0] in s) && (t != [] ==> t[0] in t);
    if s != [] && t != [] {
      var s', t' := s[..|s| - 1], t[..|t| - 1];
      var x, y := s[|s| - 1], t[|t| - 1];
      assert x in t && y in s;
      assert s == s' + [x] && t == t' + [y];
      assert x.0 <= y.0 && y.0 <= x.0;
      assert x == y by {
        var j :| 0 <= j < |t| && t[j] == x;
      }
      forall e
        ensures e in s' <==> e in t'
      {
        if e in s' {
          assert e in s;
        }
        if e in t' {
          assert e in t;
        }
      }
      AscendingUnique(s', t');
    }
  }

  predicate Always(row: Row) { true }

  /** The entries of a list whose rows satisfy p. */
  function Filter(s: seq<(nat, Row)>, p: Row -> bool): (r: seq<(nat, Row)>) {
    if s == [] then [] else Filter(s[..|s| - 1], p) + (if p(s[|s| - 1].1) then [s[|s| - 1]] else [])
  }

  lemma FilterPush(s: seq<(nat, Row)>, e: (nat, Row), p: Row -> bool)
    ensures Filter(s + [e], p) == Filter(s, p) + (if p(e.1) then [e] else [])
  {
    assert (s + [e])[..|s|] == s;
  }

  // filtering a full scan is a selective scan
  lemma {:induction false} FilterSelect(m: map<nat, Row>, p: Row -> bool, n: nat)
    ensures Filter(Select(m, Always, n), p) == Select(m, p, n)
  {
    if n > 0 {
      FilterSelect(m, p, n - 1);
      if n - 1 in m {
        FilterPush(Select(m, Always, n - 1), (n - 1, m[n - 1]), p);
      } else {
        assert Select(m, Always, n) == Select(m, Always, n - 1);
      }
    }
  }

  // past the last row a scan finds nothing more
  lemma {:induction false} SelectBeyond(m: map<nat, Row>, p: Row -> bool, n: nat, n': nat)
    requires n <= n' && forall g :: g in m ==> g < n
    ensures Select(m, p, n') == Select(m, p, n)
  {
    if n < n' {
      SelectBeyond(m, p, n, n' - 1);
    }
  }

  // ---- rows in a row --------------------------------------------------------

  /** rows at the row numbers g, g + 1, ... */
  function PutAll(m: map<nat, Row>, g: nat, rows: seq<Row>): map<nat, Row> {
    if rows == [] then m else PutAll(m, g, rows[..|rows| - 1])[g + |rows| - 1 := rows[|rows| - 1]]
  }

  lemma PutAllPush(m: map<nat, Row>, g: nat, rows: seq<Row>, row: Row)
    ensures PutAll(m, g, rows + [row]) == PutAll(m, g, rows)[g + |rows| := row]
  {
    assert (rows + [row])[..|rows|] == rows;
  }

  lemma {:induction false} PutAllAppend(m: map<nat, Row>, g: nat, a: seq<Row>, b: seq<Row>)
    ensures PutAll(m, g, a + b) == PutAll(PutAll(m, g, a), g + |a|, b)
  {
    if b == [] {
      assert a + b == a;
    } else {
      var b', x := b[..|b| - 1], b[|b| - 1];
      PutAllAppend(m, g, a, b');
      assert a + b == (a + b') + [x] && b == b' + [x];
      PutAllPush(m, g, a + b', x);
      PutAllPush(PutAll(m, g, a), g + |a|, b', x);
    }
  }

  lemma {:induction false} PutAllHas(m: map<nat, Row>, g: nat, rows: seq<Row>)
    ensures forall h :: h in PutAll(m, g, rows) <==> h in m || g <= h < g + |rows|
    ensures forall h :: h in PutAll(m, g, rows) ==>
      PutAll(m, g, rows)[h] == if g <= h < g + |rows| then rows[h - g] else m[h]
  {
    if rows != [] {
      PutAllHas(m, g, rows[..|rows| - 1]);
    }
  }

  lemma {:induction false} SizeAfterPutAll(m: map<nat, Row>, g: nat, rows: seq<Row>)
    requires forall h :: h in m ==> h < g
    ensures |PutAll(m, g, rows)| == |m| + |rows|
  {
    if rows != [] {
      var front := PutAll(m, g, rows[..|rows| - 1]);
      SizeAfterPutAll(m, g, rows[..|rows| - 1]);
      PutAllHas(m, g, rows[..|rows| - 1]);
      assert PutAll(m, g, rows).Keys == front.Keys + {g + |rows| - 1};
    }
  }

  lemma PutAllNone(m: map<nat, Row>, g: nat)
    ensures PutAll(m, g, []) == m
  {
  }

  lemma SelectNone(m: map<nat, Row>, p: Row -> bool)
    ensures Select(m, p, Times(0, 0)) == [] && forall w: nat :: Times(0, w) == 0 && Select(m, p, Times(0, w)) == []
  {
  }
}
