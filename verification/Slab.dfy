/** A slab: a run of row slots in the mapped file, its liveness flags and its zone map. */
module Slabs {
  import opened Bits
  import opened Values
  import opened Codec
  import opened Layout
  import opened Images

  /** The mapped file. */
  class Mapping {
    var bytes: seq<byte>

    constructor (bytes: seq<byte>)
      ensures this.bytes == bytes
    {
      this.bytes := bytes;
    }
  }

  // ---- zone maps ------------------------------------------------------------

  predicate ZoneHas(min: Zone, max: Zone, c: Col, v: Value) {
    v.Null? || (c in min && c in max && Le(min[c], v) && Le(v, max[c]))
  }

  /** The bounds cover every tracked value of the row. */
  predicate Covers(cols: seq<Col>, min: Zone, max: Zone, row: Row) {
    forall i :: 0 <= i < |cols| ==> ZoneHas(min, max, cols[i], Get(row, cols[i]))
  }

  /** The lower bounds after a row was seen, column by column. */
  function LowsAfter(min: Zone, cols: seq<Col>, row: Row): Zone {
    if cols == [] then min
    else
      var (before, c) := (LowsAfter(min, cols[..|cols| - 1], row), cols[|cols| - 1]);
      var v := Get(row, c);
      if v.Null? || (c in before && !Lt(v, before[c])) then before else before[c := v]
  }

  /** The upper bounds after a row was seen, column by column. */
  function HighsAfter(max: Zone, cols: seq<Col>, row: Row): Zone {
    if cols == [] then max
    else
      var (before, c) := (HighsAfter(max, cols[..|cols| - 1], row), cols[|cols| - 1]);
      var v := Get(row, c);
      if v.Null? || (c in before && !Lt(before[c], v)) then before else before[c := v]
  }

  lemma BoundsStart(min: Zone, max: Zone, cols: seq<Col>, row: Row)
    ensures LowsAfter(min, cols[..0], row) == min && HighsAfter(max, cols[..0], row) == max
  {
  }

  lemma BoundsStep(min: Zone, max: Zone, cols: seq<Col>, row: Row, i: nat)
    requires i < |cols|
    ensures var (lows, highs) := (LowsAfter(min, cols[..i], row), HighsAfter(max, cols[..i], row));
      var (c, v) := (cols[i], Get(row, cols[i]));
      && LowsAfter(min, cols[..i + 1], row) ==
           (if v.Null? || (c in lows && !Lt(v, lows[c])) then lows else lows[c := v])
      && HighsAfter(max, cols[..i + 1], row) ==
           (if v.Null? || (c in highs && !Lt(highs[c], v)) then highs else highs[c := v])
  {
    assert cols[..i + 1][..i] == cols[..i];
  }

  /** Only tracked columns have bounds. */
  ghost predicate ZoneTyped(cols: seq<Col>, min: Zone, max: Zone) {
    forall c :: c in min || c in max ==> c in cols
  }

  /** Whatever the first bounds covered, the second ones cover. */
  ghost predicate Wider(min: Zone, max: Zone, min': Zone, max': Zone) {
    forall d, w :: ZoneHas(min, max, d, w) ==> ZoneHas(min', max', d, w)
  }

  lemma WiderTrans(a: Zone, b: Zone, c: Zone, d: Zone, e: Zone, f: Zone)
    requires Wider(a, b, c, d) && Wider(c, d, e, f)
    ensures Wider(a, b, e, f)
  {
  }

  lemma WiderCovers(cols: seq<Col>, min: Zone, max: Zone, min': Zone, max': Zone)
    requires Wider(min, max, min', max')
    ensures forall row :: Covers(cols, min, max, row) ==> Covers(cols, min', max', row)
  {
  }

  /** True unless the bounds rule out every value in the range. */
  predicate Overlaps(min: Zone, max: Zone, c: Col, low: Bound, high: Bound) {
    if c !in min || c !in max then true
    else if high.At? && (if high.inclusive then Lt(high.v, min[c]) else Le(high.v, min[c])) then false
    else if low.At? && (if low.inclusive then Lt(max[c], low.v) else Le(max[c], low.v)) then false
    else true
  }

  // bounds that are integers rule a range of integers out exactly when it ends below the one or starts above the other
  lemma OverlapsIs(min: Zone, max: Zone, c: Col, low: Bound, high: Bound)
    requires NumBounds(low, high) && c in min && c in max && min[c].Num? && max[c].Num?
    ensures Overlaps(min, max, c, low, high) <==>
      && (low.At? ==> if low.inclusive then low.v.n <= max[c].n else low.v.n < max[c].n)
      && (high.At? ==> if high.inclusive then min[c].n <= high.v.n else min[c].n < high.v.n)
  {
  }

  // pruning is safe: a covered value in the range is never ruled out
  lemma PruneSafe(min: Zone, max: Zone, c: Col, v: Value, low: Bound, high: Bound)
    requires ZoneHas(min, max, c, v) && InRange(v, low, high)
    ensures Overlaps(min, max, c, low, high)
  {
    if high.At? {
      Total(min[c], high.v);
      Total(v, v);
      if Lt(high.v, min[c]) && Lt(min[c], v) {
        Trans(high.v, min[c], v);
      }
      Total(high.v, v);
      Total(min[c], v);
    }
    if low.At? {
      Total(max[c], low.v);
      if Lt(v, max[c]) && Lt(max[c], low.v) {
        Trans(v, max[c], low.v);
      }
      Total(low.v, v);
      Total(max[c], v);
    }
  }

  lemma WidenKeeps(min: Zone, max: Zone, c: Col, v: Value, min': Zone, max': Zone)
    requires !v.Null?
    requires min' == (if c !in min || Lt(v, min[c]) then min[c := v] else min)
    requires max' == (if c !in max || Lt(max[c], v) then max[c := v] else max)
    ensures ZoneHas(min', max', c, v)
    ensures Wider(min, max, min', max')
  {
    if c in min { Total(v, min[c]); }
    if c in max { Total(v, max[c]); }
    forall d, w | ZoneHas(min, max, d, w)
      ensures ZoneHas(min', max', d, w)
    {
      if d == c && !w.Null? {
        if Lt(v, min[c]) && Lt(min[c], w) { Trans(v, min[c], w); }
        if Lt(w, max[c]) && Lt(max[c], v) { Trans(w, max[c], v); }
      }
    }
  }

  // the widened bounds cover the row and all they covered before, and are bounds there were or values of the row
  lemma {:induction false} BoundsCover(min: Zone, max: Zone, cols: seq<Col>, row: Row)
    ensures var (lows, highs) := (LowsAfter(min, cols, row), HighsAfter(max, cols, row));
      && Covers(cols, lows, highs, row) && Wider(min, max, lows, highs)
      && (ZoneTyped(cols, min, max) ==> ZoneTyped(cols, lows, highs))
      && (forall c :: c in lows ==> (c in min && lows[c] == min[c]) || lows[c] == Get(row, c))
      && (forall c :: c in highs ==> (c in max && highs[c] == max[c]) || highs[c] == Get(row, c))
    ensures forall c :: c in LowsAfter(min, cols, row) ==> c in min || c in cols
    ensures forall c :: c in HighsAfter(max, cols, row) ==> c in max || c in cols
  {
    if cols != [] {
      hide Wider;
      var n := |cols| - 1;
      BoundsCover(min, max, cols[..n], row);
      BoundsOn(min, max, cols, row);
    }
  }

  // one more column
  lemma BoundsOn(min: Zone, max: Zone, cols: seq<Col>, row: Row)
    requires cols != []
    requires var front := cols[..|cols| - 1];
      && Covers(front, LowsAfter(min, front, row), HighsAfter(max, front, row), row)
      && Wider(min, max, LowsAfter(min, front, row), HighsAfter(max, front, row))
    ensures Covers(cols, LowsAfter(min, cols, row), HighsAfter(max, cols, row), row)
    ensures Wider(min, max, LowsAfter(min, cols, row), HighsAfter(max, cols, row))
  {
    hide *;
    var (n, c, v) := (|cols| - 1, cols[|cols| - 1], Get(row, cols[|cols| - 1]));
    var (lows, highs) := (LowsAfter(min, cols[..n], row), HighsAfter(max, cols[..n], row));
    var (lows', highs') := (LowsAfter(min, cols, row), HighsAfter(max, cols, row));
    BoundsStep(min, max, cols, row, n);
    assert cols[..n + 1] == cols;
    ValueSeen(lows, highs, c, v, lows', highs');
    WiderTrans(min, max, lows, highs, lows', highs');
    CoversOn(lows, highs, cols, row, lows', highs');
  }

  lemma CoversOn(min: Zone, max: Zone, cols: seq<Col>, row: Row, min': Zone, max': Zone)
    requires cols != [] && Covers(cols[..|cols| - 1], min, max, row) && Wider(min, max, min', max')
    requires ZoneHas(min', max', cols[|cols| - 1], Get(row, cols[|cols| - 1]))
    ensures Covers(cols, min', max', row)
  {
    hide Wider, ZoneHas;
    var n := |cols| - 1;
    forall i | 0 <= i < n
      ensures ZoneHas(min', max', cols[i], Get(row, cols[i]))
    {
      assert ZoneHas(min, max, cols[..n][i], Get(row, cols[..n][i]));
      WiderHas(min, max, min', max', cols[i], Get(row, cols[i]));
    }
  }

  lemma ValueSeen(min: Zone, max: Zone, c: Col, v: Value, min': Zone, max': Zone)
    requires min' == (if v.Null? || (c in min && !Lt(v, min[c])) then min else min[c := v])
    requires max' == (if v.Null? || (c in max && !Lt(max[c], v)) then max else max[c := v])
    ensures ZoneHas(min', max', c, v) && Wider(min, max, min', max')
  {
    if !v.Null? {
      WidenKeeps(min, max, c, v, min', max');
    }
  }

  lemma WiderHas(min: Zone, max: Zone, min': Zone, max': Zone, c: Col, v: Value)
    requires Wider(min, max, min', max') && ZoneHas(min, max, c, v)
    ensures ZoneHas(min', max', c, v)
  {
  }

  /** A built zone map grew to cover one more row; nothing it covered was lost. */
  ghost predicate ZoneGrew(env: Env, s: SlabState, s': SlabState, row: Row) {
    && s'.zoneBuilt == s.zoneBuilt
    && Wider(s.zoneMin, s.zoneMax, s'.zoneMin, s'.zoneMax)
    && (s.zoneBuilt ==> Covers(env.zoneCols, s'.zoneMin, s'.zoneMax, row))
    && s'.zoneMin == (if s.zoneBuilt then LowsAfter(s.zoneMin, env.zoneCols, row) else s.zoneMin)
    && s'.zoneMax == (if s.zoneBuilt then HighsAfter(s.zoneMax, env.zoneCols, row) else s.zoneMax)
  }

  // ---- reading a slab ---------------------------------------------------------

  function SlotAt(env: Env, offset: nat, j: nat): nat { offset + Times(j, env.width) }

  /** What slot j of the page at `offset` decodes to. */
  function RowIn(env: Env, bytes: seq<byte>, offset: nat, j: nat): Row {
    env.codec.decode(SlotAt(env, offset, j), Slice(bytes, SlotAt(env, offset, j), env.width))
  }

  /** Every bound is a value of a live row in a slot below n. */
  ghost predicate SeenIn(env: Env, bytes: seq<byte>, offset: nat, live: seq<bool>, n: nat, zone: Zone) {
    forall c :: c in zone ==> SeenAt(env, bytes, offset, live, n, c, zone[c])
  }

  ghost predicate SeenAt(env: Env, bytes: seq<byte>, offset: nat, live: seq<bool>, n: nat, c: Col, v: Value) {
    exists j :: 0 <= j < n && j < |live| && live[j] && v == Get(RowIn(env, bytes, offset, j), c)
  }

  lemma SeenMore(env: Env, bytes: seq<byte>, offset: nat, live: seq<bool>, n: nat, was: Zone, zone: Zone)
    requires SeenIn(env, bytes, offset, live, n, was) && n < |live| && live[n]
    requires forall c :: c in zone ==>
      (c in was && zone[c] == was[c]) || zone[c] == Get(RowIn(env, bytes, offset, n), c)
    ensures SeenIn(env, bytes, offset, live, n + 1, zone)
  {
    forall c | c in zone
      ensures SeenAt(env, bytes, offset, live, n + 1, c, zone[c])
    {
      assert c in was && zone[c] == was[c] ==> SeenAt(env, bytes, offset, live, n, c, zone[c]);
    }
  }

  /** The live rows in slots below n, in slot order. */
  function LiveRows(env: Env, bytes: seq<byte>, offset: nat, live: seq<bool>, n: nat): seq<(nat, Row)>
    requires n <= |live|
  {
    if n == 0 then []
    else
      LiveRows(env, bytes, offset, live, n - 1) +
        (if live[n - 1] then [(n - 1, RowIn(env, bytes, offset, n - 1))] else [])
  }

  lemma {:induction false} NoneBeyond(env: Env, bytes: seq<byte>, offset: nat, live: seq<bool>, n: nat, n': nat)
    requires n <= n' <= |live| && forall j :: n <= j < n' ==> !live[j]
    ensures LiveRows(env, bytes, offset, live, n') == LiveRows(env, bytes, offset, live, n)
  {
    if n < n' {
      NoneBeyond(env, bytes, offset, live, n, n' - 1);
    }
  }

  // ---- batch writes ---------------------------------------------------------

  /** The payloads of the first n rows, for consecutive slots. */
  function RowsEncoded(env: Env, offset: nat, start: nat, rows: seq<Row>, n: nat): (r: seq<seq<byte>>)
    requires n <= |rows| && (forall i :: 0 <= i < |rows| ==> env.codec.canon(rows[i])) && env.Lawful()
    ensures |r| == n && forall i :: 0 <= i < |r| ==> |r[i]| == env.width
  {
    seq(n, i requires 0 <= i < n => env.codec.encode(SlotAt(env, offset, start + i), rows[i]))
  }

  /** The first slots sit in buf the way writing them one by one would leave them. */
  ghost predicate Buffered(bytes: seq<byte>, offset: nat, width: nat, start: nat, raws: seq<seq<byte>>,
                           buf: seq<byte>) {
    && (forall i :: 0 <= i < |raws| ==> |raws[i]| == width)
    && |buf| == Times(|raws|, width)
    && offset + Times(start, width) + |buf| == offset + Times(start + |raws|, width) <= |bytes|
    && Splice(bytes, offset + Times(start, width), buf) == WriteSlots(bytes, offset, width, start, raws)
  }

  lemma BufferStep(bytes: seq<byte>, offset: nat, width: nat, start: nat, raws: seq<seq<byte>>, buf: seq<byte>,
                   raw: seq<byte>)
    requires Buffered(bytes, offset, width, start, raws, buf) && |raw| == width
    requires offset + Times(start + |raws| + 1, width) <= |bytes|
    ensures Buffered(bytes, offset, width, start, raws + [raw], buf + raw)
  {
    WriteSlotsPush(bytes, offset, width, start, raws, raw);
    SpliceTwice(bytes, offset + Times(start, width), buf, raw);
  }

  lemma NothingBuffered(env: Env, offset: nat, bytes: seq<byte>, start: nat, chunk: seq<Row>, live: seq<bool>)
    requires env.Lawful() && (forall k :: 0 <= k < |chunk| ==> env.codec.canon(chunk[k]))
    requires SlotAt(env, offset, start) <= |bytes|
    ensures Buffered(bytes, offset, env.width, start, RowsEncoded(env, offset, start, chunk, 0), [])
    ensures MarkLive(live, start, start) == live
  {
  }

  lemma EncodePush(env: Env, offset: nat, bytes: seq<byte>, start: nat, chunk: seq<Row>, i: nat, raw: seq<byte>,
                   buf: seq<byte>)
    requires i < |chunk| && (forall k :: 0 <= k < |chunk| ==> env.codec.canon(chunk[k])) && env.Lawful()
    requires Buffered(bytes, offset, env.width, start, RowsEncoded(env, offset, start, chunk, i), buf)
    requires SlotAt(env, offset, start + i + 1) <= |bytes|
    requires raw == env.codec.encode(SlotAt(env, offset, start) + Times(i, env.width), chunk[i])
    ensures Buffered(bytes, offset, env.width, start, RowsEncoded(env, offset, start, chunk, i + 1), buf + raw)
  {
    BufferStep(bytes, offset, env.width, start, RowsEncoded(env, offset, start, chunk, i), buf, raw);
    assert RowsEncoded(env, offset, start, chunk, i + 1) == RowsEncoded(env, offset, start, chunk, i) + [raw];
  }

  lemma StepFits(offset: nat, width: nat, size: nat, j: nat, end: nat)
    requires offset + Times(end, width) <= size && j < end
    ensures offset + Times(j + 1, width) <= size
  {
    if j + 1 < end {
      TimesEnd(j + 1, end, width);
    }
  }

  lemma SliceOfSlice(b: seq<byte>, from: nat, to: nat, lo: nat, hi: nat)
    requires lo <= hi <= to - from && from <= to <= |b|
    ensures b[from..to][lo..hi] == b[from + lo..from + hi]
  {
    var s := b[from..to];
    forall i | 0 <= i < hi - lo
      ensures s[lo..hi][i] == b[from + lo..from + hi][i]
    {
      assert s[lo..hi][i] == s[lo + i];
    }
  }

  function MarkLive(live: seq<bool>, from: nat, to: nat): (r: seq<bool>)
    ensures |r| == |live|
  {
    seq(|live|, j requires 0 <= j < |live| => live[j] || from <= j < to)
  }

  class Slab {
    const env: Env
    const offset: nat
    const capacity: nat
    var mm: Mapping
    var count: nat
    var live: seq<bool>
    var zoneMin: Zone
    var zoneMax: Zone
    var zoneBuilt: bool

    constructor (env: Env, mm: Mapping, offset: nat)
      requires env.Wf() && SlotAt(env, offset, env.rps) <= |mm.bytes|
      ensures Valid() && this.env == env && this.mm == mm && this.offset == offset
      ensures count == 0 && zoneBuilt && live == seq(env.rps, _ => false) && zoneMin == zoneMax == map[]
    {
      this.env := env;
      this.mm := mm;
      this.offset := offset;
      capacity := env.rps;
      count := 0;
      live := seq(env.rps, _ => false);
      zoneMin, zoneMax, zoneBuilt := map[], map[], true;
    }

    ghost predicate Valid()
      reads this, mm
    {
      var ok := env.Wf() && capacity == env.rps && WfState(env, State()) && ZoneTyped(env.zoneCols, zoneMin, zoneMax)
        && SlotAt(env, offset, capacity) <= |mm.bytes|;
      ok
    }

    function State(): SlabState
      reads this
    {
      SlabState(count, live, zoneMin, zoneMax, zoneBuilt)
    }

    function RowOffset(idx: nat): nat { SlotAt(env, offset, idx) }

    lemma InsideFile(idx: nat)
      requires Valid() && idx < capacity
      ensures RowOffset(idx) + env.width <= |mm.bytes|
    {
      TimesEnd(idx, capacity, env.width);
    }

    /** What slot j decodes to. */
    function RowAt(j: nat): Row
      reads this, mm
    {
      RowIn(env, mm.bytes, offset, j)
    }

    method GetRow(idx: nat) returns (r: Option<Row>)
      requires Valid()
      ensures r == if idx < capacity && live[idx] then Some(RowAt(idx)) else None
    {
      if idx >= capacity || !live[idx] {
        return None;
      }
      r := Some(RowAt(idx));
    }

    // ---- zone map -----------------------------------------------------------

    method ZoneWiden(row: Row)
      modifies `zoneMin, `zoneMax
      ensures Covers(env.zoneCols, zoneMin, zoneMax, row)
      ensures ZoneTyped(env.zoneCols, old(zoneMin), old(zoneMax)) ==> ZoneTyped(env.zoneCols, zoneMin, zoneMax)
      ensures Wider(old(zoneMin), old(zoneMax), zoneMin, zoneMax)
      ensures forall c :: c in zoneMin ==>
        (c in old(zoneMin) && zoneMin[c] == old(zoneMin)[c]) || zoneMin[c] == Get(row, c)
      ensures forall c :: c in zoneMax ==>
        (c in old(zoneMax) && zoneMax[c] == old(zoneMax)[c]) || zoneMax[c] == Get(row, c)
      ensures zoneMin == LowsAfter(old(zoneMin), env.zoneCols, row)
      ensures zoneMax == HighsAfter(old(zoneMax), env.zoneCols, row)
    {
      hide LowsAfter, HighsAfter, Covers, Wider, ZoneTyped;
      BoundsStart(zoneMin, zoneMax, env.zoneCols, row);
      for i := 0 to |env.zoneCols|
        invariant zoneMin == LowsAfter(old(zoneMin), env.zoneCols[..i], row)
        invariant zoneMax == HighsAfter(old(zoneMax), env.zoneCols[..i], row)
      {
        var name := env.zoneCols[i];
        var v := Get(row, name);
        BoundsStep(old(zoneMin), old(zoneMax), env.zoneCols, row, i);
        if !v.Null? {
          if name !in zoneMin || Lt(v, zoneMin[name]) {
            zoneMin := zoneMin[name := v];
          }
          if name !in zoneMax || Lt(zoneMax[name], v) {
            zoneMax := zoneMax[name := v];
          }
        }
      }
      assert env.zoneCols[..|env.zoneCols|] == env.zoneCols;
      BoundsCover(old(zoneMin), old(zoneMax), env.zoneCols, row);
    }

    /** A built map covers the rows in all live slots. */
    ghost predicate ZoneCovers()
      reads this, mm
      requires Valid()
    {
      zoneBuilt ==> forall j :: 0 <= j < capacity && live[j] ==> Covers(env.zoneCols, zoneMin, zoneMax, RowAt(j))
    }

    method EnsureZoneMap()
      requires Valid()
      modifies `zoneMin, `zoneMax, `zoneBuilt
      ensures Valid() && zoneBuilt
      ensures old(zoneBuilt) ==> zoneMin == old(zoneMin) && zoneMax == old(zoneMax)
      ensures old(ZoneCovers()) ==> ZoneCovers()
      ensures !old(zoneBuilt) && old(zoneMin) == map[] == old(zoneMax) ==>
        SeenIn(env, mm.bytes, offset, live, count, zoneMin) && SeenIn(env, mm.bytes, offset, live, count, zoneMax)
    {
      if zoneBuilt {
        return;
      }
      ghost var empty := zoneMin == map[] == zoneMax;
      for j := 0 to count
        invariant Valid() && zoneBuilt == old(zoneBuilt)
        invariant forall k :: 0 <= k < j && live[k] ==> Covers(env.zoneCols, zoneMin, zoneMax, RowAt(k))
        invariant empty ==>
          SeenIn(env, mm.bytes, offset, live, j, zoneMin) && SeenIn(env, mm.bytes, offset, live, j, zoneMax)
      {
        if live[j] {
          ghost var (min, max) := (zoneMin, zoneMax);
          ZoneWiden(RowAt(j));
          if empty {
            SeenMore(env, mm.bytes, offset, live, j, min, zoneMin);
            SeenMore(env, mm.bytes, offset, live, j, max, zoneMax);
          }
        }
      }
      zoneBuilt := true;
    }

    method ZoneOverlaps(column: Col, low: Bound, high: Bound) returns (r: bool)
      ensures r == Overlaps(zoneMin, zoneMax, column, low, high)
    {
      r := Overlaps(zoneMin, zoneMax, column, low, high);
    }

    // ---- writes -------------------------------------------------------------

    /** None stands for "Slab is full". */
    method Insert(row: Row) returns (r: Option<nat>)
      requires Valid()
      modifies `count, `live, `zoneMin, `zoneMax, mm
      ensures Valid() && r == if old(count) < capacity then Some(old(count)) else None
      ensures r.Some? ==> count == old(count) + 1 && live == old(live)[old(count) := true]
      ensures r.Some? ==>
        mm.bytes == Put(old(mm.bytes), RowOffset(old(count)), env.codec.encode(RowOffset(old(count)), row))
      ensures r.Some? ==> ZoneGrew(env, old(State()), State(), row)
      ensures r.None? ==> mm.bytes == old(mm.bytes) && count == old(count) && live == old(live)
      ensures r.None? ==> zoneMin == old(zoneMin) && zoneMax == old(zoneMax)
    {
      if count >= capacity {
        return None;
      }
      var idx := count;
      InsideFile(idx);
      count := count + 1;
      live := live[idx := true];
      var start := RowOffset(idx);
      mm.bytes := Put(mm.bytes, start, env.codec.encode(start, row));
      if zoneBuilt {
        ZoneWiden(row);
      }
      r := Some(idx);
    }

    method Update(idx: nat, row: Row) returns (ok: bool)
      requires Valid()
      modifies `zoneMin, `zoneMax, mm
      ensures Valid() && ok == (idx < capacity && live[idx])
      ensures ok ==> mm.bytes == Put(old(mm.bytes), RowOffset(idx), env.codec.encode(RowOffset(idx), row))
      ensures ok ==> ZoneGrew(env, old(State()), State(), row)
      ensures !ok ==> mm.bytes == old(mm.bytes) && zoneMin == old(zoneMin) && zoneMax == old(zoneMax)
    {
      if idx >= capacity || !live[idx] {
        return false;
      }
      InsideFile(idx);
      var start := RowOffset(idx);
      if zoneBuilt {
        ZoneWiden(row);
      }
      mm.bytes := Put(mm.bytes, start, env.codec.encode(start, row));
      ok := true;
    }

    method Delete(idx: nat)
      requires Valid()
      modifies `live
      ensures Valid() && live == if idx < capacity then old(live)[idx := false] else old(live)
    {
      if idx < capacity {
        live := live[idx := false];
      }
    }

    /** Rollback's way of bringing a deleted row back: past the zone map. */
    method Restore(idx: nat, row: Row)
      requires Valid() && idx < count
      modifies `live, mm
      ensures Valid() && live == old(live)[idx := true]
      ensures mm.bytes == Put(old(mm.bytes), RowOffset(idx), env.codec.encode(RowOffset(idx), row))
    {
      InsideFile(idx);
      var start := RowOffset(idx);
      mm.bytes := Put(mm.bytes, start, env.codec.encode(start, row));
      live := live[idx := true];
    }

    ghost predicate CoversFirst(chunk: seq<Row>, n: nat)
      reads this
      requires n <= |chunk|
    {
      zoneBuilt ==> forall k :: 0 <= k < n ==> Covers(env.zoneCols, zoneMin, zoneMax, chunk[k])
    }

    /** Row i of a chunk goes live in its slot and widens the zone map. */
    method NoteInserted(chunk: seq<Row>, i: nat, start: nat, ghost was: seq<bool>)
      requires i < |chunk| && start + i < |live| && live == MarkLive(was, start, start + i) && CoversFirst(chunk, i)
      modifies `live, `zoneMin, `zoneMax
      ensures live == MarkLive(was, start, start + i + 1) && CoversFirst(chunk, i + 1)
      ensures Wider(old(zoneMin), old(zoneMax), zoneMin, zoneMax)
      ensures ZoneTyped(env.zoneCols, old(zoneMin), old(zoneMax)) ==> ZoneTyped(env.zoneCols, zoneMin, zoneMax)
    {
      live := live[start + i := true];
      if zoneBuilt {
        ghost var (min, max) := (zoneMin, zoneMax);
        ZoneWiden(chunk[i]);
        WiderCovers(env.zoneCols, min, max, zoneMin, zoneMax);
      }
    }

    /** Encodes a chunk into one buffer, marking its slots live and widening the zone map. */
    method FillBuffer(chunk: seq<Row>) returns (buf: seq<byte>)
      requires Valid() && env.Lawful() && count + |chunk| <= capacity
      requires forall i :: 0 <= i < |chunk| ==> env.codec.canon(chunk[i])
      modifies `live, `zoneMin, `zoneMax
      ensures Buffered(mm.bytes, offset, env.width, count, RowsEncoded(env, offset, count, chunk, |chunk|), buf)
      ensures live == MarkLive(old(live), count, count + |chunk|)
      ensures CoversFirst(chunk, |chunk|)
      ensures Wider(old(zoneMin), old(zoneMax), zoneMin, zoneMax)
      ensures ZoneTyped(env.zoneCols, old(zoneMin), old(zoneMax)) ==> ZoneTyped(env.zoneCols, zoneMin, zoneMax)
    {
      hide *;
      FitsInFile(count);
      FitsInFile(count + |chunk|);
      ghost var bytes, was := mm.bytes, live;
      var start := count;
      buf := [];
      NothingBuffered(env, offset, bytes, start, chunk, live);
      CoversNone(chunk);
      LiveLength();
      for i := 0 to |chunk|
        invariant Buffered(bytes, offset, env.width, start, RowsEncoded(env, offset, start, chunk, i), buf)
        invariant live == MarkLive(was, start, start + i)
        invariant CoversFirst(chunk, i)
        invariant Wider(old(zoneMin), old(zoneMax), zoneMin, zoneMax)
        invariant ZoneTyped(env.zoneCols, old(zoneMin), old(zoneMax)) ==> ZoneTyped(env.zoneCols, zoneMin, zoneMax)
      {
        ghost var (min, max) := (zoneMin, zoneMax);
        buf := FillOne(chunk, i, start, bytes, was, buf);
        WiderTrans(old(zoneMin), old(zoneMax), min, max, zoneMin, zoneMax);
      }
    }

    lemma CoversNone(chunk: seq<Row>)
      ensures CoversFirst(chunk, 0) && Wider(zoneMin, zoneMax, zoneMin, zoneMax)
    {
    }

    lemma LiveLength()
      requires Valid()
      ensures |live| == capacity
    {
    }

    /** One turn of the batch loop: encode row i, mark its slot, widen the zone map. */
    method FillOne(chunk: seq<Row>, i: nat, start: nat, ghost bytes: seq<byte>, ghost was: seq<bool>, buf: seq<byte>)
      returns (buf': seq<byte>)
      requires i < |chunk| && (forall k :: 0 <= k < |chunk| ==> env.codec.canon(chunk[k])) && env.Lawful()
      requires start + |chunk| <= |live| && SlotAt(env, offset, start + |chunk|) <= |bytes|
      requires Buffered(bytes, offset, env.width, start, RowsEncoded(env, offset, start, chunk, i), buf)
      requires live == MarkLive(was, start, start + i) && CoversFirst(chunk, i)
      modifies `live, `zoneMin, `zoneMax
      ensures Buffered(bytes, offset, env.width, start, RowsEncoded(env, offset, start, chunk, i + 1), buf')
      ensures live == MarkLive(was, start, start + i + 1) && CoversFirst(chunk, i + 1)
      ensures Wider(old(zoneMin), old(zoneMax), zoneMin, zoneMax)
      ensures ZoneTyped(env.zoneCols, old(zoneMin), old(zoneMax)) ==> ZoneTyped(env.zoneCols, zoneMin, zoneMax)
    {
      StepFits(offset, env.width, |bytes|, start + i, start + |chunk|);
      var raw := env.codec.encode(RowOffset(start) + Times(i, env.width), chunk[i]);
      EncodePush(env, offset, bytes, start, chunk, i, raw, buf);
      buf' := buf + raw;
      NoteInserted(chunk, i, start, was);
    }

    /** Writes rows that fit in one go. */
    method WriteChunk(chunk: seq<Row>)
      requires Valid() && env.Lawful() && count + |chunk| <= capacity
      requires forall i :: 0 <= i < |chunk| ==> env.codec.canon(chunk[i])
      modifies `count, `live, `zoneMin, `zoneMax, mm
      ensures Valid() && count == old(count) + |chunk| && live == MarkLive(old(live), old(count), count)
      ensures SlotAt(env, offset, old(count) + |chunk|) <= |old(mm.bytes)|
      ensures mm.bytes == WriteSlots(old(mm.bytes), offset, env.width, old(count),
                                     RowsEncoded(env, offset, old(count), chunk, |chunk|))
      ensures CoversFirst(chunk, |chunk|) && Wider(old(zoneMin), old(zoneMax), zoneMin, zoneMax)
    {
      FitsInFile(count + |chunk|);
      var start := count;
      var buf := FillBuffer(chunk);
      mm.bytes := Splice(mm.bytes, RowOffset(start), buf);
      count := count + |chunk|;
    }

    /** Writes as many rows as fit; returns the first slot, or None when there is nothing to write. */
    method BatchInsert(rows: seq<Row>) returns (r: Option<nat>, ghost taken: seq<Row>)
      requires Valid() && env.Lawful() && forall i :: 0 <= i < |rows| ==> env.codec.canon(rows[i])
      modifies `count, `live, `zoneMin, `zoneMax, mm
      ensures Valid() && taken == if |rows| <= capacity - old(count) then rows else rows[..capacity - old(count)]
      ensures r == if taken == [] then None else Some(old(count))
      ensures count == old(count) + |taken| && live == MarkLive(old(live), old(count), count)
      ensures SlotAt(env, offset, old(count) + |taken|) <= |old(mm.bytes)|
      ensures mm.bytes == WriteSlots(old(mm.bytes), offset, env.width, old(count),
                                     RowsEncoded(env, offset, old(count), taken, |taken|))
      ensures CoversFirst(taken, |taken|) && Wider(old(zoneMin), old(zoneMax), zoneMin, zoneMax)
    {
      var chunk := if |rows| <= capacity - count then rows else rows[..capacity - count];
      taken := chunk;
      if |chunk| == 0 {
        FitsInFile(count);
        assert live == MarkLive(live, count, count);
        return None, taken;
      }
      r := Some(count);
      WriteChunk(chunk);
    }

    lemma FitsInFile(n: nat)
      requires Valid() && n <= capacity
      ensures SlotAt(env, offset, n) <= |mm.bytes|
    {
      if n < capacity {
        TimesEnd(n, capacity, env.width);
      }
    }

    // ---- reading ------------------------------------------------------------

    /** Slot i, decoded from a copy of the page's handed-out slots. */
    method DecodeSlot(page: seq<byte>, i: nat) returns (row: Row)
      requires Valid() && i < count && RowOffset(count) <= |mm.bytes| && page == mm.bytes[offset..RowOffset(count)]
      ensures row == RowAt(i)
    {
      var w := env.width;
      TimesEnd(i, count, w);
      SliceOfSlice(mm.bytes, offset, RowOffset(count), Times(i, w), Times(i, w) + w);
      row := env.codec.decode(RowOffset(i), page[Times(i, w)..Times(i, w) + w]);
    }

    /** All live rows, in one decode pass over the page. */
    method IterRows() returns (out: seq<(nat, Row)>)
      requires Valid()
      ensures |live| == capacity && out == LiveRows(env, mm.bytes, offset, live, capacity)
    {
      out := [];
      FitsInFile(count);
      var buf := mm.bytes[offset..RowOffset(count)];
      for i := 0 to count
        invariant out == LiveRows(env, mm.bytes, offset, live, i)
      {
        if live[i] {
          var row := DecodeSlot(buf, i);
          out := out + [(i, row)];
        }
      }
      NoneBeyond(env, mm.bytes, offset, live, count, capacity);
    }
  }

  // ---- a chunk of rows against the live map -----------------------------------

  /** The file after the first n rows of a chunk were written from slot j of slab k on. */
  function ChunkBytes(env: Env, bytes: seq<byte>, k: nat, j: nat, chunk: seq<Row>, n: nat): seq<byte>
    requires env.Lawful() && n <= |chunk| && forall i :: 0 <= i < |chunk| ==> env.codec.canon(chunk[i])
    requires env.PageStart(k) + Times(j + n, env.width) <= |bytes|
  {
    WriteSlots(bytes, env.PageStart(k), env.width, j, RowsEncoded(env, env.PageStart(k), j, chunk, n))
  }

  lemma ChunkBytesStep(env: Env, bytes: seq<byte>, k: nat, j: nat, chunk: seq<Row>, n: nat)
    requires env.Lawful() && 0 < n <= |chunk| && forall i :: 0 <= i < |chunk| ==> env.codec.canon(chunk[i])
    requires env.PageStart(k) + Times(j + n, env.width) <= |bytes|
    ensures env.PageStart(k) + Times(j + n - 1, env.width) <= |bytes|
    ensures ChunkBytes(env, bytes, k, j, chunk, n)
         == SlotWritten(env, ChunkBytes(env, bytes, k, j, chunk, n - 1), k, j + n - 1, chunk[n - 1])
  {
    var raws := RowsEncoded(env, env.PageStart(k), j, chunk, n - 1);
    var raw := env.codec.encode(env.SlotStart(k, j + n - 1), chunk[n - 1]);
    assert RowsEncoded(env, env.PageStart(k), j, chunk, n) == raws + [raw];
    WriteSlotsPush(bytes, env.PageStart(k), env.width, j, raws, raw);
  }

  lemma SlotIsRow(env: Env, bytes: seq<byte>, k: nat, j: nat, row: Row)
    requires env.rps > 0 && j < env.rps
    ensures SlotWritten(env, bytes, k, j, row) == Written(env, bytes, Times(k, env.rps) + j, row)
  {
    GlobalIndex(env, k, j);
  }

  // a buffered chunk leaves the bytes its rows leave one by one
  lemma {:induction false} ChunkIsRows(env: Env, bytes: seq<byte>, k: nat, j: nat, chunk: seq<Row>, n: nat)
    requires env.Lawful() && n <= |chunk| && forall i :: 0 <= i < |chunk| ==> env.codec.canon(chunk[i])
    requires env.PageStart(k) + Times(j + n, env.width) <= |bytes| && j + n <= env.rps && env.rps > 0
    ensures ChunkBytes(env, bytes, k, j, chunk, n) == RowsWritten(env, bytes, Times(k, env.rps) + j, chunk[..n])
  {
    hide LawfulCodec, Written, SlotWritten;
    if n == 0 {
      assert chunk[..0] == [];
    } else {
      hide ChunkBytes;
      ChunkBytesStep(env, bytes, k, j, chunk, n);
      ChunkIsRows(env, bytes, k, j, chunk, n - 1);
      SlotIsRow(env, ChunkBytes(env, bytes, k, j, chunk, n - 1), k, j + n - 1, chunk[n - 1]);
      assert chunk[..n] == chunk[..n - 1] + [chunk[n - 1]];
      RowsWrittenPush(env, bytes, Times(k, env.rps) + j, chunk[..n - 1], chunk[n - 1]);
    }
  }

  // Writing a chunk into consecutive slots adds its rows at consecutive row numbers.
  lemma {:induction false} ChunkKeeps(env: Env, bytes: seq<byte>, states: States, model: map<nat, Row>, k: nat, j: nat,
                                      g: nat, chunk: seq<Row>, n: nat, s: SlabState)
    requires Consistent(env, bytes, states, model) && k < |states| && n <= |chunk| && env.Lawful()
    requires forall i :: 0 <= i < |chunk| ==> env.codec.canon(chunk[i])
    requires states[k].count == j && j + n <= env.rps && g == Times(k, env.rps) + j
    requires s.count == j + n && s.live == MarkLive(states[k].live, j, j + n)
    requires env.PageStart(k) + Times(j + n, env.width) <= |bytes|
    ensures Consistent(env, ChunkBytes(env, bytes, k, j, chunk, n), states[k := s], PutAll(model, g, chunk[..n]))
  {
    hide *;
    if n == 0 {
      NoChunk(env, bytes, states[k].live, model, k, j, g, chunk);
      ZoneKeeps(env, bytes, states, model, k, s);
    } else {
      var t := SlabState(j + n - 1, MarkLive(states[k].live, j, j + n - 1), s.zoneMin, s.zoneMax, s.zoneBuilt);
      ChunkBytesStep(env, bytes, k, j, chunk, n);
      ChunkKeeps(env, bytes, states, model, k, j, g, chunk, n - 1, t);
      SlotsLong(env, bytes, states, model, k);
      MarkLiveStep(states[k].live, j, j + n - 1);
      ChunkStep(env, ChunkBytes(env, bytes, k, j, chunk, n - 1), states[k := t], PutAll(model, g, chunk[..n - 1]),
                k, g + n - 1, chunk[n - 1], s);
      assert states[k := t][k := s] == states[k := s];
      assert chunk[..n] == chunk[..n - 1] + [chunk[n - 1]];
      PutAllPush(model, g, chunk[..n - 1], chunk[n - 1]);
    }
  }

  lemma NoChunk(env: Env, bytes: seq<byte>, live: seq<bool>, model: map<nat, Row>, k: nat, j: nat, g: nat,
                chunk: seq<Row>)
    requires env.Lawful() && (forall i :: 0 <= i < |chunk| ==> env.codec.canon(chunk[i]))
    requires env.PageStart(k) + Times(j, env.width) <= |bytes|
    ensures MarkLive(live, j, j) == live && ChunkBytes(env, bytes, k, j, chunk, 0) == bytes
    ensures PutAll(model, g, chunk[..0]) == model
  {
    assert chunk[..0] == [];
  }

  lemma SlotsLong(env: Env, bytes: seq<byte>, states: States, model: map<nat, Row>, k: nat)
    requires Consistent(env, bytes, states, model) && k < |states|
    ensures |states[k].live| == env.rps
  {
    assert WfState(env, states[k]);
  }

  lemma MarkLiveStep(live: seq<bool>, from: nat, to: nat)
    requires from <= to < |live|
    ensures MarkLive(live, from, to)[to := true] == MarkLive(live, from, to + 1)
  {
  }

  lemma ChunkStep(env: Env, bytes: seq<byte>, states: States, model: map<nat, Row>, k: nat, g: nat, row: Row,
                  s: SlabState)
    requires Consistent(env, bytes, states, model) && k < |states| && env.codec.canon(row)
    requires states[k].count < env.rps && g == Times(k, env.rps) + states[k].count && s.count == states[k].count + 1
    requires states[k].count < |states[k].live| && s.live == states[k].live[states[k].count := true]
    ensures Consistent(env, SlotWritten(env, bytes, k, states[k].count, row), states[k := s], model[g := row])
  {
    assert WfState(env, states[k]);
    GlobalIndex(env, k, states[k].count);
    PutCanonical(env, bytes, states, model, g, row, s);
  }

  // ---- zone maps against the live rows ----------------------------------------

  /** Every built zone map covers every live row of its slab. */
  ghost predicate ZonesCover(env: Env, states: States, model: map<nat, Row>)
    requires env.rps > 0
  {
    forall g :: g in model ==> ZoneCoversRow(env, states, g, model[g])
  }

  ghost predicate ZoneCoversRow(env: Env, states: States, g: nat, row: Row)
    requires env.rps > 0
  {
    var k := env.SlabOf(g);
    k < |states| && (states[k].zoneBuilt ==> Covers(env.zoneCols, states[k].zoneMin, states[k].zoneMax, row))
  }

  /** No map is built or lost, built maps only widen, and maps of new slabs are built. */
  ghost predicate ZonesGrow(was: States, now: States) {
    var ok := |was| <= |now|
      && (forall k :: 0 <= k < |was| ==> ZoneGrows(was[k], now[k]))
      && forall k :: |was| <= k < |now| ==> now[k].zoneBuilt;
    ok
  }

  ghost predicate ZoneGrows(s: SlabState, s': SlabState) {
    s'.zoneBuilt == s.zoneBuilt && Wider(s.zoneMin, s.zoneMax, s'.zoneMin, s'.zoneMax)
  }

  /** No map changed at all. */
  ghost predicate SameMaps(was: States, now: States) {
    |was| == |now| && forall k :: 0 <= k < |was| ==>
      now[k].zoneBuilt == was[k].zoneBuilt && now[k].zoneMin == was[k].zoneMin && now[k].zoneMax == was[k].zoneMax
  }

  /** The maps after a row was written through its slab: a built one widens over it. */
  function MapsAfter(env: Env, states: States, g: nat, row: Row): States
    requires env.rps > 0
  {
    var k := env.SlabOf(g);
    if k < |states| && states[k].zoneBuilt then
      states[k := states[k].(zoneMin := LowsAfter(states[k].zoneMin, env.zoneCols, row),
                             zoneMax := HighsAfter(states[k].zoneMax, env.zoneCols, row))]
    else states
  }

  lemma MapsAfterIs(env: Env, was: States, g: nat, row: Row, now: SlabState)
    requires env.rps > 0 && env.SlabOf(g) < |was| && ZoneGrew(env, was[env.SlabOf(g)], now, row)
    ensures SameMaps(MapsAfter(env, was, g, row), was[env.SlabOf(g) := now])
    ensures ZoneCoversRow(env, was[env.SlabOf(g) := now], g, row)
  {
    hide LowsAfter, HighsAfter, Wider, Covers;
  }

  lemma SameMapsAfter(env: Env, a: States, b: States, g: nat, row: Row)
    requires env.rps > 0 && SameMaps(a, b)
    ensures SameMaps(MapsAfter(env, a, g, row), MapsAfter(env, b, g, row))
  {
    hide LowsAfter, HighsAfter;
  }

  lemma ZonesStay(states: States)
    ensures ZonesGrow(states, states)
  {
  }

  lemma ZonesGrowTrans(a: States, b: States, c: States)
    requires ZonesGrow(a, b) && ZonesGrow(b, c)
    ensures ZonesGrow(a, c)
  {
    forall k | 0 <= k < |a|
      ensures ZoneGrows(a[k], c[k])
    {
      assert ZoneGrows(a[k], b[k]) && ZoneGrows(b[k], c[k]);
    }
  }

  lemma ZonesGrowAt(states: States, k: nat, s: SlabState)
    requires k < |states| && ZoneGrows(states[k], s)
    ensures ZonesGrow(states, states[k := s])
  {
  }

  lemma ZonesGrowMore(env: Env, states: States, n: nat)
    ensures ZonesGrow(states, states + Empties(env, n))
  {
  }

  // a row the maps cover stays covered
  lemma StillCovered(env: Env, was: States, now: States, g: nat, row: Row)
    requires env.rps > 0 && ZonesGrow(was, now) && ZoneCoversRow(env, was, g, row)
    ensures ZoneCoversRow(env, now, g, row)
  {
    var k := env.SlabOf(g);
    assert ZoneGrows(was[k], now[k]);
    WiderCovers(env.zoneCols, was[k].zoneMin, was[k].zoneMax, now[k].zoneMin, now[k].zoneMax);
  }

  // a write that widens the map keeps it covering
  lemma ZonesAfterWrite(env: Env, states: States, model: map<nat, Row>, g: nat, row: Row, s: SlabState)
    requires env.rps > 0 && env.SlabOf(g) < |states| && ZoneGrew(env, states[env.SlabOf(g)], s, row)
    requires ZonesCover(env, states, model)
    ensures ZonesCover(env, states[env.SlabOf(g) := s], model[g := row])
  {
    WiderCovers(env.zoneCols, states[env.SlabOf(g)].zoneMin, states[env.SlabOf(g)].zoneMax, s.zoneMin, s.zoneMax);
  }

  // a write past the map, as rollback's restore does, keeps it covering exactly when the
  // map is not built yet or already covers the row
  lemma ZonesAfterRestore(env: Env, states: States, model: map<nat, Row>, g: nat, row: Row, s: SlabState)
    requires env.rps > 0 && env.SlabOf(g) < |states| && ZonesCover(env, states, model)
    requires s.zoneMin == states[env.SlabOf(g)].zoneMin && s.zoneMax == states[env.SlabOf(g)].zoneMax
    requires s.zoneBuilt == states[env.SlabOf(g)].zoneBuilt
    ensures ZonesCover(env, states[env.SlabOf(g) := s], model[g := row]) <==> ZoneCoversRow(env, states, g, row)
  {
    assert ZoneCoversRow(env, states[env.SlabOf(g) := s], g, row) <==> ZoneCoversRow(env, states, g, row);
    assert g in model[g := row] && model[g := row][g] == row;
    forall h | h in model && h != g
      ensures ZoneCoversRow(env, states[env.SlabOf(g) := s], h, model[g := row][h])
    {
      assert ZoneCoversRow(env, states, h, model[h]);
    }
  }

  lemma ZonesAfterRemove(env: Env, states: States, model: map<nat, Row>, g: nat, s: SlabState)
    requires env.rps > 0 && env.SlabOf(g) < |states| && ZonesCover(env, states, model)
    requires s.zoneMin == states[env.SlabOf(g)].zoneMin && s.zoneMax == states[env.SlabOf(g)].zoneMax
    requires s.zoneBuilt == states[env.SlabOf(g)].zoneBuilt
    ensures ZonesCover(env, states[env.SlabOf(g) := s], model - {g})
  {
    forall h | h in model && h != g
      ensures ZoneCoversRow(env, states[env.SlabOf(g) := s], h, model[h])
    {
      assert ZoneCoversRow(env, states, h, model[h]);
    }
  }

  /** A built zone map grew to cover a chunk of rows. */
  ghost predicate ZoneGrewChunk(env: Env, s: SlabState, s': SlabState, chunk: seq<Row>) {
    && s'.zoneBuilt == s.zoneBuilt
    && Wider(s.zoneMin, s.zoneMax, s'.zoneMin, s'.zoneMax)
    && (s.zoneBuilt ==> forall i :: 0 <= i < |chunk| ==> Covers(env.zoneCols, s'.zoneMin, s'.zoneMax, chunk[i]))
  }

  lemma ZonesAfterChunk(env: Env, states: States, model: map<nat, Row>, k: nat, j: nat, g: nat, chunk: seq<Row>,
                        s: SlabState)
    requires env.rps > 0 && k < |states| && ZoneGrewChunk(env, states[k], s, chunk) && ZonesCover(env, states, model)
    requires g == Times(k, env.rps) + j && j + |chunk| <= env.rps
    ensures ZonesCover(env, states[k := s], PutAll(model, g, chunk))
  {
    WiderCovers(env.zoneCols, states[k].zoneMin, states[k].zoneMax, s.zoneMin, s.zoneMax);
    var model' := PutAll(model, g, chunk);
    PutAllHas(model, g, chunk);
    forall h | h in model'
      ensures ZoneCoversRow(env, states[k := s], h, model'[h])
    {
      if g <= h < g + |chunk| {
        GlobalIndex(env, k, j + (h - g));
      } else {
        assert ZoneCoversRow(env, states, h, model[h]);
      }
    }
  }

  lemma ZonesAfterGrow(env: Env, states: States, model: map<nat, Row>, more: States)
    requires env.rps > 0 && ZonesCover(env, states, model)
    ensures ZonesCover(env, states + more, model)
  {
    forall h | h in model
      ensures ZoneCoversRow(env, states + more, h, model[h])
    {
      assert ZoneCoversRow(env, states, h, model[h]);
    }
  }

  // ---- scans ------------------------------------------------------------------

  /** The live rows of a slab that satisfy p, under their global row numbers. */
  function Picked(env: Env, bytes: seq<byte>, offset: nat, live: seq<bool>, n: nat, base: nat,
                  p: Row -> bool): seq<(nat, Row)>
    requires n <= |live|
  {
    if n == 0 then []
    else
      var row := RowIn(env, bytes, offset, n - 1);
      var front := Picked(env, bytes, offset, live, n - 1, base, p);
      if live[n - 1] && p(row) then front + [(base + n - 1, row)] else front
  }

  /** The entries of a list that satisfy p, their numbers shifted by base. */
  function Shifted(s: seq<(nat, Row)>, base: nat, p: Row -> bool): seq<(nat, Row)> {
    if s == [] then []
    else
      var e := s[|s| - 1];
      var front := Shifted(s[..|s| - 1], base, p);
      if p(e.1) then front + [(base + e.0, e.1)] else front
  }

  lemma {:induction false} PickedIsShifted(env: Env, bytes: seq<byte>, offset: nat, live: seq<bool>, n: nat, base: nat,
                                           p: Row -> bool)
    requires n <= |live|
    ensures Shifted(LiveRows(env, bytes, offset, live, n), base, p) == Picked(env, bytes, offset, live, n, base, p)
  {
    if n > 0 {
      PickedIsShifted(env, bytes, offset, live, n - 1, base, p);
      var front := LiveRows(env, bytes, offset, live, n - 1);
      if live[n - 1] {
        assert (front + [(n - 1, RowIn(env, bytes, offset, n - 1))])[..|front|] == front;
      } else {
        assert LiveRows(env, bytes, offset, live, n) == front;
      }
    }
  }

  // building a map from the live rows makes it cover them
  lemma ZonesAfterBuild(env: Env, bytes: seq<byte>, states: States, model: map<nat, Row>, k: nat, s: SlabState)
    requires Consistent(env, bytes, states, model) && env.rps > 0 && k < |states| && ZonesCover(env, states, model)
    requires s.live == states[k].live && |s.live| == env.rps && (states[k].zoneBuilt ==> s == states[k])
    requires !states[k].zoneBuilt ==> forall j :: 0 <= j < env.rps && s.live[j] ==>
      Covers(env.zoneCols, s.zoneMin, s.zoneMax, RowIn(env, bytes, env.PageStart(k), j))
    ensures ZonesCover(env, states[k := s], model)
  {
    forall g | g in model
      ensures ZoneCoversRow(env, states[k := s], g, model[g])
    {
      assert ZoneCoversRow(env, states, g, model[g]);
      ReadsBack(env, bytes, states, model, g);
    }
  }

  /** Every bound is a value of a live row of slab k. */
  ghost predicate FromRows(env: Env, model: map<nat, Row>, k: nat, zone: Zone)
    requires env.rps > 0
  {
    forall c :: c in zone ==> exists g :: g in model && env.SlabOf(g) == k && Get(model[g], c) == zone[c]
  }

  /** What asking for a slab's map does: a built one stays; one that was never begun is built from the live rows. */
  ghost predicate MapReady(env: Env, model: map<nat, Row>, k: nat, s: SlabState, s': SlabState)
    requires env.rps > 0
  {
    && s'.zoneBuilt && s'.count == s.count && s'.live == s.live && (s.zoneBuilt ==> s' == s)
    && (!s.zoneBuilt && s.zoneMin == map[] == s.zoneMax ==>
      FromRows(env, model, k, s'.zoneMin) && FromRows(env, model, k, s'.zoneMax))
  }

  lemma SeenIsFromRows(env: Env, bytes: seq<byte>, states: States, model: map<nat, Row>, k: nat, n: nat, zone: Zone)
    requires Consistent(env, bytes, states, model) && k < |states|
    requires SeenIn(env, bytes, env.PageStart(k), states[k].live, n, zone)
    ensures env.rps > 0 && FromRows(env, model, k, zone)
  {
    hide Consistent;
    WholeIsSame(env, bytes, states, model, k);
    forall c | c in zone
      ensures exists g :: g in model && env.SlabOf(g) == k && Get(model[g], c) == zone[c]
    {
      assert SeenAt(env, bytes, env.PageStart(k), states[k].live, n, c, zone[c]);
      var j: nat :| j < n && j < |states[k].live| && states[k].live[j]
        && zone[c] == Get(RowIn(env, bytes, env.PageStart(k), j), c);
      var g := Times(k, env.rps) + j;
      ReadsBack(env, bytes, states, model, Times(k, env.rps));
      GlobalIndex(env, k, j);
      ReadsBack(env, bytes, states, model, g);
    }
  }

  /** The two maps hold the same rows of slab k. */
  ghost predicate SameIn(env: Env, part: map<nat, Row>, model: map<nat, Row>, k: nat)
    requires env.rps > 0
  {
    forall g: nat :: env.SlabOf(g) == k ==> (g in part <==> g in model) && (g in model ==> part[g] == model[g])
  }

  // scanning one slab after the others extends the selection by its rows
  lemma {:induction false} SelectSlab(env: Env, bytes: seq<byte>, states: States, model: map<nat, Row>,
                                      part: map<nat, Row>, k: nat, n: nat, p: Row -> bool)
    requires Consistent(env, bytes, states, model) && k < |states| && n <= env.rps == |states[k].live|
    requires env.rps > 0 && SameIn(env, part, model, k)
    ensures Select(part, p, Times(k, env.rps) + n) ==
      Select(part, p, Times(k, env.rps)) + Picked(env, bytes, env.PageStart(k), states[k].live, n, Times(k, env.rps), p)
  {
    hide Consistent, SameIn;
    if n > 0 {
      SelectSlab(env, bytes, states, model, part, k, n - 1, p);
      var g := Times(k, env.rps) + n - 1;
      GlobalIndex(env, k, n - 1);
      ReadsBack(env, bytes, states, model, g);
      SameHere(env, part, model, k, g);
    }
  }

  lemma SameHere(env: Env, part: map<nat, Row>, model: map<nat, Row>, k: nat, g: nat)
    requires env.rps > 0 && SameIn(env, part, model, k) && env.SlabOf(g) == k
    ensures (g in part <==> g in model) && (g in model ==> part[g] == model[g])
  {
  }

  lemma WholeIsSame(env: Env, bytes: seq<byte>, states: States, model: map<nat, Row>, k: nat)
    requires Consistent(env, bytes, states, model)
    ensures env.rps > 0 && SameIn(env, model, model, k)
  {
  }

  function RangePred(c: Col, low: Bound, high: Bound): Row -> bool { (row: Row) => InRange(Get(row, c), low, high) }

  // ---- pruned scans -------------------------------------------------------------

  /** The rows of the slabs whose maps do not rule the range out. */
  ghost function Unpruned(env: Env, states: States, model: map<nat, Row>, c: Col, low: Bound, high: Bound)
    : map<nat, Row>
    requires env.rps > 0
  {
    map g | g in model && Reached(env, states, g, c, low, high) :: model[g]
  }

  /** Row g's slab is scanned. */
  ghost predicate Reached(env: Env, states: States, g: nat, c: Col, low: Bound, high: Bound)
    requires env.rps > 0
  {
    env.SlabOf(g) < |states| && Overlaps(states[env.SlabOf(g)].zoneMin, states[env.SlabOf(g)].zoneMax, c, low, high)
  }

  // a pruned slab adds nothing, any other its rows
  lemma UnprunedSlab(env: Env, states: States, model: map<nat, Row>, k: nat, c: Col, low: Bound, high: Bound)
    requires env.rps > 0 && k < |states|
    ensures var part := Unpruned(env, states, model, c, low, high);
      if Overlaps(states[k].zoneMin, states[k].zoneMax, c, low, high) then SameIn(env, part, model, k)
      else forall g: nat :: env.SlabOf(g) == k ==> g !in part
  {
  }

  lemma {:induction false} SelectGap(env: Env, part: map<nat, Row>, k: nat, n: nat, p: Row -> bool)
    requires env.rps > 0 && n <= env.rps && forall g: nat :: env.SlabOf(g) == k ==> g !in part
    ensures Select(part, p, Times(k, env.rps) + n) == Select(part, p, Times(k, env.rps))
  {
    if n > 0 {
      SelectGap(env, part, k, n - 1, p);
      GlobalIndex(env, k, n - 1);
    }
  }

  lemma {:induction false} SelectBelow(a: map<nat, Row>, b: map<nat, Row>, p: Row -> bool, n: nat)
    requires forall g :: 0 <= g < n ==> (g in a <==> g in b) && (g in a ==> a[g] == b[g])
    ensures Select(a, p, n) == Select(b, p, n)
  {
    if n > 0 {
      SelectBelow(a, b, p, n - 1);
    }
  }

  // a later slab's map decides nothing about the slabs before it
  lemma UnprunedBelow(env: Env, states: States, model: map<nat, Row>, k: nat, s: SlabState, c: Col, low: Bound,
                      high: Bound, p: Row -> bool)
    requires env.rps > 0 && k < |states|
    ensures Select(Unpruned(env, states[k := s], model, c, low, high), p, Times(k, env.rps))
         == Select(Unpruned(env, states, model, c, low, high), p, Times(k, env.rps))
  {
    forall g: nat | 0 <= g < Times(k, env.rps)
      ensures Reached(env, states[k := s], g, c, low, high) <==> Reached(env, states, g, c, low, high)
    {
      SlabBelow(env, g, k);
    }
    SelectBelow(Unpruned(env, states[k := s], model, c, low, high), Unpruned(env, states, model, c, low, high), p,
                Times(k, env.rps));
  }

  // The pruned scan finds every row in range exactly when each of them lies in a slab that is scanned.
  lemma UnprunedIsAll(env: Env, states: States, model: map<nat, Row>, c: Col, low: Bound, high: Bound, n: nat)
    requires env.rps > 0 && forall g :: g in model ==> g < n
    ensures Select(Unpruned(env, states, model, c, low, high), RangePred(c, low, high), n)
         == Select(model, RangePred(c, low, high), n)
      <==> forall g :: g in model && InRange(Get(model[g], c), low, high) ==> Reached(env, states, g, c, low, high)
  {
    var p, part := RangePred(c, low, high), Unpruned(env, states, model, c, low, high);
    SelectExact(part, p, n);
    SelectExact(model, p, n);
    if forall g :: g in model && p(model[g]) ==> Reached(env, states, g, c, low, high) {
      SelectHits(part, model, p, n);
    } else {
      var g :| g in model && p(model[g]) && !Reached(env, states, g, c, low, high);
      assert (g, model[g]) in Select(model, p, n) && (g, model[g]) !in Select(part, p, n);
    }
  }

  lemma {:induction false} SelectHits(part: map<nat, Row>, model: map<nat, Row>, p: Row -> bool, n: nat)
    requires forall g :: g in part ==> g in model && part[g] == model[g]
    requires forall g :: g in model && p(model[g]) ==> g in part
    ensures Select(part, p, n) == Select(model, p, n)
  {
    if n > 0 {
      SelectHits(part, model, p, n - 1);
    }
  }

  // covering maps prune no row in range
  lemma CoveredIsReached(env: Env, states: States, model: map<nat, Row>, c: Col, low: Bound, high: Bound)
    requires env.rps > 0 && ZonesCover(env, states, model)
    requires forall k :: 0 <= k < |states| ==>
      states[k].zoneBuilt && (c in env.zoneCols || Overlaps(states[k].zoneMin, states[k].zoneMax, c, low, high))
    ensures forall g :: g in model && InRange(Get(model[g], c), low, high) ==> Reached(env, states, g, c, low, high)
  {
    forall g | g in model && InRange(Get(model[g], c), low, high)
      ensures Reached(env, states, g, c, low, high)
    {
      assert ZoneCoversRow(env, states, g, model[g]);
      var k := env.SlabOf(g);
      if c in env.zoneCols {
        PruneSafe(states[k].zoneMin, states[k].zoneMax, c, Get(model[g], c), low, high);
      }
    }
  }

  // ---- the slabs of one file ------------------------------------------------

  ghost predicate SlabAt(env: Env, mm: Mapping, s: Slab, st: SlabState, k: nat)
    reads s, mm
  {
    var ok := s.mm == mm && s.env == env && s.offset == env.PageStart(k) && s.Valid() && s.State() == st;
    ok
  }

  /** Distinct slabs lie back to back in one mapping, in the given states. */
  ghost predicate InFile(env: Env, mm: Mapping, slabs: seq<Slab>, states: States)
    reads mm, slabs
  {
    var ok :=
      && env.Wf() && |slabs| == |states|
      && (forall i, j :: 0 <= i < j < |slabs| ==> slabs[i] != slabs[j])
      && (forall k :: 0 <= k < |slabs| ==> SlabAt(env, mm, slabs[k], states[k], k));
    ok
  }
}
