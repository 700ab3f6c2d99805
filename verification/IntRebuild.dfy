/** Dropping dead rows from an integer column: which of its encodings keep their values. */
module IntRebuilds {
  import opened Bits
  import opened Lanes
  import opened Masks
  import opened Values
  import opened IntColumns

  predicate AllSame(s: seq<int>, v: int) { forall i :: 0 <= i < |s| ==> s[i] == v }

  // ---- delta columns ----------------------------------------------------------------

  /** The new deltas: each kept value less the one before, the first less the old base; none when
      one of them overflows the array's element type, which raises. */
  method RebuildDeltas(base: int, values: seq<int>, rows: seq<nat>, t: IntType) returns (deltas: Option<seq<int>>)
    requires forall j :: 0 <= j < |rows| ==> rows[j] < |values|
    ensures deltas.Some? ==> AllFit(t, deltas.value) && Reconstruct(base, deltas.value) == [base] + Pick(values, rows)
    ensures deltas.None? <==> Overflows(base, values, rows, t)
  {
    hide Reconstruct, Pick, AllFit, IntType.Fits;
    var out := [];
    var prev := base;
    NoDeltas(base, values, rows, t);
    for j := 0 to |rows|
      invariant AllFit(t, out) && Rebuilt(base, values, rows, out, j) && prev == LastKept(base, values, rows, j)
      invariant forall i :: 0 <= i < j ==> t.Fits(values[rows[i]] - LastKept(base, values, rows, i))
    {
      if !t.Fits(values[rows[j]] - prev) {
        return None;
      }
      OneDelta(base, values, rows, out, j, t);
      out := out + [values[rows[j]] - prev];
      prev := values[rows[j]];
    }
    AllDeltas(base, values, rows, out);
    deltas := Some(out);
  }

  /** The value kept before the j-th, the base before the first. */
  function LastKept(base: int, values: seq<int>, rows: seq<nat>, j: nat): int
    requires j <= |rows| && forall i :: 0 <= i < |rows| ==> rows[i] < |values|
  {
    if j == 0 then base else values[rows[j - 1]]
  }

  /** The step to some kept value does not fit the element type. */
  predicate Overflows(base: int, values: seq<int>, rows: seq<nat>, t: IntType)
    requires forall i :: 0 <= i < |rows| ==> rows[i] < |values|
  {
    exists j :: 0 <= j < |rows| && !t.Fits(values[rows[j]] - LastKept(base, values, rows, j))
  }

  /** The deltas of the first j values kept. */
  predicate Rebuilt(base: int, values: seq<int>, rows: seq<nat>, deltas: seq<int>, j: nat)
    requires j <= |rows| && forall i :: 0 <= i < |rows| ==> rows[i] < |values|
  {
    |deltas| == j && Reconstruct(base, deltas) == [base] + Pick(values, rows)[..j]
  }

  lemma NoDeltas(base: int, values: seq<int>, rows: seq<nat>, t: IntType)
    requires forall i :: 0 <= i < |rows| ==> rows[i] < |values|
    ensures AllFit(t, []) && Rebuilt(base, values, rows, [], 0)
  {
  }

  lemma OneDelta(base: int, values: seq<int>, rows: seq<nat>, deltas: seq<int>, j: nat, t: IntType)
    requires j < |rows| && (forall i :: 0 <= i < |rows| ==> rows[i] < |values|)
    requires Rebuilt(base, values, rows, deltas, j)
    requires AllFit(t, deltas) && t.Fits(values[rows[j]] - LastKept(base, values, rows, j))
    ensures var more := deltas + [values[rows[j]] - LastKept(base, values, rows, j)];
      AllFit(t, more) && Rebuilt(base, values, rows, more, j + 1)
  {
    var (delta, kept) := (values[rows[j]] - LastKept(base, values, rows, j), Pick(values, rows));
    ReconstructPush(base, deltas, delta);
    assert kept[..j + 1] == kept[..j] + [values[rows[j]]];
    assert Reconstruct(base, deltas)[j] == LastKept(base, values, rows, j);
  }

  lemma AllDeltas(base: int, values: seq<int>, rows: seq<nat>, deltas: seq<int>)
    requires (forall i :: 0 <= i < |rows| ==> rows[i] < |values|) && Rebuilt(base, values, rows, deltas, |rows|)
    ensures Reconstruct(base, deltas) == [base] + Pick(values, rows)
  {
    assert Pick(values, rows)[..|rows|] == Pick(values, rows);
  }

  // Read through those deltas row i shows the kept value before it, and row 0 the base: the kept
  // values survive exactly when every one of them equals the base.
  lemma DeltaRebuildKeeps(base: int, kept: seq<int>)
    ensures ([base] + kept)[..|kept|] == kept <==> AllSame(kept, base)
  {
    var shown := ([base] + kept)[..|kept|];
    if shown == kept {
      SameDown(base, kept, |kept|);
    }
  }

  lemma {:induction false} SameDown(base: int, kept: seq<int>, k: nat)
    requires ([base] + kept)[..|kept|] == kept && k <= |kept|
    ensures AllSame(kept[..k], base)
  {
    if k > 0 {
      SameDown(base, kept, k - 1);
      assert kept[k - 1] == ([base] + kept)[..|kept|][k - 1];
      assert k > 1 ==> kept[..k - 1][k - 2] == base;
    }
  }

  // ---- frame-of-reference columns -------------------------------------------------------

  /** Any two of the values differ by less than 2^b. */
  ghost predicate Within(s: seq<int>, b: nat) {
    forall i, j :: 0 <= i < |s| && 0 <= j < |s| ==> s[i] - s[j] < Pow2(b)
  }

  /** The new frame: the minimum of the kept values, and the least width that holds them above it. */
  method RebuildFrame(kept: seq<int>) returns (min: int, bits: nat)
    requires kept != []
    ensures min in kept && forall i :: 0 <= i < |kept| ==> min <= kept[i] < min + Pow2(bits)
    ensures bits >= 1 && forall b: nat :: 1 <= b && Within(kept, b) ==> bits <= b
  {
    min := kept[0];
    var max := kept[0];
    for i := 1 to |kept|
      invariant min in kept && max in kept && forall j :: 0 <= j < i ==> min <= kept[j] <= max
    {
      if kept[i] < min { min := kept[i]; }
      if kept[i] > max { max := kept[i]; }
    }
    bits := AtLeastOne(BitLength(max - min));
    BitLengthFits(max - min, bits);
    forall b: nat | 1 <= b && Within(kept, b)
      ensures bits <= b
    {
      var i :| 0 <= i < |kept| && kept[i] == max;
      var j :| 0 <= j < |kept| && kept[j] == min;
      assert kept[i] - kept[j] < Pow2(b);
      BitLengthFits(max - min, b);
    }
  }

  // Unpacked from nothing every row shows the minimum: the kept values survive exactly when they are all equal.
  lemma FrameRebuildKeeps(kept: seq<int>, min: int, bits: nat)
    requires min in kept && forall i :: 0 <= i < |kept| ==> min <= kept[i]
    ensures Unpack(min, 0, bits, |kept|) == kept <==> AllSame(kept, kept[0])
  {
    var shown := Unpack(min, 0, bits, |kept|);
    forall i | 0 <= i < |kept|
      ensures shown[i] == min
    {
      NoBits(bits, i);
    }
    if AllSame(kept, kept[0]) {
      var j :| 0 <= j < |kept| && kept[j] == min;
      assert kept[0] == min;
    }
    if shown == kept {
      assert kept[0] == min;
    }
  }

  lemma NoBits(bits: nat, i: nat)
    ensures Lane(0, bits, i) == 0
  {
    ShrSmall(0, Times(i, bits));
    BitwiseZero(AND, Pow2(bits) - 1);
  }

  // ---- the column ----------------------------------------------------------------------

  /** What reading the column row by row gives, also where more values are stored than rows. */
  ghost function Shown(col: IntColumn): seq<Option<int>>
    reads col
    requires |col.nullmask| <= |col.Values()|
  {
    Mask(col.nullmask, col.Values()[..|col.nullmask|])
  }

  lemma ShownIsContents(col: IntColumn)
    requires col.Valid()
    ensures Shown(col) == col.Contents()
  {
    assert col.Values()[..|col.nullmask|] == col.Values();
  }

  /** What a rebuild asks of the kept values: in delta mode they all equal the base, in FOR mode one another. */
  ghost predicate Uniform(deltaMode: bool, base: int, forMode: bool, kept: seq<int>) {
    if deltaMode then AllSame(kept, base) else forMode && kept != [] ==> AllSame(kept, kept[0])
  }

  /** As many values as were kept, each the least of them. */
  ghost predicate AllLeast(shown: seq<int>, kept: seq<int>) {
    |shown| == |kept| && forall i :: 0 <= i < |shown| ==>
      shown[i] in kept && forall j :: 0 <= j < |kept| ==> shown[i] <= kept[j]
  }

  /** _rebuild_column_alive: the null mask is cleared, and the live values are kept, shifted or flattened.
      False when a delta overflows, which raises before anything changed. */
  method RebuildAlive(col: IntColumn, live: seq<bool>) returns (ok: bool)
    requires col.Valid() && |live| == |col.nullmask|
    modifies col
    ensures Compacted(old(col.Now()), col.Now())
    ensures col.deltaMode == old(col.deltaMode) && col.forMode == old(col.forMode)
    ensures !ok <==>
      old(col.deltaMode) && Overflows(old(col.deltaBase), old(col.Values()), Alive(live), old(col.deltaType))
    ensures !ok ==> col.Valid() && col.Contents() == old(col.Contents()) && col.deltaMode
    ensures !ok ==>
      !Uniform(old(col.deltaMode), old(col.deltaBase), old(col.forMode), Pick(old(col.Values()), Alive(live)))
    ensures ok ==> col.nullmask == Clear(|Alive(live)|) && |col.nullmask| <= |col.Values()|
    ensures ok ==> (Shown(col) == Pick(old(col.Contents()), Alive(live)) <==>
                      && NoLiveNull(live, old(col.nullmask))
                      && Uniform(old(col.deltaMode), old(col.deltaBase), old(col.forMode),
                          Pick(old(col.Values()), Alive(live))))
    ensures ok && old(col.deltaMode) ==> |col.Values()| == |col.nullmask| + 1 && col.deltaPrev == old(col.deltaPrev)
    ensures ok && old(col.deltaMode) ==>
      col.Stored() && col.Values() == [old(col.deltaBase)] + Pick(old(col.Values()), Alive(live))
    ensures ok && old(col.forMode) && Alive(live) == [] ==> col.Stored() && col.Values() == old(col.Values())
    ensures ok && old(col.forMode) && Alive(live) != [] ==> AllLeast(col.Values(), Pick(old(col.Values()), Alive(live)))
    ensures ok && !old(col.deltaMode) && (old(col.forMode) ==> Alive(live) != []) ==> col.Valid()
  {
    hide IntColumn.Valid, IntColumn.Stored, IntColumn.Values, AllSame, NoLiveNull, Alive, Pick, Clear, Mask, Shown;
    hide Reconstruct, Unpack, Compacted, IntColumn.Now, AllLeast, Overflows;
    var rows := Alive(live);
    ghost var nulls, values, was := col.nullmask, col.Values(), col.Now();
    NowIs(col);
    ColumnParts(col);
    if col.deltaMode && !col.deltaFallback {
      ok := RebuildDelta(col, rows);
      if !ok {
        ModesStay(col, was);
        return;
      }
      DeltaRebuildKeeps(old(col.deltaBase), Pick(values, rows));
    } else if col.forMode && !col.forFallback {
      ok := true;
      RebuildFor(col, rows);
    } else {
      ok := true;
      RebuildRaw(col, rows);
    }
    ModesStay(col, was);
    ShownAfter(col, nulls, values, live);
  }

  lemma NowIs(col: IntColumn)
    ensures col.Now().deltaMode == col.deltaMode && col.Now().forMode == col.forMode
  {
  }

  lemma ModesStay(col: IntColumn, was: Phase)
    requires Compacted(was, col.Now())
    ensures col.deltaMode == was.deltaMode && col.forMode == was.forMode
  {
  }

  lemma ColumnParts(col: IntColumn)
    requires col.Valid()
    ensures |col.nullmask| == |col.Values()| && col.Contents() == Mask(col.nullmask, col.Values())
    ensures (col.deltaMode ==> !col.deltaFallback && !col.forMode) && (col.forMode ==> !col.forFallback)
  {
  }

  lemma ShownAfter(col: IntColumn, nulls: seq<bool>, values: seq<int>, live: seq<bool>)
    requires |nulls| == |values| == |live| && col.nullmask == Clear(|Alive(live)|) && |col.nullmask| <= |col.Values()|
    ensures Shown(col) == Pick(Mask(nulls, values), Alive(live)) <==>
      NoLiveNull(live, nulls) && col.Values()[..|col.nullmask|] == Pick(values, Alive(live))
  {
    ClearedMask(nulls, values, live, col.Values()[..|col.nullmask|]);
  }

  method RebuildDelta(col: IntColumn, rows: seq<nat>) returns (ok: bool)
    requires col.Valid() && col.deltaMode && forall j :: 0 <= j < |rows| ==> rows[j] < |col.Values()|
    modifies col
    ensures !ok ==> col.Valid() && col.Contents() == old(col.Contents()) && col.deltaMode
    ensures Compacted(old(col.Now()), col.Now()) && col.Stored()
    ensures !ok <==> Overflows(old(col.deltaBase), old(col.Values()), rows, old(col.deltaType))
    ensures !ok ==> !AllSame(Pick(old(col.Values()), rows), old(col.deltaBase))
    ensures ok ==> col.nullmask == Clear(|rows|) && col.Values() == [old(col.deltaBase)] + Pick(old(col.Values()), rows)
    ensures ok ==> col.deltaPrev == old(col.deltaPrev)
  {
    hide Reconstruct, Unpack, AllFit, IntType.Fits, Pick, AllSame, Clear, Mask, Overflows;
    DeltaParts(col);
    var cache := col.EnsureDeltaCache();
    var deltas := RebuildDeltas(col.deltaBase, cache, rows, col.deltaType);
    if deltas.None? {
      OverflowMeansSteps(col.deltaBase, cache, rows, col.deltaType);
      return false;
    }
    PickedFit(col.dtype, cache, rows);
    SetDeltas(col, deltas.value, |rows|);
    ok := true;
  }

  method SetDeltas(col: IntColumn, deltas: seq<int>, count: nat)
    requires col.Stored() && col.deltaMode && AllFit(col.deltaType, deltas)
    requires AllFit(col.dtype, Reconstruct(col.deltaBase, deltas))
    modifies col`deltas, col`deltaCache, col`nullmask
    ensures col.Stored() && col.Now() == old(col.Now()) && col.nullmask == Clear(count)
    ensures col.Values() == Reconstruct(col.deltaBase, deltas)
  {
    hide Reconstruct, AllFit, Unpack;
    col.deltas, col.deltaCache := deltas, None;
    col.nullmask := Clear(count);
  }

  lemma PickedFit(t: IntType, values: seq<int>, rows: seq<nat>)
    requires AllFit(t, values) && values != [] && forall j :: 0 <= j < |rows| ==> rows[j] < |values|
    ensures AllFit(t, [values[0]] + Pick(values, rows))
  {
    hide IntType.Fits;
  }

  lemma DeltaParts(col: IntColumn)
    requires col.Valid() && col.deltaMode
    ensures col.Stored() && AllFit(col.dtype, col.Values()) && col.Values() != [] && col.Values()[0] == col.deltaBase
    ensures Compacted(col.Now(), col.Now())
  {
    FirstIsBase(col.deltaBase, col.deltas);
  }

  lemma {:induction false} FirstIsBase(base: int, deltas: seq<int>)
    ensures Reconstruct(base, deltas)[0] == base
  {
    if deltas != [] {
      FirstIsBase(base, deltas[..|deltas| - 1]);
    }
  }

  // a difference that does not fit is not zero
  lemma OverflowMeansSteps(base: int, values: seq<int>, rows: seq<nat>, t: IntType)
    requires forall j :: 0 <= j < |rows| ==> rows[j] < |values|
    requires Overflows(base, values, rows, t)
    ensures !AllSame(Pick(values, rows), base)
  {
    var j :| 0 <= j < |rows| && !t.Fits(values[rows[j]] - LastKept(base, values, rows, j));
    var kept := Pick(values, rows);
    assert kept[j] == values[rows[j]] && (j > 0 ==> kept[j - 1] == LastKept(base, values, rows, j));
  }

  method RebuildFor(col: IntColumn, rows: seq<nat>)
    requires col.Valid() && col.forMode && forall j :: 0 <= j < |rows| ==> rows[j] < |col.Values()|
    modifies col
    ensures col.nullmask == Clear(|rows|) && |rows| <= |col.Values()|
    ensures Compacted(old(col.Now()), col.Now())
    ensures rows == [] ==> col.Stored() && col.Values() == old(col.Values())
    ensures rows != [] ==> AllLeast(col.Values(), Pick(old(col.Values()), rows))
    ensures var kept := Pick(old(col.Values()), rows);
      rows != [] ==> col.Valid() && (col.Values() == kept <==> AllSame(kept, kept[0])) && |col.Values()| == |rows|
  {
    var all := col.DecodeFor();
    var values := PickLoop(all, rows);
    if |values| == 0 {
      col.nullmask := [];
      return;
    }
    LanesNarrow(col, rows);
    var min, bits := RebuildFrame(values);
    FrameRebuildKeeps(values, min, bits);
    SetFrame(col, min, bits, |values|);
  }

  method PickLoop(all: seq<int>, rows: seq<nat>) returns (values: seq<int>)
    requires forall j :: 0 <= j < |rows| ==> rows[j] < |all|
    ensures values == Pick(all, rows)
  {
    values := [];
    for j := 0 to |rows|
      invariant values == Pick(all, rows)[..j]
    {
      values := values + [all[rows[j]]];
    }
  }

  // any two values of a FOR column differ by less than its lanes hold
  lemma LanesNarrow(col: IntColumn, rows: seq<nat>)
    requires col.Valid() && col.forMode && forall j :: 0 <= j < |rows| ==> rows[j] < |col.Values()|
    ensures Within(Pick(col.Values(), rows), col.forBits) && 1 <= col.forBits <= 16
  {
    col.LanesBounded();
  }

  /** No packed bits, `count` lanes of `bits` bits above `min`. */
  method SetFrame(col: IntColumn, min: int, bits: nat, count: nat)
    requires col.Valid() && col.forMode && 1 <= bits <= col.forBits && col.dtype.Fits(min)
    modifies col
    ensures Compacted(old(col.Now()), col.Now())
    ensures forall i :: 0 <= i < |col.Values()| ==> col.Values()[i] == min
    ensures col.Valid() && col.forMode && col.nullmask == Clear(count)
    ensures col.Values() == Unpack(min, 0, bits, count)
  {
    col.forMin, col.forBits, col.forMask := min, bits, Pow2(bits) - 1;
    col.forPacked, col.forCount, col.forCache := 0, count, None;
    col.nullmask := Clear(count);
    forall i | 0 <= i < count
      ensures Unpack(min, 0, bits, count)[i] == min
    {
      NoBits(bits, i);
    }
  }

  method RebuildRaw(col: IntColumn, rows: seq<nat>)
    requires col.Valid() && !col.deltaMode && !col.forMode && forall j :: 0 <= j < |rows| ==> rows[j] < |col.Values()|
    modifies col
    ensures col.Valid() && col.nullmask == Clear(|rows|) && col.Values() == Pick(old(col.Values()), rows)
    ensures Compacted(old(col.Now()), col.Now())
  {
    var values := PickLoop(col.data, rows);
    col.data := values;
    col.nullmask := Clear(|rows|);
  }

  // ---- the next append ---------------------------------------------------------------------

  /** append() to a rebuilt delta column: the new row shows the last kept value, or the base, whatever is appended,
      and behind it a value is stored that differs from the last kept one by the step from the value that was last
      before the rebuild. */
  method AppendAfterDeltaRebuild(col: IntColumn, live: seq<bool>, value: int) returns (ok: bool)
    requires col.Valid() && col.deltaMode && |live| == |col.nullmask| && col.dtype.Fits(value)
    requires
      col.dtype.Fits(LastKept(col.deltaBase, col.Values(), Alive(live), |Alive(live)|) + (value - col.deltaPrev))
    modifies col
    ensures !ok <==> Overflows(old(col.deltaBase), old(col.Values()), Alive(live), old(col.deltaType))
    ensures
      var (rows, base, values) := (Alive(live), old(col.deltaBase), old(col.Values()));
      var shown := [base] + Pick(values, rows);
      var next := LastKept(base, values, rows, |rows|) + (value - old(col.deltaPrev));
      ok ==>
        && (col.deltaMode <==> I64.Fits(value - old(col.deltaPrev)))
        && col.nullmask == Clear(|rows| + 1) && col.Values() == shown + [if col.deltaMode then next else value]
        && Shown(col) == Mask(Clear(|shown|), shown)
  {
    hide Alive, Pick, Clear, Mask, Shown, IntColumn.Valid, IntColumn.Stored, IntColumn.Values, Uniform, NoLiveNull;
    hide Overflows, Compacted, LastKept, IntType.Fits, Later, IntColumn.PrevIsLast, IntColumn.Now;
    DeltaStays(col, live);
    ghost var rows, base, values := Alive(live), col.deltaBase, col.Values();
    ok := RebuildAlive(col, live);
    if ok {
      StillDelta(col, base, values, rows);
      NoteRow(col);
      col.AppendDelta(value);
      ShowsKept(col, [base] + Pick(values, rows));
    }
  }

  /** One more row, not null; what is stored stays. */
  method NoteRow(col: IntColumn)
    requires col.Stored()
    modifies col`nullmask
    ensures col.Stored() && col.Values() == old(col.Values()) && col.nullmask == old(col.nullmask) + [false]
    ensures col.Now() == old(col.Now())
  {
    hide Reconstruct, Unpack, AllFit, Pow2, Times;
    col.nullmask := col.nullmask + [false];
  }

  lemma DeltaStays(col: IntColumn, live: seq<bool>)
    requires col.Valid() && col.deltaMode && |live| == |col.nullmask|
    ensures |live| == |col.Values()| && forall j :: 0 <= j < |Alive(live)| ==> Alive(live)[j] < |col.Values()|
  {
  }

  lemma StillDelta(col: IntColumn, base: int, values: seq<int>, rows: seq<nat>)
    requires forall j :: 0 <= j < |rows| ==> rows[j] < |values|
    requires col.Stored() && col.deltaMode && col.Values() == [base] + Pick(values, rows)
    ensures |col.deltas| == |rows| && col.Values()[|col.deltas|] == LastKept(base, values, rows, |rows|)
  {
  }

  lemma ShowsKept(col: IntColumn, shown: seq<int>)
    requires |col.Values()| == |shown| + 1 && col.Values()[..|shown|] == shown && |col.nullmask| == |shown|
    requires forall i :: 0 <= i < |shown| ==> !col.nullmask[i]
    ensures col.nullmask == Clear(|shown|) && Shown(col) == Mask(Clear(|shown|), shown)
  {
  }

  /** append() to a FOR column rebuilt with no live row, which keeps its lanes: the new value goes behind them, and the
      new row shows the first dead one. */
  method AppendAfterEmptyFrame(col: IntColumn, live: seq<bool>, value: int)
    requires col.Valid() && col.forMode && |live| == |col.nullmask| > 0 && Alive(live) == [] && col.dtype.Fits(value)
    modifies col
    ensures col.nullmask == [false] && col.Values() == old(col.Values()) + [value]
    ensures Shown(col) == [Some(old(col.Values())[0])]
  {
    hide Pick, Mask, Uniform, NoLiveNull, IntColumn.Valid, IntColumn.Stored, IntColumn.Values;
    ColumnParts(col);
    FrameStays(col);
    ghost var values := col.Values();
    var ok := RebuildAlive(col, live);
    NoteRow(col);
    col.AppendForPacked(value);
    ShowsFirst(col, values);
  }

  lemma FrameStays(col: IntColumn)
    requires col.Valid() && col.forMode
    ensures !col.deltaMode
  {
  }

  lemma ShowsFirst(col: IntColumn, values: seq<int>)
    requires values != [] && |col.Values()| > |values| && col.Values()[..|values|] == values && col.nullmask == [false]
    ensures Shown(col) == [Some(values[0])]
  {
    assert col.Values()[..|values|][0] == col.Values()[0];
  }

  // ---- failing runs ------------------------------------------------------------------------

  /** 1, 2 and 7 appended to a delta column. */
  method BuildDelta() returns (col: IntColumn)
    ensures fresh(col) && col.Valid() && col.deltaMode && col.deltaBase == 1 && col.deltaPrev == 7 && col.dtype == I64
    ensures Width(col.deltaType) >= Width(I32)
    ensures col.Values() == [1, 2, 7] && col.Contents() == [Some(1), Some(2), Some(7)]
  {
    col := new IntColumn(I64, true, 3, false, 0);
    col.Append(Some(1));
    col.Append(Some(2));
    col.Append(Some(7));
    ReadsThree(col, 1, 2, 7);
    DeltaParts(col);
  }

  lemma ReadsThree(col: IntColumn, a: int, b: int, c: int)
    requires col.Valid() && col.Contents() == [Some(a), Some(b), Some(c)]
    ensures col.Values() == [a, b, c]
  {
    forall i | 0 <= i < 3
      ensures Some(col.Values()[i]) == [Some(a), Some(b), Some(c)][i]
    {
      assert col.Contents()[i] == [Some(a), Some(b), Some(c)][i];
    }
  }

  /** Row 2 is deleted from it, the column rebuilt, and 3 appended: rows 1, 2 and 3 read 1, 1 and 2, and the next
      row to come would read -2. */
  method DeltaRebuildShifts() returns (col: IntColumn)
    ensures fresh(col) && col.Values() == [1, 1, 2, -2] && col.nullmask == [false, false, false]
    ensures Shown(col) == [Some(1), Some(1), Some(2)]
  {
    hide Alive, Clear, Mask, Shown, IntColumn.Valid, IntColumn.Values;
    col := BuildDelta();
    ThreeRows();
    FirstTwo();
    assert [1] + [1, 2] == [1, 1, 2];
    var ok := AppendAfterDeltaRebuild(col, [true, true, false], 3);
  }

  lemma FirstTwo()
    ensures Pick([1, 2, 7], [0, 1]) == [1, 2] && Clear(3) == [false, false, false]
    ensures forall t: IntType :: t == I32 || t == I64 ==> !Overflows(1, [1, 2, 7], [0, 1], t)
    ensures Mask(Clear(3), [1, 1, 2]) == [Some(1), Some(1), Some(2)]
  {
  }

  lemma ThreeRows()
    ensures Alive([true, true, false]) == [0, 1]
  {
    var three, two, one := [true, true, false], [true, true], [true];
    assert one[..0] == [] && two[..1] == one && three[..2] == two;
    assert Alive(one) == [0];
    assert Alive(two) == [0, 1];
  }

  /** 5 and 7 appended to a FOR column, which is rebuilt after a third row was deleted: they read 5 and 5. */
  method FrameRebuildFlattens() returns (col: IntColumn)
    ensures fresh(col) && col.Valid() && col.Contents() == [Some(5), Some(5)]
  {
    hide Alive, Clear, Mask, Shown, IntColumn.Valid, IntColumn.Values;
    col := BuildFrame();
    ThreeRows();
    var ok := RebuildAlive(col, [true, true, false]);
    AllFives(col);
  }

  method BuildFrame() returns (col: IntColumn)
    ensures fresh(col) && col.Valid() && col.forMode && !col.deltaMode && col.Values() == [5, 7, 9]
    ensures |col.nullmask| == 3 && col.Contents() == [Some(5), Some(7), Some(9)]
  {
    col := new IntColumn(I64, false, 0, true, 3);
    col.Append(Some(5));
    col.Append(Some(7));
    col.Append(Some(9));
    ReadsThree(col, 5, 7, 9);
  }

  lemma AllFives(col: IntColumn)
    requires col.Valid() && col.nullmask == Clear(2) && AllLeast(col.Values(), Pick([5, 7, 9], [0, 1]))
    ensures col.Contents() == [Some(5), Some(5)]
  {
    hide IntColumn.Stored, IntColumn.Values, Pick;
    TwoKept();
    var shown := col.Values();
    forall i | 0 <= i < 2
      ensures shown[i] == 5
    {
      assert shown[i] in [5, 7] && shown[i] <= [5, 7][0];
    }
    assert shown == [5, 5];
  }

  lemma TwoKept()
    ensures Pick([5, 7, 9], [0, 1]) == [5, 7]
  {
  }
}
