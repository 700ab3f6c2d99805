/** An integer column: raw array, base plus deltas, or frame-of-reference lanes,
    switching between them as values arrive. */
module IntColumns {
  import opened Bits
  import opened Lanes
  import opened Masks
  import opened Values

  // ---- element types --------------------------------------------------------

  datatype IntType = I8 | I16 | I32 | I64 | U8 | U16 | U32 | U64 {
    function Lo(): int {
      match this
      case I8 => -0x80
      case I16 => -0x8000
      case I32 => -0x8000_0000
      case I64 => -0x8000_0000_0000_0000
      case _ => 0
    }

    function Hi(): int {
      match this
      case I8 => 0x7F
      case I16 => 0x7FFF
      case I32 => 0x7FFF_FFFF
      case I64 => 0x7FFF_FFFF_FFFF_FFFF
      case U8 => 0xFF
      case U16 => 0xFFFF
      case U32 => 0xFFFF_FFFF
      case U64 => 0xFFFF_FFFF_FFFF_FFFF
    }

    predicate Fits(v: int) { Lo() <= v <= Hi() }

    /** The types delta and frame-of-reference encoding are offered for. */
    predicate Wide() { this in {I32, I64, U32, U64} }
  }

  /** The typecode of a signed delta array: "b", "h", "i" or "q". */
  function SmallestDeltaType(maxDelta: int): IntType {
    if maxDelta <= 127 then I8
    else if maxDelta <= 32767 then I16
    else if maxDelta <= 2147483647 then I32
    else I64
  }

  // the eight element types in figures
  lemma ElementRanges(v: int)
    ensures I8.Fits(v) <==> -128 <= v <= 127
    ensures I16.Fits(v) <==> -32768 <= v <= 32767
    ensures I32.Fits(v) <==> -2147483648 <= v <= 2147483647
    ensures I64.Fits(v) <==> -9223372036854775808 <= v <= 9223372036854775807
    ensures U8.Fits(v) <==> 0 <= v <= 255
    ensures U16.Fits(v) <==> 0 <= v <= 65535
    ensures U32.Fits(v) <==> 0 <= v <= 4294967295
    ensures U64.Fits(v) <==> 0 <= v <= 18446744073709551615
  {
  }

  // the typecode chosen holds every delta up to the bound, and no narrower signed one does
  lemma SmallestHolds(maxDelta: nat)
    requires maxDelta <= 9223372036854775807
    ensures forall d: int :: -(maxDelta as int) <= d <= maxDelta ==> SmallestDeltaType(maxDelta).Fits(d)
    ensures forall t: IntType :: t in {I8, I16, I32, I64} && t.Fits(maxDelta) ==>
      Width(SmallestDeltaType(maxDelta)) <= Width(t)
  {
  }

  function Width(tc: IntType): nat {
    match tc
    case I8 => 0
    case I16 => 1
    case I32 => 2
    case _ => 3
  }

  predicate AllFit(t: IntType, s: seq<int>) { forall i :: 0 <= i < |s| ==> t.Fits(s[i]) }

  // ---- what the encodings mean ----------------------------------------------

  /** Row 0 is the base, every later row adds its delta to the row before. */
  function Reconstruct(base: int, deltas: seq<int>): (r: seq<int>)
    ensures |r| == |deltas| + 1
  {
    if deltas == [] then [base]
    else
      var front := Reconstruct(base, deltas[..|deltas| - 1]);
      front + [front[|front| - 1] + deltas[|deltas| - 1]]
  }

  lemma ReconstructPush(base: int, deltas: seq<int>, d: int)
    ensures Reconstruct(base, deltas + [d])
         == Reconstruct(base, deltas) + [Reconstruct(base, deltas)[|deltas|] + d]
  {
    assert (deltas + [d])[..|deltas|] == deltas;
  }

  function Unpack(min: int, packed: nat, bits: nat, count: nat): (r: seq<int>)
    ensures |r| == count
  {
    seq(count, i requires 0 <= i => min + Lane(packed, bits, i))
  }

  lemma UnpackPush(min: int, packed: nat, bits: nat, count: nat, delta: nat)
    requires packed < Pow2(Times(count, bits)) && delta < Pow2(bits)
    ensures PutLane(packed, bits, count, delta) < Pow2(Times(count + 1, bits))
    ensures Unpack(min, PutLane(packed, bits, count, delta), bits, count + 1)
         == Unpack(min, packed, bits, count) + [min + delta]
  {
    PutLaneKeepsLanes(packed, bits, count, delta);
  }

  /** packed |= (delta & mask) << (count * bits) */
  method Pack(min: int, packed: nat, bits: nat, count: nat, delta: nat) returns (packed': nat)
    requires packed < Pow2(Times(count, bits)) && delta < Pow2(bits)
    ensures packed' < Pow2(Times(count + 1, bits))
    ensures Unpack(min, packed', bits, count + 1) == Unpack(min, packed, bits, count) + [min + delta]
  {
    packed' := PutLane(packed, bits, count, delta);
    UnpackPush(min, packed, bits, count, delta);
  }

  /** max(1, n) */
  function AtLeastOne(n: nat): nat { if n < 1 then 1 else n }

  predicate NonDecreasing(s: seq<int>) { forall i :: 1 <= i < |s| ==> s[i - 1] <= s[i] }

  /** Every step from one value to the next is representable as a signed 64-bit delta. */
  predicate StepsFit(s: seq<int>) { forall i :: 1 <= i < |s| ==> I64.Fits(s[i] - s[i - 1]) }

  lemma StepsFitPush(s: seq<int>, i: nat)
    requires 0 < i < |s|
    ensures s[..i + 1] == s[..i] + [s[i]] && |s[..i]| == i && s[..i][i - 1] == s[i - 1]
    ensures StepsFit(s[..i + 1]) <==> StepsFit(s[..i]) && I64.Fits(s[i] - s[i - 1])
  {
    hide IntType.Fits;
    var more := s[..i + 1];
    if StepsFit(more) {
      assert I64.Fits(more[i] - more[i - 1]);
      forall k | 1 <= k < i
        ensures I64.Fits(s[..i][k] - s[..i][k - 1])
      {
        assert I64.Fits(more[k] - more[k - 1]);
      }
    }
    if StepsFit(s[..i]) && I64.Fits(s[i] - s[i - 1]) {
      forall k | 1 <= k <= i
        ensures I64.Fits(more[k] - more[k - 1])
      {
        if k < i {
          assert I64.Fits(s[..i][k] - s[..i][k - 1]);
        }
      }
    }
  }

  lemma OneStep(s: seq<int>)
    requires s != []
    ensures StepsFit(s[..1]) && s[..1] == [s[0]]
  {
  }

  /** The values fit in 16-bit lanes above their minimum. */
  predicate Packable(s: seq<int>) { forall i, j :: 0 <= i < |s| && 0 <= j < |s| ==> s[i] - s[j] < 65536 }

  lemma PackableRange(s: seq<int>, lo: int, hi: int)
    requires lo in s && hi in s && forall i :: 0 <= i < |s| ==> lo <= s[i] <= hi
    ensures Packable(s) <==> BitLength(hi - lo) <= 16
  {
    SixteenBits(hi - lo);
  }

  lemma SixteenBits(range: nat)
    ensures BitLength(range) <= 16 <==> range < 65536
  {
    BitLengthFits(range, 16);
    Pow2Sixteen();
  }

  lemma MaskFits16(bits: nat)
    requires bits <= 16
    ensures Pow2(bits) <= 65536
  {
    Pow2Mono(bits, 16);
    Pow2Sixteen();
  }

  datatype Stats = Stats(min: int, max: int, count: nat)

  /** The sampling statistics after one more non-null value. */
  function NextStats(st: Option<Stats>, value: int): Stats {
    if st.None? then Stats(value, value, 1)
    else Stats(if value < st.value.min then value else st.value.min,
               if value > st.value.max then value else st.value.max,
               st.value.count + 1)
  }

  // ---- phases ---------------------------------------------------------------

  /** How a column is encoded, which encodings it has given up, and how often it was re-encoded;
      `rank` bounds the re-encodings still to come. */
  datatype Phase = Phase(deltaMode: bool, deltaOver: bool, deltaWidth: nat, forMode: bool, forOver: bool, forBits: nat,
                         rewrites: nat, rank: nat)
  {
    /** The encoding in use, with its element type or lane width. */
    function Form(): (bool, nat, bool, nat) {
      (deltaMode, if deltaMode then deltaWidth else 0, forMode, if forMode then forBits else 0)
    }

    predicate Sound() { (deltaMode ==> !deltaOver) && (forMode ==> !forOver) }
  }

  /** From phase a a column can come to phase b: what was given up stays given up, leaving an encoding
      gives it up, widths only grow, and every change of form is a re-encoding the rank paid for. */
  predicate Later(a: Phase, b: Phase) {
    var ok :=
      && (a.Sound() ==> b.Sound())
      && (a.deltaOver ==> b.deltaOver) && (a.forOver ==> b.forOver)
      && (a.deltaMode ==> b.deltaOver || (b.deltaMode && a.deltaWidth <= b.deltaWidth))
      && (!a.deltaMode && b.deltaMode ==> b.deltaOver || b.deltaWidth >= Width(I32))
      && (a.forMode ==> b.forOver || (b.forMode && a.forBits <= b.forBits))
      && a.rewrites <= b.rewrites && (a.Form() != b.Form() ==> a.rewrites < b.rewrites)
      && b.rewrites + b.rank <= a.rewrites + a.rank;
    ok
  }

  lemma LaterSelf(a: Phase)
    ensures Later(a, a)
  {
  }

  lemma LaterTrans(a: Phase, b: Phase, c: Phase)
    requires Later(a, b) && Later(b, c)
    ensures Later(a, c)
  {
  }

  const MAX_REWRITES: nat := 20

  class IntColumn {
    const dtype: IntType
    var nullmask: seq<bool>
    var data: seq<int>

    const deltaEncode: bool
    const deltaSamples: int
    var deltaMode: bool
    var deltaFallback: bool
    var deltaBase: int
    var deltaPrev: int
    var deltas: seq<int>
    var deltaType: IntType
    var deltaCache: Option<seq<int>>

    const forEncode: bool
    const forThreshold: int
    var forMode: bool
    var forFallback: bool
    var forStats: Option<Stats>
    var forMin: int
    var forBits: nat
    var forMask: nat
    var forPacked: nat
    var forCount: nat
    var forCache: Option<seq<int>>

    /** How many times the whole column has been re-encoded. */
    ghost var rewrites: nat

    // ---- abstraction --------------------------------------------------------

    ghost function Values(): seq<int>
      reads this
    {
      if deltaMode then Reconstruct(deltaBase, deltas)
      else if forMode then Unpack(forMin, forPacked, forBits, forCount)
      else data
    }

    ghost function Contents(): seq<Option<int>>
      reads this
      requires Valid()
    {
      Mask(nullmask, Values())
    }

    ghost predicate DeltaShape()
      reads this
    {
      && (deltaMode ==> deltaEncode && !deltaFallback && !forMode && data == [] && AllFit(deltaType, deltas))
      && (deltaMode ==> deltaType in {I8, I16, I32, I64})
      && (deltaCache.Some? ==> deltaMode && deltaCache.value == Values())
    }

    ghost predicate ForShape()
      reads this
    {
      && (forMode ==> forEncode && !forFallback && (deltaEncode ==> deltaFallback) && data == [])
      && (forMode ==> 1 <= forBits <= 16 && forMask == Pow2(forBits) - 1)
      && (forMode ==> forPacked < Pow2(Times(forCount, forBits)) && dtype.Fits(forMin))
      && (forCache.Some? ==> forMode && forCache.value == Values())
      && (forStats.Some? ==> dtype.Fits(forStats.value.min) && forStats.value.min <= forStats.value.max)
    }

    /** The representation is consistent; says nothing about the null mask. */
    ghost predicate Stored()
      reads this
    {
      DeltaShape() && ForShape() && AllFit(dtype, Values())
    }

    ghost predicate PrevIsLast()
      reads this
    {
      deltaMode ==> deltaPrev == Reconstruct(deltaBase, deltas)[|deltas|]
    }

    ghost predicate Valid()
      reads this
    {
      Stored() && PrevIsLast() && |nullmask| == |Values()|
    }

    ghost function DeltaRank(): nat
      reads this
    {
      if !deltaEncode || deltaFallback then 0
      else if !deltaMode then 3
      else 1 + (3 - Width(deltaType))
    }

    ghost function ForRank(): nat
      reads this
    {
      if !forEncode || forFallback then 0
      else if !forMode || forBits > 16 then 17
      else 1 + (16 - forBits)
    }

    /** An upper bound on the re-encodings still to come. */
    ghost function Rank(): nat
      reads this
    {
      DeltaRank() + ForRank()
    }

    ghost function Now(): Phase
      reads this
    {
      Phase(deltaMode, deltaFallback, Width(deltaType), forMode, forFallback, forBits, rewrites, Rank())
    }

    constructor (dtype: IntType, deltaEncode: bool, deltaSamples: int, forEncode: bool, forThreshold: int)
      ensures Valid() && Contents() == [] && this.dtype == dtype && Now().Sound()
      ensures Now().rewrites == 0 && Now().rank <= MAX_REWRITES
      ensures this.deltaEncode == (deltaEncode && dtype.Wide()) && this.forEncode == (forEncode && dtype.Wide())
      ensures this.deltaSamples == deltaSamples && this.forThreshold == forThreshold
      ensures !deltaMode && !deltaFallback && !forMode && !forFallback && forStats == None
    {
      this.dtype := dtype;
      this.deltaEncode := deltaEncode && dtype.Wide();
      this.deltaSamples := deltaSamples;
      this.forEncode := forEncode && dtype.Wide();
      this.forThreshold := forThreshold;
      nullmask, data := [], [];
      deltaMode, deltaFallback, deltaBase, deltaPrev := false, false, 0, 0;
      deltas, deltaType, deltaCache := [], I32, None;
      forMode, forFallback, forStats := false, false, None;
      forMin, forBits, forMask, forPacked, forCount, forCache := 0, 0, 0, 0, 0, None;
      rewrites := 0;
    }

    // ---- raw storage --------------------------------------------------------

    method AppendRaw(value: int)
      requires Stored() && !deltaMode && !forMode && dtype.Fits(value)
      modifies `data
      ensures Stored() && Values() == old(Values()) + [value] && Rank() == old(Rank())
    {
      data := data + [value];
    }

    method PutRaw(idx: nat, value: int)
      requires Stored() && !deltaMode && !forMode && dtype.Fits(value) && idx < |data|
      modifies `data
      ensures Stored() && Values() == old(Values())[idx := value] && Rank() == old(Rank())
    {
      data := data[idx := value];
    }

    // ---- delta encoding -----------------------------------------------------

    method ReconstructDelta() returns (out: seq<int>)
      ensures out == Reconstruct(deltaBase, deltas)
    {
      var val := deltaBase;
      out := [val];
      for i := 0 to |deltas|
        invariant out == Reconstruct(deltaBase, deltas[..i]) && val == out[i]
      {
        assert deltas[..i + 1] == deltas[..i] + [deltas[i]];
        ReconstructPush(deltaBase, deltas[..i], deltas[i]);
        val := val + deltas[i];
        out := out + [val];
      }
      assert deltas[..|deltas|] == deltas;
    }

    method EnsureDeltaCache() returns (cache: seq<int>)
      requires Stored() && deltaMode
      modifies `deltaCache
      ensures Stored() && cache == Values() == old(Values())
    {
      if deltaCache.None? {
        cache := ReconstructDelta();
        deltaCache := Some(cache);
      } else {
        cache := deltaCache.value;
      }
    }

    method ConvertDeltaToRaw()
      requires Stored() && deltaMode
      modifies `data, `deltaMode, `deltaFallback, `deltaBase, `deltaPrev, `deltas, `deltaCache, `deltaType, `rewrites
      ensures Stored() && !deltaMode && deltaFallback
      ensures Values() == data == old(Values())
      ensures Later(old(Now()), Now())
    {
      hide Unpack, Pow2, Times, Reconstruct, AllFit, IntType.Lo, IntType.Hi, IntType.Fits, Mask, BitLength;
      var raw := ReconstructDelta();
      deltaFallback := true;
      data := raw;
      deltaMode := false;
      deltas, deltaCache := [], None;
      deltaBase, deltaPrev, deltaType := 0, 0, I32;
      rewrites := rewrites + 1;
    }

    method StartDeltaMode(value: int)
      requires deltaEncode && !deltaMode && !deltaFallback && !forMode && Stored() && dtype.Fits(value)
      modifies `data, `deltaMode, `deltaBase, `deltaPrev, `deltas, `deltaType, `rewrites
      ensures Stored() && PrevIsLast() && deltaMode && Values() == [value]
      ensures Later(old(Now()), Now())
    {
      hide Unpack, Pow2, Times;
      deltaMode := true;
      deltaBase, deltaPrev := value, value;
      deltas, deltaType := [], I32;
      data := [];
      rewrites := rewrites + 1;
    }

    method UpgradeDeltaStorage(neededMax: int)
      requires Width(deltaType) < Width(SmallestDeltaType(neededMax))
      requires Stored() && deltaMode
      modifies `deltas, `deltaType, `rewrites
      ensures Stored() && deltaType == SmallestDeltaType(neededMax) && deltas == old(deltas)
      ensures Later(old(Now()), Now())
    {
      var newType := SmallestDeltaType(neededMax);
      var newArr := [];
      for i := 0 to |deltas|
        invariant newArr == deltas[..i]
      {
        newArr := newArr + [deltas[i]];
      }
      assert deltas[..|deltas|] == deltas;
      deltas, deltaType := newArr, newType;
      rewrites := rewrites + 1;
    }

    /** Widens the delta array's typecode when `delta` needs it; past "q" nothing fits. */
    method FitDelta(delta: int)
      requires Stored() && deltaMode
      modifies `deltas, `deltaType, `rewrites
      ensures Stored() && deltas == old(deltas)
      ensures deltaType.Fits(delta) <==> I64.Fits(delta)
      ensures Later(old(Now()), Now())
    {
      var abs := if delta < 0 then -delta else delta;
      if deltaType == I8 {
        if !I8.Fits(delta) { UpgradeDeltaStorage(abs); }
      } else if deltaType == I16 {
        if !I16.Fits(delta) { UpgradeDeltaStorage(abs); }
      } else if deltaType == I32 {
        if !I32.Fits(delta) { UpgradeDeltaStorage(abs); }
      }
    }

    method PushDelta(delta: int)
      requires Stored() && deltaMode && deltaType.Fits(delta) && deltaCache == None
      requires dtype.Fits(Values()[|deltas|] + delta)
      modifies `deltas
      ensures Stored() && deltas == old(deltas) + [delta] && deltaCache == None
      ensures Values() == old(Values()) + [old(Values())[|old(deltas)|] + delta]
      ensures Reconstruct(deltaBase, deltas)[|deltas|] == old(Reconstruct(deltaBase, deltas)[|deltas|]) + delta
    {
      ReconstructPush(deltaBase, deltas, delta);
      deltas := deltas + [delta];
    }

    /** The next delta is the step from the previous value noted, which is the last one unless compaction left it
        behind; then the column reads on from its last value all the same. */
    method AppendDelta(value: int)
      requires Stored() && deltaMode && dtype.Fits(value) && dtype.Fits(Values()[|deltas|] + (value - deltaPrev))
      modifies `data, `deltaMode, `deltaFallback, `deltaBase, `deltaPrev, `deltas, `deltaCache, `deltaType, `rewrites
      ensures Stored() && (deltaMode || deltaFallback) && (old(PrevIsLast()) ==> PrevIsLast())
      ensures old(PrevIsLast()) ==> Values() == old(Values()) + [value]
      ensures deltaMode ==> Values() == old(Values()) + [old(Values()[|deltas|]) + (value - old(deltaPrev))]
      ensures !deltaMode ==> Values() == old(Values()) + [value]
      ensures deltaMode <==> I64.Fits(value - old(deltaPrev))
      ensures deltaMode <==> -9223372036854775808 <= value - old(deltaPrev) <= 9223372036854775807
      ensures Later(old(Now()), Now())
    {
      hide AllFit, Unpack, Pow2, Times, SmallestDeltaType;
      deltaCache := None;
      var delta := value - deltaPrev;
      deltaPrev := value;
      FitDelta(delta);
      StoreDelta(value, delta);
    }

    /** deltas.append(delta), or the whole column to raw when that overflows. */
    method StoreDelta(value: int, delta: int)
      requires Stored() && deltaMode && deltaCache == None && dtype.Fits(value) && deltaPrev == value
      requires dtype.Fits(Values()[|deltas|] + delta)
      modifies `data, `deltaMode, `deltaFallback, `deltaBase, `deltaPrev, `deltas, `deltaCache, `deltaType, `rewrites
      ensures Stored() && (deltaMode || deltaFallback)
      ensures deltaMode ==>
        deltaPrev == value && Reconstruct(deltaBase, deltas)[|deltas|] == old(Values()[|deltas|]) + delta
      ensures deltaMode <==> old(deltaType).Fits(delta)
      ensures Values() == old(Values()) + [if deltaMode then old(Values()[|deltas|]) + delta else value]
      ensures Later(old(Now()), Now())
    {
      if deltaType.Fits(delta) {
        PushDelta(delta);
      } else {
        ConvertDeltaToRaw();
        AppendRaw(value);
      }
    }

    // ---- frame of reference -------------------------------------------------

    method AppendFor(value: int)
      requires Stored() && forMode && dtype.Fits(value) && 0 <= value - forMin <= forMask
      modifies `forPacked, `forCount, `forCache
      ensures Stored() && Values() == old(Values()) + [value] && forCount == old(forCount) + 1
    {
      var delta: nat := value - forMin;
      forPacked := Pack(forMin, forPacked, forBits, forCount, delta);
      forCount := forCount + 1;
      forCache := None;
    }

    method GetForValue(idx: nat) returns (v: int)
      requires forMode && idx < forCount
      ensures v == Unpack(forMin, forPacked, forBits, forCount)[idx]
    {
      v := forMin + Lane(forPacked, forBits, idx);
    }

    method DecodeFor() returns (out: seq<int>)
      requires forMode
      ensures out == Unpack(forMin, forPacked, forBits, forCount)
    {
      out := [];
      for i := 0 to forCount
        invariant out == Unpack(forMin, forPacked, forBits, forCount)[..i]
      {
        var v := GetForValue(i);
        out := out + [v];
      }
    }

    method EnsureForCache() returns (cache: seq<int>)
      requires Stored() && forMode
      modifies `forCache
      ensures Stored() && cache == Values() == old(Values())
    {
      if forCache.None? {
        cache := DecodeFor();
        forCache := Some(cache);
      } else {
        cache := forCache.value;
      }
    }

    method ConvertForToRaw()
      requires Stored() && forMode
      modifies `data, `forMode, `forFallback, `forPacked, `forCount, `forCache, `rewrites
      ensures Stored() && !forMode && forFallback
      ensures Values() == data == old(Values())
      ensures Later(old(Now()), Now())
    {
      assert !deltaMode;
      var raw := DecodeFor();
      forFallback := true;
      data := raw;
      forMode := false;
      forPacked, forCount, forCache := 0, 0, None;
      rewrites := rewrites + 1;
    }

    /** Packs `values` one by one into an empty FOR column. */
    method PackAll(values: seq<int>)
      requires Stored() && forMode && forCount == 0
      requires AllFit(dtype, values)
      requires forall i :: 0 <= i < |values| ==> 0 <= values[i] - forMin <= forMask
      modifies `forPacked, `forCount, `forCache
      ensures Stored() && Values() == values && forCount == |values| && Now() == old(Now())
    {
      for i := 0 to |values|
        invariant Stored() && Values() == values[..i]
      {
        AppendFor(values[i]);
      }
    }

    /** Re-packs every value into wider lanes. */
    method Repack(newBits: nat)
      requires Stored() && forMode && forBits < newBits <= 16
      modifies `forBits, `forMask, `forPacked, `forCount, `forCache, `rewrites
      ensures Stored() && Values() == old(Values()) && forBits == newBits
      ensures Later(old(Now()), Now())
    {
      var oldVals := DecodeFor();
      LanesBounded();
      Pow2Mono(forBits, newBits);
      forBits, forMask := newBits, Pow2(newBits) - 1;
      forPacked, forCount, forCache := 0, 0, None;
      rewrites := rewrites + 1;
      PackAll(oldVals);
    }

    method WidenFor(neededDelta: nat) returns (kept: bool)
      requires Stored() && forMode && neededDelta > forMask
      modifies `data, `forMode, `forFallback, `forBits, `forMask, `forPacked, `forCount, `forCache, `rewrites
      ensures Stored() && Values() == old(Values())
      ensures kept == forMode && kept == (BitLength(neededDelta) <= 16) && forMode != forFallback
      ensures kept ==> neededDelta <= forMask && forBits > old(forBits)
      ensures Later(old(Now()), Now())
    {
      var newBits := AtLeastOne(BitLength(neededDelta));
      if newBits > 16 {
        ConvertForToRaw();
        return false;
      }
      BitLengthFits(neededDelta, newBits);
      BitLengthFits(neededDelta, forBits);
      Repack(newBits);
      return true;
    }

    lemma LanesBounded()
      requires ForShape() && forMode
      ensures forall i :: 0 <= i < forCount ==>
        0 <= Unpack(forMin, forPacked, forBits, forCount)[i] - forMin <= forMask
    {
      forall i: nat | i < forCount
        ensures 0 <= Lane(forPacked, forBits, i) <= forMask
      {
        LaneBound(forPacked, forBits, i);
      }
    }

    method MinMax(s: seq<int>) returns (lo: int, hi: int)
      requires s != []
      ensures lo in s && hi in s
      ensures forall i :: 0 <= i < |s| ==> lo <= s[i] <= hi
    {
      lo, hi := s[0], s[0];
      for i := 1 to |s|
        invariant lo in s && hi in s
        invariant forall k :: 0 <= k < i ==> lo <= s[k] <= hi
      {
        if s[i] < lo { lo := s[i]; }
        if s[i] > hi { hi := s[i]; }
      }
    }

    /** Empties the column into FOR mode with lanes wide enough for `range`. */
    method OpenFor(base: int, range: nat)
      requires Stored() && !deltaMode && !forMode && forEncode && !forFallback && (deltaEncode ==> deltaFallback)
      requires dtype.Fits(base) && BitLength(range) <= 16
      modifies `data, `forMode, `forMin, `forBits, `forMask, `forPacked, `forCount, `rewrites
      ensures Stored() && forMode && forMin == base && range <= forMask && forCount == 0
      ensures Later(old(Now()), Now())
    {
      forMin := base;
      forMode := true;
      assert Pow2(1) == 2;
      if range <= 0 {
        forBits, forMask := 1, 1;
      } else {
        forBits := AtLeastOne(BitLength(range));
        forMask := Pow2(forBits) - 1;
        BitLengthFits(range, forBits);
      }
      forPacked, forCount := 0, 0;
      data := [];
      rewrites := rewrites + 1;
    }

    method StartForMode()
      requires Stored() && !deltaMode && !forMode && forEncode && !forFallback && (deltaEncode ==> deltaFallback)
      modifies `data, `forMode, `forFallback, `forStats, `forMin, `forBits, `forMask, `forPacked, `forCount, `forCache
      modifies `rewrites
      ensures Stored() && Values() == old(Values())
      ensures forMode <==> Packable(Values())
      ensures forMode != forFallback
      ensures Later(old(Now()), Now())
    {
      hide Later, IntColumn.Now;
      var oldData := data;
      var range: nat := 0;
      var base := 0;
      if |oldData| > 0 {
        var lo, hi := MinMax(oldData);
        base, range := lo, hi - lo;
        PackableRange(oldData, lo, hi);
      } else if forStats.Some? {
        base := forStats.value.min;
      }
      if BitLength(range) > 16 {
        GiveUpFor(base);
      } else {
        OpenFor(base, range);
        PackAll(oldData);
      }
    }

    /** The samples spread too far: the column stays raw for good. */
    method GiveUpFor(base: int)
      requires Stored() && !deltaMode && !forMode
      modifies `forFallback, `forStats, `forMin
      ensures Stored() && forFallback && Values() == old(Values())
      ensures Later(old(Now()), Now())
    {
      forMin := base;
      forFallback := true;
      forStats := None;
    }

    // ---- appending ----------------------------------------------------------

    method RepeatLast() returns (ghost stored: int)
      requires Stored() && PrevIsLast() && deltaMode
      modifies `deltas, `deltaCache
      ensures Stored() && PrevIsLast()
      ensures Values() == old(Values()) + [stored]
    {
      stored := Values()[|deltas|];
      deltaCache := None;
      PushDelta(0);
    }

    /** Stores a placeholder for a null row; the null mask hides it. */
    method AppendPlaceholder() returns (ghost stored: int)
      requires Stored() && PrevIsLast()
      modifies `data, `deltas, `deltaCache, `forPacked, `forCount, `forCache
      ensures Stored() && PrevIsLast() && Now() == old(Now())
      ensures Values() == old(Values()) + [stored]
    {
      if deltaMode && !deltaFallback {
        stored := RepeatLast();
      } else if forMode && !forFallback {
        stored := forMin;
        AppendFor(forMin);
      } else {
        stored := 0;
        AppendRaw(0);
      }
    }

    method IsMonotonic(s: seq<int>) returns (b: bool)
      ensures b <==> NonDecreasing(s)
    {
      var i := 1;
      while i < |s|
        invariant 1 <= i
        invariant forall k :: 1 <= k < i && k < |s| ==> s[k - 1] <= s[k]
      {
        if s[i] < s[i - 1] { return false; }
        i := i + 1;
      }
      return true;
    }

    /** One sampled row on its way into the delta encoding. */
    method AppendSample(value: int)
      requires Stored() && PrevIsLast() && (deltaMode || deltaFallback) && !forMode && dtype.Fits(value)
      requires |Values()| > 0
      modifies `data, `deltaMode, `deltaFallback, `deltaBase, `deltaPrev, `deltas, `deltaCache, `deltaType, `rewrites
      ensures Stored() && PrevIsLast() && (deltaMode || deltaFallback)
      ensures Values() == old(Values()) + [value]
      ensures deltaMode <==> old(deltaMode) && I64.Fits(value - old(Values())[|old(Values())| - 1])
      ensures Later(old(Now()), Now())
    {
      if deltaFallback {
        AppendRaw(value);
      } else {
        AppendDelta(value);
      }
    }

    /** Leaves the sampling phase of delta encoding once enough rows were seen. */
    method FinishDeltaSampling()
      requires Stored() && deltaEncode && !deltaMode && !deltaFallback && !forMode && data != []
      modifies `data, `deltaMode, `deltaFallback, `deltaBase, `deltaPrev, `deltas, `deltaCache, `deltaType, `rewrites
      ensures Stored() && PrevIsLast() && (deltaMode || deltaFallback)
      ensures Values() == old(Values())
      ensures deltaMode <==> NonDecreasing(Values()) && StepsFit(Values())
      ensures Later(old(Now()), Now())
    {
      var monotonic := IsMonotonic(data);
      if monotonic {
        EncodeSamples();
      } else {
        deltaFallback := true;
      }
    }

    /** Restarts the column in delta mode and feeds the sampled rows back in. */
    lemma RawFits()
      requires Stored() && !deltaMode && !forMode
      ensures forall i :: 0 <= i < |data| ==> dtype.Fits(data[i])
    {
    }

    method EncodeSamples()
      requires Stored() && deltaEncode && !deltaMode && !deltaFallback && !forMode && data != []
      modifies `data, `deltaMode, `deltaFallback, `deltaBase, `deltaPrev, `deltas, `deltaCache, `deltaType, `rewrites
      ensures Stored() && PrevIsLast() && (deltaMode || deltaFallback)
      ensures Values() == old(data)
      ensures deltaMode <==> StepsFit(old(data))
      ensures Later(old(Now()), Now())
    {
      hide *;
      var oldData := data;
      RawFits();
      OneStep(oldData);
      StartDeltaMode(data[0]);
      for i := 1 to |oldData|
        invariant Stored() && PrevIsLast() && (deltaMode || deltaFallback)
        invariant Values() == oldData[..i]
        invariant deltaMode <==> StepsFit(oldData[..i])
        invariant Later(old(Now()), Now())
      {
        ghost var was := Now();
        StepsFitPush(oldData, i);
        AppendSample(oldData[i]);
        LaterTrans(old(Now()), was, Now());
      }
      assert oldData[..|oldData|] == oldData;
    }

    method AppendDeltaEncoded(value: int)
      requires Stored() && PrevIsLast() && deltaEncode && !deltaFallback && !forMode && dtype.Fits(value)
      modifies `data, `deltaMode, `deltaFallback, `deltaBase, `deltaPrev, `deltas, `deltaCache, `deltaType, `rewrites
      ensures Stored() && PrevIsLast()
      ensures Values() == old(Values()) + [value]
      ensures old(deltaMode) ==> (deltaMode <==> I64.Fits(value - old(deltaPrev)))
      ensures !old(deltaMode) ==>
        if |Values()| < deltaSamples then !deltaMode && !deltaFallback
        else (deltaMode <==> NonDecreasing(Values()) && StepsFit(Values())) && (deltaMode || deltaFallback)
      ensures Later(old(Now()), Now())
    {
      if !deltaMode {
        AppendRaw(value);
        if |data| >= deltaSamples {
          FinishDeltaSampling();
        }
      } else {
        AppendDelta(value);
      }
    }

    method NoteForSample(value: int)
      requires Stored() && dtype.Fits(value)
      modifies `forStats
      ensures Stored() && forStats.Some?
      ensures forStats.value == NextStats(old(forStats), value)
    {
      var st := if forStats.None? then Stats(value, value, 0) else forStats.value;
      st := st.(count := st.count + 1);
      if value < st.min { st := st.(min := value); }
      if value > st.max { st := st.(max := value); }
      forStats := Some(st);
    }

    method AppendForSample(value: int)
      requires Stored() && !deltaMode && !forMode && forEncode && !forFallback && (deltaEncode ==> deltaFallback)
      requires dtype.Fits(value)
      modifies `data, `forMode, `forFallback, `forStats, `forMin, `forBits, `forMask, `forPacked, `forCount, `forCache
      modifies `rewrites
      ensures Stored()
      ensures Values() == old(Values()) + [value]
      ensures var st := NextStats(old(forStats), value);
        if st.count < forThreshold then !forMode && !forFallback && forStats == Some(st)
        else (forMode <==> st.max - st.min < 65536 && Packable(Values())) && forMode != forFallback
      ensures Later(old(Now()), Now())
    {
      AppendRaw(value);
      NoteForSample(value);
      if forStats.value.count >= forThreshold {
        SixteenBits(forStats.value.max - forStats.value.min);
        if BitLength(forStats.value.max - forStats.value.min) <= 16 {
          StartForMode();
        } else {
          forFallback := true;
          forStats := None;
        }
      }
    }

    method AppendForPacked(value: int)
      requires Stored() && forMode && dtype.Fits(value)
      modifies `data, `forMode, `forFallback, `forBits, `forMask, `forPacked, `forCount, `forCache, `rewrites
      ensures Stored()
      ensures Values() == old(Values()) + [value]
      ensures forMode <==> 0 <= value - forMin < 65536
      ensures forMode != forFallback
      ensures forMode ==> forBits >= old(forBits)
      ensures Later(old(Now()), Now())
    {
      var delta := value - forMin;
      if delta < 0 {
        ConvertForToRaw();
        AppendRaw(value);
      } else if delta > forMask {
        SixteenBits(delta);
        var kept := WidenFor(delta);
        if kept {
          AppendFor(value);
        } else {
          AppendRaw(value);
        }
      } else {
        MaskFits16(forBits);
        AppendFor(value);
      }
    }

    method AppendForEncoded(value: int)
      requires Stored() && !deltaMode && forEncode && !forFallback && (deltaEncode ==> deltaFallback)
      requires dtype.Fits(value)
      modifies `data, `forMode, `forFallback, `forStats, `forMin, `forBits, `forMask, `forPacked, `forCount, `forCache
      modifies `rewrites
      ensures Stored()
      ensures Values() == old(Values()) + [value]
      ensures !old(forMode) ==> FrameDecided(NextStats(old(forStats), value))
      ensures Later(old(Now()), Now())
    {
      if !forMode {
        AppendForSample(value);
      } else {
        AppendForPacked(value);
      }
    }

    /** Values still go to the raw array until there are enough to decide on delta encoding. */
    ghost predicate SamplesDeltas()
      reads this
    {
      deltaEncode && !deltaFallback && !deltaMode
    }

    /** With enough samples the column is delta encoded, if they never decrease and every step fits, or never
        will be. */
    ghost predicate DeltaDecided()
      reads this
    {
      if |Values()| < deltaSamples then !deltaMode && !deltaFallback
      else (deltaMode <==> NonDecreasing(Values()) && StepsFit(Values())) && (deltaMode || deltaFallback)
    }

    /** The same for frame-of-reference encoding, asked for on its own. */
    ghost predicate SamplesFrame()
      reads this
    {
      !deltaEncode && forEncode && !forFallback && !forMode
    }

    ghost predicate FrameDecided(st: Stats)
      reads this
    {
      if st.count < forThreshold then !forMode && !forFallback && forStats == Some(st)
      else (forMode <==> st.max - st.min < 65536 && Packable(Values())) && forMode != forFallback
    }

    method AppendStored(value: int)
      requires Stored() && PrevIsLast() && dtype.Fits(value)
      modifies `data, `deltaMode, `deltaFallback, `deltaBase, `deltaPrev, `deltas, `deltaCache, `deltaType, `rewrites,
        `forMode, `forFallback, `forStats, `forMin, `forBits, `forMask, `forPacked, `forCount, `forCache
      ensures Stored() && PrevIsLast()
      ensures Values() == old(Values()) + [value]
      ensures old(SamplesDeltas()) ==> DeltaDecided()
      ensures old(SamplesFrame()) ==> FrameDecided(NextStats(old(forStats), value))
      ensures Later(old(Now()), Now())
    {
      if deltaEncode && !deltaFallback {
        AppendDeltaEncoded(value);
      } else if forEncode && !forFallback {
        AppendForEncoded(value);
      } else {
        AppendRaw(value);
      }
    }

    method Append(value: Option<int>)
      requires Valid() && (value.Some? ==> dtype.Fits(value.value))
      modifies this
      ensures Valid() && Contents() == old(Contents()) + [value]
      ensures value.Some? && old(SamplesDeltas()) ==> DeltaDecided()
      ensures value.Some? && old(SamplesFrame()) ==> FrameDecided(NextStats(old(forStats), value.value))
      ensures Later(old(Now()), Now())
    {
      hide Later, NonDecreasing, StepsFit, Packable, NextStats;
      LaterSelf(Now());
      ghost var values := Values();
      if value.None? {
        nullmask := nullmask + [true];
        ghost var stored := AppendPlaceholder();
      } else {
        nullmask := nullmask + [false];
        AppendStored(value.value);
      }
      MaskPush(old(nullmask), values, Values(), value);
    }

    // ---- updating -----------------------------------------------------------

    /** Makes the column raw, whatever it is encoded as. */
    method MakeRaw()
      requires Stored() && PrevIsLast()
      modifies `data, `deltaMode, `deltaFallback, `deltaBase, `deltaPrev, `deltas, `deltaCache, `deltaType, `rewrites,
        `forMode, `forFallback, `forPacked, `forCount, `forCache
      ensures Stored() && !deltaMode && !forMode
      ensures Values() == data == old(Values())
      ensures Later(old(Now()), Now())
    {
      if deltaMode && !deltaFallback {
        ConvertDeltaToRaw();
      } else if forMode && !forFallback {
        ConvertForToRaw();
      }
    }

    /** col[idx] = value; false stands for IndexError. */
    method SetItem(idx: int, value: Option<int>) returns (ok: bool)
      requires Valid() && (value.Some? ==> dtype.Fits(value.value))
      modifies this
      ensures Valid() && ok == (0 <= idx < |old(Contents())|)
      ensures Contents() == if ok then old(Contents())[idx := value] else old(Contents())
      ensures Later(old(Now()), Now())
    {
      hide Later;
      LaterSelf(Now());
      if idx < 0 || idx >= |nullmask| {
        return false;
      }
      ghost var values := Values();
      if value.None? {
        nullmask := nullmask[idx := true];
        ClearSlot(idx);
      } else {
        nullmask := nullmask[idx := false];
        StoreSlot(idx, value.value);
      }
      MaskPut(old(nullmask), values, Values(), idx, value);
      return true;
    }

    /** What setting a row to a value does: an encoded column turns raw first. */
    method StoreSlot(idx: nat, value: int)
      requires Stored() && PrevIsLast() && idx < |Values()| && dtype.Fits(value)
      modifies `data, `deltaMode, `deltaFallback, `deltaBase, `deltaPrev, `deltas, `deltaCache, `deltaType, `rewrites,
        `forMode, `forFallback, `forPacked, `forCount, `forCache
      ensures Stored() && !deltaMode && !forMode
      ensures Values() == old(Values())[idx := value]
      ensures Later(old(Now()), Now())
    {
      MakeRaw();
      PutRaw(idx, value);
    }

    /** What setting a row to None does to the stored values: encoded columns keep theirs. */
    method ClearSlot(idx: nat)
      requires Stored() && PrevIsLast() && idx < |Values()|
      modifies `data
      ensures Stored() && PrevIsLast() && Rank() == old(Rank())
      ensures |Values()| == |old(Values())| && Now() == old(Now())
      ensures forall i :: 0 <= i < |Values()| && i != idx ==> Values()[i] == old(Values())[i]
    {
      if !(deltaMode && !deltaFallback) && !(forMode && !forFallback) {
        PutRaw(idx, 0);
      }
    }

    // ---- reading ------------------------------------------------------------

    method GetItem(idx: nat) returns (r: Option<int>)
      requires Valid() && idx < |Contents()|
      modifies `deltaCache
      ensures Valid() && Contents() == old(Contents()) && Now() == old(Now())
      ensures r == Contents()[idx]
    {
      if nullmask[idx] {
        return None;
      }
      if deltaMode && !deltaFallback {
        var cache := EnsureDeltaCache();
        r := Some(cache[idx]);
      } else if forMode && !forFallback {
        var v := GetForValue(idx);
        r := Some(v);
      } else {
        r := Some(data[idx]);
      }
    }

    /** The values behind the null mask, decoded in one pass. */
    method Decode() returns (values: seq<int>)
      requires Valid()
      modifies `deltaCache
      ensures Valid() && Contents() == old(Contents()) && values == Values() == old(Values()) && Now() == old(Now())
    {
      if deltaMode && !deltaFallback {
        values := EnsureDeltaCache();
      } else if forMode && !forFallback {
        values := DecodeFor();
      } else {
        values := data;
      }
    }

    method ToList() returns (out: seq<Option<int>>)
      requires Valid()
      modifies `deltaCache
      ensures Valid() && Contents() == old(Contents()) && out == Contents() && Now() == old(Now())
    {
      var values := Decode();
      out := [];
      for i := 0 to |nullmask|
        invariant out == Mask(nullmask, values)[..i]
      {
        out := out + [if nullmask[i] then None else Some(values[i])];
      }
    }
  }

  // ---- runs -----------------------------------------------------------------

  datatype ColumnOp = Push(value: Option<int>) | Put(idx: int, value: Option<int>) | Read

  /** What a run of operations means on a plain sequence of optional values. */
  function Replay(ops: seq<ColumnOp>, s: seq<Option<int>>): seq<Option<int>> {
    if ops == [] then s
    else
      var t := Replay(ops[..|ops| - 1], s);
      match ops[|ops| - 1]
      case Push(v) => t + [v]
      case Put(i, v) => if 0 <= i < |t| then t[i := v] else t
      case Read => t
  }

  /** Every phase of a run can be reached from each earlier one. */
  ghost predicate Onward(trace: seq<Phase>) {
    && (forall i :: 0 <= i < |trace| ==> trace[i].Sound())
    && forall i, j :: 0 <= i <= j < |trace| ==> Later(trace[i], trace[j])
  }

  /** How often the form changes along a run. */
  function Changes(trace: seq<Phase>): nat {
    if |trace| < 2 then 0
    else
      var n := |trace| - 1;
      Changes(trace[..n]) + (if trace[n].Form() != trace[n - 1].Form() then 1 else 0)
  }

  /** In use are the same encodings, with the same delta type and lane width. */
  ghost predicate SameForm(a: Phase, b: Phase) {
    && a.deltaMode == b.deltaMode && (a.deltaMode ==> a.deltaWidth == b.deltaWidth)
    && a.forMode == b.forMode && (a.forMode ==> a.forBits == b.forBits)
  }

  /** The form is another than before. */
  ghost predicate OtherForm(trace: seq<Phase>, i: nat)
    requires 0 < i < |trace|
  {
    !SameForm(trace[i - 1], trace[i])
  }

  // the changes counted are the places where the form is another
  lemma {:induction false} ChangesAre(trace: seq<Phase>, places: set<nat>)
    requires forall i :: i in places <==> 0 < i < |trace| && OtherForm(trace, i)
    ensures Changes(trace) == |places|
  {
    if |trace| < 2 {
      assert places == {};
    } else {
      var n := |trace| - 1;
      ChangesAre(trace[..n], places - {n});
    }
  }

  /** The column did not go onward there, as it does in any operation. */
  ghost predicate NotOnward(trace: seq<Phase>, i: nat)
    requires 0 < i < |trace|
  {
    !Later(trace[i - 1], trace[i])
  }

  // the compactions counted are the places from which the column does not go onward
  lemma {:induction false} CompactionsAre(trace: seq<Phase>, places: set<nat>)
    requires forall i :: i in places <==> 0 < i < |trace| && NotOnward(trace, i)
    ensures Compactions(trace) == |places|
  {
    hide Later;
    if |trace| < 2 {
      assert places == {};
    } else {
      var n := |trace| - 1;
      CompactionsAre(trace[..n], places - {n});
    }
  }

  lemma OnwardFrom(p: Phase)
    requires p.Sound()
    ensures Onward([p])
  {
  }

  lemma OnwardPush(trace: seq<Phase>, p: Phase)
    requires trace != [] && Onward(trace) && Later(trace[|trace| - 1], p)
    ensures Onward(trace + [p])
  {
    LaterSelf(p);
    forall i | 0 <= i < |trace|
      ensures Later(trace[i], p)
    {
      LaterTrans(trace[i], trace[|trace| - 1], p);
    }
  }

  // An encoding once left never comes back, its element type or lane width never shrinks, and no
  // change of form goes uncounted.
  lemma LeftForGood(trace: seq<Phase>, i: nat, j: nat, k: nat)
    requires Onward(trace) && i <= j <= k < |trace|
    ensures trace[i].deltaMode && !trace[j].deltaMode ==> !trace[k].deltaMode
    ensures trace[i].forMode && !trace[j].forMode ==> !trace[k].forMode
    ensures trace[j].deltaMode && trace[k].deltaMode ==> trace[j].deltaWidth <= trace[k].deltaWidth
    ensures trace[j].forMode && trace[k].forMode ==> trace[j].forBits <= trace[k].forBits
  {
    assert Later(trace[i], trace[j]) && Later(trace[j], trace[k]);
  }

  lemma {:induction false} ChangesCounted(trace: seq<Phase>)
    requires trace != [] && Onward(trace)
    ensures trace[0].rewrites + Changes(trace) <= trace[|trace| - 1].rewrites
  {
    if |trace| > 1 {
      ChangesCounted(trace[..|trace| - 1]);
      assert Later(trace[|trace| - 2], trace[|trace| - 1]);
    }
  }

  lemma RankPays(trace: seq<Phase>)
    requires trace != [] && Onward(trace)
    ensures trace[|trace| - 1].rewrites <= trace[0].rewrites + trace[0].rank
  {
    assert Later(trace[0], trace[|trace| - 1]);
  }

  lemma NowCounts(col: IntColumn)
    ensures col.Now().rewrites == col.rewrites
  {
  }

  /** What compaction makes of a phase: encodings in use and given up stay, lanes may get narrower, which sixteen
      more widenings can undo. */
  predicate Compacted(a: Phase, b: Phase) {
    b == a.(forBits := b.forBits, rank := b.rank) && b.forBits <= a.forBits && b.rank <= a.rank + 16
  }

  /** Operations and compactions, one after the other. */
  ghost predicate OnwardOrCompacted(trace: seq<Phase>) {
    && (trace != [] ==> trace[0].Sound())
    && forall i :: 0 < i < |trace| ==> Later(trace[i - 1], trace[i]) || Compacted(trace[i - 1], trace[i])
  }

  function Compactions(trace: seq<Phase>): nat {
    if |trace| < 2 then 0
    else
      var n := |trace| - 1;
      Compactions(trace[..n]) + (if Later(trace[n - 1], trace[n]) then 0 else 1)
  }

  // What a run gave up it has given up for good, compactions or not; and a compaction lets the column be re-encoded at
  // most sixteen times more.
  lemma {:induction false} AcrossCompactions(trace: seq<Phase>)
    requires trace != [] && OnwardOrCompacted(trace)
    ensures var (a, b) := (trace[0], trace[|trace| - 1]);
      && b.Sound() && (a.deltaOver ==> b.deltaOver) && (a.forOver ==> b.forOver)
      && (a.deltaMode && !b.deltaMode ==> b.deltaOver) && (a.forMode && !b.forMode ==> b.forOver)
      && a.rewrites <= b.rewrites && b.rewrites + b.rank <= a.rewrites + a.rank + 16 * Compactions(trace)
  {
    if |trace| > 1 {
      AcrossCompactions(trace[..|trace| - 1]);
    }
  }

  /** Any run of appends, updates and reads, with any encodings requested and any
      thresholds, leaves the plain sequence; its phases only go onward, and the form of the column
      changes at most MAX_REWRITES times. */
  method RunColumn(dtype: IntType, deltaEncode: bool, deltaSamples: int, forEncode: bool, forThreshold: int,
                   ops: seq<ColumnOp>)
    returns (col: IntColumn, seen: seq<Option<int>>, ghost trace: seq<Phase>)
    requires forall k :: 0 <= k < |ops| && !ops[k].Read? && ops[k].value.Some? ==> dtype.Fits(ops[k].value.value)
    ensures fresh(col) && col.Valid() && col.Contents() == seen == Replay(ops, [])
    ensures |trace| == |ops| + 1 && Onward(trace) && trace[|ops|] == col.Now() && trace[0].rewrites == 0
    ensures Changes(trace) <= col.rewrites <= MAX_REWRITES && trace[0].rank <= MAX_REWRITES
    ensures |set i | 0 < i < |trace| && OtherForm(trace, i)| <= 20
  {
    hide Later, Onward, Changes, OtherForm, IntColumn.Valid, IntColumn.Contents, IntColumn.Now;
    col := new IntColumn(dtype, deltaEncode, deltaSamples, forEncode, forThreshold);
    trace := [col.Now()];
    OnwardFrom(col.Now());
    for k := 0 to |ops|
      invariant fresh(col) && col.Valid() && col.dtype == dtype && col.Contents() == Replay(ops[..k], [])
      invariant |trace| == k + 1 && Onward(trace) && trace[k] == col.Now() && trace[0].rewrites == 0
      invariant trace[0].rank <= MAX_REWRITES
    {
      assert ops[..k + 1][..k] == ops[..k];
      match ops[k] {
        case Push(v) => col.Append(v);
        case Put(i, v) => var _ := col.SetItem(i, v);
        case Read =>
          var _ := col.ToList();
          LaterSelf(col.Now());
      }
      OnwardPush(trace, col.Now());
      trace := trace + [col.Now()];
    }
    assert ops[..|ops|] == ops;
    ChangesCounted(trace);
    ChangesAre(trace, set i | 0 < i < |trace| && OtherForm(trace, i));
    RankPays(trace);
    NowCounts(col);
    seen := col.ToList();
  }
}
