/** The on-disk image: what flushing writes, what loading reads, what compaction rebuilds. */
module Persist {
  import opened Bits
  import opened Values
  import opened Codec
  import opened Layout
  import opened Images
  import opened Slabs

  // ---- bitmaps --------------------------------------------------------------

  /** One byte per slot, 1 for live. */
  function LiveBytes(live: seq<bool>): (r: seq<byte>)
    ensures |r| == |live|
  {
    seq(|live|, i requires 0 <= i < |live| => if live[i] then 1 else 0)
  }

  function LiveFrom(b: seq<byte>): (r: seq<bool>)
    ensures |r| == |b|
  {
    seq(|b|, i requires 0 <= i < |b| => b[i] != 0)
  }

  lemma LiveRoundTrip(live: seq<bool>)
    ensures LiveFrom(LiveBytes(live)) == live
  {
  }

  /** live.count(1) */
  function CountLive(live: seq<bool>): nat {
    if live == [] then 0 else CountLive(live[..|live| - 1]) + Bit(live[|live| - 1])
  }

  // ---- the persisted form -----------------------------------------------------

  /** The header holds the last slab's high-water count; every bitmap holds its slab's flags. */
  ghost predicate OnDisk(env: Env, bytes: seq<byte>, states: States) {
    && |states| > 0 && |bytes| >= HEADER_SIZE
    && UnpackHeader(bytes[..HEADER_SIZE]) == HeaderOk(Header(env.pageSize, states[|states| - 1].count,
        env.schemaOffset))
    && forall k :: 0 <= k < |states| ==> BitmapAt(env, bytes, k) == LiveBytes(states[k].live)
  }

  function BitmapAt(env: Env, bytes: seq<byte>, k: nat): seq<byte> { Slice(bytes, env.UnitStart(k), env.rps) }

  /** The numbers of this file fit their header fields. */
  ghost predicate HeaderFitsEnv(env: Env) { env.pageSize < Pow256(2) && env.schemaOffset < Pow256(8) }

  lemma CountFitsHeader(env: Env, count: nat)
    requires env.Wf() && HeaderFitsEnv(env) && count <= env.rps
    ensures HeaderFits(Header(env.pageSize, count, env.schemaOffset))
  {
    TimesAtLeast(env.rps, env.width);
    assert Pow256(4) == 256 * Pow256(3) && Pow256(3) == 256 * Pow256(2);
  }

  lemma {:induction false} TimesAtLeast(i: nat, w: nat)
    requires w > 0
    ensures i <= Times(i, w)
  {
    if i > 0 {
      TimesAtLeast(i - 1, w);
    }
  }

  // ---- flushing ---------------------------------------------------------------

  // Writing outside every row slot leaves the live map alone.
  lemma WriteBetweenRows(env: Env, bytes: seq<byte>, states: States, model: map<nat, Row>, at: nat, raw: seq<byte>)
    requires Consistent(env, bytes, states, model)
    requires forall g: nat :: env.SlotOf(g) + env.width <= at || at + |raw| <= env.SlotOf(g)
    ensures Consistent(env, Put(bytes, at, raw), states, model)
  {
    var bytes' := Put(bytes, at, raw);
    forall g: nat | g in model
      ensures StoredRow(env, bytes', g) == StoredRow(env, bytes, g)
    {
      if at + |raw| <= |bytes| && env.SlotOf(g) + env.width <= |bytes| {
        SpliceElsewhere(bytes, at, raw, env.SlotOf(g), env.SlotOf(g) + env.width);
      }
    }
    LiveMapIs(env, bytes', states, model);
  }

  lemma BitmapKeepsRows(env: Env, bytes: seq<byte>, states: States, model: map<nat, Row>, k: nat, raw: seq<byte>)
    requires Consistent(env, bytes, states, model) && |raw| == env.rps
    ensures Consistent(env, Put(bytes, env.UnitStart(k), raw), states, model)
  {
    forall g: nat
      ensures env.SlotOf(g) + env.width <= env.UnitStart(k) || env.UnitStart(k) + |raw| <= env.SlotOf(g)
    {
      SlotMissesBitmap(env, g, k);
    }
    WriteBetweenRows(env, bytes, states, model, env.UnitStart(k), raw);
  }

  lemma HeaderKeepsRows(env: Env, bytes: seq<byte>, states: States, model: map<nat, Row>, raw: seq<byte>)
    requires Consistent(env, bytes, states, model) && |raw| == HEADER_SIZE
    ensures Consistent(env, Put(bytes, 0, raw), states, model)
  {
    WriteBetweenRows(env, bytes, states, model, 0, raw);
  }

  lemma BitmapFits(env: Env, k: nat, n: nat)
    requires k < n
    ensures env.UnitStart(k) + env.rps <= env.UnitStart(n)
  {
    TimesEnd(k, n, env.Unit());
  }

  // one bitmap does not disturb another, nor the header
  lemma BitmapsApart(env: Env, bytes: seq<byte>, k: nat, i: nat, raw: seq<byte>)
    requires |raw| == env.rps && i != k && env.UnitStart(k) + env.rps <= |bytes|
    ensures BitmapAt(env, Put(bytes, env.UnitStart(k), raw), i) == BitmapAt(env, bytes, i)
  {
    if i < k {
      BitmapFits(env, i, k);
    } else {
      BitmapFits(env, k, i);
    }
    SpliceSlice(bytes, env.UnitStart(k), raw, env.UnitStart(i));
  }

  lemma BitmapWritten(env: Env, bytes: seq<byte>, k: nat, raw: seq<byte>)
    requires |raw| == env.rps && env.UnitStart(k) + env.rps <= |bytes|
    ensures BitmapAt(env, Put(bytes, env.UnitStart(k), raw), k) == raw
  {
    SpliceSlice(bytes, env.UnitStart(k), raw, env.UnitStart(k));
  }

  lemma HeaderWritten(env: Env, bytes: seq<byte>, h: Header, n: nat)
    requires HeaderFits(h) && HEADER_SIZE <= env.schemaOffset && |bytes| >= env.schemaOffset
    ensures UnpackHeader(Put(bytes, 0, PackHeader(h))[..HEADER_SIZE]) == HeaderOk(h)
    ensures forall k: nat :: BitmapAt(env, Put(bytes, 0, PackHeader(h)), k) == BitmapAt(env, bytes, k)
  {
    HeaderRoundTrip(h);
    SpliceRead(bytes, 0, PackHeader(h));
    forall k: nat
      ensures BitmapAt(env, Put(bytes, 0, PackHeader(h)), k) == BitmapAt(env, bytes, k)
    {
      var at := env.UnitStart(k);
      if at + env.rps <= |bytes| {
        SpliceElsewhere(bytes, 0, PackHeader(h), at, at + env.rps);
      }
    }
  }

  // ---- loading ----------------------------------------------------------------

  /** What loading makes of a persisted slab: same count and flags, zone map not built. */
  function Reloaded(s: SlabState): SlabState { SlabState(s.count, s.live, map[], map[], false) }

  function ReloadedAll(states: States): (r: States)
    ensures |r| == |states|
  {
    seq(|states|, k requires 0 <= k < |states| => Reloaded(states[k]))
  }

  // A reloaded store has the same rows; unbuilt zone maps cover anything.
  lemma ReloadKeeps(env: Env, bytes: seq<byte>, states: States, model: map<nat, Row>)
    requires Consistent(env, bytes, states, model) && FilledUpTo(env, states, |states| - 1)
    ensures Consistent(env, bytes, ReloadedAll(states), model)
    ensures FilledUpTo(env, ReloadedAll(states), |states| - 1)
    ensures HighWater(env, ReloadedAll(states)) == HighWater(env, states)
    ensures env.rps > 0 && ZonesCover(env, ReloadedAll(states), model)
  {
    var states' := ReloadedAll(states);
    forall k | 0 <= k < |states'|
      ensures WfState(env, states'[k])
    {
      assert WfState(env, states[k]);
    }
    assert forall g: nat :: LiveIn(env, states', g) <==> LiveIn(env, states, g);
    LiveMapIs(env, bytes, states', model);
    forall g | g in model
      ensures ZoneCoversRow(env, states', g, model[g])
    {
      LiveHandedOut(env, bytes, states, model, g);
    }
  }

  // the live count is the number of rows a scan of the slab yields
  lemma {:induction false} CountPicked(env: Env, bytes: seq<byte>, offset: nat, live: seq<bool>, n: nat, base: nat)
    requires n <= |live|
    ensures |Picked(env, bytes, offset, live, n, base, Always)| == CountLive(live[..n])
  {
    if n > 0 {
      CountPicked(env, bytes, offset, live, n - 1, base);
      assert live[..n][..n - 1] == live[..n - 1];
    }
  }

  lemma {:induction false} SelectSize(m: map<nat, Row>, n: nat)
    ensures |Select(m, Always, n)| == |set g | g in m && g < n|
  {
    var s := set g | g in m && g < n;
    if n == 0 {
      assert s == {};
    } else {
      SelectSize(m, n - 1);
      var t := set g | g in m && g < n - 1;
      if n - 1 in m {
        assert s == t + {n - 1};
      } else {
        assert s == t;
      }
    }
  }

  lemma AllSelected(m: map<nat, Row>, n: nat)
    requires forall g :: g in m ==> g < n
    ensures |Select(m, Always, n)| == |m|
  {
    SelectSize(m, n);
    assert (set g | g in m && g < n) == m.Keys;
  }

  lemma FileSize(env: Env, bytes: seq<byte>, states: States, model: map<nat, Row>)
    requires Consistent(env, bytes, states, model)
    ensures |states| > 0 && |bytes| == env.UnitStart(|states|) && env.Wf() && env.schemaOffset <= |bytes|
    ensures forall k :: 0 <= k < |states| ==> |states[k].live| == env.rps && states[k].count <= env.rps
  {
    assert forall k :: 0 <= k < |states| ==> WfState(env, states[k]);
  }

  lemma UnitsInFile(env: Env, n: nat)
    requires env.Wf()
    ensures env.Unit() > 0 && (env.UnitStart(n) - env.schemaOffset) / env.Unit() == n
  {
    DivModUnique(n, 0, env.Unit());
  }

  lemma NoSlabs(env: Env, mm: Mapping)
    requires env.Wf()
    ensures InFile(env, mm, [], []) && ReloadedAll([]) == []
  {
  }

  lemma ReloadedStep(was: States, i: nat)
    requires i < |was|
    ensures ReloadedAll(was[..i + 1]) == ReloadedAll(was[..i]) + [Reloaded(was[i])]
  {
  }

  lemma AllRowsSelected(env: Env, bytes: seq<byte>, states: States, model: map<nat, Row>)
    requires Consistent(env, bytes, states, model)
    ensures |Select(model, Always, Times(|states|, env.rps))| == |model|
  {
    forall g | g in model
      ensures g < Times(|states|, env.rps)
    {
      LiveIsBelowHighWater(env, states, g);
    }
    AllSelected(model, Times(|states|, env.rps));
  }

  lemma SlabOnDisk(env: Env, bytes: seq<byte>, states: States, model: map<nat, Row>, k: nat)
    requires OnDisk(env, bytes, states) && Consistent(env, bytes, states, model) && k < |states|
    ensures WfState(env, states[k]) && BitmapAt(env, bytes, k) == LiveBytes(states[k].live)
  {
  }

  // ---- the rows of a list ---------------------------------------------------------

  function Payload(s: seq<(nat, Row)>): (r: seq<Row>)
    ensures |r| == |s|
  {
    seq(|s|, i requires 0 <= i < |s| => s[i].1)
  }

  lemma PayloadNone()
    ensures forall s: seq<(nat, Row)> :: Payload(s[..0]) == []
  {
  }

  lemma PayloadPush(s: seq<(nat, Row)>, i: nat)
    requires i < |s|
    ensures Payload(s[..i + 1]) == Payload(s[..i]) + [s[i].1]
  {
  }

  lemma PayloadCanonical(env: Env, bytes: seq<byte>, states: States, model: map<nat, Row>, n: nat)
    requires Consistent(env, bytes, states, model)
    ensures forall i :: 0 <= i < |Payload(Select(model, Always, n))| ==>
      env.codec.canon(Payload(Select(model, Always, n))[i])
    ensures env.Wf() && env.Lawful()
  {
    var s := Select(model, Always, n);
    SelectExact(model, Always, n);
    forall i | 0 <= i < |s|
      ensures env.codec.canon(s[i].1)
    {
      assert s[i] in s;
    }
  }

  lemma ReloadedSize(was: States)
    ensures |ReloadedAll(was)| == |was|
  {
  }

  // reloading forgets zone maps only, which are not on disk
  lemma ReloadedOnDisk(env: Env, bytes: seq<byte>, was: States)
    requires OnDisk(env, bytes, was)
    ensures OnDisk(env, bytes, ReloadedAll(was))
  {
    hide BitmapAt, LiveBytes;
  }
}
