/** What a file's bytes and liveness flags say: a map from row numbers to rows. */
module Images {
  import opened Bits
  import opened Values
  import opened Codec
  import opened Layout

  type Zone = map<Col, Value>

  /** A slab's in-memory state: how many slots were handed out, which are live, and its zone map. */
  datatype SlabState = SlabState(count: nat, live: seq<bool>, zoneMin: Zone, zoneMax: Zone, zoneBuilt: bool)

  type States = seq<SlabState>

  /** Live slots have been handed out. */
  ghost predicate WfState(env: Env, s: SlabState) {
    && |s.live| == env.rps && s.count <= env.rps
    && forall j :: 0 <= j < env.rps && s.live[j] ==> j < s.count
  }

  ghost predicate WfStates(env: Env, states: States) {
    env.rps > 0 && forall k :: 0 <= k < |states| ==> WfState(env, states[k])
  }

  ghost predicate LiveIn(env: Env, states: States, g: nat)
    requires WfStates(env, states)
  {
    env.SlabOf(g) < |states| && states[env.SlabOf(g)].live[env.LocalOf(g)]
  }

  /** The live rows: every live slot with the row its bytes decode to. */
  ghost function LiveMap(env: Env, bytes: seq<byte>, states: States): (m: map<nat, Row>)
    requires WfStates(env, states)
    ensures forall g: nat :: g in m <==> LiveIn(env, states, g)
    ensures forall g: nat :: g in m ==> m[g] == StoredRow(env, bytes, g)
  {
    assert forall g: nat :: LiveIn(env, states, g) ==> g < Times(|states|, env.rps) by {
      forall g: nat | LiveIn(env, states, g)
        ensures g < Times(|states|, env.rps)
      {
        LiveIsBelowHighWater(env, states, g);
      }
    }
    map g: nat | 0 <= g < Times(|states|, env.rps) && LiveIn(env, states, g) :: StoredRow(env, bytes, g)
  }

  lemma LiveMapIs(env: Env, bytes: seq<byte>, states: States, m: map<nat, Row>)
    requires WfStates(env, states)
    requires forall g: nat :: g in m <==> LiveIn(env, states, g)
    requires forall g: nat :: g in m ==> m[g] == StoredRow(env, bytes, g)
    ensures LiveMap(env, bytes, states) == m
  {
  }

  /** Slabs before c are full, slabs after c untouched: rows go in strictly in order. */
  ghost predicate FilledUpTo(env: Env, states: States, c: int) {
    && (forall k :: 0 <= k < |states| && k < c ==> states[k].count == env.rps)
    && (forall k :: 0 <= k < |states| && c < k ==> states[k].count == 0)
  }

  /** The next row number to be handed out. */
  function HighWater(env: Env, states: States): nat {
    if states == [] then 0 else Times(|states| - 1, env.rps) + states[|states| - 1].count
  }

  lemma LiveIsBelowHighWater(env: Env, states: States, g: nat)
    requires WfStates(env, states) && LiveIn(env, states, g)
    ensures g < HighWater(env, states) <= Times(|states|, env.rps)
  {
    hide Env.SlabOf, Env.LocalOf, Times;
    GlobalSplit(env, g);
    var (k, j, last) := (env.SlabOf(g), env.LocalOf(g), |states| - 1);
    assert WfState(env, states[k]) && WfState(env, states[last]);
    assert j < states[k].count;
    TimesNext(last, env.rps);
    if k < last {
      TimesEnd(k, last, env.rps);
      assert g < Times(last, env.rps);
    } else {
      assert k == last;
    }
  }

  // slots not handed out are not live
  lemma NotYetLive(env: Env, states: States, g: nat)
    requires WfStates(env, states) && g >= HighWater(env, states)
    ensures !LiveIn(env, states, g)
  {
    if LiveIn(env, states, g) {
      LiveIsBelowHighWater(env, states, g);
    }
  }

  lemma SetFlag(env: Env, states: States, g: nat, s: SlabState, b: bool)
    requires WfStates(env, states) && env.SlabOf(g) < |states| && WfState(env, s)
    requires s.live == states[env.SlabOf(g)].live[env.LocalOf(g) := b]
    ensures WfStates(env, states[env.SlabOf(g) := s])
    ensures forall h: nat ::
      LiveIn(env, states[env.SlabOf(g) := s], h) <==> if h == g then b else LiveIn(env, states, h)
  {
    forall h: nat
      ensures LiveIn(env, states[env.SlabOf(g) := s], h) <==> if h == g then b else LiveIn(env, states, h)
    {
      GlobalSplit(env, g);
      GlobalSplit(env, h);
    }
  }

  // Writing a row into a slot and marking it live adds or replaces that row only.
  lemma PutRow(env: Env, bytes: seq<byte>, states: States, g: nat, row: Row, s: SlabState)
    requires env.Wf() && env.Lawful() && |bytes| >= env.UnitStart(|states|) && env.codec.canon(row)
    requires WfStates(env, states) && env.SlabOf(g) < |states| && WfState(env, s)
    requires s.live == states[env.SlabOf(g)].live[env.LocalOf(g) := true]
    ensures WfStates(env, states[env.SlabOf(g) := s])
    ensures LiveMap(env, Written(env, bytes, g, row), states[env.SlabOf(g) := s]) ==
      LiveMap(env, bytes, states)[g := row]
  {
    WriteRow(env, bytes, |states|, g, row);
    SetFlag(env, states, g, s, true);
    LiveMapIs(env, Written(env, bytes, g, row), states[env.SlabOf(g) := s], LiveMap(env, bytes, states)[g := row]);
  }

  // Clearing a live flag removes that row only.
  lemma RemoveRow(env: Env, bytes: seq<byte>, states: States, g: nat, s: SlabState)
    requires WfStates(env, states) && env.SlabOf(g) < |states| && WfState(env, s)
    requires s.live == states[env.SlabOf(g)].live[env.LocalOf(g) := false]
    ensures WfStates(env, states[env.SlabOf(g) := s])
    ensures LiveMap(env, bytes, states[env.SlabOf(g) := s]) == LiveMap(env, bytes, states) - {g}
  {
    SetFlag(env, states, g, s, false);
    LiveMapIs(env, bytes, states[env.SlabOf(g) := s], LiveMap(env, bytes, states) - {g});
  }

  // Changing anything but liveness leaves the live map alone.
  lemma KeepRows(env: Env, bytes: seq<byte>, states: States, k: nat, s: SlabState)
    requires WfStates(env, states) && k < |states| && WfState(env, s) && s.live == states[k].live
    ensures WfStates(env, states[k := s])
    ensures LiveMap(env, bytes, states[k := s]) == LiveMap(env, bytes, states)
  {
    assert forall h: nat :: LiveIn(env, states[k := s], h) <==> LiveIn(env, states, h);
    LiveMapIs(env, bytes, states[k := s], LiveMap(env, bytes, states));
  }

  // Appending units with nothing live in them adds no row and changes none.
  lemma GrowRows(env: Env, bytes: seq<byte>, states: States, more: seq<byte>, empty: States)
    requires env.Wf() && |bytes| >= env.UnitStart(|states|) && WfStates(env, states) && WfStates(env, empty)
    requires forall k :: 0 <= k < |empty| ==> empty[k].count == 0
    ensures WfStates(env, states + empty)
    ensures LiveMap(env, bytes + more, states + empty) == LiveMap(env, bytes, states)
  {
    GrowKeepsRows(env, bytes, more, |states|);
    var states' := states + empty;
    forall h: nat
      ensures LiveIn(env, states', h) <==> LiveIn(env, states, h)
    {
      if |states| <= env.SlabOf(h) < |states'| {
        assert states'[env.SlabOf(h)] == empty[env.SlabOf(h) - |states|];
      }
    }
    LiveMapIs(env, bytes + more, states', LiveMap(env, bytes, states));
  }

  // ---- the store's invariant on values --------------------------------------

  /** The file holds |states| whole slabs and the model is exactly its live rows, all canonical. */
  ghost predicate Consistent(env: Env, bytes: seq<byte>, states: States, model: map<nat, Row>) {
    var ok :=
      && env.Wf() && env.Lawful() && |states| > 0 && |bytes| == env.UnitStart(|states|) && WfStates(env, states)
      && model == LiveMap(env, bytes, states)
      && forall g :: g in model ==> env.codec.canon(model[g]);
    ok
  }

  // What reading slot LocalOf(g) of slab SlabOf(g) finds.
  lemma ReadsBack(env: Env, bytes: seq<byte>, states: States, model: map<nat, Row>, g: nat)
    requires Consistent(env, bytes, states, model)
    ensures var (k, j) := (env.SlabOf(g), env.LocalOf(g));
      && (forall i :: 0 <= i < |states| ==> |states[i].live| == env.rps)
      && (g in model <==> k < |states| && states[k].live[j])
      && (g in model ==>
            model[g] == env.codec.decode(env.SlotStart(k, j), Slice(bytes, env.SlotStart(k, j), env.width)))
  {
    assert forall i :: 0 <= i < |states| ==> WfState(env, states[i]);
  }

  lemma SizeAfterPut(m: map<nat, Row>, g: nat, row: Row)
    requires g !in m
    ensures |m[g := row]| == |m| + 1
  {
    assert m[g := row].Keys == m.Keys + {g};
  }

  lemma SizeAfterRemove(m: map<nat, Row>, g: nat)
    requires g in m
    ensures |m - {g}| == |m| - 1
  {
    assert (m - {g}).Keys == m.Keys - {g};
  }

  /** Bytes after a row was written in slot j of slab k. */
  function SlotWritten(env: Env, bytes: seq<byte>, k: nat, j: nat, row: Row): seq<byte> {
    Put(bytes, env.SlotStart(k, j), env.codec.encode(env.SlotStart(k, j), row))
  }

  // Handing out the next slot of the last slab adds one row, at the high-water mark.
  lemma InsertKeeps(env: Env, bytes: seq<byte>, states: States, model: map<nat, Row>, k: nat, j: nat, g: nat, row: Row,
                    s: SlabState, bytes': seq<byte>, states': States)
    requires Consistent(env, bytes, states, model) && k == |states| - 1 && FilledUpTo(env, states, k)
    requires env.codec.canon(row)
    requires states[k].count == j < env.rps && s.count == j + 1 && s.live == states[k].live[j := true]
    requires g == Times(k, env.rps) + j
    requires bytes' == SlotWritten(env, bytes, k, j, row) && states' == states[k := s]
    ensures g == HighWater(env, states) && g !in model && |model[g := row]| == |model| + 1
    ensures Consistent(env, bytes', states', model[g := row])
    ensures |states'| == |states| && FilledUpTo(env, states', |states'| - 1) && HighWater(env, states') == g + 1
  {
    hide *;
    NextSlot(env, bytes, states, model, k, j, g, s, states');
    PutCanonical(env, bytes, states, model, g, row, s);
    SizeAfterPut(model, g, row);
  }

  // the next slot of the last slab is the high-water mark's, and filling it moves only that mark
  lemma NextSlot(env: Env, bytes: seq<byte>, states: States, model: map<nat, Row>, k: nat, j: nat, g: nat,
                 s: SlabState, states': States)
    requires Consistent(env, bytes, states, model) && k == |states| - 1 && FilledUpTo(env, states, k)
    requires states[k].count == j < env.rps && s.count == j + 1 && s.live == states[k].live[j := true]
    requires g == Times(k, env.rps) + j && states' == states[k := s]
    ensures env.rps > 0 && WfState(env, s) && env.SlabOf(g) == k && env.LocalOf(g) == j
    ensures |states[k].live| == env.rps && g == HighWater(env, states) && g !in model
    ensures FilledUpTo(env, states', |states'| - 1) && HighWater(env, states') == g + 1
  {
    hide Env.Wf, Env.Lawful, Env.SlabOf, Env.LocalOf, Times, Env.UnitStart;
    assert WfState(env, states[k]);
    GlobalIndex(env, k, j);
    NotYetLive(env, states, g);
  }

  lemma PutCanonical(env: Env, bytes: seq<byte>, states: States, model: map<nat, Row>, g: nat, row: Row, s: SlabState)
    requires Consistent(env, bytes, states, model) && env.codec.canon(row)
    requires env.SlabOf(g) < |states| && WfState(env, s)
    requires s.live == states[env.SlabOf(g)].live[env.LocalOf(g) := true]
    ensures Consistent(env, SlotWritten(env, bytes, env.SlabOf(g), env.LocalOf(g), row), states[env.SlabOf(g) := s],
        model[g := row])
  {
    PutRow(env, bytes, states, g, row, s);
  }

  /** The state of row g's slab with its live flag set to b. */
  ghost predicate Flagged(env: Env, states: States, g: nat, b: bool, s: SlabState)
    requires env.rps > 0 && forall k :: 0 <= k < |states| ==> |states[k].live| == env.rps
  {
    && env.SlabOf(g) < |states| && s.count == states[env.SlabOf(g)].count
    && s.live == states[env.SlabOf(g)].live[env.LocalOf(g) := b]
  }

  lemma FlaggedAs(env: Env, states: States, g: nat, b: bool, s: SlabState)
    requires WfStates(env, states) && env.SlabOf(g) < |states| && s.count == states[env.SlabOf(g)].count
    requires env.LocalOf(g) < |states[env.SlabOf(g)].live| && s.live == states[env.SlabOf(g)].live[env.LocalOf(g) := b]
    ensures Flagged(env, states, g, b, s)
  {
    assert forall k :: 0 <= k < |states| ==> WfState(env, states[k]);
  }

  lemma StillLive(env: Env, states: States, g: nat, s: SlabState)
    requires WfStates(env, states) && env.SlabOf(g) < |states|
    requires env.LocalOf(g) < |states[env.SlabOf(g)].live| && states[env.SlabOf(g)].live[env.LocalOf(g)]
    requires s.count == states[env.SlabOf(g)].count && s.live == states[env.SlabOf(g)].live
    ensures Flagged(env, states, g, true, s)
  {
    assert forall k :: 0 <= k < |states| ==> WfState(env, states[k]);
  }

  // Writing over a handed-out slot and marking it live sets one row.
  lemma WriteKeeps(env: Env, bytes: seq<byte>, states: States, model: map<nat, Row>, g: nat, row: Row, s: SlabState)
    requires Consistent(env, bytes, states, model) && env.codec.canon(row) && Flagged(env, states, g, true, s)
    requires env.LocalOf(g) < states[env.SlabOf(g)].count
    ensures Consistent(env, SlotWritten(env, bytes, env.SlabOf(g), env.LocalOf(g), row), states[env.SlabOf(g) := s],
        model[g := row])
    ensures |model[g := row]| == |model| + (if g in model then 0 else 1)
  {
    assert WfState(env, states[env.SlabOf(g)]);
    PutCanonical(env, bytes, states, model, g, row, s);
    if g in model {
      assert model[g := row].Keys == model.Keys;
    } else {
      SizeAfterPut(model, g, row);
    }
  }

  lemma RemoveKeeps(env: Env, bytes: seq<byte>, states: States, model: map<nat, Row>, g: nat, s: SlabState)
    requires Consistent(env, bytes, states, model) && Flagged(env, states, g, false, s)
    ensures Consistent(env, bytes, states[env.SlabOf(g) := s], model - {g})
    ensures g in model ==> |model - {g}| == |model| - 1
  {
    assert WfState(env, states[env.SlabOf(g)]);
    RemoveRow(env, bytes, states, g, s);
    if g in model {
      SizeAfterRemove(model, g);
    }
  }

  // zone maps say nothing about which rows there are
  lemma ZoneKeeps(env: Env, bytes: seq<byte>, states: States, model: map<nat, Row>, k: nat, s: SlabState)
    requires Consistent(env, bytes, states, model) && k < |states| && s.count == states[k].count
    requires s.live == states[k].live
    ensures Consistent(env, bytes, states[k := s], model)
  {
    assert WfState(env, states[k]);
    KeepRows(env, bytes, states, k, s);
  }

  // a row number below the high-water mark names a slot already handed out
  lemma HandedOut(env: Env, states: States, g: nat)
    requires WfStates(env, states) && |states| > 0 && FilledUpTo(env, states, |states| - 1)
    requires g < HighWater(env, states)
    ensures env.SlabOf(g) < |states| && env.LocalOf(g) < states[env.SlabOf(g)].count
  {
    var (k, n) := (env.SlabOf(g), |states| - 1);
    GlobalSplit(env, g);
    assert WfState(env, states[n]);
    if k > n {
      TimesEnd(n, k, env.rps);
    }
  }

  // ... and a live row is one of them
  lemma LiveHandedOut(env: Env, bytes: seq<byte>, states: States, model: map<nat, Row>, g: nat)
    requires Consistent(env, bytes, states, model) && g in model
    ensures env.SlabOf(g) < |states| && env.LocalOf(g) < states[env.SlabOf(g)].count && g < HighWater(env, states)
    ensures env.LocalOf(g) < |states[env.SlabOf(g)].live| && states[env.SlabOf(g)].live[env.LocalOf(g)]
  {
    LiveIsBelowHighWater(env, states, g);
    assert WfState(env, states[env.SlabOf(g)]);
  }

  lemma CountsKept(env: Env, states: States, c: int, k: nat, s: SlabState)
    requires FilledUpTo(env, states, c) && k < |states| && s.count == states[k].count
    ensures FilledUpTo(env, states[k := s], c) && HighWater(env, states[k := s]) == HighWater(env, states)
  {
  }

  function EmptySlab(env: Env): SlabState { SlabState(0, seq(env.rps, _ => false), map[], map[], true) }

  function Empties(env: Env, n: nat): States { seq(n, _ => EmptySlab(env)) }

  lemma GrowKeeps(env: Env, bytes: seq<byte>, states: States, model: map<nat, Row>, more: seq<byte>, n: nat)
    requires Consistent(env, bytes, states, model) && |more| == Times(n, env.Unit())
    ensures Consistent(env, bytes + more, states + Empties(env, n), model)
  {
    GrowRows(env, bytes, states, more, Empties(env, n));
    UnitsAppended(env, |states|, n);
  }

  // A slab is added only when the last one is full, so the high-water mark stays.
  lemma GrowOneFills(env: Env, states: States)
    requires WfStates(env, states) && |states| > 0 && FilledUpTo(env, states, |states| - 1)
    requires states[|states| - 1].count >= env.rps
    ensures var states' := states + Empties(env, 1);
      && |states'| == |states| + 1 && states'[|states|].count == 0 && FilledUpTo(env, states', |states'| - 1)
      && HighWater(env, states') == HighWater(env, states)
  {
    assert WfState(env, states[|states| - 1]);
  }

  /** n is the least number of slabs, at least n0, with room below row number hw. */
  ghost predicate LeastSlabs(env: Env, n0: nat, n: nat, hw: nat) {
    n0 <= n && hw <= Times(n, env.rps) && (n > n0 ==> Times(n - 1, env.rps) < hw)
  }

  lemma LeastSlabsUnique(env: Env, n0: nat, a: nat, b: nat, hw: nat)
    requires env.rps > 0 && LeastSlabs(env, n0, a, hw) && LeastSlabs(env, n0, b, hw)
    ensures a == b
  {
    if a < b - 1 {
      TimesEnd(a, b - 1, env.rps);
    } else if b < a - 1 {
      TimesEnd(b, a - 1, env.rps);
    }
  }

  // one more row takes one more slab exactly when the last is full
  lemma RoomForOne(env: Env, states: States)
    requires WfStates(env, states) && |states| > 0
    ensures LeastSlabs(env, |states|, |states| + (if states[|states| - 1].count >= env.rps then 1 else 0),
        HighWater(env, states) + 1)
  {
    assert WfState(env, states[|states| - 1]);
    TimesNext(|states| - 1, env.rps);
    TimesNext(|states|, env.rps);
  }

  // growing by least numbers of slabs, twice, is growing by the least number
  lemma LeastSlabsTwice(env: Env, a: nat, b: nat, c: nat, hw: nat, hw': nat)
    requires LeastSlabs(env, a, b, hw) && LeastSlabs(env, b, c, hw') && hw <= hw'
    ensures LeastSlabs(env, a, c, hw')
  {
  }

  // ceil(needed / rps) more slabs are exactly enough
  lemma CeilSlabs(env: Env, n0: nat, hw: nat, needed: nat)
    requires env.rps > 0 && needed > 0 && hw == Times(n0, env.rps) + needed
    ensures 0 < (needed + env.rps - 1) / env.rps
    ensures LeastSlabs(env, n0, n0 + (needed + env.rps - 1) / env.rps, hw)
  {
    var c := (needed + env.rps - 1) / env.rps;
    DivModTimes(needed + env.rps - 1, env.rps);
    TimesAdd(n0, c, env.rps);
    if c > 0 {
      TimesAdd(n0, c - 1, env.rps);
    }
  }

  // Slab counts and live flags are determined by the live rows, the high-water mark and
  // the number of slabs.
  lemma SameRowsSameSlabs(env: Env, bytes: seq<byte>, bytes': seq<byte>, a: States, b: States, model: map<nat, Row>)
    requires Consistent(env, bytes, a, model) && Consistent(env, bytes', b, model)
    requires FilledUpTo(env, a, |a| - 1) && FilledUpTo(env, b, |b| - 1)
    requires |a| == |b| && HighWater(env, a) == HighWater(env, b)
    ensures forall k :: 0 <= k < |a| ==> a[k].count == b[k].count && a[k].live == b[k].live
  {
    forall k | 0 <= k < |a|
      ensures a[k].count == b[k].count && a[k].live == b[k].live
    {
      assert WfState(env, a[k]) && WfState(env, b[k]);
      forall j | 0 <= j < env.rps
        ensures a[k].live[j] == b[k].live[j]
      {
        GlobalIndex(env, k, j);
        assert LiveIn(env, a, Times(k, env.rps) + j) <==> LiveIn(env, b, Times(k, env.rps) + j);
      }
    }
  }

  // ---- the next free slot -----------------------------------------------------

  /** Row number hw is the next slot of slab c; slabs before it are full, slabs after it empty. */
  ghost predicate Cursor(env: Env, states: States, c: nat, hw: nat) {
    c < |states| && FilledUpTo(env, states, c) && hw == Times(c, env.rps) + states[c].count
  }

  lemma CursorGrow(env: Env, states: States, c: nat, hw: nat, n: nat)
    requires Cursor(env, states, c, hw)
    ensures Cursor(env, states + Empties(env, n), c, hw)
  {
  }

  lemma CursorNext(env: Env, states: States, c: nat, hw: nat)
    requires WfStates(env, states) && Cursor(env, states, c, hw) && states[c].count == env.rps
    requires hw < Times(|states|, env.rps)
    ensures Cursor(env, states, c + 1, hw) && states[c + 1].count < env.rps
  {
    assert Times(c + 1, env.rps) == Times(c, env.rps) + env.rps;
  }

  lemma CursorChunk(env: Env, states: States, c: nat, hw: nat, states': States, m: nat)
    requires Cursor(env, states, c, hw) && |states'| == |states| && states'[c].count == states[c].count + m
    requires forall i :: 0 <= i < |states| && i != c ==> states'[i] == states[i]
    ensures Cursor(env, states', c, hw + m)
  {
  }

  // the first slab with room is where the cursor stands
  lemma CursorOpen(env: Env, states: States, c: nat, hw: nat, i: nat)
    requires WfStates(env, states) && Cursor(env, states, c, hw) && hw < Times(|states|, env.rps)
    requires i <= |states| && (forall k :: 0 <= k < i ==> states[k].count == env.rps)
    requires i < |states| ==> states[i].count != env.rps
    ensures Cursor(env, states, i, hw) && i >= c && states[i].count < env.rps
  {
    assert WfState(env, states[c]);
    if states[c].count == env.rps {
      CursorNext(env, states, c, hw);
      assert i == c + 1;
    } else {
      assert i == c;
    }
  }

  lemma CursorEnd(env: Env, states: States, c: nat, hw: nat, n0: nat)
    requires WfStates(env, states) && Cursor(env, states, c, hw) && LeastSlabs(env, n0, |states|, hw) && c >= n0 - 1
    ensures c == |states| - 1 && FilledUpTo(env, states, |states| - 1) && HighWater(env, states) == hw
  {
    assert WfState(env, states[c]);
    if c < |states| - 1 {
      TimesEnd(c, |states| - 1, env.rps);
    }
  }

  lemma CursorHere(env: Env, states: States)
    requires |states| > 0 && FilledUpTo(env, states, |states| - 1)
    ensures Cursor(env, states, |states| - 1, HighWater(env, states))
  {
  }

  lemma NoMoreSlabs(env: Env, n: nat, hw: nat)
    requires hw <= Times(n, env.rps)
    ensures LeastSlabs(env, n, n, hw)
  {
  }

  lemma EmptiesSize(env: Env, states: States, n: nat)
    ensures |states + Empties(env, n)| == |states| + n
  {
  }

  lemma BelowHighWater(env: Env, bytes: seq<byte>, states: States, model: map<nat, Row>)
    requires Consistent(env, bytes, states, model)
    ensures forall h :: h in model ==> h < HighWater(env, states)
  {
    forall h | h in model
      ensures h < HighWater(env, states)
    {
      LiveHandedOut(env, bytes, states, model, h);
    }
  }

  lemma RoomFor(env: Env, n0: nat, n: nat, hw: nat, g: nat)
    requires LeastSlabs(env, n0, n, hw) && g < hw
    ensures g < Times(n, env.rps)
  {
  }

  lemma CursorAt(env: Env, states: States, c: nat, hw: nat)
    requires Cursor(env, states, c, hw)
    ensures c < |states| && hw == Times(c, env.rps) + states[c].count
  {
  }
}
