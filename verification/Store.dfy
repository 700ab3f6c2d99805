/** The row store proper: slabs over one mapped file, filled strictly in order. */
module Stores {
  import opened Bits
  import opened Values
  import opened Codec
  import opened Layout
  import opened Slabs
  import opened Images
  import opened Persist
  import opened Rebuild

  class Store {
    const env: Env
    var mm: Mapping
    var slabs: seq<Slab>
    var totalRows: int
    /** The live rows by global index. */
    ghost var model: map<nat, Row>

    /** The state of every slab. */
    ghost var states: States

    // ---- invariant ----------------------------------------------------------

    ghost predicate Valid()
      reads this, mm, slabs
    {
      var ok := Stored() && FilledUpTo(env, states, |states| - 1);
      ok
    }

    /** Everything but the filling order. */
    ghost predicate Stored()
      reads this, mm, slabs
    {
      var ok := InFile(env, mm, slabs, states) && Consistent(env, mm.bytes, states, model) && totalRows == |model|;
      ok
    }

    lemma Parts()
      requires Valid()
      ensures InFile(env, mm, slabs, states) && Consistent(env, mm.bytes, states, model) && totalRows == |model|
      ensures |slabs| == |states| > 0 && FilledUpTo(env, states, |states| - 1) && Stored()
      ensures env.Wf() && WfStates(env, states) && forall k :: 0 <= k < |states| ==> |states[k].live| == env.rps
    {
    }

    lemma Whole()
      requires InFile(env, mm, slabs, states) && Consistent(env, mm.bytes, states, model) && totalRows == |model|
      requires FilledUpTo(env, states, |states| - 1)
      ensures Valid()
    {
    }

    constructor Over(env: Env, mm: Mapping)
      ensures this.env == env && this.mm == mm && slabs == [] && totalRows == 0 && model == map[] && states == []
    {
      this.env := env;
      this.mm := mm;
      slabs := [];
      totalRows := 0;
      model := map[];
      states := [];
    }

    // ---- growing ------------------------------------------------------------

    /** Appends empty units: the file is remapped and every slab re-pointed at the new mapping. */
    method Grow(newSlabs: nat)
      requires Stored()
      modifies this, slabs`mm
      ensures Stored() && model == old(model)
      ensures |slabs| == |old(slabs)| + newSlabs && slabs[..|old(slabs)|] == old(slabs)
      ensures states == old(states) + Empties(env, newSlabs)
      ensures forall k :: |old(slabs)| <= k < |slabs| ==> fresh(slabs[k])
      ensures newSlabs > 0 ==> fresh(mm)
      ensures newSlabs == 0 ==> mm == old(mm)
      ensures mm.bytes == Enlarged(env, old(mm.bytes), newSlabs)
    {
      if newSlabs == 0 {
        assert mm.bytes + Zeros(0) == mm.bytes;
      } else {
        GrowFile(newSlabs);
      }
    }

    method GrowFile(newSlabs: nat)
      requires Stored()
      modifies this, slabs`mm
      ensures Stored() && model == old(model)
      ensures |slabs| == |old(slabs)| + newSlabs && slabs[..|old(slabs)|] == old(slabs)
      ensures states == old(states) + Empties(env, newSlabs)
      ensures forall k :: |old(slabs)| <= k < |slabs| ==> fresh(slabs[k])
      ensures fresh(mm) && mm.bytes == Enlarged(env, old(mm.bytes), newSlabs)
    {
      var more := Zeros(Times(newSlabs, env.Unit()));
      GrowKeeps(env, mm.bytes, states, model, more, newSlabs);
      Extend(more, newSlabs);
    }

    method Extend(more: seq<byte>, newSlabs: nat)
      requires InFile(env, mm, slabs, states) && |mm.bytes| == env.UnitStart(|slabs|)
      requires |more| == Times(newSlabs, env.Unit())
      modifies `mm, `slabs, `states, slabs`mm
      ensures InFile(env, mm, slabs, states) && fresh(mm) && mm.bytes == old(mm.bytes) + more
      ensures |mm.bytes| == env.UnitStart(|slabs|)
      ensures |slabs| == |old(slabs)| + newSlabs && slabs[..|old(slabs)|] == old(slabs)
      ensures states == old(states) + Empties(env, newSlabs)
      ensures forall k :: |old(slabs)| <= k < |slabs| ==> fresh(slabs[k])
    {
      UnitsAppended(env, |slabs|, newSlabs);
      Remap(mm.bytes + more);
      AddSlabs(newSlabs);
    }

    /** Re-points every slab at a fresh mapping that extends the old one. */
    method Remap(bytes: seq<byte>)
      requires InFile(env, mm, slabs, states) && |mm.bytes| <= |bytes|
      modifies `mm, slabs`mm
      ensures InFile(env, mm, slabs, states) && fresh(mm) && mm.bytes == bytes
    {
      var mapping := new Mapping(bytes);
      for i := 0 to |slabs|
        modifies slabs`mm
        invariant forall k :: 0 <= k < i ==> slabs[k].mm == mapping
      {
        slabs[i].mm := mapping;
      }
      mm := mapping;
      forall k | 0 <= k < |slabs|
        ensures SlabAt(env, mm, slabs[k], states[k], k)
      {
        assert old(SlabAt(env, mm, slabs[k], states[k], k));
      }
    }

    /** The new slab objects over units already in the mapping. */
    method AddSlabs(newSlabs: nat)
      requires InFile(env, mm, slabs, states) && |mm.bytes| == env.UnitStart(|slabs| + newSlabs)
      modifies `slabs, `states
      ensures |slabs| == |old(slabs)| + newSlabs && InFile(env, mm, slabs, states)
      ensures slabs[..|old(slabs)|] == old(slabs) && states == old(states) + Empties(env, newSlabs)
      ensures forall k :: |old(slabs)| <= k < |slabs| ==> fresh(slabs[k])
    {
      var n := |slabs|;
      for i := 0 to newSlabs
        invariant InFile(env, mm, slabs, states) && |slabs| == n + i && slabs[..n] == old(slabs)
        invariant states == old(states) + Empties(env, i)
        invariant forall k :: n <= k < |slabs| ==> fresh(slabs[k])
      {
        TimesEnd(n + i, n + newSlabs, env.Unit());
        var slab := new Slab(env, mm, env.PageStart(n + i));
        AddSlab(slab);
      }
    }

    ghost predicate Fits(slab: Slab, k: nat)
      reads this, slab, mm
    {
      slab.mm == mm && slab.env == env && slab.offset == env.PageStart(k) && slab.Valid()
    }

    method AddSlab(slab: Slab)
      requires InFile(env, mm, slabs, states) && Fits(slab, |slabs|) && slab !in slabs
      modifies `slabs, `states
      ensures |slabs| == |old(slabs)| + 1
      ensures InFile(env, mm, slabs, states)
      ensures slabs == old(slabs) + [slab] && states == old(states) + [slab.State()]
    {
      slabs := slabs + [slab];
      states := states + [slab.State()];
      forall k | 0 <= k < |slabs|
        ensures SlabAt(env, mm, slabs[k], states[k], k)
      {
        if k < |old(slabs)| {
          assert old(SlabAt(env, mm, slabs[k], states[k], k));
        }
      }
    }

    // ---- reading ------------------------------------------------------------

    /** Reads row idx, or None when it is out of range or dead. */
    method GetRow(idx: int) returns (r: Option<Row>)
      requires Valid()
      ensures r.Some? <==> idx >= 0 && idx in model
      ensures r.Some? ==> r.value == model[idx]
    {
      if idx < 0 {
        return None;
      }
      r := GetSlot(env.SlabOf(idx), env.LocalOf(idx));
      ReadsBack(env, mm.bytes, states, model, idx);
    }

    method GetSlot(k: nat, j: nat) returns (r: Option<Row>)
      requires InFile(env, mm, slabs, states) && j < env.rps
      ensures r.Some? <==> k < |states| && j < |states[k].live| && states[k].live[j]
      ensures r.Some? ==>
        r.value == env.codec.decode(env.SlotStart(k, j), Slice(mm.bytes, env.SlotStart(k, j), env.width))
    {
      if k >= |slabs| {
        return None;
      }
      assert SlabAt(env, mm, slabs[k], states[k], k);
      r := slabs[k].GetRow(j);
    }

    // ---- one slab at a time -------------------------------------------------

    /** Slab k takes one more row. */
    method SlabInsert(k: nat, row: Row) returns (j: nat, ghost now: SlabState)
      requires InFile(env, mm, slabs, states) && k < |slabs| && states[k].count < env.rps
      modifies `states, mm, slabs[k]
      ensures InFile(env, mm, slabs, states) && j == old(states)[k].count
      ensures states == old(states)[k := now] && now.count == j + 1 && now.live == old(states)[k].live[j := true]
      ensures mm.bytes == SlotWritten(env, old(mm.bytes), k, j, row)
      ensures ZoneGrew(env, old(states)[k], now, row)
    {
      assert SlabAt(env, mm, slabs[k], states[k], k);
      var local := slabs[k].Insert(row);
      j := local.value;
      now := slabs[k].State();
      states := states[k := now];
      forall i | 0 <= i < |slabs|
        ensures SlabAt(env, mm, slabs[i], states[i], i)
      {
        assert old(SlabAt(env, mm, slabs[i], states[i], i));
      }
    }

    method SlabUpdate(k: nat, j: nat, row: Row) returns (ok: bool, ghost now: SlabState)
      requires InFile(env, mm, slabs, states) && k < |slabs| && j < |states[k].live| == env.rps
      modifies `states, mm, slabs[k]
      ensures InFile(env, mm, slabs, states) && ok == old(states)[k].live[j]
      ensures states == old(states)[k := now] && now.count == old(states)[k].count && now.live == old(states)[k].live
      ensures ok ==> mm.bytes == SlotWritten(env, old(mm.bytes), k, j, row) && ZoneGrew(env, old(states)[k], now, row)
      ensures !ok ==> mm.bytes == old(mm.bytes) && now == old(states)[k]
    {
      assert SlabAt(env, mm, slabs[k], states[k], k);
      ok := slabs[k].Update(j, row);
      now := slabs[k].State();
      states := states[k := now];
      forall i | 0 <= i < |slabs|
        ensures SlabAt(env, mm, slabs[i], states[i], i)
      {
        assert old(SlabAt(env, mm, slabs[i], states[i], i));
      }
    }

    method SlabDelete(k: nat, j: nat) returns (ghost now: SlabState)
      requires InFile(env, mm, slabs, states) && k < |slabs| && j < |states[k].live| == env.rps
      modifies `states, slabs[k]
      ensures InFile(env, mm, slabs, states)
      ensures states == old(states)[k := now] && now == old(states)[k].(live := old(states)[k].live[j := false])
    {
      assert SlabAt(env, mm, slabs[k], states[k], k);
      slabs[k].Delete(j);
      now := slabs[k].State();
      states := states[k := now];
      forall i | 0 <= i < |slabs|
        ensures SlabAt(env, mm, slabs[i], states[i], i)
      {
        assert old(SlabAt(env, mm, slabs[i], states[i], i));
      }
    }

    method SlabRestore(k: nat, j: nat, row: Row) returns (ghost now: SlabState)
      requires InFile(env, mm, slabs, states) && k < |slabs| && j < states[k].count
      modifies `states, mm, slabs[k]
      ensures InFile(env, mm, slabs, states)
      ensures j < |old(states)[k].live| && now == old(states)[k].(live := old(states)[k].live[j := true])
      ensures states == old(states)[k := now]
      ensures mm.bytes == SlotWritten(env, old(mm.bytes), k, j, row)
    {
      assert SlabAt(env, mm, slabs[k], states[k], k);
      slabs[k].Restore(j, row);
      now := slabs[k].State();
      states := states[k := now];
      forall i | 0 <= i < |slabs|
        ensures SlabAt(env, mm, slabs[i], states[i], i)
      {
        assert old(SlabAt(env, mm, slabs[i], states[i], i));
      }
    }

    // ---- one row at a time --------------------------------------------------

    /** The last slab takes one more row. */
    method InsertLast(row: Row) returns (g: nat)
      requires Valid() && env.codec.canon(row) && states[|states| - 1].count < env.rps
      modifies this, mm, slabs[|slabs| - 1]
      ensures Valid() && slabs == old(slabs) && mm == old(mm)
      ensures g == old(HighWater(env, states)) && g !in old(model)
      ensures model == old(model)[g := row]
      ensures HighWater(env, states) == g + 1
      ensures env.rps > 0 && mm.bytes == Written(env, old(mm.bytes), g, row) && ZonesGrow(old(states), states)
      ensures old(ZonesCover(env, states, model)) ==> ZonesCover(env, states, model)
    {
      hide *;
      Parts();
      var k := |slabs| - 1;
      ghost var (bytes, was, rows) := (mm.bytes, states, model);
      var j, now := SlabInsert(k, row);
      g := Times(k, env.rps) + j;
      SlotIsRow(env, bytes, k, j, row);
      GrewIs(env, was, k, now, row);
      InsertKeeps(env, bytes, was, model, k, j, g, row, now, mm.bytes, states);
      totalRows := totalRows + 1;
      model := model[g := row];
      Whole();
      if ZonesCover(env, was, rows) {
        GlobalIndex(env, k, j);
        ZonesAfterWrite(env, was, rows, g, row, now);
      }
    }

    lemma GrewIs(env: Env, was: States, k: nat, now: SlabState, row: Row)
      requires k < |was| && ZoneGrew(env, was[k], now, row)
      ensures ZonesGrow(was, was[k := now])
    {
      ZonesGrowAt(was, k, now);
    }

    /** A new row, at the next free slot; the file grows by one unit when the last slab is full. */
    method Insert(row: Row) returns (g: nat)
      requires Valid() && env.codec.canon(row)
      modifies this, mm, slabs
      ensures Valid() && (mm == old(mm) || fresh(mm))
      ensures forall s :: s in slabs ==> s in old(slabs) || fresh(s)
      ensures g == old(HighWater(env, states)) && g !in old(model)
      ensures model == old(model)[g := row]
      ensures HighWater(env, states) == g + 1 && LeastSlabs(env, |old(slabs)|, |slabs|, g + 1)
      ensures env.rps > 0 && mm.bytes == Written(env, Enlarged(env, old(mm.bytes), |slabs| - |old(slabs)|), g, row)
      ensures ZonesGrow(old(states), states)
      ensures old(ZonesCover(env, states, model)) ==> ZonesCover(env, states, model)
    {
      hide *;
      Parts();
      RoomForOne(env, states);
      ghost var was := states;
      ZonesStay(was);
      NotEnlarged(env, mm.bytes);
      if |slabs| == 0 || LastIsFull() {
        GrowOneFills(env, states);
        if ZonesCover(env, states, model) {
          ZonesAfterGrow(env, states, model, Empties(env, 1));
        }
        Grow(1);
        ZonesGrowMore(env, was, 1);
        Whole();
      }
      ghost var grown := states;
      g := InsertLast(row);
      ZonesGrowTrans(was, grown, states);
    }

    /** slabs[-1].is_full */
    predicate LastIsFull()
      reads this, mm, slabs
      requires InFile(env, mm, slabs, states) && |slabs| > 0
      ensures |states| == |slabs| && LastIsFull() == (states[|states| - 1].count >= env.rps)
    {
      assert SlabAt(env, mm, slabs[|slabs| - 1], states[|slabs| - 1], |slabs| - 1);
      slabs[|slabs| - 1].count >= slabs[|slabs| - 1].capacity
    }

    method Update(g: nat, row: Row)
      requires Valid() && g in model && env.codec.canon(row)
      modifies this, mm, slabs
      ensures Valid() && slabs == old(slabs) && mm == old(mm)
      ensures model == old(model)[g := row] && HighWater(env, states) == old(HighWater(env, states))
      ensures env.rps > 0 && mm.bytes == Written(env, old(mm.bytes), g, row) && ZonesGrow(old(states), states)
      ensures SameMaps(MapsAfter(env, old(states), g, row), states) && ZoneCoversRow(env, states, g, row)
      ensures old(ZonesCover(env, states, model)) ==> ZonesCover(env, states, model)
    {
      hide *;
      Parts();
      LiveHandedOut(env, mm.bytes, states, model, g);
      var k, j := env.SlabOf(g), env.LocalOf(g);
      ghost var (bytes, was, rows) := (mm.bytes, states, model);
      var ok, now := SlabUpdate(k, j, row);
      GlobalSplit(env, g);
      SlotIsRow(env, bytes, k, j, row);
      GrewIs(env, was, k, now, row);
      MapsAfterIs(env, was, g, row, now);
      StillLive(env, was, g, now);
      WriteKeeps(env, bytes, was, rows, g, row, now);
      CountsKept(env, was, |was| - 1, k, now);
      model := model[g := row];
      Whole();
      if ZonesCover(env, was, rows) {
        ZonesAfterWrite(env, was, rows, g, row, now);
      }
    }

    method Delete(g: nat)
      requires Valid() && g in model
      modifies this, slabs
      ensures Valid() && slabs == old(slabs) && mm == old(mm)
      ensures model == old(model) - {g} && HighWater(env, states) == old(HighWater(env, states))
      ensures mm.bytes == old(mm.bytes) && ZonesGrow(old(states), states) && SameMaps(old(states), states)
      ensures env.rps > 0 && (old(ZonesCover(env, states, model)) ==> ZonesCover(env, states, model))
    {
      hide *;
      Parts();
      LiveHandedOut(env, mm.bytes, states, model, g);
      var k, j := env.SlabOf(g), env.LocalOf(g);
      ghost var (was, rows) := (states, model);
      ghost var now := SlabDelete(k, j);
      SameMap(was, k, now);
      FlaggedAs(env, was, g, false, now);
      RemoveKeeps(env, mm.bytes, was, rows, g, now);
      CountsKept(env, was, |was| - 1, k, now);
      totalRows := totalRows - 1;
      model := model - {g};
      Whole();
      if ZonesCover(env, was, rows) {
        ZonesAfterRemove(env, was, rows, g, now);
      }
    }

    lemma SameMap(was: States, k: nat, now: SlabState)
      requires k < |was| && now.zoneMin == was[k].zoneMin && now.zoneMax == was[k].zoneMax
      requires now.zoneBuilt == was[k].zoneBuilt
      ensures ZonesGrow(was, was[k := now]) && SameMaps(was, was[k := now])
    {
      ZonesGrowAt(was, k, now);
    }

    /** Rollback's undo of a delete: the row goes back to its slot, past the zone map. */
    method Restore(g: nat, row: Row)
      requires Valid() && g !in model && g < HighWater(env, states) && env.codec.canon(row)
      modifies this, mm, slabs
      ensures Valid() && slabs == old(slabs) && mm == old(mm)
      ensures model == old(model)[g := row] && HighWater(env, states) == old(HighWater(env, states))
      ensures env.rps > 0 && mm.bytes == Written(env, old(mm.bytes), g, row)
      ensures ZonesGrow(old(states), states) && SameMaps(old(states), states)
      ensures (old(ZonesCover(env, states, model)) ==>
        (ZonesCover(env, states, model) <==> old(ZoneCoversRow(env, states, g, row))))
    {
      hide *;
      Parts();
      HandedOut(env, states, g);
      var k, j := env.SlabOf(g), env.LocalOf(g);
      ghost var (bytes, was, rows) := (mm.bytes, states, model);
      ghost var now := SlabRestore(k, j, row);
      GlobalSplit(env, g);
      SlotIsRow(env, bytes, k, j, row);
      SameMap(was, k, now);
      FlaggedAs(env, was, g, true, now);
      WriteKeeps(env, bytes, was, rows, g, row, now);
      CountsKept(env, was, |was| - 1, k, now);
      totalRows := totalRows + 1;
      model := model[g := row];
      Whole();
      if ZonesCover(env, was, rows) {
        ZonesAfterRestore(env, was, rows, g, row, now);
      }
    }

    // ---- batches ------------------------------------------------------------

    method SlabBatch(k: nat, chunk: seq<Row>) returns (ghost now: SlabState)
      requires InFile(env, mm, slabs, states) && env.Lawful() && k < |slabs| && states[k].count + |chunk| <= env.rps
      requires chunk != [] && forall i :: 0 <= i < |chunk| ==> env.codec.canon(chunk[i])
      modifies `states, mm, slabs[k]
      ensures InFile(env, mm, slabs, states) && states == old(states)[k := now]
      ensures now.count == old(states)[k].count + |chunk|
      ensures now.live == MarkLive(old(states)[k].live, old(states)[k].count, now.count)
      ensures env.PageStart(k) + Times(old(states)[k].count + |chunk|, env.width) <= |old(mm.bytes)|
      ensures mm.bytes == ChunkBytes(env, old(mm.bytes), k, old(states)[k].count, chunk, |chunk|)
      ensures ZoneGrewChunk(env, old(states)[k], now, chunk)
    {
      hide WriteSlots, RowsEncoded, MarkLive, Wider, LawfulCodec;
      assert SlabAt(env, mm, slabs[k], states[k], k);
      var r, taken := slabs[k].BatchInsert(chunk);
      now := slabs[k].State();
      states := states[k := now];
      forall i | 0 <= i < |slabs|
        ensures SlabAt(env, mm, slabs[i], states[i], i)
      {
        assert old(SlabAt(env, mm, slabs[i], states[i], i));
      }
    }

    lemma ChunkGrewIs(was: States, k: nat, now: SlabState, chunk: seq<Row>)
      requires k < |was| && ZoneGrewChunk(env, was[k], now, chunk)
      ensures ZonesGrow(was, was[k := now])
    {
      ZonesGrowAt(was, k, now);
    }

    /** One chunk goes into slab k, which has room for it. */
    method InsertChunk(k: nat, ghost g: nat, chunk: seq<Row>)
      requires Stored() && k < |slabs| == |states| && states[k].count + |chunk| <= env.rps
      requires chunk != [] && forall i :: 0 <= i < |chunk| ==> env.codec.canon(chunk[i])
      requires g == Times(k, env.rps) + states[k].count && forall h :: h in model ==> h < g
      modifies this, mm, slabs[k]
      ensures Stored() && slabs == old(slabs) && mm == old(mm) && |states| == |old(states)|
      ensures model == PutAll(old(model), g, chunk)
      ensures states[k].count == old(states)[k].count + |chunk|
      ensures forall i :: 0 <= i < |states| && i != k ==> states[i] == old(states)[i]
      ensures env.rps > 0 && mm.bytes == RowsWritten(env, old(mm.bytes), g, chunk) && ZonesGrow(old(states), states)
      ensures old(ZonesCover(env, states, model)) ==> ZonesCover(env, states, model)
    {
      hide *;
      StoredParts();
      ghost var (bytes, was, rows) := (mm.bytes, states, model);
      ghost var now := SlabBatch(k, chunk);
      assert chunk[..|chunk|] == chunk;
      ChunkIsRows(env, bytes, k, was[k].count, chunk, |chunk|);
      ChunkGrewIs(was, k, now, chunk);
      ChunkKeeps(env, bytes, was, rows, k, was[k].count, g, chunk, |chunk|, now);
      totalRows := totalRows + |chunk|;
      model := PutAll(model, g, chunk);
      SizeAfterPutAll(rows, g, chunk);
      StoredWhole();
      if ZonesCover(env, was, rows) {
        ZonesAfterChunk(env, was, rows, k, was[k].count, g, chunk, now);
      }
    }

    lemma StoredParts()
      requires Stored()
      ensures InFile(env, mm, slabs, states) && Consistent(env, mm.bytes, states, model) && totalRows == |model|
      ensures env.Wf() && env.Lawful() && WfStates(env, states) && |slabs| == |states| > 0
      ensures env.rps > 0
    {
    }

    lemma StoredWhole()
      requires InFile(env, mm, slabs, states) && Consistent(env, mm.bytes, states, model) && totalRows == |model|
      ensures Stored()
    {
    }

    /** Slots not handed out yet, summed over all slabs. */
    method FreeSlots() returns (free: nat)
      requires InFile(env, mm, slabs, states) && FilledUpTo(env, states, |states| - 1) && |slabs| > 0
      ensures HighWater(env, states) + free == Times(|states|, env.rps)
    {
      free := 0;
      for i := 0 to |slabs|
        invariant i < |slabs| ==> free == 0
        invariant i == |slabs| ==> free == env.rps - states[|states| - 1].count
      {
        assert SlabAt(env, mm, slabs[i], states[i], i);
        free := free + (slabs[i].capacity - slabs[i].count);
      }
    }

    /** The first slab with room, or the number of slabs. */
    method FirstOpen() returns (i: nat)
      requires InFile(env, mm, slabs, states)
      ensures i <= |states| && (forall k :: 0 <= k < i ==> states[k].count == env.rps)
      ensures i < |states| ==> states[i].count != env.rps
    {
      i := 0;
      while i < |slabs| && SlabFull(i)
        invariant i <= |slabs| && forall k :: 0 <= k < i ==> states[k].count == env.rps
      {
        i := i + 1;
      }
    }

    predicate SlabFull(i: nat)
      reads this, mm, slabs
      requires InFile(env, mm, slabs, states) && i < |slabs|
      ensures |states| == |slabs| && SlabFull(i) == (states[i].count == env.rps)
    {
      assert SlabAt(env, mm, slabs[i], states[i], i);
      slabs[i].count >= slabs[i].capacity
    }

    /** Grows the file once, by exactly the units the batch lacks. */
    method PreGrow(n: nat)
      requires Valid()
      modifies this, slabs`mm
      ensures Stored() && model == old(model) && (mm == old(mm) || fresh(mm))
      ensures forall s :: s in slabs ==> s in old(slabs) || fresh(s)
      ensures |old(states)| > 0 && |slabs| == |states|
      ensures Cursor(env, states, |old(states)| - 1, old(HighWater(env, states)))
      ensures LeastSlabs(env, |old(states)|, |states|, old(HighWater(env, states)) + n)
      ensures |old(slabs)| <= |slabs| && mm.bytes == Enlarged(env, old(mm.bytes), |slabs| - |old(slabs)|)
      ensures env.rps > 0 && ZonesGrow(old(states), states)
      ensures old(ZonesCover(env, states, model)) ==> ZonesCover(env, states, model)
    {
      hide *;
      Parts();
      ZonesStay(states);
      NotEnlarged(env, mm.bytes);
      var free := FreeSlots();
      CursorHere(env, states);
      ghost var was := states;
      if n > free {
        var needed := n - free;
        CeilSlabs(env, |states|, HighWater(env, states) + n, needed);
        var more := (needed + env.rps - 1) / env.rps;
        Grow(more);
        ZonesGrowMore(env, was, more);
        CursorGrow(env, was, |was| - 1, HighWater(env, was), more);
        if ZonesCover(env, was, model) {
          ZonesAfterGrow(env, was, model, Empties(env, more));
        }
        StoredParts();
        EmptiesSize(env, was, more);
      } else {
        NoMoreSlabs(env, |states|, HighWater(env, states) + n);
      }
    }

    method NextRow() returns (g: nat)
      requires InFile(env, mm, slabs, states) && |slabs| > 0
      ensures g == HighWater(env, states)
    {
      assert SlabAt(env, mm, slabs[|slabs| - 1], states[|slabs| - 1], |slabs| - 1);
      g := Times(|slabs| - 1, env.rps) + slabs[|slabs| - 1].count;
    }

    method FirstSlab(n: nat, ghost c: nat, ghost hw: nat) returns (i: nat)
      requires InFile(env, mm, slabs, states) && WfStates(env, states) && Cursor(env, states, c, hw)
      requires n > 0 ==> hw < Times(|states|, env.rps)
      ensures n > 0 ==> Cursor(env, states, i, hw) && i >= c && i < |states| && states[i].count < env.rps
    {
      i := FirstOpen();
      if n > 0 {
        CursorOpen(env, states, c, hw, i);
      }
    }

    /** One turn of the batch loop: as many of the remaining rows as slab k has room for. */
    method FillSlab(rows: seq<Row>, pos: nat, k: nat, ghost start: nat, ghost model0: map<nat, Row>) returns (took: nat)
      requires Stored() && pos < |rows| && forall i :: 0 <= i < |rows| ==> env.codec.canon(rows[i])
      requires Cursor(env, states, k, start + pos) && k < |states| == |slabs| && states[k].count < env.rps
      requires model == PutAll(model0, start, rows[..pos]) && forall h :: h in model0 ==> h < start
      modifies this, mm, slabs[k]
      ensures Stored() && slabs == old(slabs) && mm == old(mm) && |states| == |slabs|
      ensures 0 < took && pos + took <= |rows| && model == PutAll(model0, start, rows[..pos + took])
      ensures Cursor(env, states, k, start + pos + took)
      ensures pos + took < |rows| ==> states[k].count == env.rps
      ensures env.rps > 0 && mm.bytes == RowsWritten(env, old(mm.bytes), start + pos, rows[pos..pos + took])
      ensures ZonesGrow(old(states), states)
      ensures old(ZonesCover(env, states, model)) ==> ZonesCover(env, states, model)
    {
      hide *;
      StoredParts();
      var space := SpaceIn(k);
      var chunk := if pos + space < |rows| then rows[pos..pos + space] else rows[pos..];
      took := |chunk|;
      CursorAt(env, states, k, start + pos);
      PutAllHas(model0, start, rows[..pos]);
      assert forall h :: h in model ==> h < start + pos;
      forall i | 0 <= i < |chunk|
        ensures env.codec.canon(chunk[i])
      {
        assert chunk[i] == rows[pos + i];
      }
      ghost var was := states;
      InsertChunk(k, start + pos, chunk);
      CursorChunk(env, was, k, start + pos, states, took);
      PutAllAppend(model0, start, rows[..pos], chunk);
      assert rows[..pos + took] == rows[..pos] + chunk && rows[pos..pos + took] == chunk;
      StoredParts();
    }

    method SpaceIn(k: nat) returns (space: nat)
      requires InFile(env, mm, slabs, states) && WfStates(env, states) && k < |slabs|
      ensures space == env.rps - states[k].count
    {
      assert SlabAt(env, mm, slabs[k], states[k], k) && WfState(env, states[k]);
      space := slabs[k].capacity - slabs[k].count;
    }

    /** Many rows at consecutive new row numbers, one write per slab. */
    method BatchInsert(rows: seq<Row>) returns (start: nat)
      requires Valid() && forall i :: 0 <= i < |rows| ==> env.codec.canon(rows[i])
      modifies this, mm, slabs
      ensures Valid() && (mm == old(mm) || fresh(mm))
      ensures forall s :: s in slabs ==> s in old(slabs) || fresh(s)
      ensures start == old(HighWater(env, states)) && model == PutAll(old(model), start, rows)
      ensures HighWater(env, states) == start + |rows|
      ensures LeastSlabs(env, |old(slabs)|, |slabs|, start + |rows|)
      ensures env.rps > 0 && |old(slabs)| <= |slabs|
      ensures mm.bytes == RowsWritten(env, Enlarged(env, old(mm.bytes), |slabs| - |old(slabs)|), start, rows)
      ensures ZonesGrow(old(states), states)
      ensures old(ZonesCover(env, states, model)) ==> ZonesCover(env, states, model)
    {
      hide *;
      Parts();
      var n := |rows|;
      ghost var was := states;
      start := NextRow();
      ghost var n0, model0 := |slabs|, model;
      BelowHighWater(env, mm.bytes, states, model);
      PreGrow(n);
      StoredParts();
      ghost var grown := states;
      assert forall i :: 0 <= i < |slabs| ==> slabs[i] in slabs;
      FillFrom(rows, start, n0, model0);
      ZonesGrowTrans(was, grown, states);
    }

    /** What follows once the file is large enough: the rows go in, from the first slab with room on. */
    method FillFrom(rows: seq<Row>, ghost start: nat, ghost n0: nat, ghost model0: map<nat, Row>)
      requires Stored() && |slabs| == |states| && forall i :: 0 <= i < |rows| ==> env.codec.canon(rows[i])
      requires model == model0 && forall h :: h in model0 ==> h < start
      requires n0 > 0 && Cursor(env, states, n0 - 1, start) && LeastSlabs(env, n0, |states|, start + |rows|)
      modifies this, mm, slabs
      ensures Valid() && slabs == old(slabs) && mm == old(mm)
      ensures model == PutAll(model0, start, rows) && HighWater(env, states) == start + |rows|
      ensures env.rps > 0 && mm.bytes == RowsWritten(env, old(mm.bytes), start, rows) && ZonesGrow(old(states), states)
      ensures old(ZonesCover(env, states, model)) ==> ZonesCover(env, states, model)
    {
      hide *;
      StoredParts();
      ZonesStay(states);
      var n := |rows|;
      if n > 0 {
        RoomFor(env, n0, |states|, start + n, start);
      }
      var slabIdx := FirstSlab(n, n0 - 1, start);
      if n > 0 {
        assert forall i :: 0 <= i < |slabs| ==> slabs[i] in slabs;
        FillSlabs(rows, slabIdx, start, n0, model0);
      } else {
        PutAllNone(model0, start);
        NoRowsWritten(mm.bytes, start, rows);
        CursorEnd(env, states, n0 - 1, start, n0);
      }
      StoredParts();
      Whole();
    }

    lemma NoRowsWritten(bytes: seq<byte>, g: nat, rows: seq<Row>)
      requires env.rps > 0
      ensures RowsWritten(env, bytes, g, rows[..0]) == bytes
      ensures (rows == [] ==> RowsWritten(env, bytes, g, rows) == bytes)
    {
    }

    /** The batch loop: row after row into slab after slab, from the first one with room. */
    method FillSlabs(rows: seq<Row>, first: nat, ghost start: nat, ghost n0: nat, ghost model0: map<nat, Row>)
      requires Stored() && |slabs| == |states| && rows != [] && forall i :: 0 <= i < |rows| ==> env.codec.canon(rows[i])
      requires model == model0 && forall h :: h in model0 ==> h < start
      requires Cursor(env, states, first, start) && first < |states| && first >= n0 - 1 && states[first].count < env.rps
      requires LeastSlabs(env, n0, |states|, start + |rows|)
      modifies this, mm, slabs
      ensures Stored() && slabs == old(slabs) && mm == old(mm) && |states| == |slabs|
      ensures model == PutAll(model0, start, rows) && HighWater(env, states) == start + |rows|
      ensures FilledUpTo(env, states, |states| - 1)
      ensures env.rps > 0 && mm.bytes == RowsWritten(env, old(mm.bytes), start, rows) && ZonesGrow(old(states), states)
      ensures old(ZonesCover(env, states, model)) ==> ZonesCover(env, states, model)
    {
      hide *;
      StoredParts();
      var pos, slabIdx, n := 0, first, |rows|;
      ghost var was, bytes := states, mm.bytes;
      ZonesStay(was);
      NoRowsWritten(bytes, start, rows);
      ghost var covered := ZonesCover(env, states, model);
      ghost var c: nat := first;
      PutAllNone(model0, start);
      assert rows[..0] == [];
      while pos < n
        invariant 0 <= pos <= n && Stored() && slabs == old(slabs) && mm == old(mm) && |states| == |slabs|
        invariant model == PutAll(model0, start, rows[..pos])
        invariant c >= n0 - 1 && Cursor(env, states, c, start + pos)
        invariant pos < n ==> slabIdx == c && c < |states| && states[c].count < env.rps
        invariant covered ==> ZonesCover(env, states, model)
        invariant mm.bytes == RowsWritten(env, bytes, start, rows[..pos]) && ZonesGrow(was, states)
      {
        ghost var before := states;
        var took := FillSlab(rows, pos, slabIdx, start, model0);
        RowsWrittenAppend(env, bytes, start, rows[..pos], rows[pos..pos + took]);
        assert rows[..pos + took] == rows[..pos] + rows[pos..pos + took];
        ZonesGrowTrans(was, before, states);
        pos := pos + took;
        slabIdx := slabIdx + 1;
        StoredParts();
        if pos < n {
          RoomFor(env, n0, |states|, start + n, start + pos);
          CursorNext(env, states, c, start + pos);
          c := c + 1;
        }
      }
      StoredParts();
      CursorEnd(env, states, c, start + n, n0);
      assert rows[..n] == rows;
    }

    // ---- scans --------------------------------------------------------------

    /** The rows of slab k that satisfy p, under their global row numbers. */
    method ScanSlab(k: nat, p: Row -> bool) returns (out: seq<(nat, Row)>)
      requires InFile(env, mm, slabs, states) && k < |slabs|
      ensures |states[k].live| == env.rps
      ensures out == Picked(env, mm.bytes, env.PageStart(k), states[k].live, env.rps, Times(k, env.rps), p)
    {
      assert SlabAt(env, mm, slabs[k], states[k], k);
      var base := Times(k, env.rps);
      var rows := slabs[k].IterRows();
      out := [];
      for i := 0 to |rows|
        invariant out == Shifted(rows[..i], base, p)
      {
        assert rows[..i + 1][..i] == rows[..i];
        if p(rows[i].1) {
          out := out + [(base + rows[i].0, rows[i].1)];
        }
      }
      assert rows[..|rows|] == rows;
      PickedIsShifted(env, mm.bytes, env.PageStart(k), states[k].live, env.rps, base, p);
    }

    /** Every live row, in row-number order. */
    method Rows() returns (out: seq<(nat, Row)>)
      requires Valid()
      ensures out == Select(model, Always, Times(|states|, env.rps))
    {
      hide *;
      Parts();
      out := [];
      SelectNone(model, Always);
      for k := 0 to |slabs|
        invariant out == Select(model, Always, Times(k, env.rps))
      {
        var rows := ScanSlab(k, Always);
        WholeIsSame(env, mm.bytes, states, model, k);
        SelectSlab(env, mm.bytes, states, model, model, k, env.rps, Always);
        TimesNext(k, env.rps);
        out := out + rows;
      }
    }

    /** A slab's turn in a range scan: its map is built, and it is scanned unless the map rules the range out. */
    method RangeScanSlab(k: nat, column: Col, low: Bound, high: Bound) returns (out: seq<(nat, Row)>)
      requires Valid() && k < |slabs| && env.rps > 0
      modifies `states, slabs`zoneMin, slabs`zoneMax, slabs`zoneBuilt
      ensures Valid() && |states| == |old(states)| == |slabs| && HighWater(env, states) == old(HighWater(env, states))
      ensures states == old(states)[k := states[k]] && MapReady(env, model, k, old(states)[k], states[k])
      ensures column in env.zoneCols || Overlaps(states[k].zoneMin, states[k].zoneMax, column, low, high)
      ensures old(ZonesCover(env, states, model)) ==> ZonesCover(env, states, model)
      ensures Select(Unpruned(env, states, model, column, low, high), RangePred(column, low, high),
          Times(k + 1, env.rps))
           == old(Select(Unpruned(env, states, model, column, low, high), RangePred(column, low, high),
                         Times(k, env.rps)))
              + out
    {
      hide *;
      ghost var was := states;
      EnsureSlabZone(k);
      Parts();
      UnprunedBelow(env, was, model, k, states[k], column, low, high, RangePred(column, low, high));
      out := ScanUnlessPruned(k, column, low, high);
    }

    method ScanUnlessPruned(k: nat, column: Col, low: Bound, high: Bound) returns (out: seq<(nat, Row)>)
      requires Valid() && k < |slabs| == |states| && env.rps > 0
      ensures column in env.zoneCols || Overlaps(states[k].zoneMin, states[k].zoneMax, column, low, high)
      ensures Select(Unpruned(env, states, model, column, low, high), RangePred(column, low, high),
          Times(k + 1, env.rps))
           == Select(Unpruned(env, states, model, column, low, high), RangePred(column, low, high),
                     Times(k, env.rps)) + out
    {
      hide *;
      Parts();
      var p := RangePred(column, low, high);
      ghost var part := Unpruned(env, states, model, column, low, high);
      UnprunedSlab(env, states, model, k, column, low, high);
      TimesNext(k, env.rps);
      var overlaps := SlabOverlaps(k, column, low, high);
      if overlaps {
        SelectSlab(env, mm.bytes, states, model, part, k, env.rps, p);
        out := ScanSlab(k, p);
      } else {
        SelectGap(env, part, k, env.rps, p);
        out := [];
      }
    }

    method EnsureSlabZone(k: nat)
      requires Valid() && k < |slabs| && env.rps > 0
      modifies `states, slabs`zoneMin, slabs`zoneMax, slabs`zoneBuilt
      ensures Valid() && |states| == |old(states)| == |slabs| && HighWater(env, states) == old(HighWater(env, states))
      ensures states == old(states)[k := states[k]] && MapReady(env, model, k, old(states)[k], states[k])
      ensures old(ZonesCover(env, states, model)) ==> ZonesCover(env, states, model)
    {
      hide *;
      Parts();
      ghost var was := states;
      ghost var now := SlabEnsureZone(k);
      ZoneKeeps(env, mm.bytes, was, model, k, now);
      CountsKept(env, was, |was| - 1, k, now);
      Whole();
      MapIsReady(was, k, now);
      if ZonesCover(env, was, model) {
        ZonesAfterBuild(env, mm.bytes, was, model, k, now);
      }
    }

    lemma MapIsReady(was: States, k: nat, now: SlabState)
      requires Consistent(env, mm.bytes, was, model) && k < |was| && env.rps > 0
      requires now.zoneBuilt && now.count == was[k].count && now.live == was[k].live
      requires (was[k].zoneBuilt ==> now == was[k])
      requires !was[k].zoneBuilt && was[k].zoneMin == map[] == was[k].zoneMax ==>
        && SeenIn(env, mm.bytes, env.PageStart(k), now.live, now.count, now.zoneMin)
        && SeenIn(env, mm.bytes, env.PageStart(k), now.live, now.count, now.zoneMax)
      ensures MapReady(env, model, k, was[k], now)
    {
      hide Consistent, SeenIn, FromRows;
      if !was[k].zoneBuilt && was[k].zoneMin == map[] == was[k].zoneMax {
        SeenIsFromRows(env, mm.bytes, was, model, k, now.count, now.zoneMin);
        SeenIsFromRows(env, mm.bytes, was, model, k, now.count, now.zoneMax);
      }
    }

    method SlabEnsureZone(k: nat) returns (ghost now: SlabState)
      requires InFile(env, mm, slabs, states) && k < |slabs|
      modifies `states, slabs`zoneMin, slabs`zoneMax, slabs`zoneBuilt
      ensures InFile(env, mm, slabs, states) && states == old(states)[k := now]
      ensures now.count == old(states)[k].count && now.live == old(states)[k].live && now.zoneBuilt
      ensures old(states)[k].zoneBuilt ==> now == old(states)[k]
      ensures |now.live| == env.rps
      ensures !old(states)[k].zoneBuilt ==> forall j :: 0 <= j < env.rps && now.live[j] ==>
        Covers(env.zoneCols, now.zoneMin, now.zoneMax, RowIn(env, mm.bytes, env.PageStart(k), j))
      ensures !old(states)[k].zoneBuilt && old(states)[k].zoneMin == map[] == old(states)[k].zoneMax ==>
        && SeenIn(env, mm.bytes, env.PageStart(k), now.live, now.count, now.zoneMin)
        && SeenIn(env, mm.bytes, env.PageStart(k), now.live, now.count, now.zoneMax)
    {
      assert SlabAt(env, mm, slabs[k], states[k], k);
      slabs[k].EnsureZoneMap();
      now := slabs[k].State();
      states := states[k := now];
      forall i | 0 <= i < |slabs|
        ensures SlabAt(env, mm, slabs[i], states[i], i)
      {
        assert old(SlabAt(env, mm, slabs[i], states[i], i));
      }
    }

    method SlabOverlaps(k: nat, column: Col, low: Bound, high: Bound) returns (r: bool)
      requires InFile(env, mm, slabs, states) && k < |slabs|
      ensures r == Overlaps(states[k].zoneMin, states[k].zoneMax, column, low, high)
      ensures !r ==> column in env.zoneCols
      ensures |states[k].live| == env.rps
    {
      assert SlabAt(env, mm, slabs[k], states[k], k);
      r := slabs[k].ZoneOverlaps(column, low, high);
    }

    /** range_find without a range index: slab by slab, skipping those whose map rules the range out. It
        finds exactly the rows in range if and only if each of them lies in a slab it does not skip. */
    method RangeScan(column: Col, low: Bound, high: Bound) returns (out: seq<(nat, Row)>)
      requires Valid() && env.rps > 0
      modifies `states, slabs`zoneMin, slabs`zoneMax, slabs`zoneBuilt
      ensures Valid() && |states| == |old(states)| && HighWater(env, states) == old(HighWater(env, states))
      ensures forall k :: 0 <= k < |states| ==> MapReady(env, model, k, old(states)[k], states[k])
      ensures out == Select(Unpruned(env, states, model, column, low, high), RangePred(column, low, high),
                            Times(|states|, env.rps))
      ensures out == Select(model, RangePred(column, low, high), Times(|states|, env.rps)) <==>
        forall g :: g in model && InRange(Get(model[g], column), low, high) ==>
          Reached(env, states, g, column, low, high)
      ensures old(ZonesCover(env, states, model)) ==>
        && ZonesCover(env, states, model)
        && out == Select(model, RangePred(column, low, high), Times(|states|, env.rps))
    {
      hide *;
      Parts();
      out := [];
      SelectNone(Unpruned(env, states, model, column, low, high), RangePred(column, low, high));
      for k := 0 to |slabs|
        invariant Valid() && |states| == |old(states)| == |slabs|
        invariant HighWater(env, states) == old(HighWater(env, states))
        invariant forall i :: k <= i < |states| ==> states[i] == old(states)[i]
        invariant forall i :: 0 <= i < k ==> MapReady(env, model, i, old(states)[i], states[i])
        invariant forall i :: 0 <= i < k ==>
          column in env.zoneCols || Overlaps(states[i].zoneMin, states[i].zoneMax, column, low, high)
        invariant old(ZonesCover(env, states, model)) ==> ZonesCover(env, states, model)
        invariant out == Select(Unpruned(env, states, model, column, low, high), RangePred(column, low, high),
                                Times(k, env.rps))
      {
        var rows := RangeScanSlab(k, column, low, high);
        out := out + rows;
      }
      Parts();
      ScanFinds(states, column, low, high);
      MapsBuilt(old(states));
      if ZonesCover(env, states, model) {
        CoveredIsReached(env, states, model, column, low, high);
      }
    }

    lemma ScanFinds(now: States, column: Col, low: Bound, high: Bound)
      requires Consistent(env, mm.bytes, now, model) && env.rps > 0
      ensures
        Select(Unpruned(env, now, model, column, low, high), RangePred(column, low, high), Times(|now|, env.rps))
          == Select(model, RangePred(column, low, high), Times(|now|, env.rps))
        <==>
        forall g :: g in model && InRange(Get(model[g], column), low, high) ==> Reached(env, now, g, column, low, high)
    {
      forall g | g in model
        ensures g < Times(|now|, env.rps)
      {
        LiveIsBelowHighWater(env, now, g);
      }
      UnprunedIsAll(env, now, model, column, low, high, Times(|now|, env.rps));
    }

    lemma MapsBuilt(was: States)
      requires env.rps > 0 && |was| == |states|
      requires forall k :: 0 <= k < |states| ==> MapReady(env, model, k, was[k], states[k])
      ensures forall k :: 0 <= k < |states| ==> states[k].zoneBuilt
    {
      hide FromRows;
    }

    // ---- flushing and loading -----------------------------------------------

    /** Writes every bitmap and the header; rows are in the file already. */
    method Flush()
      requires Valid() && HeaderFitsEnv(env)
      modifies mm
      ensures Valid() && OnDisk(env, mm.bytes, states)
    {
      hide *;
      Parts();
      for i := 0 to |slabs|
        invariant InFile(env, mm, slabs, states) && Consistent(env, mm.bytes, states, model)
        invariant forall k :: 0 <= k < i ==> BitmapAt(env, mm.bytes, k) == LiveBytes(states[k].live)
      {
        FlushBitmap(i);
      }
      FlushHeader();
      Whole();
    }

    method FlushBitmap(i: nat)
      requires InFile(env, mm, slabs, states) && Consistent(env, mm.bytes, states, model) && i < |slabs|
      modifies mm
      ensures InFile(env, mm, slabs, states) && Consistent(env, mm.bytes, states, model) && |states| == |slabs|
      ensures BitmapAt(env, mm.bytes, i) == LiveBytes(states[i].live)
      ensures forall k :: 0 <= k < i ==> BitmapAt(env, mm.bytes, k) == old(BitmapAt(env, mm.bytes, k))
    {
      hide Consistent;
      ghost var bytes := mm.bytes;
      assert SlabAt(env, mm, slabs[i], states[i], i);
      FileSize(env, bytes, states, model);
      BitmapFits(env, i, |states|);
      var raw := LiveBytes(slabs[i].live);
      mm.bytes := Put(mm.bytes, env.UnitStart(i), raw);
      SameSize(bytes);
      BitmapKeepsRows(env, bytes, states, model, i, raw);
      BitmapWritten(env, bytes, i, raw);
      forall k | 0 <= k < i
        ensures BitmapAt(env, mm.bytes, k) == BitmapAt(env, bytes, k)
      {
        BitmapsApart(env, bytes, i, k, raw);
      }
    }

    /** Overwriting bytes in place leaves the slabs where they are. */
    twostate lemma SameSize(bytes: seq<byte>)
      requires old(InFile(env, mm, slabs, states)) && |mm.bytes| == old(|mm.bytes|)
      requires mm == old(mm) && slabs == old(slabs) && states == old(states)
      requires forall k :: 0 <= k < |slabs| ==> unchanged(slabs[k])
      ensures InFile(env, mm, slabs, states)
    {
      forall k | 0 <= k < |slabs|
        ensures SlabAt(env, mm, slabs[k], states[k], k)
      {
        assert old(SlabAt(env, mm, slabs[k], states[k], k));
      }
    }

    method FlushHeader()
      requires InFile(env, mm, slabs, states) && Consistent(env, mm.bytes, states, model) && HeaderFitsEnv(env)
      requires |slabs| > 0
      requires forall k :: 0 <= k < |states| ==> BitmapAt(env, mm.bytes, k) == LiveBytes(states[k].live)
      modifies mm
      ensures InFile(env, mm, slabs, states) && Consistent(env, mm.bytes, states, model)
      ensures OnDisk(env, mm.bytes, states)
    {
      hide Consistent;
      ghost var bytes := mm.bytes;
      var last := |slabs| - 1;
      assert SlabAt(env, mm, slabs[last], states[last], last);
      FileSize(env, bytes, states, model);
      CountFitsHeader(env, states[last].count);
      var h := Header(env.pageSize, slabs[last].count, env.schemaOffset);
      mm.bytes := Put(mm.bytes, 0, PackHeader(h));
      HeaderWritten(env, bytes, h, |states|);
      HeaderKeepsRows(env, bytes, states, model, PackHeader(h));
      forall k | 0 <= k < |slabs|
        ensures SlabAt(env, mm, slabs[k], states[k], k)
      {
        assert old(SlabAt(env, mm, slabs[k], states[k], k));
      }
    }

    /** Opens a file image: a slab per unit, flags from its bitmap, counts from the header and the filling order. */
    method LoadFrom(bytes: seq<byte>, ghost was: States, ghost rows: map<nat, Row>)
      requires OnDisk(env, bytes, was) && Consistent(env, bytes, was, rows) && FilledUpTo(env, was, |was| - 1)
      modifies this
      ensures Valid() && fresh(mm) && (forall s :: s in slabs ==> fresh(s)) && mm.bytes == bytes
      ensures model == rows && states == ReloadedAll(was) && HighWater(env, states) == HighWater(env, was)
      ensures env.rps > 0 && ZonesCover(env, states, model)
    {
      hide *;
      FileSize(env, bytes, was, rows);
      var flags := HeaderFlags(bytes, was);
      UnitsInFile(env, |was|);
      var slabCount := (|bytes| - env.schemaOffset) / env.Unit();
      mm := new Mapping(bytes);
      slabs, totalRows := [], 0;
      states := [];
      NoSlabs(env, mm);
      SelectNone(rows, Always);
      for i := 0 to slabCount
        invariant InFile(env, mm, slabs, states) && |slabs| == i && fresh(mm) && mm.bytes == bytes
        invariant forall s :: s in slabs ==> fresh(s)
        invariant states == ReloadedAll(was[..i])
        invariant totalRows == |Select(rows, Always, Times(i, env.rps))|
      {
        ReloadedStep(was, i);
        SlabOnDisk(env, bytes, was, rows, i);
        var slab := LoadSlab(i, slabCount, flags, was);
        AddSlab(slab);
        CountPicked(env, bytes, env.PageStart(i), slab.live, env.rps, Times(i, env.rps));
        WholeIsSame(env, bytes, was, rows, i);
        SelectSlab(env, bytes, was, rows, rows, i, env.rps, Always);
        TimesNext(i, env.rps);
        assert slab.live[..env.rps] == slab.live;
        totalRows := totalRows + CountLive(slab.live);
      }
      assert was[..|was|] == was;
      model := rows;
      AllRowsSelected(env, bytes, was, rows);
      ReloadKeeps(env, bytes, was, rows);
      Whole();
    }

    method HeaderFlags(bytes: seq<byte>, ghost was: States) returns (flags: nat)
      requires OnDisk(env, bytes, was)
      ensures flags == was[|was| - 1].count
    {
      flags := UnpackHeader(bytes[..HEADER_SIZE]).h.flags;
    }

    method LoadSlab(i: nat, slabCount: nat, flags: nat, ghost was: States) returns (slab: Slab)
      requires i < slabCount == |was| && |mm.bytes| == env.UnitStart(|was|) && env.Wf()
      requires WfState(env, was[i]) && flags == was[|was| - 1].count && FilledUpTo(env, was, |was| - 1)
      requires BitmapAt(env, mm.bytes, i) == LiveBytes(was[i].live)
      ensures fresh(slab) && Fits(slab, i) && slab.State() == Reloaded(was[i])
      ensures slab.live == was[i].live && |slab.live| == env.rps
    {
      BitmapFits(env, i, slabCount);
      TimesEnd(i, slabCount, env.Unit());
      slab := new Slab(env, mm, env.PageStart(i));
      slab.live := LiveFrom(BitmapAt(env, mm.bytes, i));
      LiveRoundTrip(was[i].live);
      slab.count := if i < slabCount - 1 then env.rps else if flags < env.rps then flags else env.rps;
      slab.zoneBuilt := false;
    }

    // ---- compaction ---------------------------------------------------------

    /** Rewrites the file with only the live rows, renumbered from zero, and opens it. */
    method Compact(schemaJson: seq<byte>) returns (ghost rows: seq<Row>)
      requires Valid() && HeaderFitsEnv(env) && HEADER_SIZE + |schemaJson| == env.schemaOffset
      modifies this
      ensures Valid() && fresh(mm) && forall s :: s in slabs ==> fresh(s)
      ensures rows == Payload(Select(old(model), Always, Times(|old(states)|, env.rps)))
      ensures model == PutAll(map[], 0, rows) && HighWater(env, states) == |rows|
      ensures LeastSlabs(env, 1, |states|, |rows|) && OnDisk(env, mm.bytes, states)
      ensures env.rps > 0 && ZonesCover(env, states, model)
    {
      hide *;
      Parts();
      var all := Rows();
      PayloadCanonical(env, mm.bytes, states, model, Times(|states|, env.rps));
      var live := [];
      PayloadNone();
      for i := 0 to |all|
        invariant live == Payload(all[..i])
      {
        PayloadPush(all, i);
        live := live + [all[i].1];
      }
      assert all[..|all|] == all;
      rows := live;
      var file, was := CompactFile(env, schemaJson, live);
      LoadFrom(file, was, PutAll(map[], 0, live));
      ReloadedSize(was);
      ReloadedOnDisk(env, file, was);
    }
  }

  /** An empty store over a freshly written file. */
  method Create(env: Env, schemaJson: seq<byte>) returns (store: Store)
    requires env.Wf() && env.Lawful() && HeaderFitsEnv(env) && HEADER_SIZE + |schemaJson| == env.schemaOffset
    ensures fresh(store) && store.env == env && store.Valid() && fresh(store.mm)
    ensures forall s :: s in store.slabs ==> fresh(s)
    ensures store.model == map[] && HighWater(env, store.states) == 0 && env.rps > 0 && |store.states| == 1
    ensures ZonesCover(env, store.states, map[])
  {
    var file, was := CompactFile(env, schemaJson, []);
    var mm := new Mapping(file);
    store := new Store.Over(env, mm);
    PutAllNone(map[], 0);
    store.LoadFrom(file, was, map[]);
  }
}
