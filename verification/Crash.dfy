/** What a file holds when the process dies between flushes: rows are written and units added
    straight through the mapping, while bitmaps and header stay as last flushed. */
module Crash {
  import opened Bits
  import opened Values
  import opened Codec
  import opened Layout
  import opened Images
  import opened Slabs
  import opened Persist

  datatype FileEvent = RowWritten(g: nat, row: Row) | Grown(units: nat)

  function AfterEvent(env: Env, bytes: seq<byte>, ev: FileEvent): seq<byte>
    requires env.rps > 0
  {
    match ev
    case RowWritten(g, row) => Written(env, bytes, g, row)
    case Grown(n) => bytes + Zeros(Times(n, env.Unit()))
  }

  function AfterEvents(env: Env, bytes: seq<byte>, evs: seq<FileEvent>): seq<byte>
    requires env.rps > 0
  {
    if evs == [] then bytes else AfterEvent(env, AfterEvents(env, bytes, evs[..|evs| - 1]), evs[|evs| - 1])
  }

  function SlabsAfter(n: nat, evs: seq<FileEvent>): nat {
    if evs == [] then n
    else SlabsAfter(n, evs[..|evs| - 1]) + (if evs[|evs| - 1].Grown? then evs[|evs| - 1].units else 0)
  }

  /** Every row is written into a slot the file has by then. */
  ghost predicate Possible(env: Env, n: nat, evs: seq<FileEvent>)
    requires env.rps > 0
  {
    evs == [] || (
      && Possible(env, n, evs[..|evs| - 1])
      && (evs[|evs| - 1].RowWritten? ==>
        env.SlabOf(evs[|evs| - 1].g) < SlabsAfter(n, evs[..|evs| - 1]) && env.codec.canon(evs[|evs| - 1].row)))
  }

  /** The row numbers written. */
  function Touched(evs: seq<FileEvent>): set<nat> {
    if evs == [] then {}
    else Touched(evs[..|evs| - 1]) + (if evs[|evs| - 1].RowWritten? then {evs[|evs| - 1].g} else {})
  }

  // a row write disturbs neither header nor bitmaps, and shows only if the row is flagged live
  lemma RowWriteLoads(env: Env, bytes: seq<byte>, was: States, rows: map<nat, Row>, g: nat, row: Row)
    requires OnDisk(env, bytes, was) && Consistent(env, bytes, was, rows) && env.SlabOf(g) < |was|
    requires env.codec.canon(row)
    ensures var bytes' := Written(env, bytes, g, row);
      OnDisk(env, bytes', was) && Consistent(env, bytes', was, if g in rows then rows[g := row] else rows)
  {
    hide *;
    FileSize(env, bytes, was, rows);
    LawfulFile(env, bytes, was, rows);
    RowWriteRows(env, bytes, was, rows, g, row);
    RowWriteOnDisk(env, bytes, was, g, row);
  }

  lemma LawfulFile(env: Env, bytes: seq<byte>, was: States, rows: map<nat, Row>)
    requires Consistent(env, bytes, was, rows)
    ensures env.Wf() && env.Lawful()
  {
  }

  lemma RowWriteRows(env: Env, bytes: seq<byte>, was: States, rows: map<nat, Row>, g: nat, row: Row)
    requires Consistent(env, bytes, was, rows) && env.SlabOf(g) < |was| && env.codec.canon(row)
    ensures Consistent(env, Written(env, bytes, g, row), was, if g in rows then rows[g := row] else rows)
  {
    hide LawfulCodec;
    WriteRow(env, bytes, |was|, g, row);
    LiveMapIs(env, Written(env, bytes, g, row), was, if g in rows then rows[g := row] else rows);
  }

  lemma RowWriteOnDisk(env: Env, bytes: seq<byte>, was: States, g: nat, row: Row)
    requires OnDisk(env, bytes, was) && env.Wf() && env.Lawful() && |bytes| == env.UnitStart(|was|)
    requires env.SlabOf(g) < |was| && env.codec.canon(row)
    ensures OnDisk(env, Written(env, bytes, g, row), was)
  {
    hide UnpackHeader;
    var raw := env.codec.encode(env.SlotOf(g), row);
    var bytes' := Written(env, bytes, g, row);
    assert |raw| == env.width;
    SlotInFile(env, g, |was|);
    SlotAfterHeader(env, g);
    SpliceElsewhere(bytes, env.SlotOf(g), raw, 0, HEADER_SIZE);
    assert bytes'[..HEADER_SIZE] == bytes[..HEADER_SIZE];
    forall k | 0 <= k < |was|
      ensures BitmapAt(env, bytes', k) == BitmapAt(env, bytes, k)
    {
      SlotMissesBitmap(env, g, k);
      BitmapFits(env, k, |was|);
      SpliceElsewhere(bytes, env.SlotOf(g), raw, env.UnitStart(k), env.PageStart(k));
    }
  }

  lemma SlotAfterHeader(env: Env, g: nat)
    requires env.Wf()
    ensures HEADER_SIZE <= env.SlotOf(g)
  {
  }

  /** What loading makes of a slab that is no longer the last: full, as far as anyone can tell. */
  function Filled(env: Env, s: SlabState): SlabState { s.(count := env.rps) }

  /** The states loading finds after the file grew: the header's count now counts for the new last slab. */
  function GrownStates(env: Env, was: States, n: nat): (r: States)
    requires |was| > 0 && n > 0
    ensures |r| == |was| + n
  {
    var empty := EmptySlab(env);
    was[..|was| - 1] + [Filled(env, was[|was| - 1])] + seq(n - 1, _ => Filled(env, empty)) +
        [empty.(count := was[|was| - 1].count)]
  }

  lemma GrownAt(env: Env, was: States, n: nat)
    requires |was| > 0 && n > 0
    ensures var r := GrownStates(env, was, n);
      && r[|r| - 1] == EmptySlab(env).(count := was[|was| - 1].count)
      && (forall k :: 0 <= k < |was| - 1 ==> r[k] == was[k]) && r[|was| - 1] == Filled(env, was[|was| - 1])
      && forall k :: |was| <= k < |r| - 1 ==> r[k] == Filled(env, EmptySlab(env))
  {
  }

  lemma GrowthLoads(env: Env, bytes: seq<byte>, was: States, rows: map<nat, Row>, n: nat)
    requires OnDisk(env, bytes, was) && Consistent(env, bytes, was, rows) && FilledUpTo(env, was, |was| - 1) && n > 0
    ensures var (bytes', was') := (bytes + Zeros(Times(n, env.Unit())), GrownStates(env, was, n));
      OnDisk(env, bytes', was') && Consistent(env, bytes', was', rows) && FilledUpTo(env, was', |was'| - 1)
      && HighWater(env, was) <= HighWater(env, was')
  {
    hide *;
    NonEmpty(env, bytes, was);
    GrownOnDisk(env, bytes, was, rows, n);
    GrownRows(env, bytes, was, rows, n);
    GrownCounts(env, was, n);
  }

  lemma GrownOnDisk(env: Env, bytes: seq<byte>, was: States, rows: map<nat, Row>, n: nat)
    requires OnDisk(env, bytes, was) && Consistent(env, bytes, was, rows) && n > 0
    ensures OnDisk(env, bytes + Zeros(Times(n, env.Unit())), GrownStates(env, was, n))
  {
    hide Consistent, GrownStates, HighWater, UnpackHeader;
    GrownAt(env, was, n);
    GrownBitmaps(env, bytes, was, rows, n);
    assert (bytes + Zeros(Times(n, env.Unit())))[..HEADER_SIZE] == bytes[..HEADER_SIZE];
  }

  lemma GrownRows(env: Env, bytes: seq<byte>, was: States, rows: map<nat, Row>, n: nat)
    requires Consistent(env, bytes, was, rows) && |was| > 0 && n > 0
    ensures Consistent(env, bytes + Zeros(Times(n, env.Unit())), GrownStates(env, was, n), rows)
  {
    hide GrownStates;
    var more := Zeros(Times(n, env.Unit()));
    GrowKeeps(env, bytes, was, rows, more, n);
    GrownLive(env, was, n);
    LiveMapIs(env, bytes + more, GrownStates(env, was, n), rows);
    UnitsAppended(env, |was|, n);
  }

  lemma GrownCounts(env: Env, was: States, n: nat)
    requires FilledUpTo(env, was, |was| - 1) && |was| > 0 && n > 0
    ensures FilledUpTo(env, GrownStates(env, was, n), |was| + n - 1)
    ensures HighWater(env, was) <= HighWater(env, GrownStates(env, was, n))
  {
    GrownAt(env, was, n);
    TimesEnd(|was| - 1, |was| + n - 1, env.rps);
  }

  lemma GrownLive(env: Env, was: States, n: nat)
    requires env.Wf() && WfStates(env, was) && |was| > 0 && n > 0
    requires WfStates(env, was + Empties(env, n))
    ensures WfStates(env, GrownStates(env, was, n))
    ensures forall g: nat :: LiveIn(env, GrownStates(env, was, n), g) <==> LiveIn(env, was + Empties(env, n), g)
  {
    var (r, e) := (GrownStates(env, was, n), was + Empties(env, n));
    GrownAt(env, was, n);
    forall k | 0 <= k < |r|
      ensures WfState(env, r[k]) && r[k].live == e[k].live
    {
      assert WfState(env, e[k]);
    }
  }

  lemma BitmapAfter(env: Env, n: nat, k: nat)
    requires n <= k
    ensures env.UnitStart(n) <= env.UnitStart(k)
  {
    if n < k {
      TimesEnd(n, k, env.Unit());
    }
  }

  lemma GrownBitmaps(env: Env, bytes: seq<byte>, was: States, rows: map<nat, Row>, n: nat)
    requires OnDisk(env, bytes, was) && Consistent(env, bytes, was, rows) && n > 0
    ensures forall k :: 0 <= k < |was| + n ==>
      BitmapAt(env, bytes + Zeros(Times(n, env.Unit())), k) == LiveBytes(GrownStates(env, was, n)[k].live)
  {
    GrownAt(env, was, n);
    UnitsAppended(env, |was|, n);
    forall k | 0 <= k < |was| + n
      ensures BitmapAt(env, bytes + Zeros(Times(n, env.Unit())), k) == LiveBytes(GrownStates(env, was, n)[k].live)
    {
      BitmapFits(env, k, |was| + n);
      if k < |was| {
        BitmapFits(env, k, |was|);
      } else {
        BitmapAfter(env, |was|, k);
      }
    }
  }

  /** The states and the rows loading finds after one event. */
  function StatesAfter(env: Env, was: States, ev: FileEvent): States {
    if ev.Grown? && ev.units > 0 && |was| > 0 then GrownStates(env, was, ev.units) else was
  }

  function RowsAfter(rows: map<nat, Row>, ev: FileEvent): map<nat, Row> {
    if ev.RowWritten? && ev.g in rows then rows[ev.g := ev.row] else rows
  }

  function StatesAfterAll(env: Env, was: States, evs: seq<FileEvent>): States {
    if evs == [] then was else StatesAfter(env, StatesAfterAll(env, was, evs[..|evs| - 1]), evs[|evs| - 1])
  }

  /** The rows flagged live by the flush, each as last written. */
  function RowsAfterAll(rows: map<nat, Row>, evs: seq<FileEvent>): map<nat, Row> {
    if evs == [] then rows else RowsAfter(RowsAfterAll(rows, evs[..|evs| - 1]), evs[|evs| - 1])
  }

  lemma EventLoads(env: Env, bytes: seq<byte>, was: States, rows: map<nat, Row>, ev: FileEvent)
    requires OnDisk(env, bytes, was) && Consistent(env, bytes, was, rows) && FilledUpTo(env, was, |was| - 1)
    requires env.rps > 0
    requires ev.RowWritten? ==> env.SlabOf(ev.g) < |was| && env.codec.canon(ev.row)
    ensures OnDisk(env, AfterEvent(env, bytes, ev), StatesAfter(env, was, ev))
    ensures Consistent(env, AfterEvent(env, bytes, ev), StatesAfter(env, was, ev), RowsAfter(rows, ev))
    ensures FilledUpTo(env, StatesAfter(env, was, ev), |StatesAfter(env, was, ev)| - 1)
    ensures HighWater(env, was) <= HighWater(env, StatesAfter(env, was, ev))
    ensures |StatesAfter(env, was, ev)| == |was| + if ev.Grown? then ev.units else 0
  {
    hide OnDisk, Consistent, FilledUpTo, HighWater, GrownStates, Written;
    NonEmpty(env, bytes, was);
    match ev
    case RowWritten(g, row) =>
      RowWriteLoads(env, bytes, was, rows, g, row);
    case Grown(n) =>
      if n > 0 {
        GrowthLoads(env, bytes, was, rows, n);
      } else {
        assert bytes + Zeros(0) == bytes;
      }
  }

  lemma NonEmpty(env: Env, bytes: seq<byte>, was: States)
    requires OnDisk(env, bytes, was)
    ensures |was| > 0
  {
  }

  lemma {:induction false} RowsAfterKeep(rows: map<nat, Row>, evs: seq<FileEvent>)
    ensures RowsAfterAll(rows, evs).Keys == rows.Keys
    ensures forall g :: g in rows && g !in Touched(evs) ==> RowsAfterAll(rows, evs)[g] == rows[g]
  {
    if evs != [] {
      RowsAfterKeep(rows, evs[..|evs| - 1]);
    }
  }

  lemma {:induction false} EventsLoad(env: Env, bytes: seq<byte>, was: States, rows: map<nat, Row>, evs: seq<FileEvent>)
    requires OnDisk(env, bytes, was) && Consistent(env, bytes, was, rows) && FilledUpTo(env, was, |was| - 1)
    requires env.rps > 0 && Possible(env, |was|, evs)
    ensures var (bytes', was', rows') := (AfterEvents(env, bytes, evs), StatesAfterAll(env, was, evs),
        RowsAfterAll(rows, evs));
      && |was'| == SlabsAfter(|was|, evs) && OnDisk(env, bytes', was') && Consistent(env, bytes', was', rows')
      && FilledUpTo(env, was', |was'| - 1) && HighWater(env, was) <= HighWater(env, was')
  {
    hide *;
    EventsSplit(env, bytes, was, rows, evs);
    if evs != [] {
      var front, ev := evs[..|evs| - 1], evs[|evs| - 1];
      EventsLoad(env, bytes, was, rows, front);
      EventLoads(env, AfterEvents(env, bytes, front), StatesAfterAll(env, was, front), RowsAfterAll(rows, front), ev);
    }
  }

  lemma EventsSplit(env: Env, bytes: seq<byte>, was: States, rows: map<nat, Row>, evs: seq<FileEvent>)
    requires env.rps > 0 && Possible(env, |was|, evs)
    ensures evs == [] ==> StatesAfterAll(env, was, evs) == was && RowsAfterAll(rows, evs) == rows
    ensures evs == [] ==> AfterEvents(env, bytes, evs) == bytes && SlabsAfter(|was|, evs) == |was|
    ensures evs != [] ==> var (front, ev) := (evs[..|evs| - 1], evs[|evs| - 1]);
      && Possible(env, |was|, front)
      && (ev.RowWritten? ==> env.SlabOf(ev.g) < SlabsAfter(|was|, front) && env.codec.canon(ev.row))
      && AfterEvents(env, bytes, evs) == AfterEvent(env, AfterEvents(env, bytes, front), ev)
      && StatesAfterAll(env, was, evs) == StatesAfter(env, StatesAfterAll(env, was, front), ev)
      && RowsAfterAll(rows, evs) == RowsAfter(RowsAfterAll(rows, front), ev)
      && SlabsAfter(|was|, evs) == SlabsAfter(|was|, front) + if ev.Grown? then ev.units else 0
  {
    hide AfterEvent, StatesAfter, RowsAfter, Env.SlabOf;
  }

  // Whatever rows and units reach the file after a flush, it opens: with the rows flagged live by
  // that flush, each as flushed unless it was written since, and a next row number no lower.
  lemma CrashLoads(env: Env, bytes: seq<byte>, was: States, rows: map<nat, Row>, evs: seq<FileEvent>)
    requires OnDisk(env, bytes, was) && Consistent(env, bytes, was, rows) && FilledUpTo(env, was, |was| - 1)
    requires env.rps > 0 && Possible(env, |was|, evs)
    ensures var (bytes', was', rows') := (AfterEvents(env, bytes, evs), StatesAfterAll(env, was, evs),
        RowsAfterAll(rows, evs));
      && OnDisk(env, bytes', was') && Consistent(env, bytes', was', rows') && FilledUpTo(env, was', |was'| - 1)
      && HighWater(env, was) <= HighWater(env, was')
      && rows'.Keys == rows.Keys && forall g :: g in rows && g !in Touched(evs) ==> rows'[g] == rows[g]
  {
    hide *;
    EventsLoad(env, bytes, was, rows, evs);
    RowsAfterKeep(rows, evs);
  }

  // ---- files that evolve by events ----------------------------------------------

  /** Rows written and units added lead from one file of n slabs to another of n'. */
  ghost predicate Evolves(env: Env, bytes: seq<byte>, n: nat, bytes': seq<byte>, n': nat)
    requires env.rps > 0
  {
    exists evs :: Possible(env, n, evs) && SlabsAfter(n, evs) == n' && AfterEvents(env, bytes, evs) == bytes'
  }

  lemma EvolvesBy(env: Env, bytes: seq<byte>, n: nat, evs: seq<FileEvent>)
    requires env.rps > 0 && Possible(env, n, evs)
    ensures Evolves(env, bytes, n, AfterEvents(env, bytes, evs), SlabsAfter(n, evs))
  {
  }

  lemma {:induction false} EventsAppend(env: Env, bytes: seq<byte>, n: nat, a: seq<FileEvent>, b: seq<FileEvent>)
    requires env.rps > 0 && Possible(env, n, a) && Possible(env, SlabsAfter(n, a), b)
    ensures Possible(env, n, a + b) && SlabsAfter(n, a + b) == SlabsAfter(SlabsAfter(n, a), b)
    ensures AfterEvents(env, bytes, a + b) == AfterEvents(env, AfterEvents(env, bytes, a), b)
  {
    if b == [] {
      assert a + b == a;
    } else {
      hide AfterEvent;
      assert (a + b)[..|a| + |b| - 1] == a + b[..|b| - 1];
      EventsAppend(env, bytes, n, a, b[..|b| - 1]);
    }
  }

  lemma EvolvesOn(env: Env, a: seq<byte>, n: nat, b: seq<byte>, m: nat, c: seq<byte>, k: nat)
    requires env.rps > 0 && Evolves(env, a, n, b, m) && Evolves(env, b, m, c, k)
    ensures Evolves(env, a, n, c, k)
  {
    hide Possible, SlabsAfter, AfterEvents;
    var x :| Possible(env, n, x) && SlabsAfter(n, x) == m && AfterEvents(env, a, x) == b;
    var y :| Possible(env, m, y) && SlabsAfter(m, y) == k && AfterEvents(env, b, y) == c;
    EventsAppend(env, a, n, x, y);
    EvolvesBy(env, a, n, x + y);
  }

  lemma StaysSame(env: Env, bytes: seq<byte>, n: nat)
    requires env.rps > 0
    ensures Evolves(env, bytes, n, bytes, n)
  {
    EvolvesBy(env, bytes, n, []);
  }

  lemma OneEvent(env: Env, bytes: seq<byte>, n: nat, ev: FileEvent)
    requires env.rps > 0 && (ev.RowWritten? ==> env.SlabOf(ev.g) < n && env.codec.canon(ev.row))
    ensures Evolves(env, bytes, n, AfterEvent(env, bytes, ev), n + if ev.Grown? then ev.units else 0)
  {
    var evs := [ev];
    assert evs[..0] == [];
    assert Possible(env, n, []) && SlabsAfter(n, []) == n && AfterEvents(env, bytes, []) == bytes;
    EvolvesBy(env, bytes, n, evs);
  }

  lemma WriteEvolves(env: Env, bytes: seq<byte>, n: nat, g: nat, row: Row)
    requires env.rps > 0 && env.SlabOf(g) < n && env.codec.canon(row)
    ensures Evolves(env, bytes, n, Written(env, bytes, g, row), n)
  {
    OneEvent(env, bytes, n, RowWritten(g, row));
  }

  lemma GrowthEvolves(env: Env, bytes: seq<byte>, n: nat, units: nat)
    requires env.rps > 0
    ensures Evolves(env, bytes, n, Enlarged(env, bytes, units), n + units)
  {
    OneEvent(env, bytes, n, Grown(units));
  }

  lemma {:induction false} RowsEvolve(env: Env, bytes: seq<byte>, n: nat, g: nat, rows: seq<Row>)
    requires env.rps > 0 && g + |rows| <= Times(n, env.rps) && forall i :: 0 <= i < |rows| ==> env.codec.canon(rows[i])
    ensures Evolves(env, bytes, n, RowsWritten(env, bytes, g, rows), n)
  {
    hide Evolves, Written;
    if rows == [] {
      StaysSame(env, bytes, n);
    } else {
      var m := |rows| - 1;
      RowsEvolve(env, bytes, n, g, rows[..m]);
      SlabBelow(env, g + m, n);
      WriteEvolves(env, RowsWritten(env, bytes, g, rows[..m]), n, g + m, rows[m]);
      EvolvesOn(env, bytes, n, RowsWritten(env, bytes, g, rows[..m]), n, RowsWritten(env, bytes, g, rows), n);
    }
  }

  /** Appended units and then rows, as inserts and batches leave them. */
  lemma AppendEvolves(env: Env, bytes: seq<byte>, n: nat, n': nat, g: nat, rows: seq<Row>)
    requires env.rps > 0 && n <= n' && g + |rows| <= Times(n', env.rps)
    requires forall i :: 0 <= i < |rows| ==> env.codec.canon(rows[i])
    ensures Evolves(env, bytes, n, RowsWritten(env, Enlarged(env, bytes, n' - n), g, rows), n')
  {
    hide Evolves, RowsWritten, Enlarged;
    GrowthEvolves(env, bytes, n, n' - n);
    RowsEvolve(env, Enlarged(env, bytes, n' - n), n', g, rows);
    EvolvesOn(env, bytes, n, Enlarged(env, bytes, n' - n), n', RowsWritten(env, Enlarged(env, bytes, n' - n), g, rows),
        n');
  }

  // A flushed file opens whatever it evolved into, with the rows flagged by the flush and a next row
  // number no lower; without growth the very same number.
  lemma EvolvedLoads(env: Env, bytes: seq<byte>, was: States, rows: map<nat, Row>, bytes': seq<byte>, n': nat)
    requires LoadsAs(env, bytes, was, rows) && env.rps > 0 && Evolves(env, bytes, |was|, bytes', n')
    ensures exists was', rows' ::
      && LoadsAs(env, bytes', was', rows') && |was'| == n' && rows'.Keys == rows.Keys
      && HighWater(env, was) <= HighWater(env, was') && (n' == |was| ==> HighWater(env, was') == HighWater(env, was))
  {
    hide OnDisk, Consistent, FilledUpTo, HighWater, Possible, AfterEvents, SlabsAfter, StatesAfterAll, RowsAfterAll;
    var evs :| Possible(env, |was|, evs) && SlabsAfter(|was|, evs) == n' && AfterEvents(env, bytes, evs) == bytes';
    CrashLoads(env, bytes, was, rows, evs);
    EventsLoad(env, bytes, was, rows, evs);
    if n' == |was| {
      NoGrowth(env, was, evs);
    }
    assert LoadsAs(env, bytes', StatesAfterAll(env, was, evs), RowsAfterAll(rows, evs));
  }

  /** What opening a file finds. */
  ghost predicate LoadsAs(env: Env, bytes: seq<byte>, was: States, rows: map<nat, Row>) {
    OnDisk(env, bytes, was) && Consistent(env, bytes, was, rows) && FilledUpTo(env, was, |was| - 1)
  }

  lemma {:induction false} NoGrowth(env: Env, was: States, evs: seq<FileEvent>)
    requires SlabsAfter(|was|, evs) == |was|
    ensures StatesAfterAll(env, was, evs) == was
  {
    if evs != [] {
      SlabsGrow(|was|, evs[..|evs| - 1]);
      NoGrowth(env, was, evs[..|evs| - 1]);
    }
  }

  lemma {:induction false} SlabsGrow(n: nat, evs: seq<FileEvent>)
    ensures n <= SlabsAfter(n, evs)
  {
    if evs != [] {
      SlabsGrow(n, evs[..|evs| - 1]);
    }
  }

  // rows live both in what opening finds and in memory read the same: both are the bytes in their slots
  lemma SameBytesSameRows(env: Env, bytes: seq<byte>, a: States, x: map<nat, Row>, b: States, y: map<nat, Row>)
    requires Consistent(env, bytes, a, x) && Consistent(env, bytes, b, y)
    ensures forall g :: g in x && g in y ==> x[g] == y[g]
  {
  }
}
