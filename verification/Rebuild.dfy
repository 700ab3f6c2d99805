/** Writing a whole file from a list of rows: what compaction and creation do. */
module Rebuild {
  import opened Bits
  import opened Values
  import opened Codec
  import opened Layout
  import opened Images
  import opened Slabs
  import opened Persist

  // ---- one unit ---------------------------------------------------------------

  // slots written in the second part of a file leave the first part alone
  lemma {:induction false} WriteSlotsAppend(a: seq<byte>, b: seq<byte>, width: nat, raws: seq<seq<byte>>)
    requires forall i :: 0 <= i < |raws| ==> |raws[i]| == width
    requires Times(|raws|, width) <= |b|
    ensures WriteSlots(a + b, |a|, width, 0, raws) == a + WriteSlots(b, 0, width, 0, raws)
  {
    if raws != [] {
      var n := |raws| - 1;
      WriteSlotsAppend(a, b, width, raws[..n]);
      SpliceAppend(a, WriteSlots(b, 0, width, 0, raws[..n]), Times(n, width), raws[n]);
    }
  }

  lemma SpliceAppend(a: seq<byte>, b: seq<byte>, at: nat, raw: seq<byte>)
    requires at + |raw| <= |b|
    ensures Splice(a + b, |a| + at, raw) == a + Splice(b, at, raw)
  {
  }

  lemma UnitBytes(file: seq<byte>, bitmap: seq<byte>, page: seq<byte>, width: nat, raws: seq<seq<byte>>)
    requires forall i :: 0 <= i < |raws| ==> |raws[i]| == width
    requires Times(|raws|, width) <= |page|
    ensures Put(WriteSlots(file + Zeros(|bitmap|) + page, |file| + |bitmap|, width, 0, raws), |file|, bitmap)
         == file + bitmap + WriteSlots(page, 0, width, 0, raws)
  {
    WriteSlotsAppend(file + Zeros(|bitmap|), page, width, raws);
    var page' := WriteSlots(page, 0, width, 0, raws);
    assert file + Zeros(|bitmap|) + page' == file + (Zeros(|bitmap|) + page');
    SpliceAppend(file, Zeros(|bitmap|) + page', 0, bitmap);
    assert Splice(Zeros(|bitmap|) + page', 0, bitmap) == bitmap + page';
  }

  /** The unit a chunk of rows makes: its bitmap and its page. */
  method BuildUnit(env: Env, k: nat, chunk: seq<Row>) returns (bitmap: seq<byte>, page: seq<byte>)
    requires env.Wf() && env.Lawful() && |chunk| <= env.rps
    requires forall i :: 0 <= i < |chunk| ==> env.codec.canon(chunk[i])
    ensures bitmap == LiveBytes(FilledSlab(env, |chunk|).live)
    ensures Times(|chunk|, env.width) <= env.pageSize
    ensures page ==
      WriteSlots(Zeros(env.pageSize), 0, env.width, 0, RowsEncoded(env, env.PageStart(k), 0, chunk, |chunk|))
  {
    hide Put, Env.Lawful, Env.Wf;
    PageHolds(env, |chunk|);
    bitmap := Zeros(env.rps);
    page := Zeros(env.pageSize);
    for i := 0 to |chunk|
      invariant bitmap == LiveBytes(FilledSlab(env, i).live)
      invariant Times(i, env.width) <= env.pageSize
      invariant page ==
        WriteSlots(Zeros(env.pageSize), 0, env.width, 0, RowsEncoded(env, env.PageStart(k), 0, chunk, i))
    {
      PageHolds(env, i + 1);
      bitmap := bitmap[i := 1];
      var absolute := env.UnitStart(k) + env.rps + Times(i, env.width);
      var raw := env.codec.encode(absolute, chunk[i]);
      PagePush(env, k, chunk, i, raw);
      page := Put(page, Times(i, env.width), raw);
    }
  }

  lemma PageHolds(env: Env, n: nat)
    requires env.Wf() && n <= env.rps
    ensures Times(n, env.width) <= env.pageSize
  {
    if n < env.rps {
      TimesEnd(n, env.rps, env.width);
    }
  }

  lemma PagePush(env: Env, k: nat, chunk: seq<Row>, i: nat, raw: seq<byte>)
    requires env.Lawful() && i < |chunk| && forall j :: 0 <= j < |chunk| ==> env.codec.canon(chunk[j])
    requires raw == env.codec.encode(SlotAt(env, env.PageStart(k), i), chunk[i])
    requires Times(i + 1, env.width) <= env.pageSize
    ensures WriteSlots(Zeros(env.pageSize), 0, env.width, 0, RowsEncoded(env, env.PageStart(k), 0, chunk, i + 1))
         == Put(WriteSlots(Zeros(env.pageSize), 0, env.width, 0, RowsEncoded(env, env.PageStart(k), 0, chunk, i)),
                Times(i, env.width), raw)
  {
    var raws := RowsEncoded(env, env.PageStart(k), 0, chunk, i);
    assert RowsEncoded(env, env.PageStart(k), 0, chunk, i + 1) == raws + [raw];
    WriteSlotsPush(Zeros(env.pageSize), 0, env.width, 0, raws, raw);
  }

  // ---- unit after unit --------------------------------------------------------

  /** A file under construction: whole units, bitmaps in place, rows as in the model. */
  ghost predicate Built(env: Env, file: seq<byte>, states: States, model: map<nat, Row>) {
    && env.Wf() && env.Lawful() && |file| == env.UnitStart(|states|) && WfStates(env, states)
    && model == LiveMap(env, file, states) && (forall g :: g in model ==> env.codec.canon(model[g]))
    && forall k :: 0 <= k < |states| ==> BitmapAt(env, file, k) == LiveBytes(states[k].live)
  }

  function FilledSlab(env: Env, n: nat): SlabState {
    SlabState(n, MarkLive(seq(env.rps, _ => false), 0, n), map[], map[], true)
  }

  // Appending a chunk's unit appends its rows.
  lemma UnitAppended(env: Env, file: seq<byte>, states: States, model: map<nat, Row>, chunk: seq<Row>,
                     bitmap: seq<byte>, page: seq<byte>)
    requires Built(env, file, states, model) && |chunk| <= env.rps
    requires forall i :: 0 <= i < |chunk| ==> env.codec.canon(chunk[i])
    requires bitmap == LiveBytes(FilledSlab(env, |chunk|).live) && Times(|chunk|, env.width) <= env.pageSize
    requires page == WriteSlots(Zeros(env.pageSize), 0, env.width, 0,
                                RowsEncoded(env, env.PageStart(|states|), 0, chunk, |chunk|))
    ensures Built(env, file + bitmap + page, states + [FilledSlab(env, |chunk|)],
                  PutAll(model, Times(|states|, env.rps), chunk))
  {
    UnitRows(env, file, states, model, chunk, bitmap, page);
    BitmapsAppended(env, file, states, bitmap, page, FilledSlab(env, |chunk|));
  }

  lemma UnitRows(env: Env, file: seq<byte>, states: States, model: map<nat, Row>, chunk: seq<Row>,
                 bitmap: seq<byte>, page: seq<byte>)
    requires Built(env, file, states, model) && env.Wf() && env.Lawful() && |file| == env.UnitStart(|states|)
    requires |chunk| <= env.rps && forall i :: 0 <= i < |chunk| ==> env.codec.canon(chunk[i])
    requires bitmap == LiveBytes(FilledSlab(env, |chunk|).live) && Times(|chunk|, env.width) <= env.pageSize
    requires page == WriteSlots(Zeros(env.pageSize), 0, env.width, 0,
                                RowsEncoded(env, env.PageStart(|states|), 0, chunk, |chunk|))
    ensures Consistent(env, file + bitmap + page, states + [FilledSlab(env, |chunk|)],
                       PutAll(model, Times(|states|, env.rps), chunk))
  {
    hide *;
    var k, s := |states|, FilledSlab(env, |chunk|);
    var wide := file + Zeros(env.rps) + Zeros(env.pageSize);
    var states1 := states + [EmptySlab(env)];
    EmptyUnit(env, file, states, model);
    PageInUnit(env, k, |chunk|);
    SlabShapes(env, |chunk|);
    ChunkKeeps(env, wide, states1, model, k, 0, Times(k, env.rps), chunk, |chunk|, s);
    assert chunk[..|chunk|] == chunk;
    BitmapKeepsRows(env, ChunkBytes(env, wide, k, 0, chunk, |chunk|), states1[k := s],
                    PutAll(model, Times(k, env.rps), chunk), k, bitmap);
    assert states1[k := s] == states + [s];
    UnitWritten(env, file, k, chunk, bitmap, page);
  }

  lemma SlabShapes(env: Env, n: nat)
    requires n <= env.rps
    ensures EmptySlab(env).count == 0 && FilledSlab(env, n).count == n
    ensures FilledSlab(env, n).live == MarkLive(EmptySlab(env).live, 0, n)
    ensures |LiveBytes(FilledSlab(env, n).live)| == env.rps
  {
  }

  lemma UnitWritten(env: Env, file: seq<byte>, k: nat, chunk: seq<Row>, bitmap: seq<byte>, page: seq<byte>)
    requires env.Wf() && env.Lawful() && |file| == env.UnitStart(k) && |bitmap| == env.rps
    requires Times(|chunk|, env.width) <= env.pageSize && forall i :: 0 <= i < |chunk| ==> env.codec.canon(chunk[i])
    requires page ==
      WriteSlots(Zeros(env.pageSize), 0, env.width, 0, RowsEncoded(env, env.PageStart(k), 0, chunk, |chunk|))
    ensures var wide := file + Zeros(env.rps) + Zeros(env.pageSize);
      && env.PageStart(k) + Times(0 + |chunk|, env.width) <= |wide|
      && Put(ChunkBytes(env, wide, k, 0, chunk, |chunk|), env.UnitStart(k), bitmap) == file + bitmap + page
  {
    hide *;
    PageInUnit(env, k, |chunk|);
    WideSize(env, file, k);
    var raws := RowsEncoded(env, env.PageStart(k), 0, chunk, |chunk|);
    ChunkOnWide(env, file, k, chunk);
    UnitBytes(file, bitmap, Zeros(env.pageSize), env.width, raws);
  }

  lemma WideSize(env: Env, file: seq<byte>, k: nat)
    requires |file| == env.UnitStart(k)
    ensures |file + Zeros(env.rps) + Zeros(env.pageSize)| == env.UnitStart(k + 1)
  {
    TimesNext(k, env.Unit());
  }

  lemma ChunkOnWide(env: Env, file: seq<byte>, k: nat, chunk: seq<Row>)
    requires env.Lawful() && |file| == env.UnitStart(k) && forall i :: 0 <= i < |chunk| ==> env.codec.canon(chunk[i])
    requires env.PageStart(k) + Times(0 + |chunk|, env.width) <= |file + Zeros(env.rps) + Zeros(env.pageSize)|
    ensures ChunkBytes(env, file + Zeros(env.rps) + Zeros(env.pageSize), k, 0, chunk, |chunk|)
         == WriteSlots(file + Zeros(env.rps) + Zeros(env.pageSize), |file| + env.rps, env.width, 0,
                       RowsEncoded(env, env.PageStart(k), 0, chunk, |chunk|))
  {
  }

  lemma PageInUnit(env: Env, k: nat, n: nat)
    requires env.Wf() && Times(n, env.width) <= env.pageSize
    ensures env.PageStart(k) + Times(0 + n, env.width) <= env.UnitStart(k + 1)
  {
    TimesNext(k, env.Unit());
  }

  lemma EmptyUnit(env: Env, file: seq<byte>, states: States, model: map<nat, Row>)
    requires Built(env, file, states, model)
    ensures Consistent(env, file + Zeros(env.rps) + Zeros(env.pageSize), states + [EmptySlab(env)], model)
    ensures |file + Zeros(env.rps) + Zeros(env.pageSize)| == env.UnitStart(|states| + 1)
  {
    var more := Zeros(env.rps) + Zeros(env.pageSize);
    assert file + Zeros(env.rps) + Zeros(env.pageSize) == file + more;
    GrowRows(env, file, states, more, [EmptySlab(env)]);
    TimesNext(|states|, env.Unit());
  }

  lemma BitmapsAppended(env: Env, file: seq<byte>, states: States, bitmap: seq<byte>, page: seq<byte>, s: SlabState)
    requires |file| == env.UnitStart(|states|) && |bitmap| == env.rps && bitmap == LiveBytes(s.live)
    requires forall k :: 0 <= k < |states| ==> BitmapAt(env, file, k) == LiveBytes(states[k].live)
    ensures forall k :: 0 <= k < |states| + 1 ==>
      BitmapAt(env, file + bitmap + page, k) == LiveBytes((states + [s])[k].live)
  {
    forall k | 0 <= k < |states| + 1
      ensures BitmapAt(env, file + bitmap + page, k) == LiveBytes((states + [s])[k].live)
    {
      var at := env.UnitStart(k);
      if k < |states| {
        BitmapFits(env, k, |states|);
        assert (file + bitmap + page)[at..at + env.rps] == file[at..at + env.rps];
      } else {
        assert (file + bitmap + page)[at..at + env.rps] == bitmap;
      }
    }
  }

  // ---- the whole file -----------------------------------------------------------

  /** max(1, ceil(n / rps)) */
  method SlabsNeeded(env: Env, n: nat) returns (c: nat)
    requires env.Wf()
    ensures c > 0 && LeastSlabs(env, 1, c, n) && Times(c - 1, env.rps) <= n
  {
    var q := (n + env.rps - 1) / env.rps;
    DivModTimes(n + env.rps - 1, env.rps);
    c := if q > 1 then q else 1;
    assert Times(1, env.rps) == env.rps && Times(0, env.rps) == 0;
    if q > 0 {
      TimesNext(q - 1, env.rps);
    }
  }

  method LastCount(env: Env, n: nat, slabCount: nat) returns (lastCount: nat)
    requires env.Wf() && slabCount > 0 && LeastSlabs(env, 1, slabCount, n) && Times(slabCount - 1, env.rps) <= n
    ensures lastCount == n - Times(slabCount - 1, env.rps) && lastCount <= env.rps
  {
    lastCount := n - Times(slabCount - 1, env.rps);
    TimesNext(slabCount - 1, env.rps);
    if n == 0 {
      lastCount := 0;
    } else if lastCount == 0 {
      lastCount := env.rps;
    }
  }

  lemma ChunkFits(env: Env, n: nat, slabCount: nat, k: nat)
    requires LeastSlabs(env, 1, slabCount, n) && k < slabCount && Times(slabCount - 1, env.rps) <= n
    ensures Times(k + 1, env.rps) == Times(k, env.rps) + env.rps
    ensures k < slabCount - 1 ==> Times(k, env.rps) + env.rps <= n
    ensures k == slabCount - 1 ==> Times(k, env.rps) <= n <= Times(k, env.rps) + env.rps
  {
    if k < slabCount - 1 {
      TimesEnd(k, slabCount - 1, env.rps);
    }
  }

  lemma FirstUnit(env: Env, file: seq<byte>, rows: seq<Row>)
    requires env.Wf() && env.Lawful() && |file| == env.schemaOffset
    ensures Built(env, file, [], PutAll(map[], 0, rows[..0])) && env.rps > 0 && Times(0, env.rps) == 0
    ensures |file| >= HEADER_SIZE
  {
    LiveMapIs(env, file, [], map[]);
    assert rows[..0] == [];
  }

  lemma Finished(env: Env, file: seq<byte>, states: States, rows: seq<Row>, n: nat, lastCount: nat)
    requires Built(env, file, states, PutAll(map[], 0, rows)) && |states| == n > 0 && HeaderFitsEnv(env)
    requires |file| >= HEADER_SIZE
    requires file[..HEADER_SIZE] == PackHeader(Header(env.pageSize, lastCount, env.schemaOffset))
    requires forall i :: 0 <= i < n ==> states[i].count == if i < n - 1 then env.rps else lastCount
    requires lastCount == |rows| - Times(n - 1, env.rps) && lastCount <= env.rps
    ensures OnDisk(env, file, states) && Consistent(env, file, states, PutAll(map[], 0, rows))
    ensures FilledUpTo(env, states, |states| - 1) && HighWater(env, states) == |rows|
  {
    CountFitsHeader(env, lastCount);
    HeaderRoundTrip(Header(env.pageSize, lastCount, env.schemaOffset));
  }

  /** Units for consecutive chunks of rows, all but the last one full. */
  method CompactFile(env: Env, schemaJson: seq<byte>, rows: seq<Row>) returns (file: seq<byte>, ghost states: States)
    requires env.Wf() && env.Lawful() && HeaderFitsEnv(env) && HEADER_SIZE + |schemaJson| == env.schemaOffset
    requires forall i :: 0 <= i < |rows| ==> env.codec.canon(rows[i])
    ensures OnDisk(env, file, states) && Consistent(env, file, states, PutAll(map[], 0, rows))
    ensures FilledUpTo(env, states, |states| - 1) && HighWater(env, states) == |rows|
    ensures LeastSlabs(env, 1, |states|, |rows|)
  {
    hide *;
    var n := |rows|;
    var slabCount := SlabsNeeded(env, n);
    var lastCount := LastCount(env, n, slabCount);
    ghost var head := PackHeader(Header(env.pageSize, lastCount, env.schemaOffset));
    file := PackHeader(Header(env.pageSize, lastCount, env.schemaOffset)) + schemaJson;
    states := [];
    FirstUnit(env, file, rows);
    var pos := 0;
    for k := 0 to slabCount
      invariant |states| == k && pos == (if k < slabCount then Times(k, env.rps) else n) && pos <= n
      invariant Built(env, file, states, PutAll(map[], 0, rows[..pos])) && |file| >= HEADER_SIZE
      invariant file[..HEADER_SIZE] == head
      invariant forall i :: 0 <= i < k ==> states[i].count == if i < slabCount - 1 then env.rps else lastCount
    {
      ChunkFits(env, n, slabCount, k);
      var end := if k < slabCount - 1 then pos + env.rps else n;
      var chunk := rows[pos..end];
      var bitmap, page := BuildUnit(env, k, chunk);
      UnitAppended(env, file, states, PutAll(map[], 0, rows[..pos]), chunk, bitmap, page);
      PutAllAppend(map[], 0, rows[..pos], chunk);
      assert rows[..end] == rows[..pos] + chunk;
      SlabShapes(env, |chunk|);
      file := file + bitmap + page;
      states := states + [FilledSlab(env, |chunk|)];
      pos := end;
    }
    assert rows[..n] == rows;
    Finished(env, file, states, rows, slabCount, lastCount);
  }
}
