/** The write-ahead log: buffering, transactions, replay, parsing and netting. */
module Wals {
  import opened Values

  datatype Rec =
    | Begin(txid: int)
    | Commit(txid: int)
    | Rollback(txid: int)
    | Insert(idx: nat, row: Row)
    | Update(idx: nat, row: Row)
    | Delete(idx: nat)
  {
    /** A row operation, as opposed to a transaction mark. */
    predicate IsOp() { Insert? || Update? || Delete? }
  }

  type Log = seq<Rec>

  // ---- the log file -----------------------------------------------------------

  /** A line read back from the file: a record, nothing, or the torn end of a crashed write. */
  datatype Line = Whole(rec: Rec) | Blank | Torn

  /** The records before the first torn line. */
  function WholePrefix(lines: seq<Line>): Log {
    if lines == [] || lines[0].Torn? then []
    else (if lines[0].Whole? then [lines[0].rec] else []) + WholePrefix(lines[1..])
  }

  // A cut in the middle of a record loses that record and nothing before it.
  lemma {:induction false} TornEnd(log: Log, lines: seq<Line>, rest: seq<Line>)
    requires lines == seq(|log|, i requires 0 <= i < |log| => Whole(log[i])) + [Torn] + rest
    ensures WholePrefix(lines) == log
  {
    if log == [] {
      assert lines[0] == Torn;
    } else {
      assert lines[0] == Whole(log[0]);
      TornEnd(log[1..], lines[1..], rest);
    }
  }

  /** The log file: its lines, and whether the last of them ends in a newline. */
  datatype LogFile = LogFile(lines: seq<Line>, ended: bool)

  const NO_LOG := LogFile([], true)

  /** A record written on behind an unfinished line becomes part of it, and what results is not a record. */
  function Joined(last: Line, rec: Rec): Line { if last.Blank? then Whole(rec) else Torn }

  /** The file is opened for appending: nothing parts a record from an unfinished last line. */
  function WriteRecord(f: LogFile, rec: Rec): LogFile {
    if f.ended || f.lines == [] then LogFile(f.lines + [Whole(rec)], true)
    else
      var n := |f.lines| - 1;
      LogFile(f.lines[..n] + [Joined(f.lines[n], rec)], true)
  }

  function WriteRecords(f: LogFile, recs: Log): LogFile {
    if recs == [] then f else WriteRecord(WriteRecords(f, recs[..|recs| - 1]), recs[|recs| - 1])
  }

  lemma WritePush(f: LogFile, recs: Log, rec: Rec)
    ensures WriteRecords(f, recs + [rec]) == WriteRecord(WriteRecords(f, recs), rec)
  {
    assert (recs + [rec])[..|recs|] == recs;
  }

  /** What is appended to the file is read back: no line is torn, and the last one is finished or blank. */
  predicate Sound(f: LogFile) {
    Torn !in f.lines && (f.ended || f.lines == [] || f.lines[|f.lines| - 1].Blank?)
  }

  const BUFFER_SIZE: nat := 100

  class Wal {
    var buffer: Log
    var file: LogFile
    var txid: int
    var inTx: bool

    /** The file when the log was opened or last cleared, and all records appended since. */
    ghost var found: LogFile
    ghost var log: Log

    /** The file holds all records but the buffered ones. */
    ghost predicate Valid()
      reads this
    {
      && |buffer| <= |log| && log == log[..|log| - |buffer|] + buffer
      && file == WriteRecords(found, log[..|log| - |buffer|])
    }

    constructor ()
      ensures Valid() && Records() == [] && file == found == NO_LOG && buffer == [] && !inTx
    {
      buffer, file, txid, inTx := [], NO_LOG, 0, false;
      found, log := NO_LOG, [];
    }

    /** The log found on opening the database. */
    constructor Open(f: LogFile)
      ensures Valid() && Records() == [] && file == found == f && buffer == [] && !inTx
    {
      buffer, file, txid, inTx := [], f, 0, false;
      found, log := f, [];
    }

    /** Everything appended since the log was opened or cleared, on disk or still buffered. */
    ghost function Records(): Log
      reads this
    {
      log
    }

    method Flush()
      requires Valid()
      modifies `file, `buffer
      ensures Valid() && file == WriteRecords(found, Records()) && buffer == []
    {
      if |buffer| > 0 {
        ghost var n := |log| - |buffer|;
        for i := 0 to |buffer|
          invariant buffer == old(buffer) && file == WriteRecords(found, log[..n + i])
        {
          assert log[..n + i + 1] == log[..n + i] + [buffer[i]];
          WritePush(found, log[..n + i], buffer[i]);
          file := WriteRecord(file, buffer[i]);
        }
        assert log[..|log|] == log;
        buffer := [];
      }
      assert log[..|log|] == log;
    }

    /** What is on disk stays there: the file is as before, or holds everything. */
    method Append(rec: Rec)
      requires Valid()
      modifies `file, `buffer, `log
      ensures Valid() && Records() == old(Records()) + [rec] && |buffer| <= |old(buffer)| + 1
      ensures file == old(file) || file == WriteRecords(found, Records())
      ensures if |old(buffer)| >= 99 then buffer == [] && file == WriteRecords(found, Records())
        else buffer == old(buffer) + [rec] && file == old(file)
    {
      assert old(log)[..|log| - |buffer|] == (log + [rec])[..|log| - |buffer|];
      buffer := buffer + [rec];
      log := log + [rec];
      if |buffer| >= BUFFER_SIZE {
        Flush();
      }
    }

    method BeginTx()
      requires Valid()
      modifies `file, `buffer, `log, `txid, `inTx
      ensures Valid() && inTx && txid == old(txid) + 1 && Records() == old(Records()) + [Begin(txid)]
      ensures |buffer| <= |old(buffer)| + 1
    {
      txid := txid + 1;
      inTx := true;
      Append(Begin(txid));
    }

    /** After a commit everything up to its record is on disk. */
    method CommitTx()
      requires Valid()
      modifies `file, `buffer, `log, `inTx
      ensures Valid() && !inTx && Records() == old(Records()) + (if old(inTx) then [Commit(txid)] else [])
      ensures old(inTx) ==> file == WriteRecords(found, Records()) && buffer == []
    {
      if inTx {
        Append(Commit(txid));
        Flush();
        inTx := false;
      }
    }

    method RollbackTx()
      requires Valid()
      modifies `file, `buffer, `log, `inTx
      ensures Valid() && !inTx && Records() == old(Records()) + (if old(inTx) then [Rollback(txid)] else [])
      ensures old(inTx) ==> file == WriteRecords(found, Records()) && buffer == []
    {
      if inTx {
        Append(Rollback(txid));
        Flush();
        inTx := false;
      }
    }

    /** Rollback's last step: what is still buffered is forgotten. */
    method DropBuffer()
      requires Valid()
      modifies `buffer, `log
      ensures Valid() && buffer == [] && Records() == old(Records()[..|Records()| - |buffer|])
    {
      log := log[..|log| - |buffer|];
      buffer := [];
      assert log[..|log|] == log;
    }

    method Clear()
      requires Valid()
      modifies `file, `buffer, `found, `log
      ensures Valid() && Records() == [] && file == found == NO_LOG && buffer == []
    {
      Flush();
      file := NO_LOG;
      found, log := NO_LOG, [];
    }
  }

  /** replay(): the records of the file's lines, up to the first torn one. */
  method Replay(lines: seq<Line>) returns (log: Log)
    ensures log == WholePrefix(lines)
  {
    log := [];
    var i := 0;
    while i < |lines|
      invariant 0 <= i <= |lines| && log + WholePrefix(lines[i..]) == WholePrefix(lines)
    {
      assert lines[i..][1..] == lines[i + 1..];
      match lines[i] {
        case Torn => return;
        case Blank =>
        case Whole(rec) => log := log + [rec];
      }
      i := i + 1;
    }
  }

  // ---- what a reopened log keeps ----------------------------------------------

  lemma {:induction false} PrefixPush(lines: seq<Line>, line: Line)
    ensures WholePrefix(lines + [line]) ==
      WholePrefix(lines) + (if Torn !in lines && line.Whole? then [line.rec] else [])
  {
    if lines == [] {
      assert [line][1..] == [];
    } else {
      assert (lines + [line])[1..] == lines[1..] + [line];
      if !lines[0].Torn? {
        PrefixPush(lines[1..], line);
        assert Torn in lines <==> Torn in lines[1..];
      }
    }
  }

  // What is appended to a sound log is read back; what is appended to any other never is.
  lemma {:induction false} ReadBack(f: LogFile, recs: Log)
    ensures Sound(f) ==>
      Sound(WriteRecords(f, recs)) && WholePrefix(WriteRecords(f, recs).lines) == WholePrefix(f.lines) + recs
    ensures !Sound(f) && recs != [] ==>
      var g := WriteRecords(f, recs);
      g.ended && Torn in g.lines && WholePrefix(g.lines) == WholePrefix(f.lines[..|f.lines| - 1])
  {
    if recs == [] {
      assert WholePrefix(f.lines) + recs == WholePrefix(f.lines);
    } else {
      var front, rec := recs[..|recs| - 1], recs[|recs| - 1];
      ReadBack(f, front);
      OneMore(WriteRecords(f, front), rec);
      assert recs == front + [rec];
    }
  }

  lemma OneMore(f: LogFile, rec: Rec)
    ensures Sound(f) ==>
      Sound(WriteRecord(f, rec)) && WholePrefix(WriteRecord(f, rec).lines) == WholePrefix(f.lines) + [rec]
    ensures !Sound(f) ==>
      var g := WriteRecord(f, rec);
      g.ended && Torn in g.lines && WholePrefix(g.lines) == WholePrefix(f.lines[..|f.lines| - 1])
      && (f.ended ==> WholePrefix(g.lines) == WholePrefix(f.lines))
  {
    if f.lines == [] {
      PrefixPush([], Whole(rec));
    } else {
      var n := |f.lines| - 1;
      var (front, last) := (f.lines[..n], f.lines[n]);
      assert f.lines == front + [last];
      PrefixPush(front, last);
      PrefixPush(front, Joined(last, rec));
      PrefixPush(f.lines, Whole(rec));
      assert Torn in f.lines <==> Torn in front || last == Torn;
    }
  }

  // ---- parsing ----------------------------------------------------------------

  datatype Parse = Parse(pending: Log, committed: Log)

  function ParseStep(p: Parse, rec: Rec): Parse {
    match rec
    case Begin(_) => Parse([], p.committed)
    case Commit(_) => Parse([], p.committed + p.pending)
    case Rollback(_) => Parse([], p.committed)
    case _ => Parse(p.pending + [rec], p.committed)
  }

  function ParseLog(log: Log, p: Parse): Parse {
    if log == [] then p else ParseLog(log[1..], ParseStep(p, log[0]))
  }

  /** The committed operations of a log, as recovery collects them. */
  method CollectCommitted(log: Log) returns (committed: Log)
    ensures committed == ParseLog(log, Parse([], [])).committed
  {
    var pending: Log := [];
    committed := [];
    for i := 0 to |log|
      invariant ParseLog(log, Parse([], [])) == ParseLog(log[i..], Parse(pending, committed))
    {
      assert log[i..][1..] == log[i + 1..];
      match log[i] {
        case Begin(_) => pending := [];
        case Commit(_) => committed := committed + pending; pending := [];
        case Rollback(_) => pending := [];
        case _ => pending := pending + [log[i]];
      }
    }
  }

  /** What one transaction writes; one cut off before its end record has none. */
  datatype End = Committed | RolledBack | CutOff

  datatype Tx = Tx(txid: int, ops: Log, end: End)

  ghost predicate WfTx(t: Tx) { forall i :: 0 <= i < |t.ops| ==> t.ops[i].IsOp() }

  function EndRecord(t: Tx): Log {
    match t.end
    case Committed => [Commit(t.txid)]
    case RolledBack => [Rollback(t.txid)]
    case CutOff => []
  }

  function TxRecords(t: Tx): Log { [Begin(t.txid)] + t.ops + EndRecord(t) }

  function Flatten(txs: seq<Tx>): Log { if txs == [] then [] else TxRecords(txs[0]) + Flatten(txs[1..]) }

  /** The operations of the committed transactions, in order. */
  function CommittedOps(txs: seq<Tx>): Log {
    if txs == [] then [] else (if txs[0].end == Committed then txs[0].ops else []) + CommittedOps(txs[1..])
  }

  lemma FirstTx(txs: seq<Tx>)
    ensures txs == [] ==> Flatten(txs) == [] == CommittedOps(txs)
    ensures txs != [] ==> Flatten(txs) == TxRecords(txs[0]) + Flatten(txs[1..])
    ensures txs != [] ==>
      CommittedOps(txs) == (if txs[0].end == Committed then txs[0].ops else []) + CommittedOps(txs[1..])
  {
  }

  lemma {:induction false} FlattenPush(txs: seq<Tx>, t: Tx)
    ensures Flatten(txs + [t]) == Flatten(txs) + TxRecords(t)
    ensures CommittedOps(txs + [t]) == CommittedOps(txs) + (if t.end == Committed then t.ops else [])
  {
    hide TxRecords;
    if txs == [] {
      assert (txs + [t])[1..] == [];
    } else {
      assert (txs + [t])[1..] == txs[1..] + [t];
      FlattenPush(txs[1..], t);
    }
  }

  lemma {:induction false} ParseAppend(a: Log, b: Log, p: Parse)
    ensures ParseLog(a + b, p) == ParseLog(b, ParseLog(a, p))
  {
    if a == [] {
      assert a + b == b;
    } else {
      assert (a + b)[1..] == a[1..] + b;
      ParseAppend(a[1..], b, ParseStep(p, a[0]));
    }
  }

  lemma ParseNone(p: Parse)
    ensures ParseLog([], p) == p
  {
  }

  lemma {:induction false} ParseOps(ops: Log, p: Parse)
    requires forall i :: 0 <= i < |ops| ==> ops[i].IsOp()
    ensures ParseLog(ops, p) == Parse(p.pending + ops, p.committed)
  {
    if ops != [] {
      ParseOps(ops[1..], ParseStep(p, ops[0]));
      assert p.pending + [ops[0]] + ops[1..] == p.pending + ops;
    } else {
      assert p.pending + ops == p.pending;
    }
  }

  // one transaction adds its operations exactly when it committed
  lemma ParseTx(t: Tx, p: Parse)
    requires WfTx(t)
    ensures ParseLog(TxRecords(t), p).committed == p.committed + (if t.end == Committed then t.ops else [])
  {
    var start := ParseStep(p, Begin(t.txid));
    assert TxRecords(t)[1..] == t.ops + EndRecord(t);
    ParseAppend(t.ops, EndRecord(t), start);
    ParseOps(t.ops, start);
    var mid := ParseLog(t.ops, start);
    assert mid.pending == t.ops;
    if t.end != CutOff {
      assert EndRecord(t)[1..] == [];
      assert ParseLog(EndRecord(t), mid) == ParseStep(mid, EndRecord(t)[0]);
    }
  }

  lemma {:induction false} ParseTxs(txs: seq<Tx>, p: Parse)
    requires forall i :: 0 <= i < |txs| ==> WfTx(txs[i])
    ensures ParseLog(Flatten(txs), p).committed == p.committed + CommittedOps(txs)
  {
    hide ParseLog, ParseStep, TxRecords, EndRecord, Flatten, CommittedOps, WfTx;
    ParseNone(p);
    FirstTx(txs);
    if txs != [] {
      var next := ParseLog(TxRecords(txs[0]), p);
      ParseAppend(TxRecords(txs[0]), Flatten(txs[1..]), p);
      ParseTx(txs[0], p);
      ParseTxs(txs[1..], next);
    }
  }

  /** What survives of a transaction sequence when its log is cut after k records. */
  function CutTxs(txs: seq<Tx>, k: nat): seq<Tx> {
    if txs == [] || k == 0 then []
    else if k >= |TxRecords(txs[0])| then [txs[0]] + CutTxs(txs[1..], k - |TxRecords(txs[0])|)
    else
      var kept := if k - 1 <= |txs[0].ops| then k - 1 else |txs[0].ops|;
      [Tx(txs[0].txid, txs[0].ops[..kept], CutOff)]
  }

  lemma {:induction false} CutIsPrefix(txs: seq<Tx>, k: nat)
    requires k <= |Flatten(txs)| && forall i :: 0 <= i < |txs| ==> WfTx(txs[i])
    ensures Flatten(CutTxs(txs, k)) == Flatten(txs)[..k]
    ensures forall i :: 0 <= i < |CutTxs(txs, k)| ==> WfTx(CutTxs(txs, k)[i])
  {
    if txs != [] && k > 0 {
      if k >= |TxRecords(txs[0])| {
        CutIsPrefix(txs[1..], k - |TxRecords(txs[0])|);
        CutAfter(txs, k);
      } else {
        CutInside(txs, k);
      }
    }
  }

  // a cut inside the last transaction, commit record and all, leaves the ones before it
  lemma {:induction false} CutInLast(txs: seq<Tx>, t: Tx, k: nat)
    requires |Flatten(txs)| <= k <= |Flatten(txs + [t])| && t.end == Committed
    ensures CommittedOps(CutTxs(txs + [t], k)) == CommittedOps(if k < |Flatten(txs + [t])| then txs else txs + [t])
  {
    FlattenPush(txs, t);
    if txs == [] {
      var cut := CutTxs([t], k);
      assert txs + [t] == [t] && [t][1..] == [] && Flatten([t]) == TxRecords(t);
      assert cut != [] ==> cut[1..] == [];
    } else {
      hide TxRecords;
      var n := |TxRecords(txs[0])|;
      assert (txs + [t])[1..] == txs[1..] + [t] && (txs + [t])[0] == txs[0];
      FlattenPush(txs[1..], t);
      Counted(txs[0]);
      CutInLast(txs[1..], t, k - n);
      assert CutTxs(txs + [t], k)[1..] == CutTxs(txs[1..] + [t], k - n);
    }
  }

  lemma Counted(t: Tx)
    ensures |TxRecords(t)| > 0
  {
  }

  lemma CutAfter(txs: seq<Tx>, k: nat)
    requires txs != [] && 0 < k <= |Flatten(txs)| && k >= |TxRecords(txs[0])|
    requires Flatten(CutTxs(txs[1..], k - |TxRecords(txs[0])|)) == Flatten(txs[1..])[..k - |TxRecords(txs[0])|]
    ensures Flatten(CutTxs(txs, k)) == Flatten(txs)[..k]
  {
    hide TxRecords;
    var r := TxRecords(txs[0]);
    assert CutTxs(txs, k)[1..] == CutTxs(txs[1..], k - |r|);
    assert (r + Flatten(txs[1..]))[..k] == r + Flatten(txs[1..])[..k - |r|];
  }

  lemma CutInside(txs: seq<Tx>, k: nat)
    requires txs != [] && 0 < k < |TxRecords(txs[0])| && WfTx(txs[0])
    ensures k <= |Flatten(txs)| && Flatten(CutTxs(txs, k)) == Flatten(txs)[..k]
    ensures forall i :: 0 <= i < |CutTxs(txs, k)| ==> WfTx(CutTxs(txs, k)[i])
  {
    var cut := CutTxs(txs, k);
    assert cut[1..] == [];
    assert Flatten(cut) == TxRecords(cut[0]);
    assert (TxRecords(txs[0]) + Flatten(txs[1..]))[..k] == TxRecords(txs[0])[..k];
  }

  // For any cut of the log, recovery collects exactly the operations of the transactions
  // whose commit record survived the cut, in order.
  lemma CommittedExactly(txs: seq<Tx>, k: nat)
    requires k <= |Flatten(txs)| && forall i :: 0 <= i < |txs| ==> WfTx(txs[i])
    ensures ParseLog(Flatten(txs)[..k], Parse([], [])).committed == CommittedOps(CutTxs(txs, k))
    ensures CommittedOps(CutTxs(txs, k)) <= CommittedOps(txs)
  {
    CutIsPrefix(txs, k);
    ParseTxs(CutTxs(txs, k), Parse([], []));
    CutIsEarlier(txs, k);
  }

  lemma {:induction false} CutIsEarlier(txs: seq<Tx>, k: nat)
    ensures CommittedOps(CutTxs(txs, k)) <= CommittedOps(txs)
  {
    hide TxRecords;
    if txs != [] && k > 0 {
      var n := |TxRecords(txs[0])|;
      if k >= n {
        CutIsEarlier(txs[1..], k - n);
        assert CutTxs(txs, k) == [txs[0]] + CutTxs(txs[1..], k - n);
        assert CutTxs(txs, k)[1..] == CutTxs(txs[1..], k - n);
      } else {
        assert CutTxs(txs, k)[0].end == CutOff && CutTxs(txs, k)[1..] == [];
      }
    }
  }

  /** The committed operations of a log file, as recovery collects them. */
  function CommittedIn(lines: seq<Line>): Log { ParseLog(WholePrefix(lines), Parse([], [])).committed }

  lemma {:induction false} CommittedGrows(log: Log, p: Parse)
    ensures p.committed <= ParseLog(log, p).committed
  {
    if log != [] {
      CommittedGrows(log[1..], ParseStep(p, log[0]));
    }
  }

  lemma {:induction false} PrefixOfPrefix(lines: seq<Line>, n: nat)
    requires n <= |lines|
    ensures WholePrefix(lines[..n]) <= WholePrefix(lines)
  {
    if n == |lines| {
      assert lines[..n] == lines;
    } else {
      var front := lines[..|lines| - 1];
      assert front[..n] == lines[..n] && lines == front + [lines[|lines| - 1]];
      PrefixOfPrefix(front, n);
      PrefixPush(front, lines[|lines| - 1]);
    }
  }

  // The transactions written to a log that was opened with nothing committed in it, and hence not
  // cleared: the next recovery collects them all if the log was sound, and none of them otherwise.
  lemma AfterReopening(found: LogFile, txs: seq<Tx>)
    requires CommittedIn(found.lines) == [] && forall i :: 0 <= i < |txs| ==> WfTx(txs[i])
    ensures var after := CommittedIn(WriteRecords(found, Flatten(txs)).lines);
      after == (if Sound(found) then CommittedOps(txs) else []) &&
      (after == CommittedOps(txs) <==> Sound(found) || CommittedOps(txs) == [])
  {
    hide WriteRecords, ParseLog, Flatten, CommittedOps, WholePrefix;
    ReadBack(found, Flatten(txs));
    if Sound(found) {
      ParseAppend(WholePrefix(found.lines), Flatten(txs), Parse([], []));
      ParseTxs(txs, ParseLog(WholePrefix(found.lines), Parse([], [])));
    } else if Flatten(txs) == [] {
      NothingWritten(found, txs);
    } else {
      PrefixOfPrefix(found.lines, |found.lines| - 1);
      var (a, b) := (WholePrefix(found.lines[..|found.lines| - 1]), WholePrefix(found.lines));
      assert b == a + b[|a|..];
      ParseAppend(a, b[|a|..], Parse([], []));
      CommittedGrows(b[|a|..], ParseLog(a, Parse([], [])));
    }
  }

  lemma NothingWritten(found: LogFile, txs: seq<Tx>)
    requires Flatten(txs) == []
    ensures WriteRecords(found, Flatten(txs)) == found && CommittedOps(txs) == []
  {
  }

  // A crash in the middle of the second record of the log leaves one whole line and a torn one; nothing
  // is committed, so opening does not clear them, and the transaction committed next is never found.
  lemma CommitBehindTornLine(row: Row)
    ensures var found := LogFile([Whole(Begin(1)), Torn], false);
      var txs := [Tx(1, [Insert(0, row)], Committed)];
      CommittedIn(found.lines) == [] && CommittedOps(txs) == [Insert(0, row)]
      && CommittedIn(WriteRecords(found, Flatten(txs)).lines) == []
  {
    var lines := [Whole(Begin(1)), Torn];
    assert lines[1..] == [Torn];
    assert WholePrefix(lines) == [Begin(1)];
    assert [Begin(1)][1..] == [];
    var tx := Tx(1, [Insert(0, row)], Committed);
    assert [tx][1..] == [];
    assert CommittedOps([tx]) == [Insert(0, row)];
    assert Torn in lines;
    AfterReopening(LogFile(lines, false), [tx]);
  }

  // ---- netting ----------------------------------------------------------------

  predicate NotAbout(rec: Rec, idx: nat) { !rec.IsOp() || rec.idx != idx }

  /** The records that are not about row idx. */
  function Without(recs: Log, idx: nat): Log {
    if recs == [] then []
    else Without(recs[..|recs| - 1], idx) + (if NotAbout(recs[|recs| - 1], idx) then [recs[|recs| - 1]] else [])
  }

  /** Drops, at every delete, the earlier records of the same row. */
  function Net(recs: Log): Log {
    if recs == [] then []
    else
      var front, rec := Net(recs[..|recs| - 1]), recs[|recs| - 1];
      (if rec.Delete? then Without(front, rec.idx) else front) + [rec]
  }

  method NetRecords(committed: Log) returns (netted: Log)
    ensures netted == Net(committed)
  {
    netted := [];
    for i := 0 to |committed|
      invariant netted == Net(committed[..i])
    {
      assert committed[..i + 1][..i] == committed[..i];
      if committed[i].Delete? {
        netted := FilterOut(netted, committed[i].idx);
      }
      netted := netted + [committed[i]];
    }
    assert committed[..|committed|] == committed;
  }

  method FilterOut(recs: Log, idx: nat) returns (out: Log)
    ensures out == Without(recs, idx)
  {
    out := [];
    for i := 0 to |recs|
      invariant out == Without(recs[..i], idx)
    {
      assert recs[..i + 1][..i] == recs[..i];
      if NotAbout(recs[i], idx) {
        out := out + [recs[i]];
      }
    }
    assert recs[..|recs|] == recs;
  }

  /** One operation on the row map. */
  function ApplyOne(m: map<nat, Row>, rec: Rec): map<nat, Row> {
    match rec
    case Insert(i, row) => m[i := row]
    case Update(i, row) => if i in m then m[i := row] else m
    case Delete(i) => m - {i}
    case _ => m
  }

  function Apply(m: map<nat, Row>, recs: Log): map<nat, Row> {
    if recs == [] then m else ApplyOne(Apply(m, recs[..|recs| - 1]), recs[|recs| - 1])
  }

  ghost predicate SameExcept(a: map<nat, Row>, b: map<nat, Row>, idx: nat) {
    forall i :: i != idx ==> (i in a <==> i in b) && (i in a ==> a[i] == b[i])
  }

  // the records of one row matter to that row only
  lemma {:induction false} WithoutSame(m: map<nat, Row>, recs: Log, idx: nat)
    ensures SameExcept(Apply(m, Without(recs, idx)), Apply(m, recs), idx)
  {
    if recs != [] {
      var front, rec := recs[..|recs| - 1], recs[|recs| - 1];
      WithoutSame(m, front, idx);
      var a, b := Apply(m, Without(front, idx)), Apply(m, front);
      if NotAbout(rec, idx) {
        assert (Without(front, idx) + [rec])[..|Without(front, idx)|] == Without(front, idx);
        assert Apply(m, Without(recs, idx)) == ApplyOne(a, rec);
        StepSame(a, b, rec, idx);
      } else {
        assert Without(recs, idx) == Without(front, idx);
      }
    }
  }

  lemma StepSame(a: map<nat, Row>, b: map<nat, Row>, rec: Rec, idx: nat)
    requires SameExcept(a, b, idx) && NotAbout(rec, idx)
    ensures SameExcept(ApplyOne(a, rec), ApplyOne(b, rec), idx)
  {
  }

  // Netting changes nothing: from any rows, the netted list leads to the same rows.
  lemma {:induction false} NetSame(m: map<nat, Row>, recs: Log)
    ensures Apply(m, Net(recs)) == Apply(m, recs)
  {
    if recs != [] {
      NetSame(m, recs[..|recs| - 1]);
      NetStep(m, recs);
    }
  }

  lemma NetStep(m: map<nat, Row>, recs: Log)
    requires recs != [] && Apply(m, Net(recs[..|recs| - 1])) == Apply(m, recs[..|recs| - 1])
    ensures Apply(m, Net(recs)) == Apply(m, recs)
  {
    hide Without, SameExcept;
    var front, rec := Net(recs[..|recs| - 1]), recs[|recs| - 1];
    var kept := if rec.Delete? then Without(front, rec.idx) else front;
    assert (kept + [rec])[..|kept|] == kept;
    if rec.Delete? {
      WithoutSame(m, front, rec.idx);
      SameOnceDeleted(Apply(m, kept), Apply(m, front), rec.idx);
    }
  }

  lemma SameOnceDeleted(a: map<nat, Row>, b: map<nat, Row>, idx: nat)
    requires SameExcept(a, b, idx)
    ensures a - {idx} == b - {idx}
  {
  }
}
