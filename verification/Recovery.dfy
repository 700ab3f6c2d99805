/** What replaying the log after a crash does to the rows, and exactly when that restores them. */
module Recovery {
  import opened Values
  import opened UniqueKeys
  import W = Wals

  // ---- a run of row operations ----------------------------------------------

  /** The live rows and the next row number to be handed out. */
  datatype Image = Image(rows: map<nat, Row>, next: nat)

  function NextAfter(next: nat, rec: W.Rec): nat { if rec.Insert? then rec.idx + 1 else next }

  function Step(s: Image, rec: W.Rec): Image { Image(W.ApplyOne(s.rows, rec), NextAfter(s.next, rec)) }

  /** A logged operation the store carried out: an insert at a fresh number (numbers burnt by
      rolled-back inserts are skipped), an update or delete of a live row. */
  ghost predicate Legal(s: Image, rec: W.Rec) {
    match rec
    case Insert(i, _) => i >= s.next
    case Update(i, _) => i in s.rows
    case Delete(i) => i in s.rows
    case _ => false
  }

  function Run(s: Image, recs: W.Log): Image {
    if recs == [] then s else Step(Run(s, recs[..|recs| - 1]), recs[|recs| - 1])
  }

  /** Operations carried out one after the other, the unique columns respected throughout. */
  ghost predicate LegalRun(s: Image, recs: W.Log, cols: seq<Col>) {
    if recs == [] then (forall i :: i in s.rows ==> i < s.next) && Distinct(s.rows, cols)
    else
      && LegalRun(s, recs[..|recs| - 1], cols) && Legal(Run(s, recs[..|recs| - 1]), recs[|recs| - 1])
      && Distinct(Run(s, recs).rows, cols)
  }

  lemma RunPush(s: Image, recs: W.Log, rec: W.Rec, cols: seq<Col>)
    ensures Run(s, recs + [rec]) == Step(Run(s, recs), rec)
    ensures LegalRun(s, recs + [rec], cols) <==>
      LegalRun(s, recs, cols) && Legal(Run(s, recs), rec) && Distinct(Run(s, recs + [rec]).rows, cols)
  {
    assert (recs + [rec])[..|recs|] == recs;
  }

  lemma {:induction false} RunAppend(s: Image, a: W.Log, b: W.Log)
    ensures Run(s, a + b) == Run(Run(s, a), b)
  {
    if b == [] {
      assert a + b == a;
    } else {
      var n := |b| - 1;
      assert (a + b)[..|a| + n] == a + b[..n];
      RunAppend(s, a, b[..n]);
    }
  }

  // A run goes on from where another one ended, though numbers may have been burnt in between.
  lemma {:induction false} RunJoin(s: Image, a: W.Log, t: Image, b: W.Log, cols: seq<Col>)
    requires LegalRun(s, a, cols) && LegalRun(t, b, cols) && Run(s, a).rows == t.rows && Run(s, a).next <= t.next
    ensures LegalRun(s, a + b, cols)
    ensures Run(s, a + b).rows == Run(t, b).rows && Run(s, a + b).next <= Run(t, b).next
  {
    if b == [] {
      assert a + b == a;
    } else {
      var front, rec := b[..|b| - 1], b[|b| - 1];
      RunJoin(s, a, t, front, cols);
      assert a + b == (a + front) + [rec];
      RunPush(s, a + front, rec, cols);
    }
  }

  lemma {:induction false} RunIsApply(s: Image, recs: W.Log)
    ensures Run(s, recs).rows == W.Apply(s.rows, recs)
  {
    if recs != [] {
      RunIsApply(s, recs[..|recs| - 1]);
    }
  }

  lemma {:induction false} RunPrefix(s: Image, recs: W.Log, cols: seq<Col>, k: nat)
    requires LegalRun(s, recs, cols) && k <= |recs|
    ensures LegalRun(s, recs[..k], cols)
    ensures k < |recs| ==>
      Legal(Run(s, recs[..k]), recs[k]) && Run(s, recs[..k + 1]) == Step(Run(s, recs[..k]), recs[k])
    ensures k < |recs| ==> Distinct(Run(s, recs[..k + 1]).rows, cols)
  {
    if k == |recs| {
      assert recs[..k] == recs;
    } else {
      var front := recs[..|recs| - 1];
      assert recs[..|recs|] == recs;
      if k == |recs| - 1 {
      } else {
        RunPrefix(s, front, cols, k);
        assert front[..k] == recs[..k] && front[..k + 1] == recs[..k + 1];
      }
    }
  }

  // row numbers stay below the next one, which only grows
  lemma {:induction false} RunBounds(s: Image, recs: W.Log, cols: seq<Col>)
    requires LegalRun(s, recs, cols)
    ensures s.next <= Run(s, recs).next
    ensures forall i :: i in Run(s, recs).rows ==> i < Run(s, recs).next
    ensures forall i :: i in Run(s, recs).rows && i < s.next ==> i in s.rows
    ensures forall i :: i in Deleted(recs) ==> i < Run(s, recs).next && i !in Run(s, recs).rows
  {
    if recs != [] {
      RunBounds(s, recs[..|recs| - 1], cols);
    }
  }

  // rows below a point's next number that live at the end lived at that point
  lemma {:induction false} LivesSince(s: Image, recs: W.Log, cols: seq<Col>, k: nat, i: nat)
    requires LegalRun(s, recs, cols) && k <= |recs|
    requires i in Run(s, recs).rows && i < Run(s, recs[..k]).next
    ensures i in Run(s, recs[..k]).rows
  {
    if k == |recs| {
      assert recs[..k] == recs;
    } else {
      var front := recs[..|recs| - 1];
      assert front[..k] == recs[..k];
      RunPrefix(s, front, cols, k);
      NextGrows(s, front, cols, k);
      LivesSince(s, front, cols, k, i);
    }
  }

  lemma {:induction false} NextGrows(s: Image, recs: W.Log, cols: seq<Col>, k: nat)
    requires LegalRun(s, recs, cols) && k <= |recs|
    ensures Run(s, recs[..k]).next <= Run(s, recs).next
  {
    if k == |recs| {
      assert recs[..k] == recs;
    } else {
      var front := recs[..|recs| - 1];
      assert front[..k] == recs[..k];
      NextGrows(s, front, cols, k);
    }
  }

  /** The rows a log deletes. */
  function Deleted(recs: W.Log): set<nat> {
    if recs == [] then {}
    else Deleted(recs[..|recs| - 1]) + (if recs[|recs| - 1].Delete? then {recs[|recs| - 1].idx} else {})
  }

  // ---- netting a run drops the writes of its deleted rows ---------------------

  predicate Kept(rec: W.Rec, gone: set<nat>) { rec.IsOp() && (rec.Delete? || rec.idx !in gone) }

  function KeepLive(recs: W.Log, gone: set<nat>): W.Log {
    if recs == [] then []
    else KeepLive(recs[..|recs| - 1], gone) + (if Kept(recs[|recs| - 1], gone) then [recs[|recs| - 1]] else [])
  }

  lemma {:induction false} WithoutKept(recs: W.Log, gone: set<nat>, i: nat)
    requires i !in Deleted(recs)
    ensures W.Without(KeepLive(recs, gone), i) == KeepLive(recs, gone + {i})
  {
    if recs != [] {
      var front, rec := recs[..|recs| - 1], recs[|recs| - 1];
      WithoutKept(front, gone, i);
      var kept := KeepLive(front, gone);
      assert (kept + [rec])[..|kept|] == kept;
      assert Kept(rec, gone) && W.NotAbout(rec, i) <==> Kept(rec, gone + {i});
      if Kept(rec, gone) {
        assert W.Without(kept + [rec], i) == W.Without(kept, i) + (if W.NotAbout(rec, i) then [rec] else []);
      } else {
        assert KeepLive(recs, gone) == kept;
      }
    }
  }

  lemma {:induction false} NetKeepsLive(s: Image, recs: W.Log, cols: seq<Col>)
    requires LegalRun(s, recs, cols)
    ensures W.Net(recs) == KeepLive(recs, Deleted(recs))
  {
    if recs != [] {
      var front, rec := recs[..|recs| - 1], recs[|recs| - 1];
      NetKeepsLive(s, front, cols);
      RunBounds(s, front, cols);
      assert rec.idx !in Deleted(front) && Kept(rec, Deleted(recs));
      if rec.Delete? {
        WithoutKept(front, Deleted(front), rec.idx);
      } else {
        assert Deleted(recs) == Deleted(front);
      }
    }
  }

  // ---- replaying --------------------------------------------------------------

  /** How far replay got: stopped by a unique constraint, or the rows, the next number, and
      the rows the unique map knows. It starts knowing none: it is rebuilt only after replay. */
  datatype Replayed = Stuck | Reached(rows: map<nat, Row>, next: nat, known: map<nat, Row>)

  ghost function Redo(cols: seq<Col>, s: Replayed, rec: W.Rec): Replayed {
    if s.Stuck? then Stuck
    else
      match rec
      case Insert(i, row) =>
        if i in s.rows then s
        else if !Unclashed(s.known, cols, s.next, row) then Stuck
        else Reached(s.rows[s.next := row], s.next + 1, s.known[s.next := row])
      case Update(i, row) =>
        if i !in s.rows then s
        else if !Unclashed(s.known, cols, i, row) then Stuck
        else Reached(s.rows[i := row], s.next, s.known[i := row])
      case Delete(i) => Reached(s.rows - {i}, s.next, s.known - {i})
      case _ => s
  }

  ghost function RedoAll(cols: seq<Col>, s: Replayed, recs: W.Log): Replayed {
    if recs == [] then s else Redo(cols, RedoAll(cols, s, recs[..|recs| - 1]), recs[|recs| - 1])
  }

  lemma RedoPush(cols: seq<Col>, s: Replayed, recs: W.Log, rec: W.Rec)
    ensures RedoAll(cols, s, recs + [rec]) == Redo(cols, RedoAll(cols, s, recs), rec)
  {
    assert (recs + [rec])[..|recs|] == recs;
  }

  /** The rows a log updates. */
  function Updated(recs: W.Log): set<nat> {
    if recs == [] then {}
    else Updated(recs[..|recs| - 1]) + (if recs[|recs| - 1].Update? then {recs[|recs| - 1].idx} else {})
  }

  /** The image found on opening: the flags of the last flush, and a next row number moved up if the file
      grew since. The bytes of any row may have been rewritten in place after the flush, by
      transactions that committed and by one that did not. */
  ghost predicate LoadedFrom(loaded: Image, flushed: Image) {
    loaded.rows.Keys == flushed.rows.Keys && flushed.next <= loaded.next
  }

  /** Rows the log does not update still read as flushed, as far as they are there at the end. */
  ghost predicate AsFlushed(loaded: Image, flushed: Image, end: map<nat, Row>, updated: set<nat>)
    requires LoadedFrom(loaded, flushed)
  {
    forall i :: i in flushed.rows && i in end && i !in updated ==> loaded.rows[i] == flushed.rows[i]
  }

  /** The rows numbered from `from` on take up the numbers from `next` on, without a gap. */
  ghost predicate Contiguous(rows: map<nat, Row>, from: nat, next: nat) {
    forall i :: i in rows && i >= from ==> i >= next && forall d :: next <= d < i ==> d in rows
  }

  // ---- without gaps, replay follows the run -------------------------------------

  /** Replay of the kept records follows the run, leaving out the rows in `gone` inserted since the
      image; rows not updated yet may still be as loaded. */
  ghost predicate Follows(r: Replayed, s: Image, base: Image, loaded: Image, gone: set<nat>, updated: set<nat>) {
    && r.Reached? && r.next >= loaded.next
    && Lives(r.rows, s.rows, base.next, gone) && Packed(r.rows, base.next, loaded.next, r.next)
    && Knows(r.known, r.rows, s.rows, gone) && Agree(r.rows, s.rows, base, loaded, gone, updated)
  }

  ghost predicate Lives(rows: map<nat, Row>, run: map<nat, Row>, from: nat, gone: set<nat>) {
    forall i :: i in rows <==> i in run && (i !in gone || i < from)
  }

  ghost predicate Packed(rows: map<nat, Row>, from: nat, first: nat, next: nat) {
    (forall i :: i in rows && i >= from ==> i < next) && forall i :: first <= i < next ==> i in rows
  }

  ghost predicate Knows(known: map<nat, Row>, rows: map<nat, Row>, run: map<nat, Row>, gone: set<nat>) {
    forall i :: i in known ==> i in rows && i in run && known[i] == run[i] && i !in gone
  }

  ghost predicate Agree(rows: map<nat, Row>, run: map<nat, Row>, base: Image, loaded: Image, gone: set<nat>,
                        updated: set<nat>) {
    forall i :: i in rows && i in run && i !in gone ==>
      rows[i] == run[i] || StillLoaded(rows[i], run[i], base, loaded, updated, i)
  }

  ghost predicate StillLoaded(row: Row, run: Row, base: Image, loaded: Image, updated: set<nat>, i: nat) {
    i !in updated && i in base.rows && i in loaded.rows && row == loaded.rows[i] && run == base.rows[i]
  }

  // a row's new values are free among the rows replay knows
  lemma FreeInReplay(cols: seq<Col>, known: map<nat, Row>, rows: map<nat, Row>, i: nat, row: Row)
    requires forall j :: j in known ==> j in rows && known[j] == rows[j]
    requires Distinct(rows[i := row], cols)
    ensures Unclashed(known, cols, i, row)
  {
    var after := rows[i := row];
    assert Unclashed(after, cols, i, after[i]);
    forall j | j in known && j != i
      ensures Apart(known[j], row, cols)
    {
      assert j in after && after[j] == known[j];
    }
  }

  lemma FollowsInsert(cols: seq<Col>, r: Replayed, s: Image, base: Image, loaded: Image, gone: set<nat>,
                      updated: set<nat>, i: nat, row: Row)
    requires Follows(r, s, base, loaded, gone, updated) && base.next <= loaded.next
    requires i >= s.next >= base.next && i == r.next && i !in gone && (forall j :: j in s.rows ==> j < s.next)
    requires Distinct(s.rows[i := row], cols)
    ensures Follows(Redo(cols, r, W.Insert(i, row)), Step(s, W.Insert(i, row)), base, loaded, gone, updated)
  {
    FreeInReplay(cols, r.known, s.rows, i, row);
  }

  lemma FollowsDropped(r: Replayed, s: Image, base: Image, loaded: Image, gone: set<nat>, updated: set<nat>, rec: W.Rec)
    requires Follows(r, s, base, loaded, gone, updated) && !rec.Delete? && rec.IsOp() && rec.idx in gone
    requires rec.Insert? ==> rec.idx >= s.next >= base.next && forall j :: j in s.rows ==> j < s.next
    requires rec.Update? ==> rec.idx in s.rows
    ensures Follows(r, Step(s, rec), base, loaded, gone, if rec.Update? then updated + {rec.idx} else updated)
  {
  }

  lemma FollowsUpdate(cols: seq<Col>, r: Replayed, s: Image, base: Image, loaded: Image, gone: set<nat>,
                      updated: set<nat>, i: nat, row: Row)
    requires Follows(r, s, base, loaded, gone, updated) && i in s.rows && i !in gone && Distinct(s.rows[i := row], cols)
    ensures Follows(Redo(cols, r, W.Update(i, row)), Step(s, W.Update(i, row)), base, loaded, gone, updated + {i})
  {
    FreeInReplay(cols, r.known, s.rows, i, row);
  }

  lemma FollowsDelete(cols: seq<Col>, r: Replayed, s: Image, base: Image, loaded: Image, gone: set<nat>,
                      updated: set<nat>, i: nat)
    requires Follows(r, s, base, loaded, gone, updated) && i in gone && i in s.rows && base.next <= loaded.next
    ensures Follows(Redo(cols, r, W.Delete(i)), Step(s, W.Delete(i)), base, loaded, gone, updated)
  {
  }

  // the next surviving insert gets its own number back
  lemma SameNumber(r: Replayed, base: Image, m: nat, loaded: Image, recs: W.Log, cols: seq<Col>, k: nat)
    requires LegalRun(base, recs, cols) && m <= k < |recs| && recs[k].Insert? && recs[k].idx !in Deleted(recs)
    requires var mid := Run(base, recs[..m]);
      && Follows(r, Run(base, recs[..k]), mid, loaded, Deleted(recs), Updated(recs[..k])) && mid.next <= loaded.next
      && Contiguous(Run(base, recs).rows, mid.next, loaded.next)
    ensures recs[k].idx == r.next
  {
    hide Distinct, Run, LegalRun, Deleted, Updated, Knows, Agree;
    var (i, s, end) := (recs[k].idx, Run(base, recs[..k]), Run(base, recs));
    RunPrefix(base, recs, cols, k);
    RunBounds(base, recs[..k], cols);
    NextGrowsTo(base, recs, cols, m, k);
    StaysUnlessDeleted(base, recs, cols, k);
    if r.next < i {
      assert r.next in end.rows;
      LivesSince(base, recs, cols, k + 1, r.next);
      RunBounds(base, recs, cols);
    }
  }

  lemma NextGrowsTo(s: Image, recs: W.Log, cols: seq<Col>, m: nat, k: nat)
    requires LegalRun(s, recs, cols) && m <= k <= |recs|
    ensures Run(s, recs[..m]).next <= Run(s, recs[..k]).next
  {
    RunPrefix(s, recs, cols, k);
    assert recs[..k][..m] == recs[..m];
    NextGrows(s, recs[..k], cols, m);
  }

  lemma {:induction false} StaysUnlessDeleted(base: Image, recs: W.Log, cols: seq<Col>, k: nat)
    requires LegalRun(base, recs, cols) && k < |recs| && recs[k].Insert? && recs[k].idx !in Deleted(recs)
    ensures recs[k].idx in Run(base, recs).rows
  {
    var front := recs[..|recs| - 1];
    if k < |recs| - 1 {
      assert front[k] == recs[k];
      StaysUnlessDeleted(base, front, cols, k);
    }
  }

  lemma {:induction false} DeletedHas(recs: W.Log, k: nat)
    requires k < |recs|
    ensures recs[k].Delete? ==> recs[k].idx in Deleted(recs)
  {
    if k < |recs| - 1 {
      assert recs[..|recs| - 1][k] == recs[k];
      DeletedHas(recs[..|recs| - 1], k);
    }
  }

  lemma Prefixes(recs: W.Log, k: nat)
    requires k < |recs|
    ensures recs[..k + 1][..k] == recs[..k] && recs[..k + 1][k] == recs[k]
    ensures Updated(recs[..k + 1]) == Updated(recs[..k]) + (if recs[k].Update? then {recs[k].idx} else {})
    ensures KeepLive(recs[..k + 1], Deleted(recs)) ==
      KeepLive(recs[..k], Deleted(recs)) + (if Kept(recs[k], Deleted(recs)) then [recs[k]] else [])
  {
    assert recs[..k + 1][..k] == recs[..k];
  }

  // ---- retracing the records the image holds --------------------------------------

  /** Replay of records the image already holds: no number is handed out, no row comes or goes, and a
      surviving row reads as the run has it once updated, before that as found. */
  ghost predicate Retraces(r: Replayed, s: Image, loaded: Image, gone: set<nat>, updated: set<nat>) {
    && r.Reached? && r.next == loaded.next && r.rows.Keys == loaded.rows.Keys
    && Knows(r.known, r.rows, s.rows, gone)
    && forall i :: i in r.rows && i !in gone ==>
      if i in updated then i in s.rows && r.rows[i] == s.rows[i] else r.rows[i] == loaded.rows[i]
  }

  lemma RetracesInsert(r: Replayed, s: Image, loaded: Image, gone: set<nat>, updated: set<nat>, i: nat, row: Row)
    requires Retraces(r, s, loaded, gone, updated) && i !in s.rows
    ensures Retraces(r, Step(s, W.Insert(i, row)), loaded, gone, updated)
  {
  }

  lemma RetracesUpdate(cols: seq<Col>, r: Replayed, s: Image, loaded: Image, gone: set<nat>, updated: set<nat>,
                       i: nat, row: Row)
    requires Retraces(r, s, loaded, gone, updated) && i in s.rows && i in loaded.rows && i !in gone
    requires Distinct(s.rows[i := row], cols)
    ensures Retraces(Redo(cols, r, W.Update(i, row)), Step(s, W.Update(i, row)), loaded, gone, updated + {i})
  {
    FreeInReplay(cols, r.known, s.rows, i, row);
  }

  // a row on its way out: its updates are not replayed, and its delete finds nothing
  lemma RetracesGone(cols: seq<Col>, r: Replayed, s: Image, loaded: Image, gone: set<nat>, updated: set<nat>,
                     rec: W.Rec)
    requires Retraces(r, s, loaded, gone, updated) && (rec.Update? || rec.Delete?) && rec.idx in gone
    requires rec.Delete? ==> rec.idx !in loaded.rows
    ensures Retraces(if rec.Delete? then Redo(cols, r, rec) else r, Step(s, rec), loaded, gone,
                     if rec.Update? then updated + {rec.idx} else updated)
  {
    if rec.Delete? {
      assert r.rows - {rec.idx} == r.rows && r.known - {rec.idx} == r.known;
    }
  }

  lemma RetracesStep(cols: seq<Col>, r: Replayed, base: Image, m: nat, loaded: Image, recs: W.Log, k: nat)
    requires LegalRun(base, recs, cols) && k < m <= |recs| && loaded.rows.Keys == Run(base, recs[..m]).rows.Keys
    requires Retraces(r, Run(base, recs[..k]), loaded, Deleted(recs), Updated(recs[..k]))
    ensures Retraces(if Kept(recs[k], Deleted(recs)) then Redo(cols, r, recs[k]) else r,
                     Run(base, recs[..k + 1]), loaded, Deleted(recs), Updated(recs[..k + 1]))
  {
    hide Distinct, Run, LegalRun, Deleted, Updated, KeepLive, Unclashed, Retraces;
    var (s, rec, gone, updated) := (Run(base, recs[..k]), recs[k], Deleted(recs), Updated(recs[..k]));
    Prefixes(recs, k);
    assert updated + {} == updated;
    RunPrefix(base, recs, cols, k);
    RunPrefix(base, recs, cols, m);
    RunBounds(base, recs[..k], cols);
    RunBounds(base, recs[..m], cols);
    DeletedHas(recs, k);
    DeletedHas(recs[..m], k);
    DeletedGrows(recs, m);
    if rec.Insert? {
      if Kept(rec, gone) {
        StaysUnlessDeleted(base, recs[..m], cols, k);
        RetracesParts(r, s, loaded, gone, updated);
      }
      RetracesInsert(r, s, loaded, gone, updated, rec.idx, rec.row);
    } else if rec.Update? && Kept(rec, gone) {
      OnceUpdated(base, recs[..m], cols, k);
      RetracesUpdate(cols, r, s, loaded, gone, updated, rec.idx, rec.row);
    } else {
      RetracesGone(cols, r, s, loaded, gone, updated, rec);
    }
  }

  lemma RetracesParts(r: Replayed, s: Image, loaded: Image, gone: set<nat>, updated: set<nat>)
    requires Retraces(r, s, loaded, gone, updated)
    ensures r.Reached? && r.rows.Keys == loaded.rows.Keys
  {
  }

  lemma {:induction false} DeletedGrows(recs: W.Log, m: nat)
    requires m <= |recs|
    ensures Deleted(recs[..m]) <= Deleted(recs)
  {
    if m == |recs| {
      assert recs[..m] == recs;
    } else {
      DeletedGrows(recs[..|recs| - 1], m);
      assert recs[..|recs| - 1][..m] == recs[..m];
    }
  }

  // an updated row still lives at the end, or is deleted
  lemma {:induction false} OnceUpdated(base: Image, recs: W.Log, cols: seq<Col>, k: nat)
    requires LegalRun(base, recs, cols) && k < |recs| && recs[k].Update?
    ensures recs[k].idx in Run(base, recs).rows || recs[k].idx in Deleted(recs)
  {
    var front := recs[..|recs| - 1];
    if k < |recs| - 1 {
      assert front[k] == recs[k];
      OnceUpdated(base, front, cols, k);
    }
  }

  lemma RetracesAtFirst(cols: seq<Col>, base: Image, loaded: Image, recs: W.Log)
    ensures Retraces(RedoAll(cols, Reached(loaded.rows, loaded.next, map[]), KeepLive(recs[..0], Deleted(recs))),
                     Run(base, recs[..0]), loaded, Deleted(recs), Updated(recs[..0]))
  {
    hide Redo, Deleted;
    assert recs[..0] == [];
  }

  lemma {:induction false} ReplayRetraces(cols: seq<Col>, base: Image, m: nat, loaded: Image, recs: W.Log, k: nat)
    requires LegalRun(base, recs, cols) && k <= m <= |recs| && loaded.rows.Keys == Run(base, recs[..m]).rows.Keys
    ensures Retraces(RedoAll(cols, Reached(loaded.rows, loaded.next, map[]), KeepLive(recs[..k], Deleted(recs))),
                     Run(base, recs[..k]), loaded, Deleted(recs), Updated(recs[..k]))
  {
    hide *;
    if k == 0 {
      RetracesAtFirst(cols, base, loaded, recs);
    } else {
      ReplayRetraces(cols, base, m, loaded, recs, k - 1);
      Prefixes(recs, k - 1);
      var start, kept := Reached(loaded.rows, loaded.next, map[]), KeepLive(recs[..k - 1], Deleted(recs));
      RedoPush(cols, start, kept, recs[k - 1]);
      assert kept + [] == kept;
      RetracesStep(cols, RedoAll(cols, start, kept), base, m, loaded, recs, k - 1);
    }
  }

  // ---- step by step ------------------------------------------------------------------

  lemma FollowsStep(cols: seq<Col>, r: Replayed, base: Image, m: nat, loaded: Image, recs: W.Log, k: nat)
    requires LegalRun(base, recs, cols) && m <= k < |recs|
    requires var mid := Run(base, recs[..m]);
      && Follows(r, Run(base, recs[..k]), mid, loaded, Deleted(recs), Updated(recs[..k])) && mid.next <= loaded.next
      && Contiguous(Run(base, recs).rows, mid.next, loaded.next)
    ensures Follows(if Kept(recs[k], Deleted(recs)) then Redo(cols, r, recs[k]) else r,
                    Run(base, recs[..k + 1]), Run(base, recs[..m]), loaded, Deleted(recs), Updated(recs[..k + 1]))
  {
    hide Follows, Distinct, Run, LegalRun, Redo, Deleted, Updated, KeepLive;
    var (s, rec, gone, updated, mid) :=
      (Run(base, recs[..k]), recs[k], Deleted(recs), Updated(recs[..k]), Run(base, recs[..m]));
    Prefixes(recs, k);
    RunPrefix(base, recs, cols, k);
    RunBounds(base, recs[..k], cols);
    NextGrowsTo(base, recs, cols, m, k);
    DeletedHas(recs, k);
    assert updated + {} == updated;
    if !rec.Delete? && rec.idx in gone {
      FollowsDropped(r, s, mid, loaded, gone, updated, rec);
    } else if rec.Insert? {
      SameNumber(r, base, m, loaded, recs, cols, k);
      FollowsInsert(cols, r, s, mid, loaded, gone, updated, rec.idx, rec.row);
    } else if rec.Update? {
      FollowsUpdate(cols, r, s, mid, loaded, gone, updated, rec.idx, rec.row);
    } else {
      FollowsDelete(cols, r, s, mid, loaded, gone, updated, rec.idx);
    }
  }

  // Of a log whose first m records the image already holds, replay follows the run from there on.
  lemma {:induction false} ReplayFollows(cols: seq<Col>, base: Image, m: nat, loaded: Image, recs: W.Log, k: nat)
    requires LegalRun(base, recs, cols) && m <= k <= |recs| && LoadedFrom(loaded, Run(base, recs[..m]))
    requires Contiguous(Run(base, recs).rows, Run(base, recs[..m]).next, loaded.next)
    ensures Follows(RedoAll(cols, Reached(loaded.rows, loaded.next, map[]), KeepLive(recs[..k], Deleted(recs))),
                    Run(base, recs[..k]), Run(base, recs[..m]), loaded, Deleted(recs), Updated(recs[..k]))
  {
    if k == m {
      hide Distinct, Run, LegalRun, RedoAll, Deleted, Updated, KeepLive, Contiguous;
      ReplayRetraces(cols, base, m, loaded, recs, m);
      RunPrefix(base, recs, cols, m);
      RunBounds(base, recs[..m], cols);
      AtTheImage(RedoAll(cols, Reached(loaded.rows, loaded.next, map[]), KeepLive(recs[..m], Deleted(recs))),
                 Run(base, recs[..m]), loaded, Deleted(recs), Updated(recs[..m]));
    } else {
      hide Follows, Distinct, Run, LegalRun, Redo, Deleted, Updated, KeepLive, Contiguous;
      ReplayFollows(cols, base, m, loaded, recs, k - 1);
      Prefixes(recs, k - 1);
      var start, kept := Reached(loaded.rows, loaded.next, map[]), KeepLive(recs[..k - 1], Deleted(recs));
      RedoPush(cols, start, kept, recs[k - 1]);
      assert kept + [] == kept;
      FollowsStep(cols, RedoAll(cols, start, kept), base, m, loaded, recs, k - 1);
    }
  }

  // once the records the image holds are retraced, replay stands where the image does
  lemma AtTheImage(r: Replayed, mid: Image, loaded: Image, gone: set<nat>, updated: set<nat>)
    requires Retraces(r, mid, loaded, gone, updated) && LoadedFrom(loaded, mid)
    requires forall i :: i in mid.rows ==> i < mid.next
    requires forall i :: i in gone && i in mid.rows ==> i < mid.next
    ensures Follows(r, mid, mid, loaded, gone, updated)
  {
    forall i | i in r.rows && i !in gone && r.rows[i] != mid.rows[i]
      ensures StillLoaded(r.rows[i], mid.rows[i], mid, loaded, updated, i)
    {
    }
  }

  // ---- with a gap, replay cannot follow it --------------------------------------

  /** The rows of the run inserted since the image, without those in `gone`. */
  ghost function Inserted(s: Image, from: nat, gone: set<nat>): set<nat> {
    set i | i in s.rows && i >= from && i !in gone
  }

  /** Replay hands out no more numbers than the run has surviving inserts. */
  ghost predicate Counted(r: Replayed, s: Image, base: Image, loaded: Image, gone: set<nat>) {
    r.Reached? ==>
      && loaded.next <= r.next <= loaded.next + |Inserted(s, base.next, gone)|
      && forall i :: i in r.rows ==> i < base.next || loaded.next <= i < r.next
  }

  lemma CountedStep(cols: seq<Col>, r: Replayed, base: Image, loaded: Image, gone: set<nat>, s: Image, rec: W.Rec)
    requires Counted(r, s, base, loaded, gone) && base.next <= loaded.next && Legal(s, rec)
    requires s.next >= base.next && forall i :: i in s.rows ==> i < s.next
    requires rec.Delete? ==> rec.idx in gone
    ensures Counted(if Kept(rec, gone) then Redo(cols, r, rec) else r, Step(s, rec), base, loaded, gone)
  {
    hide Inserted, Unclashed;
    InsertedStep(base.next, gone, s, rec);
  }

  lemma InsertedStep(from: nat, gone: set<nat>, s: Image, rec: W.Rec)
    requires Legal(s, rec) && s.next >= from && (rec.Delete? ==> rec.idx in gone)
    requires forall i :: i in s.rows ==> i < s.next
    ensures |Inserted(Step(s, rec), from, gone)| ==
      |Inserted(s, from, gone)| + (if rec.Insert? && rec.idx !in gone then 1 else 0)
  {
    var was, now := Inserted(s, from, gone), Inserted(Step(s, rec), from, gone);
    if rec.Insert? && rec.idx !in gone {
      assert now == was + {rec.idx} && rec.idx !in was;
    } else {
      assert now == was;
    }
  }

  lemma CountedAtFirst(cols: seq<Col>, base: Image, m: nat, loaded: Image, recs: W.Log)
    requires LegalRun(base, recs, cols) && m <= |recs| && LoadedFrom(loaded, Run(base, recs[..m]))
    ensures Counted(RedoAll(cols, Reached(loaded.rows, loaded.next, map[]), KeepLive(recs[..m], Deleted(recs))),
                    Run(base, recs[..m]), Run(base, recs[..m]), loaded, Deleted(recs))
  {
    hide Distinct, Run, LegalRun, RedoAll, Deleted, Updated, KeepLive;
    RunPrefix(base, recs, cols, m);
    RunBounds(base, recs[..m], cols);
    ReplayRetraces(cols, base, m, loaded, recs, m);
    assert Inserted(Run(base, recs[..m]), Run(base, recs[..m]).next, Deleted(recs)) == {};
  }

  lemma {:induction false} ReplayCounted(cols: seq<Col>, base: Image, m: nat, loaded: Image, recs: W.Log, k: nat)
    requires LegalRun(base, recs, cols) && m <= k <= |recs| && LoadedFrom(loaded, Run(base, recs[..m]))
    ensures Counted(RedoAll(cols, Reached(loaded.rows, loaded.next, map[]), KeepLive(recs[..k], Deleted(recs))),
                    Run(base, recs[..k]), Run(base, recs[..m]), loaded, Deleted(recs))
  {
    if k == m {
      hide *;
      CountedAtFirst(cols, base, m, loaded, recs);
    } else {
      hide Counted, Distinct, Run, LegalRun, Redo, RedoAll, Deleted, Updated, KeepLive;
      RunPrefix(base, recs, cols, m);
      RunBounds(base, recs[..m], cols);
      ReplayCounted(cols, base, m, loaded, recs, k - 1);
      Prefixes(recs, k - 1);
      var start, kept := Reached(loaded.rows, loaded.next, map[]), KeepLive(recs[..k - 1], Deleted(recs));
      RedoPush(cols, start, kept, recs[k - 1]);
      assert kept + [] == kept;
      RunPrefix(base, recs, cols, k - 1);
      RunBounds(base, recs[..k - 1], cols);
      NextGrowsTo(base, recs, cols, m, k - 1);
      DeletedHas(recs, k - 1);
      CountedStep(cols, RedoAll(cols, start, kept), Run(base, recs[..m]), loaded, Deleted(recs),
                  Run(base, recs[..k - 1]), recs[k - 1]);
    }
  }

  // as many numbers as an interval holds, all in it, are the whole interval
  lemma {:induction false} FillsInterval(s: set<nat>, lo: nat, hi: nat)
    requires lo <= hi && (forall i :: i in s ==> lo <= i < hi) && |s| >= hi - lo
    ensures forall i :: lo <= i < hi ==> i in s
    decreases hi
  {
    if lo < hi {
      if hi - 1 in s {
        var s' := s - {hi - 1};
        assert s == s' + {hi - 1};
        FillsInterval(s', lo, hi - 1);
      } else {
        TooMany(s, lo, hi - 1);
      }
    }
  }

  lemma {:induction false} TooMany(s: set<nat>, lo: nat, hi: nat)
    requires lo <= hi && forall i :: i in s ==> lo <= i < hi
    ensures |s| <= hi - lo
    decreases hi
  {
    if lo < hi {
      var s' := s - {hi - 1};
      assert s <= s' + {hi - 1};
      assert |s| <= |s'| + 1;
      TooMany(s', lo, hi - 1);
    } else {
      assert s == {};
    }
  }

  // ---- rows the log does not update -------------------------------------------------

  lemma {:induction false} ReplayLeaves(cols: seq<Col>, loaded: Image, recs: W.Log, i: nat)
    requires i < loaded.next && i !in Updated(recs)
    ensures var r := RedoAll(cols, Reached(loaded.rows, loaded.next, map[]), recs);
      r.Reached? ==> r.next >= loaded.next && (i in r.rows ==> i in loaded.rows && r.rows[i] == loaded.rows[i])
  {
    if recs != [] {
      hide Unclashed;
      ReplayLeaves(cols, loaded, recs[..|recs| - 1], i);
    }
  }

  lemma {:induction false} RunLeaves(base: Image, recs: W.Log, cols: seq<Col>, m: nat, i: nat)
    requires LegalRun(base, recs, cols) && m <= |recs| && i !in Updated(recs)
    requires i in Run(base, recs[..m]).rows && i in Run(base, recs).rows
    ensures Run(base, recs).rows[i] == Run(base, recs[..m]).rows[i]
  {
    if m == |recs| {
      assert recs[..m] == recs;
    } else {
      var front := recs[..|recs| - 1];
      assert front[..m] == recs[..m];
      RunPrefix(base, front, cols, m);
      RunBounds(base, front[..m], cols);
      NextGrows(base, front, cols, m);
      RunLeaves(base, front, cols, m, i);
    }
  }

  lemma {:induction false} KeptUpdates(recs: W.Log, gone: set<nat>)
    ensures Updated(KeepLive(recs, gone)) <= Updated(recs)
  {
    if recs != [] {
      var front, rec := recs[..|recs| - 1], recs[|recs| - 1];
      KeptUpdates(front, gone);
      var kept := KeepLive(front, gone);
      assert (kept + [rec])[..|kept|] == kept;
      assert !Kept(rec, gone) ==> KeepLive(recs, gone) == kept;
    }
  }

  // ---- the recovery theorem -------------------------------------------------------

  // A committed run from the rows `base`, of which the image last flushed holds the first m records;
  // the file found on opening has its flags, but any row's bytes may be newer. Replaying the netted log
  // over it gives back exactly the rows the run had led to, under the same numbers and with no
  // unique constraint in the way, if and only if the surviving rows inserted since the image are
  // numbered, without a gap, from the next row number found, and every surviving row the log does
  // not update still reads as flushed.
  lemma RecoveryRestores(cols: seq<Col>, base: Image, m: nat, loaded: Image, recs: W.Log)
    requires LegalRun(base, recs, cols) && m <= |recs| && LoadedFrom(loaded, Run(base, recs[..m]))
    ensures var (flushed, end) := (Run(base, recs[..m]), Run(base, recs));
      var r := RedoAll(cols, Reached(loaded.rows, loaded.next, map[]), W.Net(recs));
      r.Reached? && r.rows == end.rows <==>
        Contiguous(end.rows, flushed.next, loaded.next) && AsFlushed(loaded, flushed, end.rows, Updated(recs))
  {
    hide Distinct, Run, LegalRun, Redo, Deleted, Updated, KeepLive, RedoAll, W.Net, Contiguous, AsFlushed;
    var (flushed, end) := (Run(base, recs[..m]), Run(base, recs));
    var r := RedoAll(cols, Reached(loaded.rows, loaded.next, map[]), W.Net(recs));
    NetKeepsLive(base, recs, cols);
    assert recs[..|recs|] == recs;
    if Contiguous(end.rows, flushed.next, loaded.next) && AsFlushed(loaded, flushed, end.rows, Updated(recs)) {
      Restores(cols, base, m, loaded, recs);
    }
    if r.Reached? && r.rows == end.rows {
      NoGap(cols, base, m, loaded, recs);
      NothingStale(cols, base, m, loaded, recs);
    }
  }

  lemma Restores(cols: seq<Col>, base: Image, m: nat, loaded: Image, recs: W.Log)
    requires LegalRun(base, recs, cols) && m <= |recs| && LoadedFrom(loaded, Run(base, recs[..m]))
    requires Contiguous(Run(base, recs).rows, Run(base, recs[..m]).next, loaded.next)
    requires AsFlushed(loaded, Run(base, recs[..m]), Run(base, recs).rows, Updated(recs))
    ensures var r := RedoAll(cols, Reached(loaded.rows, loaded.next, map[]), KeepLive(recs, Deleted(recs)));
      r.Reached? && r.rows == Run(base, recs).rows
  {
    hide Distinct, Run, LegalRun, Redo, Deleted, Updated, KeepLive, RedoAll, Contiguous;
    ReplayFollows(cols, base, m, loaded, recs, |recs|);
    assert recs[..|recs|] == recs;
    RunBounds(base, recs, cols);
    SurvivorsAgree(RedoAll(cols, Reached(loaded.rows, loaded.next, map[]), KeepLive(recs, Deleted(recs))),
                   Run(base, recs), Run(base, recs[..m]), loaded, Deleted(recs), Updated(recs));
  }

  lemma SurvivorsAgree(r: Replayed, end: Image, flushed: Image, loaded: Image, gone: set<nat>, updated: set<nat>)
    requires Follows(r, end, flushed, loaded, gone, updated) && LoadedFrom(loaded, flushed)
    requires AsFlushed(loaded, flushed, end.rows, updated) && forall i :: i in gone ==> i !in end.rows
    ensures r.rows == end.rows
  {
    assert r.rows.Keys == end.rows.Keys;
    forall i | i in end.rows
      ensures r.rows[i] == end.rows[i]
    {
      assert r.rows[i] == end.rows[i] || StillLoaded(r.rows[i], end.rows[i], flushed, loaded, updated, i);
    }
  }

  lemma NoGap(cols: seq<Col>, base: Image, m: nat, loaded: Image, recs: W.Log)
    requires LegalRun(base, recs, cols) && m <= |recs| && LoadedFrom(loaded, Run(base, recs[..m]))
    requires var r := RedoAll(cols, Reached(loaded.rows, loaded.next, map[]), KeepLive(recs, Deleted(recs)));
      r.Reached? && r.rows == Run(base, recs).rows
    ensures Contiguous(Run(base, recs).rows, Run(base, recs[..m]).next, loaded.next)
  {
    hide Distinct, Run, LegalRun, Redo, Deleted, Updated, KeepLive, RedoAll;
    var (flushed, end) := (Run(base, recs[..m]), Run(base, recs));
    assert recs[..|recs|] == recs;
    ReplayCounted(cols, base, m, loaded, recs, |recs|);
    var r := RedoAll(cols, Reached(loaded.rows, loaded.next, map[]), KeepLive(recs, Deleted(recs)));
    RunBounds(base, recs, cols);
    var survivors := Inserted(end, flushed.next, Deleted(recs));
    assert forall i :: i in end.rows && i >= flushed.next <==> i in survivors;
    assert forall i :: i in survivors ==> loaded.next <= i < r.next;
    FillsInterval(survivors, loaded.next, r.next);
    forall i | i in end.rows && i >= flushed.next
      ensures i >= loaded.next && forall d :: loaded.next <= d < i ==> d in end.rows
    {
      assert forall d :: loaded.next <= d < i ==> d in survivors;
    }
  }

  lemma NothingStale(cols: seq<Col>, base: Image, m: nat, loaded: Image, recs: W.Log)
    requires LegalRun(base, recs, cols) && m <= |recs| && LoadedFrom(loaded, Run(base, recs[..m]))
    requires var r := RedoAll(cols, Reached(loaded.rows, loaded.next, map[]), KeepLive(recs, Deleted(recs)));
      r.Reached? && r.rows == Run(base, recs).rows
    ensures AsFlushed(loaded, Run(base, recs[..m]), Run(base, recs).rows, Updated(recs))
  {
    hide Distinct, Run, LegalRun, Redo, Deleted, Updated, KeepLive, RedoAll;
    var (flushed, end) := (Run(base, recs[..m]), Run(base, recs));
    KeptUpdates(recs, Deleted(recs));
    RunPrefix(base, recs, cols, m);
    RunBounds(base, recs[..m], cols);
    forall i | i in flushed.rows && i in end.rows && i !in Updated(recs)
      ensures loaded.rows[i] == flushed.rows[i]
    {
      RunLeaves(base, recs, cols, m, i);
      ReplayLeaves(cols, loaded, KeepLive(recs, Deleted(recs)), i);
    }
  }

  // The same from the log file: of a log of transactions cut off anywhere, recovery replays what
  // the surviving commit records cover.
  lemma CrashRecovery(cols: seq<Col>, base: Image, m: nat, loaded: Image, txs: seq<W.Tx>, cut: nat)
    requires cut <= |W.Flatten(txs)| && forall i :: 0 <= i < |txs| ==> W.WfTx(txs[i])
    requires LegalRun(base, W.CommittedOps(W.CutTxs(txs, cut)), cols) && m <= |W.CommittedOps(W.CutTxs(txs, cut))|
    requires LoadedFrom(loaded, Run(base, W.CommittedOps(W.CutTxs(txs, cut))[..m]))
    ensures var recs := W.CommittedOps(W.CutTxs(txs, cut));
      var (flushed, rows) := (Run(base, recs[..m]), W.Apply(base.rows, recs));
      var r := RedoAll(cols, Reached(loaded.rows, loaded.next, map[]),
                       W.Net(W.ParseLog(W.Flatten(txs)[..cut], W.Parse([], [])).committed));
      r.Reached? && r.rows == rows <==>
        Contiguous(rows, flushed.next, loaded.next) && AsFlushed(loaded, flushed, rows, Updated(recs))
  {
    hide *;
    W.CommittedExactly(txs, cut);
    var recs := W.CommittedOps(W.CutTxs(txs, cut));
    RecoveryRestores(cols, base, m, loaded, recs);
    RunIsApply(base, recs);
  }

  // An update in place reaches the file at once: a transaction that updates row 0 and never commits
  // leaves nothing to replay, and yet row 0 comes back as it wrote it.
  lemma UncommittedUpdateStays(a: Row, b: Row)
    requires a != b
    ensures var txs := [W.Tx(1, [W.Update(0, b)], W.CutOff)];
      var (base, loaded) := (Image(map[0 := a], 1), Image(map[0 := b], 1));
      var r := RedoAll([], Reached(loaded.rows, loaded.next, map[]),
                       W.Net(W.ParseLog(W.Flatten(txs)[..2], W.Parse([], [])).committed));
      && W.CommittedOps(W.CutTxs(txs, 2)) == [] && LegalRun(base, [], []) && LoadedFrom(loaded, Run(base, []))
      && Contiguous(base.rows, base.next, loaded.next) && r.Reached? && r.rows == loaded.rows != base.rows
  {
    hide Distinct;
    var ops: W.Log := [W.Update(0, b)];
    var txs := [W.Tx(1, ops, W.CutOff)];
    assert W.TxRecords(txs[0]) == [W.Begin(1)] + ops;
    assert txs[1..] == [] && W.CutTxs(txs, 2) == txs;
    assert W.Flatten(txs) == [W.Begin(1)] + ops;
    W.CommittedExactly(txs, 2);
    assert W.CommittedOps(txs) == [];
    assert map[0 := b][0] != map[0 := a][0];
    OneRowIsDistinct(a);
  }

  lemma OneRowIsDistinct(a: Row)
    ensures Distinct(map[0 := a], [])
  {
  }

  // With no insert since the image but those committed, none of them deleted, and no growth, there is no gap.
  lemma {:induction false} PlainRunsAreContiguous(base: Image, recs: W.Log, cols: seq<Col>)
    requires LegalRun(base, recs, cols) && Dense(base, recs)
    requires forall i :: i in Deleted(recs) ==> i < base.next
    ensures Contiguous(Run(base, recs).rows, base.next, base.next)
    ensures forall d :: base.next <= d < Run(base, recs).next ==> d in Run(base, recs).rows
  {
    if recs != [] {
      var front, rec := recs[..|recs| - 1], recs[|recs| - 1];
      assert Deleted(front) <= Deleted(recs) && (rec.Delete? ==> rec.idx in Deleted(recs));
      PlainRunsAreContiguous(base, front, cols);
      RunBounds(base, front, cols);
      assert Run(base, recs) == Step(Run(base, front), rec);
    }
  }

  /** Every insert takes the very next number. */
  ghost predicate Dense(base: Image, recs: W.Log) {
    recs == [] || (Dense(base, recs[..|recs| - 1]) &&
      (recs[|recs| - 1].Insert? ==> recs[|recs| - 1].idx == Run(base, recs[..|recs| - 1]).next))
  }

  // A row inserted and deleted before a later insert shifts it: replay brings row 1 back as row 0.
  lemma GapShiftsRows(row: Row)
    ensures var recs := [W.Insert(0, row), W.Delete(0), W.Insert(1, row)];
      var r := RedoAll([], Reached(map[], 0, map[]), W.Net(recs));
      && LegalRun(Image(map[], 0), recs, []) && r.Reached?
      && r.rows == map[0 := row] != Run(Image(map[], 0), recs).rows == map[1 := row]
  {
    hide Distinct;
    var start := Reached(map[], 0, map[]);
    GapRun(row);
    RedoPush([], start, [], W.Delete(0));
    RedoPush([], start, [W.Delete(0)], W.Insert(1, row));
    assert [W.Delete(0)] + [W.Insert(1, row)] == [W.Delete(0), W.Insert(1, row)];
    assert Unclashed(map[], [], 0, row);
  }

  lemma GapRun(row: Row)
    ensures var recs := [W.Insert(0, row), W.Delete(0), W.Insert(1, row)];
      LegalRun(Image(map[], 0), recs, []) && Run(Image(map[], 0), recs).rows == map[1 := row]
      && W.Net(recs) == [W.Delete(0), W.Insert(1, row)]
  {
    hide W.Net;
    var base := Image(map[], 0);
    var r0: W.Log, r1: W.Log, r2: W.Log := [], [W.Insert(0, row)], [W.Insert(0, row), W.Delete(0)];
    var r3 := r2 + [W.Insert(1, row)];
    assert r1 == r0 + [W.Insert(0, row)] && r2 == r1 + [W.Delete(0)];
    assert r3 == [W.Insert(0, row), W.Delete(0), W.Insert(1, row)];
    RunPush(base, r0, W.Insert(0, row), []);
    RunPush(base, r1, W.Delete(0), []);
    RunPush(base, r2, W.Insert(1, row), []);
    GapNet(row);
  }

  lemma GapNet(row: Row)
    ensures W.Net([W.Insert(0, row), W.Delete(0), W.Insert(1, row)]) == [W.Delete(0), W.Insert(1, row)]
  {
    var r1: W.Log, r2: W.Log := [W.Insert(0, row)], [W.Insert(0, row), W.Delete(0)];
    var r3 := [W.Insert(0, row), W.Delete(0), W.Insert(1, row)];
    assert r3[..2] == r2 && r2[..1] == r1 && r1[..0] == [];
    assert W.Net(r1) == [W.Insert(0, row)] && W.Without([W.Insert(0, row)], 0) == [];
    assert W.Net(r2) == [W.Delete(0)];
  }

  // ---- replaying twice --------------------------------------------------------------

  // A crash after recovery wrote its result but before it cleared the log does no harm: replaying
  // the same log over rows that already have it changes nothing.
  lemma ReplayTwice(cols: seq<Col>, base: Image, recs: W.Log, next: nat)
    requires LegalRun(base, recs, cols)
    ensures var r := RedoAll(cols, Reached(Run(base, recs).rows, next, map[]), W.Net(recs));
      r.Reached? && r.rows == Run(base, recs).rows && r.next == next
  {
    hide Distinct, Run, LegalRun, Redo, Deleted, Updated, KeepLive, RedoAll, W.Net;
    NetKeepsLive(base, recs, cols);
    assert recs[..|recs|] == recs;
    ReplayRetraces(cols, base, |recs|, Image(Run(base, recs).rows, next), recs, |recs|);
    RunBounds(base, recs, cols);
  }
}
