/** A log replayed over rows that compaction has renumbered since, and exactly when that changes nothing. */
module OldLogs {
  import opened Values
  import opened UniqueKeys
  import opened Recovery
  import W = Wals

  /** Rows numbered 0 to n - 1. */
  ghost predicate Renumbered(p: map<nat, Row>, n: nat) { forall i: nat :: i in p <==> i < n }

  /** No row number below n is deleted. */
  ghost predicate NoneDropped(recs: W.Log, n: nat) { forall i: nat :: i in Deleted(recs) ==> i >= n }

  /** An insert, at a number from n on, of a row not deleted later. */
  predicate Adds(rec: W.Rec, n: nat, gone: set<nat>) { rec.Insert? && rec.idx !in gone && rec.idx >= n }

  /** Every insert of a row not deleted later has a number below n. */
  ghost predicate NoneAdded(recs: W.Log, n: nat) {
    forall k :: 0 <= k < |recs| ==> !Adds(recs[k], n, Deleted(recs))
  }

  /** An updated row that survives reads as the row its number has now. */
  ghost predicate NoneChanged(recs: W.Log, end: map<nat, Row>, p: map<nat, Row>) {
    forall i :: i in Updated(recs) && i in end && i in p ==> end[i] == p[i]
  }

  // ---- harmless -----------------------------------------------------------------------

  // an update of a row beyond the renumbered ones finds nothing
  lemma UpdateBeyond(cols: seq<Col>, r: Replayed, s: Image, loaded: Image, gone: set<nat>, updated: set<nat>, i: nat,
                     row: Row)
    requires Retraces(r, s, loaded, gone, updated) && i in s.rows && i !in loaded.rows
    ensures Retraces(Redo(cols, r, W.Update(i, row)), Step(s, W.Update(i, row)), loaded, gone, updated + {i})
  {
  }

  lemma InsertFound(cols: seq<Col>, r: Replayed, i: nat, row: Row)
    requires r.Reached? && i in r.rows
    ensures Redo(cols, r, W.Insert(i, row)) == r
  {
  }

  lemma HarmlessStep(cols: seq<Col>, r: Replayed, base: Image, p: map<nat, Row>, n: nat, recs: W.Log, k: nat)
    requires LegalRun(base, recs, cols) && k < |recs| && Renumbered(p, n) && NoneDropped(recs, n) && NoneAdded(recs, n)
    requires Retraces(r, Run(base, recs[..k]), Image(p, n), Deleted(recs), Updated(recs[..k]))
    ensures Retraces(if Kept(recs[k], Deleted(recs)) then Redo(cols, r, recs[k]) else r,
                     Run(base, recs[..k + 1]), Image(p, n), Deleted(recs), Updated(recs[..k + 1]))
  {
    hide Distinct, Run, LegalRun, Deleted, Updated, KeepLive, Unclashed, Retraces, Redo;
    var (s, rec, gone, updated) := (Run(base, recs[..k]), recs[k], Deleted(recs), Updated(recs[..k]));
    Prefixes(recs, k);
    assert updated + {} == updated;
    RunPrefix(base, recs, cols, k);
    RunBounds(base, recs[..k], cols);
    DeletedHas(recs, k);
    RetracesParts(r, s, Image(p, n), gone, updated);
    if rec.Insert? {
      if Kept(rec, gone) {
        InsertFound(cols, r, rec.idx, rec.row);
      }
      RetracesInsert(r, s, Image(p, n), gone, updated, rec.idx, rec.row);
    } else if rec.Update? && Kept(rec, gone) {
      if rec.idx < n {
        RetracesUpdate(cols, r, s, Image(p, n), gone, updated, rec.idx, rec.row);
      } else {
        UpdateBeyond(cols, r, s, Image(p, n), gone, updated, rec.idx, rec.row);
      }
    } else {
      RetracesGone(cols, r, s, Image(p, n), gone, updated, rec);
    }
  }

  lemma {:induction false} HarmlessReplay(cols: seq<Col>, base: Image, p: map<nat, Row>, n: nat, recs: W.Log, k: nat)
    requires LegalRun(base, recs, cols) && k <= |recs| && Renumbered(p, n) && NoneDropped(recs, n) && NoneAdded(recs, n)
    ensures Retraces(RedoAll(cols, Reached(p, n, map[]), KeepLive(recs[..k], Deleted(recs))),
                     Run(base, recs[..k]), Image(p, n), Deleted(recs), Updated(recs[..k]))
  {
    hide *;
    if k == 0 {
      RetracesAtFirst(cols, base, Image(p, n), recs);
    } else {
      HarmlessReplay(cols, base, p, n, recs, k - 1);
      Prefixes(recs, k - 1);
      var start, kept := Reached(p, n, map[]), KeepLive(recs[..k - 1], Deleted(recs));
      RedoPush(cols, start, kept, recs[k - 1]);
      assert kept + [] == kept;
      HarmlessStep(cols, RedoAll(cols, start, kept), base, p, n, recs, k - 1);
    }
  }

  lemma SameRows(r: Replayed, end: Image, p: map<nat, Row>, n: nat, recs: W.Log)
    requires Retraces(r, end, Image(p, n), Deleted(recs), Updated(recs)) && Renumbered(p, n)
    requires NoneDropped(recs, n) && NoneChanged(recs, end.rows, p)
    ensures r.Reached? && r.rows == p && r.next == n
  {
    hide Deleted, Updated;
    forall i | i in p
      ensures r.rows[i] == p[i]
    {
      assert i !in Deleted(recs);
    }
  }

  // ---- harmful --------------------------------------------------------------------------

  /** Of the rows below n, those deleted are gone and the others read as the run has them once updated, before that
      as found; whatever was inserted came behind them, first at n, and stays there unless that number is deleted. */
  ghost predicate Overlaid(r: Replayed, s: Image, p: map<nat, Row>, n: nat, gone: set<nat>, dropped: set<nat>,
                           updated: set<nat>) {
    r.Reached? ==>
      && r.next >= n && (r.next > n && n !in gone ==> n in r.rows) && (forall i :: i in r.rows ==> i < r.next)
      && (forall i: nat :: i < n && i in dropped ==> i !in r.rows)
      && forall i: nat :: i < n && i !in gone ==> ReadsAs(r.rows, s.rows, p, updated, i)
  }

  ghost predicate ReadsAs(rows: map<nat, Row>, run: map<nat, Row>, p: map<nat, Row>, updated: set<nat>, i: nat) {
    i in rows && if i in updated then i in run && rows[i] == run[i] else i in p && rows[i] == p[i]
  }

  /** An insert of a row not deleted later has been replayed, at a number from n on. */
  ghost predicate Extra(r: Replayed, recs: W.Log, n: nat, gone: set<nat>) {
    r.Reached? && (exists k :: 0 <= k < |recs| && Adds(recs[k], n, gone)) ==> r.next > n
  }

  /** Numbers are only handed out, one for an insert not found. */
  ghost predicate Goes(r: Replayed, r': Replayed, rec: W.Rec, n: nat, gone: set<nat>) {
    r'.Reached? ==> r.Reached? && r.next <= r'.next && (Adds(rec, n, gone) ==> r'.next > n)
  }

  lemma OverlaidStep(cols: seq<Col>, r: Replayed, s: Image, p: map<nat, Row>, n: nat, gone: set<nat>,
                     dropped: set<nat>, updated: set<nat>, rec: W.Rec)
    requires Overlaid(r, s, p, n, gone, dropped, updated) && Legal(s, rec) && (forall i :: i in s.rows ==> i < s.next)
    requires rec.Delete? ==> rec.idx in gone
    ensures Overlaid(if Kept(rec, gone) then Redo(cols, r, rec) else r, Step(s, rec), p, n, gone,
                     dropped + (if rec.Delete? then {rec.idx} else {}),
                     updated + (if rec.Update? then {rec.idx} else {}))
    ensures Goes(r, if Kept(rec, gone) then Redo(cols, r, rec) else r, rec, n, gone)
  {
    hide Unclashed;
  }

  lemma ExtraStep(r: Replayed, r': Replayed, recs: W.Log, k: nat, n: nat, gone: set<nat>)
    requires k < |recs| && Extra(r, recs[..k], n, gone) && Goes(r, r', recs[k], n, gone)
    ensures Extra(r', recs[..k + 1], n, gone)
  {
    hide Adds;
    var more := recs[..k + 1];
    if exists j :: 0 <= j < |more| && Adds(more[j], n, gone) {
      var j :| 0 <= j < |more| && Adds(more[j], n, gone);
      if j < k {
        assert Adds(recs[..k][j], n, gone);
      }
    }
  }

  lemma OverlaidAtFirst(cols: seq<Col>, base: Image, p: map<nat, Row>, n: nat, recs: W.Log)
    requires Renumbered(p, n)
    ensures var r := RedoAll(cols, Reached(p, n, map[]), KeepLive(recs[..0], Deleted(recs)));
      && Overlaid(r, Run(base, recs[..0]), p, n, Deleted(recs), Deleted(recs[..0]), Updated(recs[..0]))
      && Extra(r, recs[..0], n, Deleted(recs))
  {
    hide Redo;
    assert recs[..0] == [];
  }

  lemma {:induction false} OverlaidReplay(cols: seq<Col>, base: Image, p: map<nat, Row>, n: nat, recs: W.Log, k: nat)
    requires LegalRun(base, recs, cols) && k <= |recs| && Renumbered(p, n)
    ensures var r := RedoAll(cols, Reached(p, n, map[]), KeepLive(recs[..k], Deleted(recs)));
      && Overlaid(r, Run(base, recs[..k]), p, n, Deleted(recs), Deleted(recs[..k]), Updated(recs[..k]))
      && Extra(r, recs[..k], n, Deleted(recs))
  {
    hide *;
    if k == 0 {
      OverlaidAtFirst(cols, base, p, n, recs);
    } else {
      OverlaidReplay(cols, base, p, n, recs, k - 1);
      Prefixes(recs, k - 1);
      DeletedSoFar(recs, k - 1);
      RunPrefix(base, recs, cols, k - 1);
      RunBounds(base, recs[..k - 1], cols);
      DeletedHas(recs, k - 1);
      var start, kept := Reached(p, n, map[]), KeepLive(recs[..k - 1], Deleted(recs));
      var r := RedoAll(cols, start, kept);
      RedoPush(cols, start, kept, recs[k - 1]);
      assert kept + [] == kept;
      OverlaidStep(cols, r, Run(base, recs[..k - 1]), p, n, Deleted(recs), Deleted(recs[..k - 1]),
                   Updated(recs[..k - 1]), recs[k - 1]);
      ExtraStep(r, RedoAll(cols, start, KeepLive(recs[..k], Deleted(recs))), recs, k - 1, n, Deleted(recs));
    }
  }

  lemma DeletedSoFar(recs: W.Log, k: nat)
    requires k < |recs|
    ensures Deleted(recs[..k + 1]) == Deleted(recs[..k]) + (if recs[k].Delete? then {recs[k].idx} else {})
  {
    assert recs[..k + 1][..k] == recs[..k];
  }

  lemma OnlyIf(r: Replayed, end: Image, p: map<nat, Row>, n: nat, recs: W.Log)
    requires Overlaid(r, end, p, n, Deleted(recs), Deleted(recs), Updated(recs)) && Extra(r, recs, n, Deleted(recs))
    requires Renumbered(p, n) && r.Reached? && r.rows == p && forall i :: i in Deleted(recs) ==> i !in end.rows
    ensures NoneDropped(recs, n) && NoneChanged(recs, end.rows, p)
    ensures n !in Deleted(recs) ==> NoneAdded(recs, n)
  {
    hide Deleted, Updated;
  }

  // ---- the theorem ------------------------------------------------------------------------

  // The records of a run are replayed over rows renumbered since, 0 to n - 1. These stay as they are if the run deleted
  // no number below n, the rows it inserted and kept have numbers below n, and each row it updated and kept reads as
  // the row with its number now. Where it did not delete row n itself, only then; the first and the last of the
  // three are needed in any case.
  lemma OldLogHarmless(cols: seq<Col>, base: Image, p: map<nat, Row>, n: nat, recs: W.Log)
    requires LegalRun(base, recs, cols) && Renumbered(p, n)
    ensures var (r, end) := (RedoAll(cols, Reached(p, n, map[]), W.Net(recs)), Run(base, recs).rows);
      && (NoneDropped(recs, n) && NoneAdded(recs, n) && NoneChanged(recs, end, p) ==>
            r.Reached? && r.rows == p && r.next == n)
      && (r.Reached? && r.rows == p ==> NoneDropped(recs, n) && NoneChanged(recs, end, p))
      && (n !in Deleted(recs) ==>
            (r.Reached? && r.rows == p <==> NoneDropped(recs, n) && NoneAdded(recs, n) && NoneChanged(recs, end, p)))
  {
    hide *;
    var (r, end) := (RedoAll(cols, Reached(p, n, map[]), W.Net(recs)), Run(base, recs));
    NetKeepsLive(base, recs, cols);
    assert recs[..|recs|] == recs;
    RunBounds(base, recs, cols);
    if NoneDropped(recs, n) && NoneAdded(recs, n) && NoneChanged(recs, end.rows, p) {
      HarmlessReplay(cols, base, p, n, recs, |recs|);
      SameRows(r, end, p, n, recs);
    }
    if r.Reached? && r.rows == p {
      OverlaidReplay(cols, base, p, n, recs, |recs|);
      OnlyIf(r, end, p, n, recs);
    }
  }

  // Where the surviving rows already had the numbers 0 to n - 1, renumbering moved none of them, and the log does
  // no harm.
  lemma AlreadyNumbered(cols: seq<Col>, base: Image, n: nat, recs: W.Log)
    requires LegalRun(base, recs, cols) && Renumbered(Run(base, recs).rows, n)
    ensures var p := Run(base, recs).rows;
      var r := RedoAll(cols, Reached(p, n, map[]), W.Net(recs));
      r.Reached? && r.rows == p
  {
    hide LegalRun, Run, RedoAll, Deleted, Updated, W.Net, Distinct;
    var p := Run(base, recs).rows;
    RunBounds(base, recs, cols);
    forall k | 0 <= k < |recs|
      ensures !Adds(recs[k], n, Deleted(recs))
    {
      if recs[k].Insert? && recs[k].idx !in Deleted(recs) {
        StaysUnlessDeleted(base, recs, cols, k);
      }
    }
    OldLogHarmless(cols, base, p, n, recs);
  }

  // Where the run deleted row n itself an insert may go unnoticed: row 2 comes and row 1 goes, which leaves row 2
  // alone, renumbered 0; replayed, the insert takes number 1, and the delete removes it again.
  lemma UndoneByChance(a: Row, x: Row)
    ensures var (base, recs) := (Image(map[1 := a], 2), [W.Insert(2, x), W.Delete(1)]);
      var r := RedoAll([], Reached(map[0 := x], 1, map[]), W.Net(recs));
      && LegalRun(base, recs, []) && Run(base, recs).rows == map[2 := x]
      && r.Reached? && r.rows == map[0 := x] && !NoneAdded(recs, 1)
  {
    hide *;
    InsertThenDelete(a, x);
    NetOfBoth(x);
    BothRedone(x);
  }

  lemma InsertThenDelete(a: Row, x: Row)
    ensures var (base, recs) := (Image(map[1 := a], 2), [W.Insert(2, x), W.Delete(1)]);
      LegalRun(base, recs, []) && Run(base, recs).rows == map[2 := x] && !NoneAdded(recs, 1)
  {
    hide *;
    var base := Image(map[1 := a], 2);
    var one: W.Log := [W.Insert(2, x)];
    assert [W.Insert(2, x), W.Delete(1)] == one + [W.Delete(1)] && one == [] + [W.Insert(2, x)];
    NothingUnique();
    StartsAt(base);
    TwoSteps(a, x);
    RunPush(base, [], W.Insert(2, x), []);
    RunPush(base, one, W.Delete(1), []);
    OneAdded(x);
  }

  lemma StartsAt(s: Image)
    requires Distinct(s.rows, []) && forall i :: i in s.rows ==> i < s.next
    ensures Run(s, []) == s && LegalRun(s, [], [])
  {
  }

  lemma TwoSteps(a: Row, x: Row)
    ensures var (base, mid) := (Image(map[1 := a], 2), Image(map[1 := a, 2 := x], 3));
      && Legal(base, W.Insert(2, x)) && Step(base, W.Insert(2, x)) == mid
      && Legal(mid, W.Delete(1)) && Step(mid, W.Delete(1)).rows == map[2 := x]
  {
    assert map[1 := a, 2 := x] - {1} == map[2 := x];
  }

  lemma NothingUnique()
    ensures forall m :: Distinct(m, [])
  {
  }

  lemma OneAdded(x: Row)
    ensures !NoneAdded([W.Insert(2, x), W.Delete(1)], 1)
  {
    var one: W.Log, recs: W.Log := [W.Insert(2, x)], [W.Insert(2, x), W.Delete(1)];
    assert recs[..1] == one && one[..0] == [];
    assert Deleted(one) == {};
    assert Deleted(recs) == {} + {1};
    assert Adds(recs[0], 1, Deleted(recs));
  }

  lemma NetOfBoth(x: Row)
    ensures W.Net([W.Insert(2, x), W.Delete(1)]) == [W.Insert(2, x), W.Delete(1)]
  {
    var one: W.Log, recs: W.Log := [W.Insert(2, x)], [W.Insert(2, x), W.Delete(1)];
    assert recs[..1] == one && one[..0] == [];
    assert W.Net(one) == one && W.Without(one, 1) == one;
  }

  lemma BothRedone(x: Row)
    ensures var r := RedoAll([], Reached(map[0 := x], 1, map[]), [W.Insert(2, x), W.Delete(1)]);
      r.Reached? && r.rows == map[0 := x]
  {
    var start := Reached(map[0 := x], 1, map[]);
    RedoPush([], start, [], W.Insert(2, x));
    RedoPush([], start, [W.Insert(2, x)], W.Delete(1));
    assert [] + [W.Insert(2, x)] == [W.Insert(2, x)];
    assert [W.Insert(2, x)] + [W.Delete(1)] == [W.Insert(2, x), W.Delete(1)];
    assert map[0 := x][1 := x] - {1} == map[0 := x];
  }
}
