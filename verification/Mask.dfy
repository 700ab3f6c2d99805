/** Null masks over stored values, and what dropping rows does to them. */
module Masks {
  import opened Values

  /** The column a null mask and its stored values stand for. */
  function Mask<T>(nulls: seq<bool>, stored: seq<T>): (r: seq<Option<T>>)
    requires |nulls| == |stored|
    ensures |r| == |nulls|
  {
    seq(|nulls|, i requires 0 <= i < |nulls| => if nulls[i] then None else Some(stored[i]))
  }

  // a value added behind rows whose non-null values stayed
  lemma MaskPush<T>(nulls: seq<bool>, stored: seq<T>, stored': seq<T>, v: Option<T>)
    requires |nulls| == |stored| && |stored'| == |stored| + 1
    requires forall i :: 0 <= i < |nulls| && !nulls[i] ==> stored'[i] == stored[i]
    requires v.Some? ==> stored'[|stored|] == v.value
    ensures Mask(nulls + [v.None?], stored') == Mask(nulls, stored) + [v]
  {
  }

  lemma MaskPut<T>(nulls: seq<bool>, stored: seq<T>, stored': seq<T>, idx: nat, v: Option<T>)
    requires |nulls| == |stored| == |stored'| && idx < |nulls|
    requires forall i :: 0 <= i < |nulls| && i != idx && !nulls[i] ==> stored'[i] == stored[i]
    requires v.Some? ==> stored'[idx] == v.value
    ensures Mask(nulls[idx := v.None?], stored') == Mask(nulls, stored)[idx := v]
  {
  }

  // ---- dropping rows ----------------------------------------------------------------

  /** The row numbers whose flag is set, in order. */
  function Alive(live: seq<bool>): (r: seq<nat>)
    ensures forall i :: i in r <==> 0 <= i < |live| && live[i]
    ensures forall j :: 0 <= j < |r| ==> r[j] < |live|
    ensures forall i, j :: 0 <= i < j < |r| ==> r[i] < r[j]
  {
    if live == [] then [] else Alive(live[..|live| - 1]) + (if live[|live| - 1] then [|live| - 1] else [])
  }

  function Pick<T>(s: seq<T>, rows: seq<nat>): (r: seq<T>)
    requires forall j :: 0 <= j < |rows| ==> rows[j] < |s|
    ensures |r| == |rows|
  {
    seq(|rows|, j requires 0 <= j < |rows| => s[rows[j]])
  }

  predicate NoLiveNull(live: seq<bool>, nulls: seq<bool>) {
    forall i :: 0 <= i < |live| && i < |nulls| && live[i] ==> !nulls[i]
  }

  /** A null mask with no null in it. */
  function Clear(n: nat): (r: seq<bool>)
    ensures |r| == n && forall i :: 0 <= i < n ==> !r[i]
  {
    seq(n, _ => false)
  }

  // With the null mask cleared, the rows kept read as before exactly when none of them was null and
  // the values now shown are the ones they had.
  lemma ClearedMask<T>(nulls: seq<bool>, stored: seq<T>, live: seq<bool>, shown: seq<T>)
    requires |nulls| == |stored| == |live| && |shown| == |Alive(live)|
    ensures Mask(Clear(|shown|), shown) == Pick(Mask(nulls, stored), Alive(live)) <==>
      NoLiveNull(live, nulls) && shown == Pick(stored, Alive(live))
  {
    var rows := Alive(live);
    var (a, b) := (Mask(Clear(|shown|), shown), Pick(Mask(nulls, stored), rows));
    if NoLiveNull(live, nulls) && shown == Pick(stored, rows) {
      forall j | 0 <= j < |rows|
        ensures a[j] == b[j]
      {
        assert rows[j] in rows;
      }
    }
    if a == b {
      forall i | 0 <= i < |live| && live[i]
        ensures !nulls[i]
      {
        assert i in rows;
        var j :| 0 <= j < |rows| && rows[j] == i;
        assert a[j].Some? && b[j] == Mask(nulls, stored)[i];
      }
      forall j | 0 <= j < |rows|
        ensures shown[j] == stored[rows[j]]
      {
        assert a[j] == Some(shown[j]) && rows[j] in rows;
      }
    }
  }

  // A live null in a column whose values are stored one by one comes back as its placeholder.
  lemma NullTurnsValue<T>(placeholder: T)
    ensures Mask(Clear(1), Pick([placeholder], Alive([true]))) == [Some(placeholder)]
    ensures Pick(Mask([true], [placeholder]), Alive([true])) == [None]
  {
    assert Alive([]) == [] && [true][..0] == [];
  }
}
