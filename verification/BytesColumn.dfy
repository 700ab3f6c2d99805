/** A bytes column: dictionary codes while the distinct values are few, a plain list otherwise. */
module BytesColumns {
  import opened Bits
  import opened Masks
  import opened Values

  type Blob = seq<byte>

  /** The array type of the codes, chosen from the threshold: "B", "H" or "I". */
  function CodeLimit(threshold: nat): nat {
    if threshold <= 256 then 0x100 else if threshold <= 65536 then 0x1_0000 else 0x1_0000_0000
  }

  // the array type is the narrowest that holds as many codes as the threshold allows
  lemma CodesFit(threshold: nat)
    requires threshold <= 0x1_0000_0000
    ensures threshold <= CodeLimit(threshold) && CodeLimit(threshold) in {256, 65536, 4294967296}
    ensures (CodeLimit(threshold) > 256 ==> threshold > 256) && (CodeLimit(threshold) > 65536 ==> threshold > 65536)
  {
  }

  /** Value to code and code to value are each other's inverse. */
  ghost predicate Inverse(dict: map<Blob, nat>, values: seq<Blob>) {
    && (forall v :: v in dict ==> dict[v] < |values| && values[dict[v]] == v)
    && (forall k :: 0 <= k < |values| ==> values[k] in dict && dict[values[k]] == k)
  }

  // a code array reads back through a dictionary
  function Decoded(codes: seq<nat>, values: seq<Blob>): (r: seq<Blob>)
    ensures |r| == |codes|
  {
    seq(|codes|, i requires 0 <= i < |codes| => if codes[i] < |values| then values[codes[i]] else [])
  }

  /** What a comparison by code can decide: equal, different, or one of a list. */
  datatype CodeTest = SameAs(v: Blob) | OtherThan(v: Blob) | OneOf(vs: seq<Blob>)

  predicate Passes(t: CodeTest, v: Blob) {
    match t
    case SameAs(w) => v == w
    case OtherThan(w) => v != w
    case OneOf(ws) => v in ws
  }

  lemma PassesIs(t: CodeTest)
    ensures t.SameAs? ==> forall v :: Passes(t, v) <==> v == t.v
    ensures t.OtherThan? ==> forall v :: Passes(t, v) <==> v != t.v
    ensures t.OneOf? ==> forall v :: Passes(t, v) <==> exists j :: 0 <= j < |t.vs| && t.vs[j] == v
  {
  }

  /** The values whose codes a test looks up. */
  function Tested(t: CodeTest): seq<Blob> {
    match t
    case SameAs(v) => [v]
    case OtherThan(v) => [v]
    case OneOf(vs) => vs
  }

  class BytesColumn {
    const dictEncode: bool
    const threshold: nat
    var dictMode: bool
    var dictFallback: bool
    var dict: map<Blob, nat>
    var dictValues: seq<Blob>
    var codes: seq<nat>
    var data: seq<Blob>
    var nullmask: seq<bool>

    constructor (dictEncode: bool, threshold: nat)
      requires threshold <= 0x1_0000_0000
      ensures Valid() && Contents() == [] && this.dictEncode == dictEncode && this.threshold == threshold
      ensures IsDict() == dictEncode
    {
      this.dictEncode, this.threshold := dictEncode, threshold;
      dictMode, dictFallback := dictEncode, false;
      dict, dictValues, codes, data, nullmask := map[], [], [], [], [];
    }

    predicate IsDict()
      reads this
    {
      dictMode && !dictFallback
    }

    /** The dictionary is sound, below its threshold, and every code is in it and fits the code array;
        a null's placeholder code may precede the first value. */
    ghost predicate DictOk()
      reads this
    {
      && Inverse(dict, dictValues) && |dictValues| <= threshold <= 0x1_0000_0000
      && (forall i :: 0 <= i < |codes| ==> codes[i] < CodeLimit(threshold))
      && forall i :: 0 <= i < |codes| ==> codes[i] < |dictValues| || (codes[i] == 0 && i < |nullmask| && nullmask[i])
    }

    ghost function Stored(): seq<Blob>
      reads this
    {
      if IsDict() then Decoded(codes, dictValues) else data
    }

    ghost predicate Valid()
      reads this
    {
      && |Stored()| == |nullmask| && threshold <= 0x1_0000_0000
      && (IsDict() ==> dictEncode && DictOk())
      && (dictMode ==> !dictFallback)
    }

    ghost function Contents(): seq<Option<Blob>>
      reads this
      requires Valid()
    {
      Mask(nullmask, Stored())
    }

    // ---- the dictionary -------------------------------------------------------

    /** Gives up the dictionary: every code becomes its value. */
    method ConvertToRaw()
      requires IsDict() && forall i :: 0 <= i < |codes| ==> codes[i] < |dictValues|
      modifies `dictMode, `dictFallback, `dict, `dictValues, `codes, `data
      ensures !dictMode && dictFallback && data == Decoded(old(codes), old(dictValues))
    {
      dictFallback := true;
      var raw: seq<Blob> := [];
      for i := 0 to |codes|
        modifies {}
        invariant |raw| == i && forall j :: 0 <= j < i ==> raw[j] == dictValues[codes[j]]
      {
        raw := raw + [dictValues[codes[i]]];
      }
      data := raw;
      dictMode := false;
      dict, dictValues, codes := map[], [], [];
    }

    /** The value's code, new if need be; none when the dictionary overflowed and was given up. */
    method AddToDict(value: Blob) returns (code: Option<nat>)
      requires IsDict() && dictEncode && DictOk() && |codes| <= |nullmask|
      modifies `dictMode, `dictFallback, `dict, `dictValues, `codes, `data
      ensures code.Some? ==> IsDict() && DictOk() && codes == old(codes) && dictFallback == old(dictFallback)
      ensures code.Some? ==>
        code.value < |dictValues| && code.value < CodeLimit(threshold) && dictValues[code.value] == value
      ensures code.Some? ==> old(dictValues) <= dictValues
      ensures code.None? <==> value !in old(dict) && |old(dictValues)| >= threshold
      ensures code.None? ==> !IsDict() && !dictMode && dictFallback && |data| == |old(codes)|
      ensures code.None? ==>
        forall i :: 0 <= i < |data| && old(codes)[i] < |old(dictValues)| ==> data[i] == old(dictValues)[old(codes)[i]]
    {
      if value in dict {
        return Some(dict[value]);
      }
      var c := |dictValues|;
      dict := dict[value := c];
      dictValues := dictValues + [value];
      if c >= threshold {
        ConvertToRaw();
        return None;
      }
      code := Some(c);
    }

    // ---- writing ----------------------------------------------------------------

    method Append(value: Option<Blob>)
      requires Valid()
      modifies this
      ensures Valid() && Contents() == old(Contents()) + [value]
      ensures dictFallback || !old(dictFallback)
      ensures IsDict() ==> old(IsDict())
    {
      nullmask := nullmask + [value.None?];
      if IsDict() {
        if value.Some? {
          AppendInDict(value.value);
        } else {
          codes := codes + [0];
        }
      } else {
        data := data + [if value.Some? then value.value else []];
      }
      MaskPush(old(nullmask), old(Stored()), Stored(), value);
    }

    method AppendInDict(value: Blob)
      requires IsDict() && dictEncode && DictOk() && |nullmask| == |codes| + 1 && !nullmask[|codes|]
      modifies `dictMode, `dictFallback, `dict, `dictValues, `codes, `data
      ensures Valid() && |nullmask| == |Stored()| == |old(codes)| + 1 && Stored()[|old(codes)|] == value
      ensures forall i :: 0 <= i < |old(codes)| && !nullmask[i] ==> Stored()[i] == old(Stored())[i]
      ensures dictFallback || !old(dictFallback)
    {
      var code := AddToDict(value);
      if code.Some? {
        codes := codes + [code.value];
      } else {
        data := data + [value];
      }
    }

    /** False when the index is out of range, which raises. */
    method SetItem(idx: int, value: Option<Blob>) returns (ok: bool)
      requires Valid()
      modifies this
      ensures Valid() && ok == (0 <= idx < |old(nullmask)|)
      ensures Contents() == if ok then old(Contents())[idx := value] else old(Contents())
      ensures dictFallback || !old(dictFallback)
      ensures IsDict() ==> old(IsDict())
    {
      if idx < 0 || idx >= |nullmask| {
        return false;
      }
      ok := true;
      if IsDict() {
        if value.None? {
          nullmask := nullmask[idx := true];
          codes := codes[idx := 0];
        } else {
          SetInDict(idx, value.value);
        }
      } else {
        nullmask := nullmask[idx := value.None?];
        data := data[idx := if value.Some? then value.value else []];
      }
      assert Contents() == old(Contents())[idx := value];
    }

    method SetInDict(idx: nat, value: Blob)
      requires Valid() && IsDict() && idx < |nullmask|
      modifies this
      ensures Valid() && Contents() == old(Contents())[idx := Some(value)]
      ensures dictFallback || !old(dictFallback)
    {
      ghost var nulls, stored := nullmask, Stored();
      PutInDict(idx, value);
      nullmask := nullmask[idx := false];
      MaskPut(nulls, stored, Stored(), idx, Some(value));
    }

    method PutInDict(idx: nat, value: Blob)
      requires Valid() && IsDict() && idx < |nullmask|
      modifies `dictMode, `dictFallback, `dict, `dictValues, `codes, `data
      ensures Valid() && Stored()[idx] == value
      ensures IsDict() ==> codes[idx] < |dictValues|
      ensures forall i :: 0 <= i < |nullmask| && i != idx && !nullmask[i] ==> Stored()[i] == old(Stored())[i]
      ensures dictFallback || !old(dictFallback)
    {
      var code := AddToDict(value);
      if code.Some? {
        codes := codes[idx := code.value];
      } else {
        data := data[idx := value];
      }
    }

    // ---- reading ------------------------------------------------------------------

    method GetItem(idx: nat) returns (r: Option<Blob>)
      requires Valid() && idx < |nullmask|
      ensures r == Contents()[idx]
    {
      if nullmask[idx] {
        return None;
      }
      r := Some(if IsDict() then dictValues[codes[idx]] else data[idx]);
    }

    method ToList() returns (out: seq<Option<Blob>>)
      requires Valid()
      ensures out == Contents()
    {
      out := [];
      for i := 0 to |nullmask|
        invariant out == Contents()[..i]
      {
        out := out + [if nullmask[i] then None else Some(if IsDict() then dictValues[codes[i]] else data[i])];
      }
    }

    /** The code a test looks for, when it is in the dictionary. */
    function CodeOf(v: Blob): (r: Option<nat>)
      reads this
    {
      if v in dict then Some(dict[v]) else None
    }

    /** The rows passing a test, found by comparing codes: nulls never pass, and the answer is the one
        comparing values gives. */
    method MatchCodes(t: CodeTest) returns (mask: seq<bool>)
      requires Valid() && IsDict()
      ensures |mask| == |Contents()|
      ensures forall i :: 0 <= i < |mask| ==> mask[i] == (Contents()[i].Some? && Passes(t, Contents()[i].value))
      ensures t.SameAs? ==> forall i :: 0 <= i < |mask| ==> (mask[i] <==> Contents()[i] == Some(t.v))
      ensures t.OtherThan? ==> forall i :: 0 <= i < |mask| ==>
        (mask[i] <==> Contents()[i].Some? && Contents()[i].value != t.v)
      ensures t.OneOf? ==> forall i :: 0 <= i < |mask| ==>
        (mask[i] <==> Contents()[i].Some? && exists j :: 0 <= j < |t.vs| && t.vs[j] == Contents()[i].value)
    {
      hide BytesColumn.Valid, BytesColumn.Contents, BytesColumn.DictOk, BytesColumn.Wanted, Inverse, Passes, Mask;
      var wanted := WantedCodes(t);
      mask := [];
      CodePerRow();
      for i := 0 to |codes|
        invariant |mask| == i
        invariant forall j :: 0 <= j < i ==> mask[j] == (Contents()[j].Some? && Passes(t, Contents()[j].value))
      {
        var hit := if t.OtherThan? then codes[i] !in wanted else codes[i] in wanted;
        CellAt(i);
        if !nullmask[i] {
          SameByCode(t, wanted, codes[i]);
        }
        mask := mask + [hit && !nullmask[i]];
      }
      PassesIs(t);
    }

    lemma CodePerRow()
      requires Valid() && IsDict()
      ensures |Contents()| == |codes| == |nullmask|
    {
    }

    lemma CellAt(i: nat)
      requires Valid() && IsDict() && i < |codes|
      ensures i < |Contents()| && Inverse(dict, dictValues)
      ensures nullmask[i] ==> Contents()[i] == None
      ensures !nullmask[i] ==> codes[i] < |dictValues| && Contents()[i] == Some(dictValues[codes[i]])
    {
    }

    ghost predicate Wanted(t: CodeTest, c: nat)
      reads this
    {
      exists j :: 0 <= j < |Tested(t)| && Tested(t)[j] in dict && dict[Tested(t)[j]] == c
    }

    /** The codes of the tested values that occur. */
    method WantedCodes(t: CodeTest) returns (wanted: seq<nat>)
      ensures forall c :: c in wanted <==> Wanted(t, c)
    {
      wanted := [];
      var vs := Tested(t);
      for i := 0 to |vs|
        invariant forall c :: c in wanted <==> exists j :: 0 <= j < i && vs[j] in dict && dict[vs[j]] == c
      {
        var c := CodeOf(vs[i]);
        if c.Some? {
          wanted := wanted + [c.value];
        }
      }
    }

    lemma SameByCode(t: CodeTest, wanted: seq<nat>, code: nat)
      requires Inverse(dict, dictValues) && code < |dictValues|
      requires forall c :: c in wanted <==> Wanted(t, c)
      ensures (if t.OtherThan? then code !in wanted else code in wanted) == Passes(t, dictValues[code])
    {
      var value := dictValues[code];
      assert dict[value] == code;
      if value in Tested(t) {
        var j :| 0 <= j < |Tested(t)| && Tested(t)[j] == value;
        assert Wanted(t, code);
      }
      if code in wanted {
        assert Wanted(t, code);
        var j :| 0 <= j < |Tested(t)| && Tested(t)[j] in dict && dict[Tested(t)[j]] == code;
        assert dictValues[dict[Tested(t)[j]]] == Tested(t)[j];
      }
    }

    // ---- rebuilding without the dead rows --------------------------------------------

    /** _rebuild_column_alive: keeps the live rows, renumbering codes densely in order of first use.
        False when a live null of an empty dictionary has no value to keep, which raises. */
    method RebuildAlive(live: seq<bool>) returns (ok: bool)
      requires Valid() && |live| == |nullmask|
      modifies this
      ensures Valid() && IsDict() == old(IsDict())
      ensures ok && IsDict() ==> Used(codes, |dictValues|)
      ensures !ok ==> Contents() == old(Contents()) && !NoLiveNull(live, old(nullmask))
      ensures ok ==> nullmask == Clear(|Alive(live)|)
      ensures ok ==> (Contents() == Pick(old(Contents()), Alive(live)) <==> NoLiveNull(live, old(nullmask)))
    {
      var rows := Alive(live);
      ghost var nulls, stored := nullmask, Stored();
      if IsDict() {
        ok := RebuildDict(rows);
        if !ok {
          return;
        }
      } else {
        RebuildRaw(rows);
        ok := true;
      }
      nullmask := Clear(|rows|);
      ClearedMask(nulls, stored, live, Stored());
    }

    method RebuildRaw(rows: seq<nat>)
      requires !IsDict() && forall j :: 0 <= j < |rows| ==> rows[j] < |data|
      modifies `data
      ensures data == Pick(old(data), rows)
    {
      var kept: seq<Blob> := [];
      for i := 0 to |rows|
        modifies {}
        invariant |kept| == i && forall j :: 0 <= j < i ==> kept[j] == data[rows[j]]
      {
        kept := kept + [data[rows[i]]];
      }
      data := kept;
    }

    /** The loop over the live rows, with its code mapping. */
    method RebuildDict(rows: seq<nat>) returns (ok: bool)
      requires Valid() && IsDict() && forall j :: 0 <= j < |rows| ==> rows[j] < |nullmask|
      modifies `dict, `dictValues, `codes
      ensures !ok ==> exists j :: 0 <= j < |rows| && nullmask[rows[j]]
      ensures !ok ==> codes == old(codes) && dict == old(dict) && dictValues == old(dictValues)
      ensures ok ==> Inverse(dict, dictValues) && |dictValues| <= threshold && Used(codes, |dictValues|)
      ensures ok ==> forall j :: 0 <= j < |codes| ==> codes[j] < |dictValues|
      ensures ok ==> Decoded(codes, dictValues) == Pick(Decoded(old(codes), old(dictValues)), rows)
    {
      var newValues, newCodes;
      ghost var mapping, origin;
      ok, newValues, newCodes, mapping, origin := Renumber(rows);
      if ok {
        RenumberedApart(mapping, origin, dictValues, newValues, dict);
        dict := NumberFrom(newValues);
        dictValues, codes := newValues, newCodes;
      }
    }

    method Renumber(rows: seq<nat>)
      returns (ok: bool, newValues: seq<Blob>, newCodes: seq<nat>, ghost mapping': map<nat, nat>,
          ghost origin: seq<nat>)
      requires DictOk() && |codes| == |nullmask| && forall j :: 0 <= j < |rows| ==> rows[j] < |codes|
      ensures !ok ==> exists j :: 0 <= j < |rows| && nullmask[rows[j]]
      ensures ok ==>
        Renumbered(mapping', origin, dictValues, newValues) && Used(newCodes, |newValues|) && |newCodes| == |rows|
      ensures ok ==> forall i :: 0 <= i < |rows| ==> newCodes[i] < |newValues| && origin[newCodes[i]] == codes[rows[i]]
    {
      hide Inverse, Renumbered, Used;
      newValues, newCodes, mapping', origin := [], [], map[], [];
      var mapping: map<nat, nat> := map[];
      NothingMapped(dictValues);
      for j := 0 to |rows|
        invariant |newCodes| == j && Renumbered(mapping, origin, dictValues, newValues) && Used(newCodes, |newValues|)
        invariant |origin| == |newValues|
        invariant forall i :: 0 <= i < j ==> newCodes[i] < |newValues| && origin[newCodes[i]] == codes[rows[i]]
      {
        if codes[rows[j]] !in mapping && codes[rows[j]] >= |dictValues| {
          return false, newValues, newCodes, mapping, origin;
        }
        mapping, newValues, newCodes, origin :=
          NoteCode(mapping, origin, dictValues, newValues, newCodes, codes[rows[j]]);
      }
      ok, mapping' := true, mapping;
    }
  }

  // ---- dense renumbering ------------------------------------------------------------

  /** Every code below n is used by some row. */
  ghost predicate Used(codes: seq<nat>, n: nat) { forall k :: 0 <= k < n ==> k in codes }

  /** Old codes to new ones, with the old code each new one came from. */
  ghost predicate Renumbered(mapping: map<nat, nat>, origin: seq<nat>, was: seq<Blob>, values: seq<Blob>) {
    && |origin| == |values|
    && (forall c :: c in mapping ==> mapping[c] < |values| && origin[mapping[c]] == c)
    && (forall k :: 0 <= k < |values| ==> origin[k] < |was| && values[k] == was[origin[k]])
    && (forall k :: 0 <= k < |values| ==> origin[k] in mapping && mapping[origin[k]] == k)
  }

  lemma NothingMapped(was: seq<Blob>)
    ensures Renumbered(map[], [], was, []) && Used([], 0)
  {
  }

  /** One turn of the renumbering loop: the code is mapped, first seen or not, and noted. */
  method NoteCode(mapping: map<nat, nat>, ghost origin: seq<nat>, was: seq<Blob>, values: seq<Blob>, codes: seq<nat>,
                  code: nat)
    returns (mapping': map<nat, nat>, values': seq<Blob>, codes': seq<nat>, ghost origin': seq<nat>)
    requires Renumbered(mapping, origin, was, values) && Used(codes, |values|) && (code in mapping || code < |was|)
    requires forall i :: 0 <= i < |codes| ==> codes[i] < |values|
    ensures Renumbered(mapping', origin', was, values') && Used(codes', |values'|) && origin <= origin'
    ensures |origin'| == |values'|
    ensures |codes'| == |codes| + 1 && codes <= codes' && codes'[|codes|] < |values'|
    ensures origin'[codes'[|codes|]] == code
  {
    mapping', values', origin' := mapping, values, origin;
    if code !in mapping {
      mapping', values' := mapping[code := |values|], values + [was[code]];
      origin' := origin + [code];
    }
    codes' := codes + [mapping'[code]];
    forall k | 0 <= k < |values'|
      ensures k in codes'
    {
      if k == |values| {
        assert codes'[|codes|] == k;
      }
    }
  }

  // distinct values stay distinct, and there are no more of them than before
  lemma RenumberedApart(mapping: map<nat, nat>, origin: seq<nat>, was: seq<Blob>, values: seq<Blob>,
                        dict: map<Blob, nat>)
    requires Inverse(dict, was) && Renumbered(mapping, origin, was, values)
    ensures |values| <= |was|
    ensures forall i, j :: 0 <= i < j < |values| ==> values[i] != values[j]
  {
    forall i, j | 0 <= i < j < |values|
      ensures origin[i] != origin[j] && values[i] != values[j]
    {
      assert mapping[origin[i]] == i && mapping[origin[j]] == j;
      assert dict[was[origin[i]]] == origin[i] && dict[was[origin[j]]] == origin[j];
    }
    ApartBelow(origin, |was|);
  }

  // there are at most n different numbers below n
  lemma {:induction false} ApartBelow(s: seq<nat>, n: nat)
    requires (forall i :: 0 <= i < |s| ==> s[i] < n) && forall i, j :: 0 <= i < j < |s| ==> s[i] != s[j]
    ensures |s| <= n
    decreases n
  {
    if s != [] {
      assert s[0] < n;
      if n - 1 in s {
        var k :| 0 <= k < |s| && s[k] == n - 1;
        ApartBelow(s[..k] + s[k + 1..], n - 1);
      } else {
        ApartBelow(s, n - 1);
      }
    }
  }

  /** {v: i for i, v in enumerate(values)} */
  function NumberFrom(values: seq<Blob>): (r: map<Blob, nat>)
    requires forall i, j :: 0 <= i < j < |values| ==> values[i] != values[j]
    ensures Inverse(r, values)
  {
    map k: nat | k < |values| :: values[k] := k
  }
}
