/** A bool column: one bit per row in a growing byte string, plus a null mask. */
module BoolColumns {
  import opened Bits
  import opened Masks
  import opened Values

  // ---- bitsets ------------------------------------------------------------------

  /** Bit i of a bitset; bytes not there yet read as zero. */
  predicate BitOf(data: seq<byte>, i: nat) { i / 8 < |data| && BitAt(data[i / 8], i % 8) }

  /** 1 << k, for a bit of a byte */
  function BitMask(k: nat): byte
    requires k < 8
  {
    Pow2Eight();
    Pow2Mono(k, 7);
    assert Pow2(8) == 2 * Pow2(7);
    Pow2(k)
  }

  /** b | (1 << k) */
  function Raised(b: byte, k: nat): byte
    requires k < 8
  {
    ByteOp(OR, b, BitMask(k))
  }

  /** b & (0xFF ^ (1 << k)) */
  function Lowered(b: byte, k: nat): byte
    requires k < 8
  {
    ByteOp(AND, b, ByteOp(XOR, 255, BitMask(k)))
  }

  // raising or lowering one bit of a byte leaves the other seven
  lemma OneBit(b: byte, k: nat, j: nat)
    requires k < 8 && j < 8
    ensures BitAt(Raised(b, k), j) <==> j == k || BitAt(b, j)
    ensures BitAt(Lowered(b, k), j) <==> j != k && BitAt(b, j)
  {
    BitAtPow2(k, j);
    BitAtBitwise(OR, b, Pow2(k), j);
    Pow2Eight();
    BitAtOnes(8, j);
    BitAtBitwise(XOR, 255, Pow2(k), j);
    BitAtBitwise(AND, b, ByteOp(XOR, 255, BitMask(k)), j);
  }

  // bit positions and (byte, bit) pairs are the same thing
  lemma Position(i: nat, j: nat)
    ensures i == j <==> i / 8 == j / 8 && i % 8 == j % 8
  {
  }

  lemma PutByte(data: seq<byte>, data': seq<byte>, idx: nat, b: bool)
    requires idx / 8 < |data| == |data'|
    requires data' == data[idx / 8 := if b then Raised(data[idx / 8], idx % 8) else Lowered(data[idx / 8], idx % 8)]
    ensures forall i: nat :: BitOf(data', i) <==> if i == idx then b else BitOf(data, i)
  {
    forall i: nat
      ensures BitOf(data', i) <==> if i == idx then b else BitOf(data, i)
    {
      Position(i, idx);
      if i / 8 == idx / 8 {
        OneBit(data[idx / 8], idx % 8, i % 8);
      }
    }
  }

  // zero bytes at the end change no bit
  lemma Padded(data: seq<byte>, zeros: nat)
    ensures forall i: nat :: BitOf(data + seq(zeros, _ => 0), i) <==> BitOf(data, i)
  {
    forall i: nat
      ensures BitOf(data + seq(zeros, _ => 0), i) <==> BitOf(data, i)
    {
      BitAtZero(i % 8);
    }
  }

  lemma AllClear(data: seq<byte>)
    requires forall k :: 0 <= k < |data| ==> data[k] == 0
    ensures forall i: nat :: !BitOf(data, i)
  {
    forall i: nat
      ensures !BitOf(data, i)
    {
      BitAtZero(i % 8);
    }
  }

  function MaskedBits(nulls: seq<bool>, data: seq<byte>): (r: seq<Option<bool>>)
    ensures |r| == |nulls|
  {
    seq(|nulls|, i requires 0 <= i < |nulls| => if nulls[i] then None else Some(BitOf(data, i)))
  }

  lemma BitsPush(nulls: seq<bool>, data: seq<byte>, data': seq<byte>, v: Option<bool>)
    requires forall i: nat :: i < |nulls| ==> (BitOf(data', i) <==> BitOf(data, i))
    requires v.Some? ==> BitOf(data', |nulls|) == v.value
    ensures MaskedBits(nulls + [v.None?], data') == MaskedBits(nulls, data) + [v]
  {
    var a, b := MaskedBits(nulls + [v.None?], data'), MaskedBits(nulls, data) + [v];
    forall i | 0 <= i < |a|
      ensures a[i] == b[i]
    {
    }
  }

  lemma BitsPut(nulls: seq<bool>, data: seq<byte>, data': seq<byte>, idx: nat, v: Option<bool>)
    requires idx < |nulls| && forall i: nat :: BitOf(data', i) <==> if i == idx then v == Some(true) else BitOf(data, i)
    ensures MaskedBits(nulls[idx := v.None?], data') == MaskedBits(nulls, data)[idx := v]
  {
    var a, b := MaskedBits(nulls[idx := v.None?], data'), MaskedBits(nulls, data)[idx := v];
    assert v.Some? ==> (v == Some(true)) == v.value;
    forall i | 0 <= i < |a|
      ensures a[i] == b[i]
    {
    }
  }

  class BoolColumn {
    var data: seq<byte>
    var nullmask: seq<bool>

    constructor ()
      ensures Valid() && Contents() == []
    {
      data, nullmask := [], [];
    }

    /** No bit is set past the last row, nor under a null. */
    ghost predicate Valid()
      reads this
    {
      forall i: nat :: BitOf(data, i) ==> i < |nullmask| && !nullmask[i]
    }

    ghost function Contents(): seq<Option<bool>>
      reads this
    {
      MaskedBits(nullmask, data)
    }

    method BoolGet(idx: nat) returns (b: bool)
      ensures b == BitOf(data, idx)
    {
      if idx / 8 >= |data| {
        return false;
      }
      b := BitAt(data[idx / 8], idx % 8);
    }

    /** Sets or clears one bit in place; every other bit stays. */
    method BoolSet(idx: nat, value: bool)
      modifies `data
      ensures forall i: nat :: BitOf(data, i) <==> if i == idx then value else BitOf(old(data), i)
    {
      var at := idx / 8;
      if value {
        GrowTo(at);
        ghost var before := data;
        data := data[at := Raised(data[at], idx % 8)];
        PutByte(before, data, idx, true);
      } else if at < |data| {
        data := data[at := Lowered(data[at], idx % 8)];
        PutByte(old(data), data, idx, false);
      }
    }

    method GrowTo(at: nat)
      modifies `data
      ensures at < |data| && forall i: nat :: BitOf(data, i) <==> BitOf(old(data), i)
    {
      ghost var was, n := data, 0;
      assert was + seq(0, _ => 0) == was;
      while |data| <= at
        invariant data == was + seq(n, _ => 0)
        decreases at - |data|
      {
        data := data + [0];
        n := n + 1;
        assert was + seq(n, _ => 0) == was + seq(n - 1, _ => 0) + [0];
      }
      Padded(was, n);
    }

    method Append(value: Option<bool>)
      requires Valid()
      modifies this
      ensures Valid() && Contents() == old(Contents()) + [value]
    {
      nullmask := nullmask + [value.None?];
      if value == Some(true) {
        BoolSet(|nullmask| - 1, true);
      }
      BitsPush(old(nullmask), old(data), data, value);
    }

    /** False when the index is out of range, which raises. */
    method SetItem(idx: int, value: Option<bool>) returns (ok: bool)
      requires Valid()
      modifies this
      ensures Valid() && ok == (0 <= idx < |old(nullmask)|)
      ensures Contents() == if ok then old(Contents())[idx := value] else old(Contents())
    {
      if idx < 0 || idx >= |nullmask| {
        return false;
      }
      nullmask := nullmask[idx := value.None?];
      BoolSet(idx, value == Some(true));
      BitsPut(old(nullmask), old(data), data, idx, value);
      ok := true;
    }

    method GetItem(idx: nat) returns (r: Option<bool>)
      requires idx < |nullmask|
      ensures r == Contents()[idx]
    {
      if nullmask[idx] {
        return None;
      }
      var b := BoolGet(idx);
      r := Some(b);
    }

    /** _rebuild_column_alive: the live rows' bits packed together, every null mask entry cleared. */
    method RebuildAlive(live: seq<bool>)
      requires Valid() && |live| == |nullmask|
      modifies this
      ensures Valid() && nullmask == Clear(|Alive(live)|)
      ensures Contents() == Pick(old(Contents()), Alive(live)) <==> NoLiveNull(live, old(nullmask))
    {
      var rows := Alive(live);
      var packed := PackBits(rows);
      ghost var nulls, was := nullmask, data;
      data := packed;
      nullmask := Clear(|rows|);
      PickBits(nulls, was, data, rows, live);
    }

    method PackBits(rows: seq<nat>) returns (packed: seq<byte>)
      ensures forall i: nat :: BitOf(packed, i) <==> i < |rows| && BitOf(data, rows[i])
    {
      packed := seq((|rows| + 7) / 8, _ => 0);
      AllClear(packed);
      for out := 0 to |rows|
        invariant |packed| == (|rows| + 7) / 8
        invariant forall i: nat :: BitOf(packed, i) <==> i < out && BitOf(data, rows[i])
      {
        var b := BoolGet(rows[out]);
        if b {
          ghost var before := packed;
          packed := packed[out / 8 := Raised(packed[out / 8], out % 8)];
          PutByte(before, packed, out, true);
        }
      }
    }
  }

  // Packed without their nulls, the live rows read as before exactly when none of them was null.
  lemma PickBits(nulls: seq<bool>, data: seq<byte>, packed: seq<byte>, rows: seq<nat>, live: seq<bool>)
    requires |nulls| == |live| && (forall i :: i in rows <==> 0 <= i < |live| && live[i])
    requires forall j :: 0 <= j < |rows| ==> rows[j] < |live|
    requires forall i: nat :: BitOf(packed, i) <==> i < |rows| && BitOf(data, rows[i])
    ensures MaskedBits(Clear(|rows|), packed) == Pick(MaskedBits(nulls, data), rows) <==> NoLiveNull(live, nulls)
  {
    var a, b := MaskedBits(Clear(|rows|), packed), Pick(MaskedBits(nulls, data), rows);
    if NoLiveNull(live, nulls) {
      forall j | 0 <= j < |rows|
        ensures a[j] == b[j]
      {
        assert rows[j] in rows;
      }
    }
    if a == b {
      forall i | 0 <= i < |live| && live[i]
        ensures !nulls[i]
      {
        assert i in rows;
        var j :| 0 <= j < |rows| && rows[j] == i;
        assert a[j].Some? && b[j] == MaskedBits(nulls, data)[i];
      }
    }
  }
}
