/** Frame-of-reference packing: equal-width lanes inside one unbounded integer. */
module Lanes {
  import opened Bits

  /** (packed >> (i * bits)) & ((1 << bits) - 1) */
  function Lane(packed: nat, bits: nat, i: nat): nat {
    Bitwise(AND, Shr(packed, Times(i, bits)), Pow2(bits) - 1)
  }

  /** packed | ((delta & mask) << (count * bits)) */
  function PutLane(packed: nat, bits: nat, count: nat, delta: nat): nat {
    Bitwise(OR, packed, Shl(Bitwise(AND, delta, Pow2(bits) - 1), Times(count, bits)))
  }

  lemma LaneBound(packed: nat, bits: nat, i: nat)
    ensures Lane(packed, bits, i) < Pow2(bits)
  {
    AndMask(Shr(packed, Times(i, bits)), bits);
  }

  // Packing a value in lane `count` keeps the integer below 2^((count+1)*bits),
  // stores the value there and leaves every earlier lane as it was.
  lemma PutLaneKeepsLanes(packed: nat, bits: nat, count: nat, delta: nat)
    requires packed < Pow2(Times(count, bits)) && delta < Pow2(bits)
    ensures PutLane(packed, bits, count, delta) < Pow2(Times(count + 1, bits))
    ensures Lane(PutLane(packed, bits, count, delta), bits, count) == delta
    ensures forall i: nat :: i < count ==>
      Lane(PutLane(packed, bits, count, delta), bits, i) == Lane(packed, bits, i)
  {
    var n := Times(count, bits);
    var packed' := PutLane(packed, bits, count, delta);
    AndMask(delta, bits);
    OrAboveIsAdd(packed, delta, n);
    assert packed' == packed + Shl(delta, n);
    StackBound(packed, delta, n, bits);
    ShrOfSum(packed, delta, n, n);
    ShrSmall(packed, n);
    forall i: nat | i < count
      ensures Lane(packed', bits, i) == Lane(packed, bits, i)
    {
      TimesEnd(i, count, bits);
      LaneBelow(packed, delta, Times(i, bits), bits, n);
    }
  }

  // a read of `bits` bits from position `low` does not reach bits at or above position n
  lemma LaneBelow(packed: nat, delta: nat, low: nat, bits: nat, n: nat)
    requires low + bits <= n
    ensures Bitwise(AND, Shr(packed + Shl(delta, n), low), Pow2(bits) - 1)
         == Bitwise(AND, Shr(packed, low), Pow2(bits) - 1)
  {
    ShrOfSum(packed, delta, n, low);
    ShlShl(delta, n - low - bits, bits);
    AndMaskDropsHigh(Shr(packed, low), Shl(delta, n - low - bits), bits);
  }
}
