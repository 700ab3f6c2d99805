/** Python's unbounded non-negative integers seen as bit strings: shifts, masks,
    the bitwise operators, and the little-endian byte conversions. */
module Bits {

  type byte = x: int | 0 <= x < 256

  function Pow2(n: nat): (r: nat)
    ensures r >= 1
  {
    if n == 0 then 1 else 2 * Pow2(n - 1)
  }

  datatype Op = AND | OR | XOR

  predicate OnBits(op: Op, x: bool, y: bool) {
    match op
    case AND => x && y
    case OR => x || y
    case XOR => x != y
  }

  function Bit(b: bool): (r: nat)
    ensures r < 2
  {
    if b then 1 else 0
  }

  /** a & b, a | b and a ^ b, one bit at a time from the low end. */
  function Bitwise(op: Op, a: nat, b: nat): nat
    decreases a + b
  {
    if a == 0 && b == 0 then 0
    else 2 * Bitwise(op, a / 2, b / 2) + Bit(OnBits(op, a % 2 == 1, b % 2 == 1))
  }

  /** a << n */
  function Shl(a: nat, n: nat): nat { if n == 0 then a else 2 * Shl(a, n - 1) }

  /** a >> n */
  function Shr(a: nat, n: nat): nat { if n == 0 then a else Shr(a / 2, n - 1) }

  /** (a >> i) & 1 */
  predicate BitAt(a: nat, i: nat) { Shr(a, i) % 2 == 1 }

  /** int.bit_length() of a non-negative integer */
  function BitLength(a: nat): nat { if a == 0 then 0 else 1 + BitLength(a / 2) }

  /** bin(a).count("1") */
  function PopCount(a: nat): nat { if a == 0 then 0 else a % 2 + PopCount(a / 2) }

  lemma {:induction false} Pow2Mono(m: nat, n: nat)
    requires m <= n
    ensures Pow2(m) <= Pow2(n)
  {
    if m < n {
      Pow2Mono(m, n - 1);
    }
  }

  // ---- products -------------------------------------------------------------

  /** i * w, in steps the solver can follow. */
  function Times(i: nat, w: nat): nat { if i == 0 then 0 else Times(i - 1, w) + w }

  lemma {:induction false} TimesIsProduct(i: nat, w: nat)
    ensures Times(i, w) == i * w
  {
    if i > 0 {
      TimesIsProduct(i - 1, w);
      assert i * w == (i - 1) * w + w;
    }
  }

  lemma {:induction false} TimesEnd(i: nat, n: nat, w: nat)
    requires i < n
    ensures Times(i, w) + w <= Times(n, w)
  {
    if i + 1 < n {
      TimesEnd(i, n - 1, w);
    }
  }

  lemma TimesNext(i: nat, w: nat)
    ensures Times(i + 1, w) == Times(i, w) + w
  {
  }

  lemma {:induction false} TimesAdd(i: nat, j: nat, w: nat)
    ensures Times(i + j, w) == Times(i, w) + Times(j, w)
  {
    if j > 0 {
      TimesAdd(i, j - 1, w);
    }
  }

  lemma MulMono(a: int, b: int, m: nat)
    requires a <= b
    ensures a * m <= b * m
  {
  }

  lemma MulAdd(a: int, b: int, m: int)
    ensures (a + b) * m == a * m + b * m
  {
  }

  lemma QuotientUnique(a: int, m: int, q: int, r: int)
    requires 0 <= r < m && a == q * m + r
    ensures a / m == q && a % m == r
  {
    var q0 := a / m;
    assert a == m * q0 + a % m;
    assert m * q0 == q0 * m;
    MulAdd(q0 - q, q, m);
    if q0 < q {
      MulMono(q0 - q, -1, m);
    } else if q < q0 {
      MulMono(1, q0 - q, m);
    }
  }

  lemma DivModUnique(k: nat, r: nat, m: nat)
    requires r < m
    ensures (Times(k, m) + r) / m == k && (Times(k, m) + r) % m == r
  {
    TimesIsProduct(k, m);
    QuotientUnique(k * m + r, m, k, r);
  }

  lemma DivModTimes(g: nat, m: nat)
    requires m > 0
    ensures 0 <= g / m && 0 <= g % m < m && g == Times(g / m, m) + g % m
  {
    TimesIsProduct(g / m, m);
  }

  // ---- shifts ---------------------------------------------------------------

  lemma {:induction false} ShlZero(k: nat)
    ensures Shl(0, k) == 0
  {
    if k > 0 {
      ShlZero(k - 1);
    }
  }

  lemma {:induction false} ShlShl(d: nat, m: nat, n: nat)
    ensures Shl(d, m + n) == Shl(Shl(d, m), n)
  {
    if n > 0 {
      ShlShl(d, m, n - 1);
    }
  }

  // a >> n drops everything below 2^n
  lemma {:induction false} ShrSmall(a: nat, n: nat)
    requires a < Pow2(n)
    ensures Shr(a, n) == 0
  {
    if n > 0 {
      ShrSmall(a / 2, n - 1);
    }
  }

  // shifting right takes bits added at or above the shift with it
  lemma {:induction false} ShrOfSum(a: nat, d: nat, n: nat, low: nat)
    requires low <= n
    ensures Shr(a + Shl(d, n), low) == Shr(a, low) + Shl(d, n - low)
  {
    if low > 0 {
      assert (a + 2 * Shl(d, n - 1)) / 2 == a / 2 + Shl(d, n - 1);
      ShrOfSum(a / 2, d, n - 1, low - 1);
    }
  }

  // n low bits with `bits` more on top of them
  lemma {:induction false} StackBound(a: nat, d: nat, n: nat, bits: nat)
    requires a < Pow2(n) && d < Pow2(bits)
    ensures a + Shl(d, n) < Pow2(n + bits)
  {
    if n > 0 {
      StackBound(a / 2, d, n - 1, bits);
    }
  }

  // ---- bit length -----------------------------------------------------------

  lemma {:induction false} BitLengthBound(a: nat)
    ensures a < Pow2(BitLength(a))
    ensures a > 0 ==> Pow2(BitLength(a) - 1) <= a
  {
    if a > 1 {
      BitLengthBound(a / 2);
    } else if a == 1 {
      assert BitLength(0) == 0 && BitLength(1) == 1;
    }
  }

  // bit_length() <= k exactly when the value fits in k bits
  lemma BitLengthFits(a: nat, k: nat)
    ensures BitLength(a) <= k <==> a < Pow2(k)
  {
    BitLengthBound(a);
    if BitLength(a) <= k {
      Pow2Mono(BitLength(a), k);
    } else {
      Pow2Mono(k, BitLength(a) - 1);
    }
  }

  // ---- the operators --------------------------------------------------------

  lemma BitwiseStep(op: Op, a: nat, b: nat)
    ensures Bitwise(op, a, b) == 2 * Bitwise(op, a / 2, b / 2) + Bit(OnBits(op, a % 2 == 1, b % 2 == 1))
  {
  }

  lemma {:induction false} BitwiseZero(op: Op, a: nat)
    ensures Bitwise(op, a, 0) == Bitwise(op, 0, a) == (if op == AND then 0 else a)
  {
    if a > 0 {
      BitwiseZero(op, a / 2);
    }
  }

  // the low k bits and the bits above them are combined independently
  lemma {:induction false} BitwiseSplit(op: Op, k: nat, a0: nat, a1: nat, b0: nat, b1: nat)
    requires a0 < Pow2(k) && b0 < Pow2(k)
    ensures Bitwise(op, a0, b0) < Pow2(k)
    ensures Bitwise(op, a0 + Shl(a1, k), b0 + Shl(b1, k)) == Bitwise(op, a0, b0) + Shl(Bitwise(op, a1, b1), k)
  {
    if k > 0 {
      var x, y := Shl(a1, k - 1), Shl(b1, k - 1);
      BitwiseSplit(op, k - 1, a0 / 2, a1, b0 / 2, b1);
      BitwiseStep(op, a0, b0);
      BitwiseStep(op, a0 + 2 * x, b0 + 2 * y);
      assert (a0 + 2 * x) / 2 == a0 / 2 + x && (b0 + 2 * y) / 2 == b0 / 2 + y;
    }
  }

  // OR-ing in bits above position k is addition when everything is below k
  lemma OrAboveIsAdd(a: nat, d: nat, k: nat)
    requires a < Pow2(k)
    ensures Bitwise(OR, a, Shl(d, k)) == a + Shl(d, k)
  {
    ShlZero(k);
    BitwiseSplit(OR, k, a, 0, 0, d);
    BitwiseZero(OR, a);
    BitwiseZero(OR, d);
  }

  lemma OddHalf(p: nat)
    requires p > 0
    ensures (2 * p - 1) / 2 == p - 1 && (2 * p - 1) % 2 == 1
  {
  }

  // masking with 2^k - 1 keeps a value below 2^k, whole if it was there already
  lemma {:induction false} AndMask(a: nat, k: nat)
    ensures Bitwise(AND, a, Pow2(k) - 1) < Pow2(k)
    ensures a < Pow2(k) ==> Bitwise(AND, a, Pow2(k) - 1) == a
  {
    if k == 0 {
      BitwiseZero(AND, a);
    } else {
      AndMask(a / 2, k - 1);
      OddHalf(Pow2(k - 1));
      BitwiseStep(AND, a, Pow2(k) - 1);
    }
  }

  // ... and does not see bits at or above position k
  lemma {:induction false} AndMaskDropsHigh(a: nat, d: nat, k: nat)
    ensures Bitwise(AND, a + Shl(d, k), Pow2(k) - 1) == Bitwise(AND, a, Pow2(k) - 1)
  {
    if k == 0 {
      BitwiseZero(AND, a);
      BitwiseZero(AND, a + d);
    } else {
      var x := Shl(d, k - 1);
      AndMaskDropsHigh(a / 2, d, k - 1);
      OddHalf(Pow2(k - 1));
      BitwiseStep(AND, a, Pow2(k) - 1);
      BitwiseStep(AND, a + 2 * x, Pow2(k) - 1);
      assert (a + 2 * x) / 2 == a / 2 + x;
    }
  }

  // ---- single bits ----------------------------------------------------------

  lemma {:induction false} BitAtBitwise(op: Op, a: nat, b: nat, i: nat)
    ensures BitAt(Bitwise(op, a, b), i) <==> OnBits(op, BitAt(a, i), BitAt(b, i))
  {
    BitwiseStep(op, a, b);
    if i > 0 {
      BitAtBitwise(op, a / 2, b / 2, i - 1);
    }
  }

  lemma {:induction false} BitAtZero(i: nat)
    ensures !BitAt(0, i)
  {
    if i > 0 {
      BitAtZero(i - 1);
    }
  }

  lemma {:induction false} BitAtPow2(k: nat, i: nat)
    ensures BitAt(Pow2(k), i) <==> i == k
  {
    if i > 0 && k > 0 {
      BitAtPow2(k - 1, i - 1);
    } else if i > 0 {
      BitAtZero(i - 1);
    }
  }

  // 2^n - 1 has exactly the low n bits set
  lemma {:induction false} BitAtOnes(n: nat, i: nat)
    ensures BitAt(Pow2(n) - 1, i) <==> i < n
  {
    if n == 0 {
      BitAtZero(i);
    } else {
      OddHalf(Pow2(n - 1));
      if i > 0 {
        BitAtOnes(n - 1, i - 1);
      }
    }
  }

  // ---- bytes ----------------------------------------------------------------

  /** int.from_bytes(s, "little") */
  function FromBytes(s: seq<byte>): nat {
    if s == [] then 0 else s[0] + 256 * FromBytes(s[1..])
  }

  /** x.to_bytes(n, "little"), for an x that fits */
  function ToBytes(x: nat, n: nat): (r: seq<byte>)
    ensures |r| == n
  {
    if n == 0 then [] else [x % 256] + ToBytes(x / 256, n - 1)
  }

  function Pow256(n: nat): (r: nat)
    ensures r >= 1
  {
    if n == 0 then 1 else 256 * Pow256(n - 1)
  }

  lemma {:induction false} ToFromBytes(s: seq<byte>)
    ensures ToBytes(FromBytes(s), |s|) == s
  {
    if s != [] {
      ToFromBytes(s[1..]);
      assert (s[0] + 256 * FromBytes(s[1..])) / 256 == FromBytes(s[1..]);
    }
  }

  lemma {:induction false} FromToBytes(x: nat, n: nat)
    requires x < Pow256(n)
    ensures FromBytes(ToBytes(x, n)) == x
  {
    if n > 0 {
      FromToBytes(x / 256, n - 1);
      assert ToBytes(x, n)[1..] == ToBytes(x / 256, n - 1);
    }
  }

  function ByteOp(op: Op, a: byte, b: byte): byte {
    Pow2Eight();
    BitwiseSplit(op, 8, a, 0, b, 0);
    Bitwise(op, a, b)
  }

  lemma Pow2Eight()
    ensures Pow2(8) == 256
  {
    assert Pow2(1) == 2 && Pow2(2) == 4 && Pow2(3) == 8 && Pow2(4) == 16;
    assert Pow2(5) == 32 && Pow2(6) == 64 && Pow2(7) == 128;
  }

  lemma Pow2Sixteen()
    ensures Pow2(16) == 65536
  {
    Pow2Eight();
    assert Pow2(11) == 2 * Pow2(10) && Pow2(13) == 2 * Pow2(12) && Pow2(15) == 2 * Pow2(14);
  }

  function ZipBytes(op: Op, a: seq<byte>, b: seq<byte>): (r: seq<byte>)
    requires |a| == |b|
    ensures |r| == |a|
  {
    seq(|a|, i requires 0 <= i < |a| => ByteOp(op, a[i], b[i]))
  }

  lemma {:induction false} ShlByte(t: nat)
    ensures Shl(t, 8) == 256 * t && Shl(t, 7) == 128 * t
  {
    assert Shl(t, 4) == 2 * Shl(t, 3) && Shl(t, 2) == 2 * Shl(t, 1) && Shl(t, 6) == 2 * Shl(t, 5);
  }

  // one big-integer operation is the same as working byte by byte
  lemma {:induction false} BitwiseOnBytes(op: Op, a: seq<byte>, b: seq<byte>)
    requires |a| == |b|
    ensures Bitwise(op, FromBytes(a), FromBytes(b)) == FromBytes(ZipBytes(op, a, b))
  {
    if a != [] {
      BitwiseOnBytes(op, a[1..], b[1..]);
      FirstByte(op, a[0], FromBytes(a[1..]), b[0], FromBytes(b[1..]));
      assert ZipBytes(op, a, b)[1..] == ZipBytes(op, a[1..], b[1..]);
    }
  }

  lemma FirstByte(op: Op, a0: byte, a1: nat, b0: byte, b1: nat)
    ensures Bitwise(op, a0 + 256 * a1, b0 + 256 * b1) == ByteOp(op, a0, b0) + 256 * Bitwise(op, a1, b1)
  {
    Pow2Eight();
    ShlByte(a1);
    ShlByte(b1);
    ShlByte(Bitwise(op, a1, b1));
    BitwiseSplit(op, 8, a0, a1, b0, b1);
  }

  function Ones(s: seq<byte>): nat {
    if s == [] then 0 else (if s[0] == 1 then 1 else 0) + Ones(s[1..])
  }

  // the population count of a 0/1 byte mask read as an integer is its number of ones
  lemma {:induction false} PopCountOfMask(s: seq<byte>)
    requires forall i :: 0 <= i < |s| ==> s[i] < 2
    ensures PopCount(FromBytes(s)) == Ones(s)
  {
    if s != [] {
      PopCountOfMask(s[1..]);
      PopCountByte(s[0], FromBytes(s[1..]));
    }
  }

  lemma PopCountByte(b: nat, t: nat)
    requires b < 2
    ensures PopCount(b + 256 * t) == b + PopCount(t)
  {
    PopCountShift(t, 7);
    ShlByte(t);
    var x := b + 256 * t;
    assert x / 2 == 128 * t && x % 2 == b;
  }

  lemma {:induction false} PopCountShift(a: nat, k: nat)
    ensures PopCount(Shl(a, k)) == PopCount(a)
  {
    if k > 0 {
      PopCountShift(a, k - 1);
    }
  }
}
