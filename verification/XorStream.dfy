/** The XOR cipher: a keystream of 32-byte digests, applied block by block. */
module XorStreams {
  import opened Bits

  type Digest = s: seq<byte> | |s| == 32 witness seq(32, _ => 0)

  /** A hash function; the cipher needs nothing from it but its output length. */
  type Hash = seq<byte> -> Digest

  function Block(sha: Hash, key: seq<byte>, nonce: seq<byte>, counter: nat): Digest {
    sha(key + nonce + ToBytes(counter, 8))
  }

  /** The keystream byte at position i. */
  function KeyByte(sha: Hash, key: seq<byte>, nonce: seq<byte>, i: nat): byte {
    Block(sha, key, nonce, i / 32)[i % 32]
  }

  /** Every byte combined with the keystream byte at its position. */
  function Xored(sha: Hash, key: seq<byte>, nonce: seq<byte>, data: seq<byte>): (r: seq<byte>)
    ensures |r| == |data|
  {
    seq(|data|, i requires 0 <= i < |data| => ByteOp(XOR, data[i], KeyByte(sha, key, nonce, i)))
  }

  lemma XorByteTwice(a: byte, k: byte)
    ensures ByteOp(XOR, ByteOp(XOR, a, k), k) == a
  {
    XorTwice(a, k);
  }

  lemma {:induction false} XorTwice(a: nat, k: nat)
    ensures Bitwise(XOR, Bitwise(XOR, a, k), k) == a
    decreases a + k
  {
    if a != 0 || k != 0 {
      var x := Bitwise(XOR, a, k);
      BitwiseStep(XOR, a, k);
      BitwiseStep(XOR, x, k);
      XorTwice(a / 2, k / 2);
    }
  }

  // encrypting twice with one key and nonce is the identity
  lemma XoredTwice(sha: Hash, key: seq<byte>, nonce: seq<byte>, data: seq<byte>)
    ensures Xored(sha, key, nonce, Xored(sha, key, nonce, data)) == data
  {
    forall i | 0 <= i < |data|
      ensures Xored(sha, key, nonce, Xored(sha, key, nonce, data))[i] == data[i]
    {
      XorByteTwice(data[i], KeyByte(sha, key, nonce, i));
    }
  }

  /** One full block: a single 256-bit integer XOR. */
  method XorBlock(d: seq<byte>, k: Digest) returns (r: seq<byte>)
    requires |d| == 32
    ensures r == ZipBytes(XOR, d, k)
  {
    var x := Bitwise(XOR, FromBytes(d), FromBytes(k));
    r := ToBytes(x, 32);
    BitwiseOnBytes(XOR, d, k);
    ToFromBytes(ZipBytes(XOR, d, k));
  }

  /** The last, shorter block: one byte at a time. */
  method XorTail(d: seq<byte>, k: Digest) returns (r: seq<byte>)
    requires |d| < 32
    ensures |r| == |d| && forall i :: 0 <= i < |d| ==> r[i] == ByteOp(XOR, d[i], k[i])
  {
    r := d;
    for i := 0 to |d|
      invariant |r| == |d|
      invariant forall j :: 0 <= j < i ==> r[j] == ByteOp(XOR, d[j], k[j])
      invariant forall j :: i <= j < |d| ==> r[j] == d[j]
    {
      r := r[i := ByteOp(XOR, r[i], k[i])];
    }
  }

  // byte i of a block takes byte i % 32 of the digest of key, nonce and the block's number in eight bytes
  lemma XoredAt(sha: Hash, key: seq<byte>, nonce: seq<byte>, data: seq<byte>)
    ensures forall i :: 0 <= i < |data| ==>
      Xored(sha, key, nonce, data)[i] as nat == Bitwise(XOR, data[i], sha(key + nonce + ToBytes(i / 32, 8))[i % 32])
  {
    hide Bitwise, ToBytes;
  }

  method XorStream(sha: Hash, key: seq<byte>, nonce: seq<byte>, data: seq<byte>) returns (out: seq<byte>)
    ensures out == Xored(sha, key, nonce, data)
    ensures |out| == |data| && forall i :: 0 <= i < |data| ==>
      out[i] as nat == Bitwise(XOR, data[i], sha(key + nonce + ToBytes(i / 32, 8))[i % 32])
  {
    XoredAt(sha, key, nonce, data);
    hide Block, ByteOp, Bitwise, ToBytes;
    var n := |data|;
    if n == 0 {
      return data;
    }
    out := [];
    var pos, counter := 0, 0;
    while pos < n
      invariant 0 <= pos <= n && (pos == 32 * counter || pos == n)
      invariant out == Xored(sha, key, nonce, data)[..pos]
    {
      var block := Block(sha, key, nonce, counter);
      var end := if pos + 32 < n then pos + 32 else n;
      var part;
      if end - pos == 32 {
        part := XorBlock(data[pos..end], block);
      } else {
        part := XorTail(data[pos..end], block);
      }
      forall j | 0 <= j < |part|
        ensures part[j] == Xored(sha, key, nonce, data)[pos + j]
      {
        assert (pos + j) / 32 == counter && (pos + j) % 32 == j;
      }
      out := out + part;
      pos := end;
      counter := counter + 1;
    }
  }
}
