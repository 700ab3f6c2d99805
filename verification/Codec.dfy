/** Fixed-width row encoding and the file header. */
module Codec {
  import opened Bits
  import opened Values

  // ---- schema ---------------------------------------------------------------

  datatype Kind = IntKind(size: nat, signed: bool) | BoolKind | BytesKind(width: nat) {
    predicate Wf() { IntKind? ==> size in {1, 2, 4, 8} }

    function Width(): nat {
      match this
      case IntKind(size, _) => size
      case BoolKind => 1
      case BytesKind(width) => width
    }
  }

  datatype ColumnDef = ColumnDef(name: Col, kind: Kind, unique: bool)

  type Schema = seq<ColumnDef>

  function Names(cols: Schema): set<Col> { set i | 0 <= i < |cols| :: cols[i].name }

  predicate WfSchema(cols: Schema) {
    && (forall i :: 0 <= i < |cols| ==> cols[i].kind.Wf())
    && (forall i, j :: 0 <= i < j < |cols| ==> cols[i].name != cols[j].name)
    && RowWidth(cols) > 0
  }

  function RowWidth(cols: Schema): nat { if cols == [] then 0 else cols[0].kind.Width() + RowWidth(cols[1..]) }

  // ---- values ---------------------------------------------------------------

  predicate InRangeOf(size: nat, signed: bool, n: int) {
    if signed then 0 - Pow256(size) <= 2 * n < Pow256(size) else 0 <= n < Pow256(size)
  }

  // the eight integer types in figures
  lemma IntegerRanges(n: int)
    ensures InRangeOf(1, true, n) <==> -128 <= n <= 127
    ensures InRangeOf(2, true, n) <==> -32768 <= n <= 32767
    ensures InRangeOf(4, true, n) <==> -2147483648 <= n <= 2147483647
    ensures InRangeOf(8, true, n) <==> -9223372036854775808 <= n <= 9223372036854775807
    ensures InRangeOf(1, false, n) <==> 0 <= n <= 255
    ensures InRangeOf(2, false, n) <==> 0 <= n <= 65535
    ensures InRangeOf(4, false, n) <==> 0 <= n <= 4294967295
    ensures InRangeOf(8, false, n) <==> 0 <= n <= 18446744073709551615
  {
    assert Pow256(1) == 256 * Pow256(0);
    assert Pow256(2) == 256 * Pow256(1);
    assert Pow256(3) == 256 * Pow256(2);
    assert Pow256(4) == 256 * Pow256(3);
    assert Pow256(5) == 256 * Pow256(4);
    assert Pow256(6) == 256 * Pow256(5);
    assert Pow256(7) == 256 * Pow256(6);
    assert Pow256(8) == 256 * Pow256(7);
  }

  /** A value struct.pack accepts for the kind. */
  predicate Encodable(k: Kind, v: Value) {
    match k
    case IntKind(size, signed) => v.Num? && InRangeOf(size, signed, v.n)
    case BoolKind => v.Num?
    case BytesKind(_) => v.Text?
  }

  /** A value that reads back as itself. */
  predicate Canonical(k: Kind, v: Value) {
    match k
    case IntKind(_, _) => Encodable(k, v)
    case BoolKind => v == Num(0) || v == Num(1)
    case BytesKind(width) => v.Text? && |v.s| <= width && (v.s != [] ==> v.s[|v.s| - 1] != 0)
  }

  function Zeros(n: nat): (r: seq<byte>)
    ensures |r| == n
  {
    seq(n, _ => 0)
  }

  function EncodeValue(k: Kind, v: Value): (r: seq<byte>)
    requires Encodable(k, v)
    ensures |r| == k.Width()
  {
    match k
    case IntKind(size, _) => ToBytes(if v.n < 0 then v.n + Pow256(size) else v.n, size)
    case BoolKind => [if v.n == 0 then 0 else 1]
    case BytesKind(width) =>
      var raw := if |v.s| <= width then v.s else v.s[..width];
      raw + Zeros(width - |raw|)
  }

  /** rstrip(b"\0") */
  function StripZeros(s: seq<byte>): seq<byte> {
    if s != [] && s[|s| - 1] == 0 then StripZeros(s[..|s| - 1]) else s
  }

  function DecodeValue(k: Kind, b: seq<byte>): Value
    requires |b| == k.Width()
  {
    match k
    case IntKind(size, signed) =>
      var x := FromBytes(b);
      Num(if signed && 2 * x >= Pow256(size) then x - Pow256(size) else x)
    case BoolKind => Num(if b[0] == 0 then 0 else 1)
    case BytesKind(_) => Text(StripZeros(b))
  }

  lemma {:induction false} StripPadded(s: seq<byte>, n: nat)
    ensures StripZeros(s + Zeros(n)) == StripZeros(s)
  {
    if n > 0 {
      assert (s + Zeros(n))[..|s| + n - 1] == s + Zeros(n - 1);
      StripPadded(s, n - 1);
    } else {
      assert s + Zeros(0) == s;
    }
  }

  lemma {:induction false} StripBounds(s: seq<byte>)
    ensures |StripZeros(s)| <= |s|
    ensures StripZeros(s) != [] ==> StripZeros(s)[|StripZeros(s)| - 1] != 0
    ensures StripZeros(s) == s <==> (s != [] ==> s[|s| - 1] != 0)
  {
    if s != [] && s[|s| - 1] == 0 {
      StripBounds(s[..|s| - 1]);
    }
  }

  // A value survives encoding exactly when it is canonical: in range, and for text
  // no longer than the column and without a trailing NUL.
  lemma ValueRoundTrip(k: Kind, v: Value)
    requires Encodable(k, v)
    ensures DecodeValue(k, EncodeValue(k, v)) == v <==> Canonical(k, v)
  {
    match k
    case IntKind(size, signed) =>
      FromToBytes(if v.n < 0 then v.n + Pow256(size) else v.n, size);
    case BoolKind =>
    case BytesKind(width) =>
      var raw := if |v.s| <= width then v.s else v.s[..width];
      StripPadded(raw, width - |raw|);
      StripBounds(raw);
  }

  // ---- rows -----------------------------------------------------------------

  predicate RowEncodable(cols: Schema, row: Row) {
    forall i :: 0 <= i < |cols| ==> cols[i].name in row && Encodable(cols[i].kind, row[cols[i].name])
  }

  /** A row over exactly the schema's columns, every value canonical. */
  predicate RowCanonical(cols: Schema, row: Row) {
    && row.Keys == Names(cols)
    && forall i :: 0 <= i < |cols| ==> Canonical(cols[i].kind, row[cols[i].name])
  }

  lemma CanonicalIsEncodable(cols: Schema, row: Row)
    requires RowCanonical(cols, row)
    ensures RowEncodable(cols, row)
  {
  }

  function EncodeRow(cols: Schema, row: Row): (r: seq<byte>)
    requires RowEncodable(cols, row)
    ensures |r| == RowWidth(cols)
  {
    if cols == [] then [] else EncodeValue(cols[0].kind, row[cols[0].name]) + EncodeRow(cols[1..], row)
  }

  function DecodeRow(cols: Schema, b: seq<byte>): (r: Row)
    requires |b| == RowWidth(cols)
    ensures r.Keys == Names(cols)
  {
    if cols == [] then map[]
    else
      var w := cols[0].kind.Width();
      assert cols == [cols[0]] + cols[1..];
      DecodeRow(cols[1..], b[w..])[cols[0].name := DecodeValue(cols[0].kind, b[..w])]
  }

  lemma {:induction false} RowReadsBack(cols: Schema, row: Row)
    requires RowEncodable(cols, row)
    ensures forall i :: 0 <= i < |cols| && (forall j :: 0 <= j < i ==> cols[j].name != cols[i].name) ==>
      DecodeRow(cols, EncodeRow(cols, row))[cols[i].name]
        == DecodeValue(cols[i].kind, EncodeValue(cols[i].kind, row[cols[i].name]))
  {
    if cols != [] {
      var w, rest := cols[0].kind.Width(), cols[1..];
      RowReadsBack(rest, row);
      assert EncodeRow(cols, row)[..w] == EncodeValue(cols[0].kind, row[cols[0].name]);
      assert EncodeRow(cols, row)[w..] == EncodeRow(rest, row);
      forall i | 0 <= i < |cols| && (forall j :: 0 <= j < i ==> cols[j].name != cols[i].name)
        ensures DecodeRow(cols, EncodeRow(cols, row))[cols[i].name]
             == DecodeValue(cols[i].kind, EncodeValue(cols[i].kind, row[cols[i].name]))
      {
        if i > 0 {
          assert rest[i - 1] == cols[i];
          assert forall j :: 0 <= j < i - 1 ==> rest[j].name == cols[j + 1].name;
        }
      }
    }
  }

  // A row over the schema's columns reads back as itself exactly when it is canonical.
  lemma RowRoundTrip(cols: Schema, row: Row)
    requires WfSchema(cols) && RowEncodable(cols, row) && row.Keys == Names(cols)
    ensures DecodeRow(cols, EncodeRow(cols, row)) == row <==> RowCanonical(cols, row)
  {
    var back := DecodeRow(cols, EncodeRow(cols, row));
    RowReadsBack(cols, row);
    forall i | 0 <= i < |cols|
      ensures back[cols[i].name] == row[cols[i].name] <==> Canonical(cols[i].kind, row[cols[i].name])
    {
      ValueRoundTrip(cols[i].kind, row[cols[i].name]);
    }
    if RowCanonical(cols, row) {
      forall c | c in row
        ensures back[c] == row[c]
      {
        var i :| 0 <= i < |cols| && cols[i].name == c;
      }
    }
  }

  // A value's bytes: an integer lowest byte first, two's complement when negative; a truth value as 0 or 1; a text
  // cut or padded with NULs to the column's width.
  lemma ValueBytes(k: Kind, v: Value)
    requires Encodable(k, v)
    ensures k.IntKind? ==> forall j: nat :: j < k.size ==>
      EncodeValue(k, v)[j] as nat == (if v.n < 0 then v.n + Pow256(k.size) else v.n) / Pow256(j) % 256
    ensures k.BoolKind? ==> EncodeValue(k, v) == [if v.n == 0 then 0 else 1]
    ensures k.BytesKind? ==> forall j: nat :: j < k.width ==>
      EncodeValue(k, v)[j] == if j < |v.s| then v.s[j] else 0
  {
    hide ToBytes, Pow256;
    if k.IntKind? {
      ByteAt(if v.n < 0 then v.n + Pow256(k.size) else v.n, k.size);
    }
  }

  // A row's bytes are those of its values, one column after the other.
  lemma {:induction false} RowBytes(cols: Schema, row: Row, i: nat)
    requires RowEncodable(cols, row) && i < |cols|
    ensures RowWidth(cols[..i]) + cols[i].kind.Width() <= RowWidth(cols)
    ensures EncodeRow(cols, row)[RowWidth(cols[..i])..RowWidth(cols[..i]) + cols[i].kind.Width()] ==
      EncodeValue(cols[i].kind, row[cols[i].name])
  {
    hide EncodeValue;
    if i > 0 {
      RowBytes(cols[1..], row, i - 1);
      assert cols[..i][1..] == cols[1..][..i - 1] && cols[..i][0] == cols[0];
      var w, at := cols[0].kind.Width(), RowWidth(cols[1..][..i - 1]);
      assert EncodeRow(cols, row)[w + at..w + at + cols[i].kind.Width()] ==
        EncodeRow(cols[1..], row)[at..at + cols[i].kind.Width()];
    }
  }

  // ---- header ---------------------------------------------------------------

  const HEADER_SIZE: nat := 20
  const MAGIC: seq<byte> := [83, 78, 65, 80]
  const VERSION: nat := 1

  datatype Header = Header(pageSize: nat, flags: nat, schemaOffset: nat)

  datatype HeaderResult = HeaderOk(h: Header) | BadMagic | BadVersion

  predicate HeaderFits(h: Header) {
    h.pageSize < Pow256(2) && h.flags < Pow256(4) && h.schemaOffset < Pow256(8)
  }

  function PackHeader(h: Header): (r: seq<byte>)
    ensures |r| == HEADER_SIZE
  {
    MAGIC + ToBytes(VERSION, 2) + ToBytes(h.pageSize, 2) + ToBytes(h.flags, 4) + ToBytes(h.schemaOffset, 8)
  }

  function UnpackHeader(b: seq<byte>): HeaderResult
    requires |b| == HEADER_SIZE
  {
    if b[..4] != MAGIC then BadMagic
    else if FromBytes(b[4..6]) != VERSION then BadVersion
    else HeaderOk(Header(FromBytes(b[6..8]), FromBytes(b[8..12]), FromBytes(b[12..20])))
  }

  // The header is the magic "SNAP", then version 1, page size, flags and schema offset, lowest byte first.
  lemma HeaderBytes(h: Header)
    requires HeaderFits(h)
    ensures PackHeader(h)[..6] == [83, 78, 65, 80, 1, 0]
    ensures forall j: nat :: j < 2 ==> PackHeader(h)[6 + j] as nat == h.pageSize / Pow256(j) % 256
    ensures forall j: nat :: j < 4 ==> PackHeader(h)[8 + j] as nat == h.flags / Pow256(j) % 256
    ensures forall j: nat :: j < 8 ==> PackHeader(h)[12 + j] as nat == h.schemaOffset / Pow256(j) % 256
  {
    hide ToBytes;
    ByteAt(VERSION, 2);
    ByteAt(h.pageSize, 2);
    ByteAt(h.flags, 4);
    ByteAt(h.schemaOffset, 8);
    SmallPowers();
  }

  lemma SmallPowers()
    ensures Pow256(0) == 1 && Pow256(1) == 256 && Pow256(2) == 65536
  {
    assert Pow256(1) == 256 * Pow256(0);
    assert Pow256(2) == 256 * Pow256(1);
  }

  lemma DivTwice(x: nat, p: nat)
    requires p >= 1
    ensures x / 256 / p == x / (256 * p)
  {
    var y, s := x / 256, x % 256;
    var q, r := y / p, y % p;
    assert y == p * q + r && p * q == q * p;
    assert q * (256 * p) == 256 * (q * p);
    QuotientUnique(x, 256 * p, q, 256 * r + s);
  }

  lemma {:induction false} ByteAt(x: nat, n: nat)
    ensures forall j: nat :: j < n ==> ToBytes(x, n)[j] as nat == x / Pow256(j) % 256
  {
    if n > 0 {
      ByteAt(x / 256, n - 1);
      forall j: nat | j < n
        ensures ToBytes(x, n)[j] as nat == x / Pow256(j) % 256
      {
        if j == 0 {
          assert x / Pow256(0) == x;
        } else {
          DivTwice(x, Pow256(j - 1));
          assert ToBytes(x, n)[j] == ToBytes(x / 256, n - 1)[j - 1];
        }
      }
    }
  }

  lemma HeaderRoundTrip(h: Header)
    requires HeaderFits(h)
    ensures UnpackHeader(PackHeader(h)) == HeaderOk(h)
  {
    var b := PackHeader(h);
    assert b[..4] == MAGIC;
    assert b[4..6] == ToBytes(VERSION, 2);
    assert b[6..8] == ToBytes(h.pageSize, 2);
    assert b[8..12] == ToBytes(h.flags, 4);
    assert b[12..20] == ToBytes(h.schemaOffset, 8);
    assert Pow256(2) == 256 * Pow256(1);
    FromToBytes(VERSION, 2);
    FromToBytes(h.pageSize, 2);
    FromToBytes(h.flags, 4);
    FromToBytes(h.schemaOffset, 8);
  }
}
