/** Where every row lives in the file, and what reads see after a write. */
module Layout {
  import opened Bits
  import opened Values
  import opened Codec
  import opened XorStreams

  // ---- encryption -----------------------------------------------------------

  datatype Cipher = Plain | Keyed(sha: Hash, key: seq<byte>) {
    /** A row payload keyed by its absolute file offset; its own inverse. */
    function Crypt(data: seq<byte>, offset: nat): (r: seq<byte>)
      ensures |r| == |data|
    {
      match this
      case Plain => data
      case Keyed(sha, key) => Xored(sha, key, ToBytes(offset, 16), data)
    }

    // byte by byte, under the offset as a nonce of 16 bytes, lowest first; without a key, the payload as it is
    lemma CryptAt(data: seq<byte>, offset: nat)
      ensures Plain? ==> Crypt(data, offset) == data
      ensures Keyed? ==> forall i :: 0 <= i < |data| ==>
        Crypt(data, offset)[i] as nat ==
        Bitwise(XOR, data[i], sha(key + ToBytes(offset, 16) + ToBytes(i / 32, 8))[i % 32])
    {
      hide Xored, Bitwise, ToBytes;
      if Keyed? {
        XoredAt(sha, key, ToBytes(offset, 16), data);
      }
    }

    lemma CryptTwice(data: seq<byte>, offset: nat)
      ensures Crypt(Crypt(data, offset), offset) == data
    {
      if Keyed? {
        XoredTwice(sha, key, ToBytes(offset, 16), data);
      }
    }
  }

  // ---- row codec ------------------------------------------------------------

  /** How a store turns rows into payloads and back, at an absolute file offset. */
  datatype RowCodec = RowCodec(canon: Row -> bool, encode: (nat, Row) -> seq<byte>, decode: (nat, seq<byte>) -> Row)

  /** Canonical rows encode to one row's width and decode to themselves. */
  ghost predicate LawfulCodec(c: RowCodec, width: nat) {
    forall at: nat, row :: c.canon(row) ==> |c.encode(at, row)| == width && c.decode(at, c.encode(at, row)) == row
  }

  /** The codec of a schema under a cipher. */
  function CodecOf(cols: Schema, cipher: Cipher): RowCodec {
    RowCodec(row => RowCanonical(cols, row),
             (at: nat, row) => if RowEncodable(cols, row) then cipher.Crypt(EncodeRow(cols, row), at) else [],
             (at: nat, raw) => if |raw| == RowWidth(cols) then DecodeRow(cols, cipher.Crypt(raw, at)) else map[])
  }

  // What is written at an offset, encrypted or not, reads back at that offset.
  lemma CodecIsLawful(cols: Schema, cipher: Cipher)
    requires WfSchema(cols)
    ensures LawfulCodec(CodecOf(cols, cipher), RowWidth(cols))
  {
    var c := CodecOf(cols, cipher);
    forall at: nat, row | c.canon(row)
      ensures |c.encode(at, row)| == RowWidth(cols) && c.decode(at, c.encode(at, row)) == row
    {
      CanonicalIsEncodable(cols, row);
      RowRoundTrip(cols, row);
      cipher.CryptTwice(EncodeRow(cols, row), at);
    }
  }

  // ---- geometry -------------------------------------------------------------

  /** A file's fixed facts. After the header and schema the file repeats
      [bitmap: rps bytes][page: pageSize bytes]; a row takes `width` bytes. */
  datatype Env = Env(codec: RowCodec, zoneCols: seq<Col>, width: nat, schemaOffset: nat, pageSize: nat, rps: nat) {
    ghost predicate Wf() {
      width > 0 && rps > 0 && schemaOffset >= HEADER_SIZE && Times(rps, width) <= pageSize
    }

    /** What is written in a slot reads back from it. */
    ghost predicate Lawful() { LawfulCodec(codec, width) }

    function Unit(): nat { rps + pageSize }

    function UnitStart(k: nat): nat { schemaOffset + Times(k, Unit()) }

    function PageStart(k: nat): nat { UnitStart(k) + rps }

    function SlotStart(k: nat, j: nat): nat { PageStart(k) + Times(j, width) }

    function SlabOf(g: nat): nat
      requires rps > 0
    {
      DivModTimes(g, rps);
      g / rps
    }

    function LocalOf(g: nat): (j: nat)
      requires rps > 0
      ensures j < rps
    {
      DivModTimes(g, rps);
      g % rps
    }

    function SlotOf(g: nat): nat
      requires rps > 0
    {
      SlotStart(SlabOf(g), LocalOf(g))
    }
  }

  /** Columns whose minimum and maximum are tracked: the ordered numeric ones. */
  function ZoneColumns(cols: Schema): seq<Col> {
    if cols == [] then []
    else (if cols[0].kind.IntKind? then [cols[0].name] else []) + ZoneColumns(cols[1..])
  }

  // the columns tracked are exactly the integer ones
  lemma {:induction false} ZoneColumnsAre(cols: Schema)
    ensures forall c ::
      c in ZoneColumns(cols) <==> exists i :: 0 <= i < |cols| && cols[i].name == c && cols[i].kind.IntKind?
  {
    if cols != [] {
      var rest := cols[1..];
      ZoneColumnsAre(rest);
      forall c
        ensures c in ZoneColumns(cols) <==> exists i :: 0 <= i < |cols| && cols[i].name == c && cols[i].kind.IntKind?
      {
        if c in ZoneColumns(rest) {
          var i :| 0 <= i < |rest| && rest[i].name == c && rest[i].kind.IntKind?;
          assert cols[i + 1].name == c;
        }
        if i :| 0 <= i < |cols| && cols[i].name == c && cols[i].kind.IntKind? {
          assert i > 0 ==> rest[i - 1].name == c;
        }
      }
    }
  }

  // Where row g lies: behind the header and schema, in slab g // rps, behind that slab's bitmap of rps bytes.
  lemma SlotIs(env: Env, g: nat)
    requires env.rps > 0
    ensures env.SlotOf(g) ==
      env.schemaOffset + (g / env.rps) * (env.rps + env.pageSize) + env.rps + (g % env.rps) * env.width
  {
    TimesIsProduct(g / env.rps, env.rps + env.pageSize);
    TimesIsProduct(g % env.rps, env.width);
  }

  function EnvOf(cols: Schema, cipher: Cipher, schemaOffset: nat, pageSize: nat): Env
    requires WfSchema(cols)
  {
    SlotsPerPage(pageSize, RowWidth(cols));
    Env(CodecOf(cols, cipher), ZoneColumns(cols), RowWidth(cols), schemaOffset, pageSize, pageSize / RowWidth(cols))
  }

  // Every schema whose rows fit a page gives a well-formed file.
  lemma EnvOfIsWf(cols: Schema, cipher: Cipher, schemaOffset: nat, pageSize: nat)
    requires WfSchema(cols) && RowWidth(cols) <= pageSize && HEADER_SIZE <= schemaOffset
    ensures EnvOf(cols, cipher, schemaOffset, pageSize).Wf() && EnvOf(cols, cipher, schemaOffset, pageSize).Lawful()
  {
    SlotsPerPage(pageSize, RowWidth(cols));
    CodecIsLawful(cols, cipher);
  }

  // page_size // row_width slots are as many as fit the page
  lemma SlotsPerPage(pageSize: nat, width: nat)
    requires width > 0
    ensures 0 <= pageSize / width
    ensures Times(pageSize / width, width) <= pageSize < Times(pageSize / width, width) + width
  {
    DivModTimes(pageSize, width);
  }

  // global row numbers and (slab, slot) pairs are the same thing
  lemma GlobalIndex(env: Env, k: nat, j: nat)
    requires env.rps > 0 && j < env.rps
    ensures env.SlabOf(Times(k, env.rps) + j) == k && env.LocalOf(Times(k, env.rps) + j) == j
  {
    DivModUnique(k, j, env.rps);
  }

  lemma GlobalSplit(env: Env, g: nat)
    requires env.rps > 0
    ensures g == Times(env.SlabOf(g), env.rps) + env.LocalOf(g)
  {
    DivModTimes(g, env.rps);
  }

  lemma UnitsAppended(env: Env, n: nat, more: nat)
    ensures env.UnitStart(n + more) == env.UnitStart(n) + Times(more, env.Unit())
  {
    TimesAdd(n, more, env.Unit());
  }

  lemma SlotInside(env: Env, k: nat, j: nat, n: nat)
    requires env.Wf() && k < n && j < env.rps
    ensures env.PageStart(k) <= env.SlotStart(k, j)
    ensures env.SlotStart(k, j) + env.width <= env.UnitStart(k + 1) <= env.UnitStart(n)
  {
    TimesEnd(j, env.rps, env.width);
    TimesEnd(k, n, env.Unit());
  }

  // Distinct rows never share a byte, and no row touches a liveness bitmap.
  lemma SlotsDisjoint(env: Env, g: nat, h: nat)
    requires env.Wf() && g != h
    ensures env.SlotOf(g) + env.width <= env.SlotOf(h) || env.SlotOf(h) + env.width <= env.SlotOf(g)
  {
    GlobalSplit(env, g);
    GlobalSplit(env, h);
    var (k, j, k', j') := (env.SlabOf(g), env.LocalOf(g), env.SlabOf(h), env.LocalOf(h));
    if k == k' {
      if j < j' {
        TimesEnd(j, j', env.width);
      } else {
        TimesEnd(j', j, env.width);
      }
    } else if k < k' {
      SlotInside(env, k, j, k');
    } else {
      SlotInside(env, k', j', k);
    }
  }

  lemma SlotMissesBitmap(env: Env, g: nat, k: nat)
    requires env.Wf()
    ensures env.SlotOf(g) + env.width <= env.UnitStart(k) || env.PageStart(k) <= env.SlotOf(g)
  {
    var (k', j) := (env.SlabOf(g), env.LocalOf(g));
    SlotInside(env, k', j, k' + 1);
    if k' < k {
      SlotInside(env, k', j, k);
    } else if k < k' {
      TimesEnd(k, k', env.Unit());
    }
  }

  // ---- writes ---------------------------------------------------------------

  /** b[at : at + len(raw)] = raw */
  function Splice(b: seq<byte>, at: nat, raw: seq<byte>): (r: seq<byte>)
    requires at + |raw| <= |b|
    ensures |r| == |b|
  {
    b[..at] + raw + b[at + |raw|..]
  }

  lemma SpliceRead(b: seq<byte>, at: nat, raw: seq<byte>)
    requires at + |raw| <= |b|
    ensures Splice(b, at, raw)[at..at + |raw|] == raw
  {
  }

  lemma SpliceElsewhere(b: seq<byte>, at: nat, raw: seq<byte>, lo: nat, hi: nat)
    requires at + |raw| <= |b| && lo <= hi <= |b|
    requires hi <= at || at + |raw| <= lo
    ensures Splice(b, at, raw)[lo..hi] == b[lo..hi]
  {
  }

  lemma SpliceTwice(b: seq<byte>, at: nat, buf: seq<byte>, raw: seq<byte>)
    requires at + |buf| + |raw| <= |b|
    ensures Splice(Splice(b, at, buf), at + |buf|, raw) == Splice(b, at, buf + raw)
  {
  }

  /** Consecutive slots of one width, written one after another from slot `start`. */
  function WriteSlots(b: seq<byte>, offset: nat, width: nat, start: nat, raws: seq<seq<byte>>): (r: seq<byte>)
    requires forall i :: 0 <= i < |raws| ==> |raws[i]| == width
    requires offset + Times(start + |raws|, width) <= |b|
    ensures |r| == |b|
  {
    if raws == [] then b
    else
      var n := |raws| - 1;
      Splice(WriteSlots(b, offset, width, start, raws[..n]), offset + Times(start + n, width), raws[n])
  }

  lemma WriteSlotsPush(b: seq<byte>, offset: nat, width: nat, start: nat, raws: seq<seq<byte>>, raw: seq<byte>)
    requires |raw| == width && forall i :: 0 <= i < |raws| ==> |raws[i]| == width
    requires offset + Times(start + |raws| + 1, width) <= |b|
    ensures WriteSlots(b, offset, width, start, raws + [raw])
         == Splice(WriteSlots(b, offset, width, start, raws), offset + Times(start + |raws|, width), raw)
  {
    assert (raws + [raw])[..|raws|] == raws;
  }

  // ---- stored rows ----------------------------------------------------------

  /** b[at : at + width] */
  function Slice(b: seq<byte>, at: nat, width: nat): seq<byte> {
    if at + width <= |b| then b[at..at + width] else []
  }

  /** The row stored at global index g. */
  function StoredRow(env: Env, bytes: seq<byte>, g: nat): Row
    requires env.rps > 0
  {
    env.codec.decode(env.SlotOf(g), Slice(bytes, env.SlotOf(g), env.width))
  }

  lemma SlotInFile(env: Env, g: nat, n: nat)
    requires env.Wf() && env.SlabOf(g) < n
    ensures env.SlotOf(g) + env.width <= env.UnitStart(n)
  {
    SlotInside(env, env.SlabOf(g), env.LocalOf(g), n);
  }

  lemma SpliceSlice(b: seq<byte>, at: nat, raw: seq<byte>, lo: nat)
    requires at + |raw| <= |b|
    ensures lo == at ==> Slice(Splice(b, at, raw), lo, |raw|) == raw
    ensures lo + |raw| <= at || at + |raw| <= lo ==> Slice(Splice(b, at, raw), lo, |raw|) == Slice(b, lo, |raw|)
  {
    if lo == at {
      SpliceRead(b, at, raw);
    } else if lo + |raw| <= |b| && (lo + |raw| <= at || at + |raw| <= lo) {
      SpliceElsewhere(b, at, raw, lo, lo + |raw|);
    }
  }

  function Put(b: seq<byte>, at: nat, raw: seq<byte>): (r: seq<byte>)
    ensures |r| == |b|
  {
    if at + |raw| <= |b| then Splice(b, at, raw) else b
  }

  /** The file after row g was written. */
  function Written(env: Env, bytes: seq<byte>, g: nat, row: Row): seq<byte>
    requires env.rps > 0
  {
    Put(bytes, env.SlotOf(g), env.codec.encode(env.SlotOf(g), row))
  }

  // Writing one row makes exactly that row read back, and no other row change.
  lemma WriteRow(env: Env, bytes: seq<byte>, n: nat, g: nat, row: Row)
    requires env.Wf() && env.Lawful() && |bytes| >= env.UnitStart(n) && env.SlabOf(g) < n && env.codec.canon(row)
    ensures StoredRow(env, Written(env, bytes, g, row), g) == row
    ensures forall h: nat :: h != g ==> StoredRow(env, Written(env, bytes, g, row), h) == StoredRow(env, bytes, h)
  {
    SlotInFile(env, g, n);
    var raw := env.codec.encode(env.SlotOf(g), row);
    SpliceSlice(bytes, env.SlotOf(g), raw, env.SlotOf(g));
    forall h: nat | h != g
      ensures StoredRow(env, Written(env, bytes, g, row), h) == StoredRow(env, bytes, h)
    {
      SlotsDisjoint(env, g, h);
      SpliceSlice(bytes, env.SlotOf(g), raw, env.SlotOf(h));
    }
  }

  // Appending to the file changes no stored row.
  lemma GrowKeepsRows(env: Env, bytes: seq<byte>, more: seq<byte>, n: nat)
    requires env.Wf() && |bytes| >= env.UnitStart(n)
    ensures forall h: nat :: env.SlabOf(h) < n ==> StoredRow(env, bytes + more, h) == StoredRow(env, bytes, h)
  {
    forall h: nat | env.SlabOf(h) < n
      ensures StoredRow(env, bytes + more, h) == StoredRow(env, bytes, h)
    {
      SlotInFile(env, h, n);
      var lo := env.SlotOf(h);
      assert (bytes + more)[lo..lo + env.width] == bytes[lo..lo + env.width];
    }
  }

  // ---- growth and runs of writes ----------------------------------------------

  /** The file with empty units appended. */
  function Enlarged(env: Env, bytes: seq<byte>, units: nat): (r: seq<byte>)
    ensures |r| == |bytes| + Times(units, env.Unit())
  {
    bytes + Zeros(Times(units, env.Unit()))
  }

  lemma NotEnlarged(env: Env, bytes: seq<byte>)
    ensures Enlarged(env, bytes, 0) == bytes
  {
  }

  lemma EnlargedTwice(env: Env, bytes: seq<byte>, m: nat, n: nat)
    ensures Enlarged(env, Enlarged(env, bytes, m), n) == Enlarged(env, bytes, m + n)
  {
    TimesAdd(m, n, env.Unit());
    var u := env.Unit();
    assert Zeros(Times(m, u)) + Zeros(Times(n, u)) == Zeros(Times(m + n, u));
  }

  /** The file after rows were written under consecutive row numbers from g on. */
  function RowsWritten(env: Env, bytes: seq<byte>, g: nat, rows: seq<Row>): (r: seq<byte>)
    requires env.rps > 0
    ensures |r| == |bytes|
  {
    if rows == [] then bytes
    else
      var n := |rows| - 1;
      Written(env, RowsWritten(env, bytes, g, rows[..n]), g + n, rows[n])
  }

  lemma RowsWrittenPush(env: Env, bytes: seq<byte>, g: nat, rows: seq<Row>, row: Row)
    requires env.rps > 0
    ensures RowsWritten(env, bytes, g, rows + [row]) == Written(env, RowsWritten(env, bytes, g, rows), g + |rows|, row)
  {
    assert (rows + [row])[..|rows|] == rows;
  }

  lemma {:induction false} RowsWrittenAppend(env: Env, bytes: seq<byte>, g: nat, a: seq<Row>, b: seq<Row>)
    requires env.rps > 0
    ensures RowsWritten(env, bytes, g, a + b) == RowsWritten(env, RowsWritten(env, bytes, g, a), g + |a|, b)
  {
    if b == [] {
      assert a + b == a;
    } else {
      var n := |b| - 1;
      assert (a + b)[..|a| + n] == a + b[..n];
      RowsWrittenAppend(env, bytes, g, a, b[..n]);
    }
  }

  // Appending units after a write into the file is writing after appending them.
  lemma WriteThenGrow(env: Env, bytes: seq<byte>, n: nat, g: nat, row: Row, units: nat)
    requires env.Wf() && env.Lawful() && |bytes| >= env.UnitStart(n) && env.SlabOf(g) < n && env.codec.canon(row)
    ensures Enlarged(env, Written(env, bytes, g, row), units) == Written(env, Enlarged(env, bytes, units), g, row)
  {
    SlotInFile(env, g, n);
    SpliceGrow(bytes, env.SlotOf(g), env.codec.encode(env.SlotOf(g), row), Zeros(Times(units, env.Unit())));
  }

  lemma SpliceGrow(b: seq<byte>, at: nat, raw: seq<byte>, more: seq<byte>)
    requires at + |raw| <= |b|
    ensures Splice(b, at, raw) + more == Splice(b + more, at, raw)
  {
  }

  lemma {:induction false} RowsThenGrow(env: Env, bytes: seq<byte>, n: nat, g: nat, rows: seq<Row>, units: nat)
    requires env.Wf() && env.Lawful() && |bytes| >= env.UnitStart(n) && g + |rows| <= Times(n, env.rps)
    requires forall i :: 0 <= i < |rows| ==> env.codec.canon(rows[i])
    ensures Enlarged(env, RowsWritten(env, bytes, g, rows), units) ==
      RowsWritten(env, Enlarged(env, bytes, units), g, rows)
  {
    if rows != [] {
      hide LawfulCodec, Written, Enlarged;
      var m := |rows| - 1;
      RowsThenGrow(env, bytes, n, g, rows[..m], units);
      SlabBelow(env, g + m, n);
      WriteThenGrow(env, RowsWritten(env, bytes, g, rows[..m]), n, g + m, rows[m], units);
    }
  }

  lemma SlabBelow(env: Env, g: nat, n: nat)
    requires env.rps > 0 && g < Times(n, env.rps)
    ensures env.SlabOf(g) < n
  {
    GlobalSplit(env, g);
    if n < env.SlabOf(g) {
      TimesEnd(n, env.SlabOf(g), env.rps);
    }
  }
}
