/** The write-ahead log's record format: a 40-byte little-endian header followed by the payload. */
module Record {
  import opened Words
  import opened Checksum

  datatype StatusCode =
    | Ok | Unknown | Full | Empty | InvalidArgument | IoError | CorruptedRecord | OutOfSpace

  type U16 = x: nat | x < 0x1_0000

  /** The bytes "AWAL" read as a little-endian word. */
  const MAGIC: U32 := 0x4C41_5741
  const VERSION: U16 := 1
  const HEADER_SIZE: U16 := 40
  /** The largest `payload_size_t`. */
  const MAX_PAYLOAD: U32 := 0xFFFF_FFFF

  datatype Header = Header(
    magic: U32,
    version: U16,
    headerSize: U16,
    payloadSize: U32,
    sequence: U64,
    timestamp: U64,
    checksum: U32,
    flags: U32)

  // ---------------------------------------------------------------- little-endian integers

  /** The n low bytes of v, lowest first. */
  function LE(v: nat, n: nat): (b: Bytes)
    ensures |b| == n
    decreases n, v
  {
    if n == 0 then [] else [v % 0x100] + LE(v / 0x100, n - 1)
  }

  /** Writing then reading keeps the value modulo the field's width. */
  lemma {:induction false} FromLEofLE(v: nat, n: nat)
    requires v < Pow2(8 * n)
    ensures FromLE(LE(v, n)) == v
    decreases n
  {
    if n == 0 {
      assert v == 0;
    } else {
      assert Pow2(8 * n) == 0x100 * Pow2(8 * (n - 1)) by { Pow2At32(); Pow2Add(8, 8 * (n - 1)); }
      assert v / 0x100 < Pow2(8 * (n - 1));
      FromLEofLE(v / 0x100, n - 1);
      assert LE(v, n)[1..] == LE(v / 0x100, n - 1);
    }
  }

  /** Reading then writing keeps the bytes. */
  lemma {:induction false} LEofFromLE(b: Bytes)
    ensures LE(FromLE(b), |b|) == b
    decreases |b|
  {
    if b == [] {
    } else {
      var low, rest := b[0], FromLE(b[1..]);
      assert (low + 0x100 * rest) % 0x100 == low && (low + 0x100 * rest) / 0x100 == rest;
      LEofFromLE(b[1..]);
      assert b == [low] + b[1..];
    }
  }

  /** Byte i is the value shifted right by 8 * i and masked. */
  lemma {:induction false} LEAt(v: nat, n: nat, i: nat)
    requires i < n
    ensures LE(v, n)[i] == Shr(v, 8 * i) % 0x100
    decreases n
  {
    if i == 0 {
    } else {
      LEAt(v / 0x100, n - 1, i - 1);
      ShrByte(v);
      ShrAdd(v, 8, 8 * (i - 1));
    }
  }

  lemma {:induction false} FromLEAppend(s: Bytes, b: U8)
    ensures FromLE(s + [b]) == FromLE(s) + b * Pow2(8 * |s|)
    decreases |s|
  {
    if s == [] {
      assert s + [b] == [b] && [b][1..] == [];
      assert b * 1 == b;
    } else {
      assert (s + [b])[1..] == s[1..] + [b];
      FromLEAppend(s[1..], b);
      var p := Pow2(8 * (|s| - 1));
      assert Pow2(8 * |s|) == 0x100 * p by { Pow2At32(); Pow2Add(8, 8 * (|s| - 1)); }
      MulRotate(b, 0x100, p);
      MulRotate(0x100, b, p);
    }
  }

  /** s with the bytes from `at` on replaced by x. */
  function Splice(s: Bytes, at: nat, x: Bytes): (r: Bytes)
    requires at + |x| <= |s|
    ensures |r| == |s|
  {
    s[..at] + x + s[at + |x|..]
  }

  lemma SpliceNext(s: Bytes, at: nat, x: Bytes, k: nat)
    requires at + |x| <= |s| && k < |x|
    ensures Splice(s, at, x[..k])[at + k := x[k]] == Splice(s, at, x[..k + 1])
  {
  }

  /** `write_u16_le`, `write_u32_le` and `write_u64_le`, which differ in their width only. */
  method WriteLE(bytes: array<U8>, offset: nat, width: nat, value: nat)
    requires offset + width <= bytes.Length
    modifies bytes
    ensures bytes[..] == Splice(old(bytes[..]), offset, LE(value, width))
  {
    ghost var le := LE(value, width);
    assert Splice(old(bytes[..]), offset, le[..0]) == bytes[..];
    for i := 0 to width
      invariant bytes[..] == Splice(old(bytes[..]), offset, le[..i])
    {
      LEAt(value, width, i);
      AndLowByte(Shr(value, 8 * i));
      SpliceNext(old(bytes[..]), offset, le, i);
      bytes[offset + i] := And(Shr(value, 8 * i), 0xFF);
    }
    assert le[..width] == le;
  }

  /** `std::memcpy` into a buffer. */
  method CopyInto(bytes: array<U8>, offset: nat, source: Bytes)
    requires offset + |source| <= bytes.Length
    modifies bytes
    ensures bytes[..] == Splice(old(bytes[..]), offset, source)
  {
    assert Splice(old(bytes[..]), offset, source[..0]) == bytes[..];
    for i := 0 to |source|
      invariant bytes[..] == Splice(old(bytes[..]), offset, source[..i])
    {
      SpliceNext(old(bytes[..]), offset, source, i);
      bytes[offset + i] := source[i];
    }
    assert source[..|source|] == source;
  }

  lemma AndLowByte(v: nat)
    ensures And(v, 0xFF) == v % 0x100
  {
    assert Pow2(BITS) == 0x100 by { Pow2At32(); }
    AndMask(v, BITS);
  }

  lemma ReadOneMore(s: Bytes, b: U8)
    ensures Or(FromLE(s), Shl(b, 8 * |s|)) == FromLE(s + [b])
  {
    ShlIsProduct(b, 8 * |s|);
    FromLEBound(s);
    DisjointBits(FromLE(s), b, 8 * |s|);
    FromLEAppend(s, b);
  }

  /** `read_u16_le`, `read_u32_le` and `read_u64_le`. */
  method ReadLE(bytes: Bytes, offset: nat, width: nat) returns (value: nat)
    requires offset + width <= |bytes|
    ensures value == Field(bytes, offset, width)
  {
    value := 0;
    for i := 0 to width
      invariant value == FromLE(bytes[offset..offset + i])
    {
      assert bytes[offset..offset + (i + 1)] == bytes[offset..offset + i] + [bytes[offset + i]];
      ReadOneMore(bytes[offset..offset + i], bytes[offset + i]);
      value := Or(value, Shl(bytes[offset + i], 8 * i));
    }
  }

  // ---------------------------------------------------------------- headers

  function Zeros(n: nat): (z: Bytes)
    ensures |z| == n
  {
    seq(n, _ => 0)
  }

  /** Bytes 0 to 15: the shape of the record, then four reserved bytes. */
  function SerializeShape(h: Header): (b: Bytes)
    ensures |b| == 16
  {
    LE(h.magic, 4) + LE(h.version, 2) + LE(h.headerSize, 2) + LE(h.payloadSize, 4) + Zeros(4)
  }

  /** Bytes 16 to 31. */
  function SerializeIdentity(h: Header): (b: Bytes)
    ensures |b| == 16
  {
    LE(h.sequence, 8) + LE(h.timestamp, 8)
  }

  function Serialize(h: Header): (b: Bytes)
    ensures |b| == 40
  {
    SerializeShape(h) + SerializeIdentity(h) + LE(h.checksum, 4) + LE(h.flags, 4)
  }

  /** A number of n bytes read from a file. */
  function Field(b: Bytes, from: nat, n: nat): nat
    requires from + n <= |b|
  {
    FromLE(b[from..from + n])
  }

  lemma FieldBound(b: Bytes, from: nat, n: nat)
    requires from + n <= |b|
    ensures n == 2 ==> Field(b, from, n) < 0x1_0000
    ensures n == 4 ==> Field(b, from, n) < WORD32
    ensures n == 8 ==> Field(b, from, n) < WORD64
  {
    FromLEBound(b[from..from + n]);
    Pow2At32();
    Pow2At64();
    Pow2Add(8, 8);
  }

  lemma FieldsFit(b: Bytes)
    requires |b| >= 40
    ensures Field(b, 0, 4) < WORD32 && Field(b, 4, 2) < 0x1_0000
    ensures Field(b, 6, 2) < 0x1_0000 && Field(b, 8, 4) < WORD32
    ensures Field(b, 16, 8) < WORD64 && Field(b, 24, 8) < WORD64
    ensures Field(b, 32, 4) < WORD32 && Field(b, 36, 4) < WORD32
  {
    FieldBound(b, 0, 4);
    FieldBound(b, 4, 2);
    FieldBound(b, 6, 2);
    FieldBound(b, 8, 4);
    FieldBound(b, 16, 8);
    FieldBound(b, 24, 8);
    FieldBound(b, 32, 4);
    FieldBound(b, 36, 4);
  }

  /** Bytes 12 to 15 are not looked at. */
  function Deserialize(b: Bytes): Header
    requires |b| >= 40
  {
    FieldsFit(b);
    Header(Field(b, 0, 4), Field(b, 4, 2), Field(b, 6, 2), Field(b, 8, 4),
           Field(b, 16, 8), Field(b, 24, 8), Field(b, 32, 4), Field(b, 36, 4))
  }

  /** Reading a number where it was written. */
  lemma FieldOfLE(b: Bytes, before: Bytes, v: nat, n: nat, after: Bytes)
    requires b == before + LE(v, n) + after
    requires (n == 2 && v < 0x1_0000) || (n == 4 && v < WORD32) || (n == 8 && v < WORD64)
    ensures Field(b, |before|, n) == v
  {
    assert b[|before|..|before| + n] == LE(v, n);
    assert v < Pow2(8 * n) by { Pow2At32(); Pow2At64(); Pow2Add(8, 8); }
    FromLEofLE(v, n);
  }

  lemma ShapeRoundTrip(h: Header, rest: Bytes)
    ensures var b := SerializeShape(h) + rest;
            && Field(b, 0, 4) == h.magic && Field(b, 4, 2) == h.version
            && Field(b, 6, 2) == h.headerSize && Field(b, 8, 4) == h.payloadSize
  {
    var b := SerializeShape(h) + rest;
    var m, v, z, p := LE(h.magic, 4), LE(h.version, 2), LE(h.headerSize, 2), LE(h.payloadSize, 4);
    assert Field(b, 0, 4) == h.magic by {
      assert b == [] + m + (v + z + p + Zeros(4) + rest);
      FieldOfLE(b, [], h.magic, 4, v + z + p + Zeros(4) + rest);
    }
    assert Field(b, 4, 2) == h.version by {
      assert b == m + v + (z + p + Zeros(4) + rest);
      FieldOfLE(b, m, h.version, 2, z + p + Zeros(4) + rest);
    }
    assert Field(b, 6, 2) == h.headerSize by {
      assert b == (m + v) + z + (p + Zeros(4) + rest);
      FieldOfLE(b, m + v, h.headerSize, 2, p + Zeros(4) + rest);
    }
    assert Field(b, 8, 4) == h.payloadSize by {
      assert b == (m + v + z) + p + (Zeros(4) + rest);
      FieldOfLE(b, m + v + z, h.payloadSize, 4, Zeros(4) + rest);
    }
  }

  lemma IdentityRoundTrip(front: Bytes, h: Header, rest: Bytes)
    requires |front| == 16
    ensures var b := front + SerializeIdentity(h) + rest;
            Field(b, 16, 8) == h.sequence && Field(b, 24, 8) == h.timestamp
  {
    var b := front + SerializeIdentity(h) + rest;
    var s, t := LE(h.sequence, 8), LE(h.timestamp, 8);
    assert b == front + s + (t + rest);
    FieldOfLE(b, front, h.sequence, 8, t + rest);
    assert b == (front + s) + t + rest;
    FieldOfLE(b, front + s, h.timestamp, 8, rest);
  }

  /** The layout: where every field lies. */
  lemma HeaderLayout(h: Header)
    ensures var b := Serialize(h);
            && Field(b, 0, 4) == h.magic && Field(b, 4, 2) == h.version && Field(b, 6, 2) == h.headerSize
            && Field(b, 8, 4) == h.payloadSize && b[12..16] == [0, 0, 0, 0]
            && Field(b, 16, 8) == h.sequence && Field(b, 24, 8) == h.timestamp
            && Field(b, 32, 4) == h.checksum && Field(b, 36, 4) == h.flags
  {
    hide LE, Field;
    var b, p, i, c, f := Serialize(h), SerializeShape(h), SerializeIdentity(h), LE(h.checksum, 4), LE(h.flags, 4);
    assert b == p + (i + c + f);
    ShapeRoundTrip(h, i + c + f);
    assert b == p + i + (c + f);
    IdentityRoundTrip(p, h, c + f);
    assert b == (p + i) + c + f;
    FieldOfLE(b, p + i, h.checksum, 4, f);
    assert b == (p + i + c) + f + [];
    FieldOfLE(b, p + i + c, h.flags, 4, []);
    assert b[12..16] == p[12..16] == Zeros(4);
  }

  /** Reading back what was written gives the same header, whatever follows it. */
  lemma HeaderRoundTrip(h: Header, rest: Bytes)
    ensures Deserialize(Serialize(h) + rest) == h
  {
    var b := Serialize(h) + rest;
    var p, i, c, f := SerializeShape(h), SerializeIdentity(h), LE(h.checksum, 4), LE(h.flags, 4);
    assert b == p + (i + c + f + rest);
    ShapeRoundTrip(h, i + c + f + rest);
    assert b == p + i + (c + f + rest);
    IdentityRoundTrip(p, h, c + f + rest);
    assert b == (p + i) + c + (f + rest);
    FieldOfLE(b, p + i, h.checksum, 4, f + rest);
    assert b == (p + i + c) + f + rest;
    FieldOfLE(b, p + i + c, h.flags, 4, rest);
  }

  /** Writing back what was read gives the same bytes, except that the reserved ones become zero. */
  lemma BytesRoundTrip(b: Bytes)
    requires |b| == 40
    ensures Serialize(Deserialize(b)) == b[..12] + Zeros(4) + b[16..]
  {
    hide LE, FromLE, Zeros;
    LEofFromLE(b[0..4]);
    LEofFromLE(b[4..6]);
    LEofFromLE(b[6..8]);
    LEofFromLE(b[8..12]);
    assert b[..12] == b[0..4] + b[4..6] + b[6..8] + b[8..12];
    LEofFromLE(b[16..24]);
    LEofFromLE(b[24..32]);
    LEofFromLE(b[32..36]);
    LEofFromLE(b[36..40]);
    assert b[16..] == b[16..24] + b[24..32] + b[32..36] + b[36..40];
  }

  lemma SpliceOntoZeros(p: Bytes, n: nat, x: Bytes)
    requires |x| <= n
    ensures Splice(p + Zeros(n), |p|, x) == p + x + Zeros(n - |x|)
  {
  }

  /** One field written behind the fields before it. */
  method WriteField(bytes: array<U8>, ghost before: Bytes, offset: nat, width: nat, value: nat)
    requires offset == |before| && offset + width <= bytes.Length
    requires bytes[..] == before + Zeros(bytes.Length - offset)
    modifies bytes
    ensures bytes[..] == before + LE(value, width) + Zeros(bytes.Length - offset - width)
  {
    SpliceOntoZeros(before, bytes.Length - offset, LE(value, width));
    WriteLE(bytes, offset, width, value);
  }

  method SerializeHeader(h: Header) returns (b: Bytes)
    ensures b == Serialize(h)
  {
    hide SerializeShape, LE, Zeros;
    var bytes := new U8[40](_ => 0);
    AllZeros(bytes[..]);
    WriteShape(bytes, h);
    ghost var p := SerializeShape(h);
    WriteField(bytes, p, 16, 8, h.sequence);
    ghost var s := p + LE(h.sequence, 8);
    WriteField(bytes, s, 24, 8, h.timestamp);
    ghost var t := s + LE(h.timestamp, 8);
    assert t == SerializeShape(h) + SerializeIdentity(h);
    WriteField(bytes, t, 32, 4, h.checksum);
    ghost var c := t + LE(h.checksum, 4);
    WriteField(bytes, c, 36, 4, h.flags);
    b := bytes[..];
    assert b == c + LE(h.flags, 4);
  }

  lemma AllZeros(b: Bytes)
    requires ZeroFilled(b)
    ensures b == Zeros(|b|)
  {
  }

  lemma MoreZeros(b: Bytes)
    ensures b + Zeros(28) == b + Zeros(4) + Zeros(24)
  {
  }

  /** The first half of `serialize_header`. */
  method WriteShape(bytes: array<U8>, h: Header)
    requires bytes[..] == Zeros(40)
    modifies bytes
    ensures bytes[..] == SerializeShape(h) + Zeros(24)
  {
    hide LE, Zeros;
    assert |Zeros(40)| == 40 && bytes[..] == [] + Zeros(40);
    WriteField(bytes, [], 0, 4, h.magic);
    ghost var m := LE(h.magic, 4);
    assert [] + m == m;
    WriteField(bytes, m, 4, 2, h.version);
    ghost var v := m + LE(h.version, 2);
    WriteField(bytes, v, 6, 2, h.headerSize);
    ghost var z := v + LE(h.headerSize, 2);
    WriteField(bytes, z, 8, 4, h.payloadSize);
    MoreZeros(z + LE(h.payloadSize, 4));
  }

  method DeserializeHeader(bytes: Bytes) returns (status: StatusCode, h: Header)
    ensures status == if |bytes| < 40 then Empty else Ok
    ensures status == Ok ==> h == Deserialize(bytes)
  {
    h := Header(MAGIC, VERSION, HEADER_SIZE, 0, 0, 0, 0, 0);
    if |bytes| < 40 { return Empty, h; }
    var magic := ReadLE(bytes, 0, 4);
    var version := ReadLE(bytes, 4, 2);
    var headerSize := ReadLE(bytes, 6, 2);
    var payloadSize := ReadLE(bytes, 8, 4);
    var sequence := ReadLE(bytes, 16, 8);
    var timestamp := ReadLE(bytes, 24, 8);
    var checksum := ReadLE(bytes, 32, 4);
    var flags := ReadLE(bytes, 36, 4);
    FieldsFit(bytes);
    h := Header(magic, version, headerSize, payloadSize, sequence, timestamp, checksum, flags);
    status := Ok;
  }

  // ---------------------------------------------------------------- checksums of records

  /** The CRC of the header as it would be written with a zero checksum, and the payload. */
  function RecordChecksum(h: Header, payload: Bytes): U32 {
    Crc32(Serialize(h.(checksum := 0)) + payload)
  }

  /** Two chunks go through one register. */
  method ComputeRecordChecksum(h: Header, payload: Bytes) returns (r: U32)
    ensures r == RecordChecksum(h, payload)
  {
    var serialized := SerializeHeader(h.(checksum := 0));
    var crc := Update(ONES, serialized);
    crc := Update(crc, payload);
    FeedConcat(ONES, serialized, payload);
    XorIsWord(crc, ONES);
    r := Xor(crc, ONES);
  }

  method ValidateRecordChecksum(h: Header, payload: Bytes) returns (valid: bool)
    ensures valid <==> h.checksum == RecordChecksum(h, payload)
  {
    var sum := ComputeRecordChecksum(h, payload);
    valid := h.checksum == sum;
  }

  // ---------------------------------------------------------------- small checks

  predicate ZeroFilled(b: Bytes) { forall i :: 0 <= i < |b| ==> b[i] == 0 }

  method IsZeroFilled(b: Bytes) returns (zero: bool)
    ensures zero <==> ZeroFilled(b)
  {
    for i := 0 to |b|
      invariant ZeroFilled(b[..i])
    {
      if b[i] != 0 { return false; }
    }
    assert b[..|b|] == b;
    zero := true;
  }

  function TotalSize(h: Header): nat { h.headerSize + h.payloadSize }

  function ShapeStatus(h: Header): StatusCode {
    if h.magic != MAGIC then CorruptedRecord
    else if h.version != VERSION then CorruptedRecord
    else if h.headerSize != HEADER_SIZE then CorruptedRecord
    else if h.payloadSize > MAX_PAYLOAD then CorruptedRecord
    else Ok
  }

}
