/** What the reader makes of damaged records. */
module WalDamage {
  import opened Words
  import opened Checksum
  import opened Record
  import opened WalReader
  import opened WalLog

  /** The bytes of a record that its checksum covers: the reserved bytes and the checksum itself count
      as zero. */
  function Covered(b: Bytes): (c: Bytes)
    requires |b| >= 40
    ensures |c| == |b|
  {
    b[..12] + Zeros(4) + b[16..32] + Zeros(4) + b[36..]
  }

  lemma SerializeWithoutChecksum(h: Header)
    ensures Serialize(h.(checksum := 0)) == Serialize(h)[..32] + Zeros(4) + Serialize(h)[36..]
  {
    ZeroBytes(4);
  }

  lemma {:induction false} ZeroBytes(n: nat)
    ensures LE(0, n) == Zeros(n)
    decreases n
  {
    if n == 0 {
    } else {
      ZeroBytes(n - 1);
    }
  }

  /** The reader recomputes the CRC of exactly the covered bytes. */
  lemma ReaderCovers(b: Bytes)
    requires |b| >= 40
    ensures RecordChecksum(Deserialize(b), b[40..]) == Crc32(Covered(b))
  {
    hide Serialize, Deserialize, Crc32;
    var front, h := b[..40], Deserialize(b);
    SamePrefixSameHeader(front, b);
    BytesRoundTrip(front);
    SerializeWithoutChecksum(h);
    CoveredIs(b, Serialize(h));
  }

  lemma CoveredIs(b: Bytes, s: Bytes)
    requires |b| >= 40 && s == b[..40][..12] + Zeros(4) + b[..40][16..]
    ensures s[..32] + Zeros(4) + s[36..] + b[40..] == Covered(b)
  {
    SubSlice(b, 40, 0, 12);
    SubSlice(b, 40, 16, 24);
    assert s[..32] == b[..12] + Zeros(4) + b[16..32];
    assert s[36..] == b[36..40];
    assert b[36..] == b[36..40] + b[40..];
  }

  /** The writer stored the CRC of exactly the covered bytes. */
  lemma WriterCovers(e: Entry)
    ensures Field(Encode(e), 32, 4) == Crc32(Covered(Encode(e)))
  {
    hide Deserialize, Serialize, Crc32, RecordChecksum, HeaderOf;
    var b := Encode(e);
    HeaderReads(e, []);
    assert b + [] == b;
    ReaderCovers(b);
    assert b[40..] == e.payload;
    ChecksumHolds(e);
    ChecksumField(b);
  }

  lemma ChecksumField(b: Bytes)
    requires |b| >= 40
    ensures Deserialize(b).checksum == Field(b, 32, 4) && Deserialize(b).payloadSize == Field(b, 8, 4)
  {
  }

  // ---------------------------------------------------------------- any bytes at all

  /** Bytes 0 to 7 of every record. */
  const PREAMBLE: Bytes := [0x41, 0x57, 0x41, 0x4C, 1, 0, 40, 0]

  lemma PreambleOf(e: Entry)
    ensures Encode(e)[..8] == PREAMBLE
  {
    hide RecordChecksum;
    var h := HeaderOf(e);
    PreambleBytes();
    assert Encode(e)[..8] == LE(h.magic, 4) + LE(h.version, 2) + LE(h.headerSize, 2);
  }

  lemma PreambleBytes()
    ensures LE(MAGIC, 4) + LE(VERSION, 2) + LE(HEADER_SIZE, 2) == PREAMBLE
  {
    assert LE(MAGIC, 4) == [0x41, 0x57, 0x41, 0x4C];
    assert LE(VERSION, 2) == [1, 0];
    assert LE(HEADER_SIZE, 2) == [40, 0];
  }

  /** Only the preamble passes the shape checks. */
  lemma ShapeNeedsPreamble(b: Bytes)
    requires |b| >= 40 && ShapeStatus(Deserialize(b)) == Ok
    ensures b[..8] == PREAMBLE
  {
    hide FromLE;
    LEofFromLE(b[0..4]);
    LEofFromLE(b[4..6]);
    LEofFromLE(b[6..8]);
    PreambleBytes();
    assert b[..8] == b[0..4] + b[4..6] + b[6..8];
  }

  lemma PreambleShape(b: Bytes)
    requires |b| >= 40 && b[..8] == PREAMBLE
    ensures Deserialize(b).magic == MAGIC && ShapeStatus(Deserialize(b)) == Ok
  {
    hide FromLE, LE;
    PreambleBytes();
    var m, v, z := LE(MAGIC, 4), LE(VERSION, 2), LE(HEADER_SIZE, 2);
    assert (m + v + z)[0..4] == m && (m + v + z)[4..6] == v && (m + v + z)[6..8] == z;
    assert b[0..4] == b[..8][0..4] && b[4..6] == b[..8][4..6] && b[6..8] == b[..8][6..8];
    Pow2At32();
    Pow2Add(8, 8);
    FromLEofLE(MAGIC, 4);
    FromLEofLE(VERSION, 2);
    FromLEofLE(HEADER_SIZE, 2);
  }

  /** A scan that meets these bytes takes them for the end of the log. */
  ghost predicate CleanEnd(t: Bytes) {
    || |t| < 40
    || ZeroFilled(t)
    || (t[..8] == PREAMBLE && 40 + Field(t, 8, 4) > |t|)
  }

  /** A scan that meets these bytes takes them for a record. */
  ghost predicate BeginsWithRecord(t: Bytes) {
    && |t| >= 40 && t[..8] == PREAMBLE && 40 + Field(t, 8, 4) <= |t|
    && Field(t, 32, 4) == Crc32(Covered(t[..40 + Field(t, 8, 4)]))
  }

  /** The reader on any bytes whatever, in terms of the bytes alone. */
  lemma TailVerdict(before: Bytes, t: Bytes)
    ensures FindRecord(before + t, |before|)
            == if CleanEnd(t) then Stop(Empty)
               else if BeginsWithRecord(t)
               then Found(View(Deserialize(t), t[40..40 + Field(t, 8, 4)], |before|))
               else Stop(CorruptedRecord)
  {
    hide RecordChecksum, Deserialize, Crc32, Covered, Field;
    assert (before + t)[|before|..] == t;
    if |t| >= 40 {
      ChecksumField(t);
      if ZeroFilled(t) {
        assert t[0..4] == [0, 0, 0, 0];
        ZeroMagic(t);
      } else if t[..8] == PREAMBLE {
        PreambleShape(t);
        if 40 + Field(t, 8, 4) <= |t| { SameChecksum(t, 40 + Field(t, 8, 4)); }
      } else if ShapeStatus(Deserialize(t)) == Ok {
        ShapeNeedsPreamble(t);
      }
      if t[..8] == PREAMBLE { NotBoth(t); }
    }
  }

  lemma NotBoth(t: Bytes)
    requires |t| >= 40 && t[..8] == PREAMBLE
    ensures !ZeroFilled(t)
  {
    assert t[0] == t[..8][0];
  }

  /** A record that is found is shown. */
  lemma FoundIsVisited(file: Bytes, offset: nat, visitor: Visitor, seen: seq<View>)
    requires FindRecord(file, offset).Found?
    ensures |Replay(file, offset, visitor, seen).visited| > |seen|
  {
    hide FindRecord;
    FoundFits(file, offset);
    var v := FindRecord(file, offset).view;
    ReplayIsBounded(file, offset + TotalSize(v.header), visitor, seen + [v]);
  }

  /** A replay of any log with any bytes behind it: it ends cleanly behind the log, reports corruption
      there, or goes on to show something that is not of the log, each exactly when the bytes say so. */
  lemma ReplayVerdict(es: seq<Entry>, t: Bytes, visitor: Visitor)
    requires Accepts(visitor, ViewsOf(es))
    ensures var r := Replay(EncodeLog(es) + t, 0, visitor, []);
            && (r == Replayed(ViewsOf(es), Ok) <==> CleanEnd(t))
            && (r == Replayed(ViewsOf(es), CorruptedRecord) <==> !CleanEnd(t) && !BeginsWithRecord(t))
            && (|r.visited| > |es| <==> BeginsWithRecord(t))
  {
    hide FindRecord, Encode, EncodeLog, ViewsOf, Deserialize, Crc32, Covered, Field;
    var file, at := EncodeLog(es) + t, |EncodeLog(es)|;
    TailVerdict(EncodeLog(es), t);
    ReplayReachesEnd(es, t, visitor);
    ViewsLength(es);
    if |t| >= 40 && t[..8] == PREAMBLE { NotBoth(t); }
    if FindRecord(file, at).Found? { FoundIsVisited(file, at, visitor, ViewsOf(es)); }
  }

  /** What the reader computes for the first n bytes taken as a record. */
  lemma SameChecksum(t: Bytes, n: nat)
    requires 40 <= n <= |t|
    ensures RecordChecksum(Deserialize(t), t[40..n]) == Crc32(Covered(t[..n]))
  {
    hide RecordChecksum, Deserialize, Crc32, Covered;
    var b := t[..n];
    assert b[..40] == t[..40] && b[40..] == t[40..n];
    SamePrefixSameHeader(b, t);
    ReaderCovers(b);
  }

  /** Damage that spares bytes 0 to 11 leaves a record of the same length, and the reader accepts it
      exactly when the stored checksum is still the CRC of the covered bytes. */
  lemma DamageVerdict(before: Bytes, e: Entry, b: Bytes, rest: Bytes)
    requires |b| == |Encode(e)| && b[..12] == Encode(e)[..12]
    ensures FindRecord(before + b + rest, |before|)
            == if Field(b, 32, 4) == Crc32(Covered(b))
               then Found(View(Deserialize(b), b[40..], |before|)) else Stop(CorruptedRecord)
  {
    hide FindRecord, Encode, Deserialize, Crc32, Covered, Field;
    var a, tail := Encode(e), b + rest;
    assert before + b + rest == before + tail;
    TailVerdict(before, tail);
    PreambleOf(e);
    assert tail[..8] == a[..12][..8] == a[..8];
    NotBoth(tail);
    assert tail[..40] == b[..40] && tail[..|b|] == b;
    SamePrefixSameHeader(tail, b);
    ChecksumField(tail);
    ChecksumField(b);
    LengthOf(e);
    EarlyField(a, b, 8, 4);
    assert tail[40..|b|] == b[40..];
  }

  lemma LengthOf(e: Entry)
    ensures 40 + Field(Encode(e), 8, 4) == |Encode(e)|
  {
    hide Serialize, HeaderOf, Deserialize, Field;
    HeaderReads(e, []);
    assert Encode(e) + [] == Encode(e);
    HeaderShape(e);
    ChecksumField(Encode(e));
  }

  lemma EarlyField(a: Bytes, b: Bytes, from: nat, n: nat)
    requires |a| >= 12 && |b| >= 12 && a[..12] == b[..12] && from + n <= 12
    ensures Field(a, from, n) == Field(b, from, n)
  {
    SubSlice(a, 12, from, n);
    SubSlice(b, 12, from, n);
  }

  // ---------------------------------------------------------------- bursts

  /** A change of at most 32 consecutive bits of a record, which lie in at most five bytes. */
  ghost predicate IsBurst(b: Bytes, at: nat, w: Bytes) {
    |w| <= 5 && at + |w| <= |b| && IsBitBurst(b[at..at + |w|], w)
  }

  /** Every change of one to four consecutive bytes is one. */
  lemma ByteBurst(b: Bytes, at: nat, w: Bytes)
    requires |w| <= 4 && at + |w| <= |b| && w != b[at..at + |w|]
    ensures IsBurst(b, at, w)
  {
    ShortChangeIsBurst(b[at..at + |w|], w);
  }

  /** The windows the checks of the format are able to guard. */
  ghost predicate Guarded(at: nat, n: nat) {
    || at + n <= 8                    // magic, version, header size
    || (16 <= at && at + n <= 32)     // sequence, timestamp
    || (32 <= at && at + n <= 36)     // checksum
    || 36 <= at                       // flags, payload
  }

  /** A window that the checksum covers as it stands. */
  lemma CoveredSplice(b: Bytes, at: nat, w: Bytes)
    requires |b| >= 40 && at + |w| <= |b|
    requires (16 <= at && at + |w| <= 32) || 36 <= at
    ensures Covered(Splice(b, at, w)) == Splice(Covered(b), at, w)
    ensures Covered(b)[at..at + |w|] == b[at..at + |w|]
  {
    hide Covered, Splice;
    var l, r := Covered(Splice(b, at, w)), Splice(Covered(b), at, w);
    forall i | 0 <= i < |b| ensures l[i] == r[i] && (at <= i < at + |w| ==> Covered(b)[i] == b[i]) {
      CoveredAt(Splice(b, at, w), i);
      CoveredAt(b, i);
      SpliceAt(b, at, w, i);
      SpliceAt(Covered(b), at, w, i);
    }
  }

  lemma CoveredAt(b: Bytes, i: nat)
    requires |b| >= 40 && i < |b|
    ensures Covered(b)[i] == if 12 <= i < 16 || 32 <= i < 36 then 0 else b[i]
  {
  }

  lemma SpliceAt(s: Bytes, at: nat, x: Bytes, i: nat)
    requires at + |x| <= |s| && i < |s|
    ensures Splice(s, at, x)[i] == if at <= i < at + |x| then x[i - at] else s[i]
  {
  }

  /** A splice that changes something shows in every prefix that contains it. */
  lemma SpliceShows(a: Bytes, at: nat, w: Bytes, n: nat)
    requires at + |w| <= n <= |a| && w != a[at..at + |w|]
    ensures Splice(a, at, w)[..n] != a[..n]
  {
    var b := Splice(a, at, w);
    assert b[at..at + |w|] == w;
    SubSlice(b, n, at, |w|);
    SubSlice(a, n, at, |w|);
  }

  lemma SpliceChangesCrc(c: Bytes, at: nat, w: Bytes)
    requires IsBurst(c, at, w)
    ensures Crc32(Splice(c, at, w)) != Crc32(c)
  {
    hide Crc32;
    BurstChangesCrc(c[..at], c[at..at + |w|], w, c[at + |w|..]);
    assert c == c[..at] + c[at..at + |w|] + c[at + |w|..];
  }

  lemma SpliceKeepsField(b: Bytes, at: nat, w: Bytes, from: nat, n: nat)
    requires at + |w| <= |b| && from + n <= |b| && (from + n <= at || at + |w| <= from)
    ensures Field(Splice(b, at, w), from, n) == Field(b, from, n)
  {
    assert Splice(b, at, w)[from..from + n] == b[from..from + n];
  }

  /** Sequence, timestamp, flags or payload changed: the CRC no longer matches. */
  lemma BodyBurst(before: Bytes, e: Entry, at: nat, w: Bytes, rest: Bytes)
    requires IsBurst(Encode(e), at, w)
    requires (16 <= at && at + |w| <= 32) || 36 <= at
    ensures FindRecord(before + Splice(Encode(e), at, w) + rest, |before|) == Stop(CorruptedRecord)
  {
    hide Encode, FindRecord, Crc32, Field, Covered;
    var a := Encode(e);
    var b := Splice(a, at, w);
    assert b[..12] == a[..12];
    DamageVerdict(before, e, b, rest);
    WriterCovers(e);
    SpliceKeepsField(a, at, w, 32, 4);
    CoveredSplice(a, at, w);
    SpliceChangesCrc(Covered(a), at, w);
  }

  lemma ChecksumSplice(b: Bytes, at: nat, w: Bytes)
    requires |b| >= 40 && IsBurst(b, at, w) && 32 <= at && at + |w| <= 36
    ensures Covered(Splice(b, at, w)) == Covered(b)
    ensures Field(Splice(b, at, w), 32, 4) != Field(b, 32, 4)
  {
    BurstDiffers(b[at..at + |w|], w);
    var b' := Splice(b, at, w);
    assert Covered(b') == Covered(b);
    if Field(b', 32, 4) == Field(b, 32, 4) {
      FromLEInjective(b'[32..36], b[32..36]);
      assert b'[at..at + |w|] == w;
      InnerSlice(b', 32, 4, at, |w|);
      InnerSlice(b, 32, 4, at, |w|);
    }
  }

  lemma InnerSlice(b: Bytes, from: nat, n: nat, at: nat, m: nat)
    requires from <= at && at + m <= from + n <= |b|
    ensures b[from..from + n][at - from..at - from + m] == b[at..at + m]
  {
    var x, y := b[from..from + n][at - from..at - from + m], b[at..at + m];
    assert |x| == |y| && forall i :: 0 <= i < m ==> x[i] == y[i];
  }

  /** The stored checksum changed: the CRC no longer matches it. */
  lemma ChecksumBurst(before: Bytes, e: Entry, at: nat, w: Bytes, rest: Bytes)
    requires IsBurst(Encode(e), at, w) && 32 <= at && at + |w| <= 36
    ensures FindRecord(before + Splice(Encode(e), at, w) + rest, |before|) == Stop(CorruptedRecord)
  {
    hide Encode, FindRecord, Crc32, Field, Covered;
    var a := Encode(e);
    var b := Splice(a, at, w);
    assert b[..12] == a[..12];
    DamageVerdict(before, e, b, rest);
    WriterCovers(e);
    ChecksumSplice(a, at, w);
  }

  /** Magic, version or header size changed: the shape checks fail, and the tail is not mistaken for
      unused space. */
  lemma ShapeBurst(before: Bytes, e: Entry, at: nat, w: Bytes, rest: Bytes)
    requires IsBurst(Encode(e), at, w) && at + |w| <= 8
    ensures FindRecord(before + Splice(Encode(e), at, w) + rest, |before|) == Stop(CorruptedRecord)
  {
    hide FindRecord, Encode, Deserialize, Crc32, Covered, Field;
    var a := Encode(e);
    var b := Splice(a, at, w);
    var tail := b + rest;
    PreambleOf(e);
    assert tail[0] != 0 || tail[6] != 0 by {
      assert a[0] == a[..8][0] && a[6] == a[..8][6];
      if at > 0 { assert tail[0] == a[0]; } else { assert tail[6] == a[6]; }
    }
    assert tail[..8] != PREAMBLE by {
      BurstDiffers(a[at..at + |w|], w);
      SpliceShows(a, at, w, 8);
      assert tail[..8] == b[..8];
    }
    assert before + b + rest == before + tail;
    TailVerdict(before, tail);
  }

  lemma GuardedBurst(before: Bytes, e: Entry, at: nat, w: Bytes, rest: Bytes)
    requires IsBurst(Encode(e), at, w) && Guarded(at, |w|)
    ensures FindRecord(before + Splice(Encode(e), at, w) + rest, |before|) == Stop(CorruptedRecord)
  {
    hide FindRecord, Encode;
    if at + |w| <= 8 { ShapeBurst(before, e, at, w, rest); }
    else if 32 <= at && at + |w| <= 36 { ChecksumBurst(before, e, at, w, rest); }
    else { BodyBurst(before, e, at, w, rest); }
  }

  /** Damage at most 32 consecutive bits of any record of a log, inside a guarded window: the replay
      visits exactly the records before it and reports corruption, whatever follows. */
  lemma BurstIsReported(front: seq<Entry>, e: Entry, at: nat, w: Bytes, rest: Bytes, visitor: Visitor)
    requires IsBurst(Encode(e), at, w) && Guarded(at, |w|) && Accepts(visitor, ViewsOf(front))
    ensures Replay(EncodeLog(front) + Splice(Encode(e), at, w) + rest, 0, visitor, [])
            == Replayed(ViewsOf(front), CorruptedRecord)
  {
    hide FindRecord, Encode, Replay, ViewsOf;
    var b := Splice(Encode(e), at, w);
    GuardedBurst(EncodeLog(front), e, at, w, rest);
    ReplayStops(front, b + rest, visitor);
    assert EncodeLog(front) + b + rest == EncodeLog(front) + (b + rest);
  }

  // ---------------------------------------------------------------- what is not guarded

  /** Any change to the reserved bytes goes unnoticed: the same record is found. */
  lemma ReservedBytesAreIgnored(before: Bytes, e: Entry, w: Bytes, rest: Bytes)
    requires |w| == 4
    ensures FindRecord(before + Splice(Encode(e), 12, w) + rest, |before|)
            == Found(View(HeaderOf(e), e.payload, |before|))
  {
    hide FindRecord, Crc32, Field, Deserialize, HeaderOf;
    var a := Encode(e);
    var b := Splice(a, 12, w);
    assert b[..12] == a[..12] && b[16..] == a[16..];
    assert Covered(b) == Covered(a) by { assert b[16..32] == a[16..32] && b[36..] == a[36..]; }
    DamageVerdict(before, e, b, rest);
    WriterCovers(e);
    SpliceKeepsField(a, 12, w, 32, 4);
    ReservedKeepsHeader(a, b);
    HeaderReads(e, []);
    assert a + [] == a;
    assert b[40..] == e.payload;
  }

  lemma ReservedKeepsHeader(a: Bytes, b: Bytes)
    requires |a| == |b| >= 40 && a[..12] == b[..12] && a[16..] == b[16..]
    ensures Deserialize(a) == Deserialize(b)
  {
    hide Field;
    EarlyField(a, b, 0, 4);
    EarlyField(a, b, 4, 2);
    EarlyField(a, b, 6, 2);
    EarlyField(a, b, 8, 4);
    LateField(a, b, 16, 8);
    LateField(a, b, 24, 8);
    LateField(a, b, 32, 4);
    LateField(a, b, 36, 4);
  }

  lemma LateField(a: Bytes, b: Bytes, from: nat, n: nat)
    requires |a| == |b| && |a| >= 16 && a[16..] == b[16..] && 16 <= from && from + n <= |a|
    ensures Field(a, from, n) == Field(b, from, n)
  {
    var x, y := a[from..from + n], b[from..from + n];
    forall i | 0 <= i < n ensures x[i] == y[i] {
      assert a[16..][from - 16 + i] == b[16..][from - 16 + i];
    }
    assert x == y;
  }

  /** Any payload size put in place of the true one: beyond the file it reads as a torn record, within
      the file as a record of that size, to be judged by its checksum. */
  lemma LengthVerdict(before: Bytes, e: Entry, w: Bytes, rest: Bytes)
    requires |w| == 4
    ensures var tail, n := Splice(Encode(e), 8, w) + rest, 40 + FromLE(w);
            FindRecord(before + tail, |before|)
            == if n > |tail| then Stop(Empty)
               else if Field(tail, 32, 4) == Crc32(Covered(tail[..n]))
               then Found(View(Deserialize(tail), tail[40..n], |before|))
               else Stop(CorruptedRecord)
  {
    hide FindRecord, Encode, Deserialize, Crc32, Covered, Field;
    var a, tail := Encode(e), Splice(Encode(e), 8, w) + rest;
    TailVerdict(before, tail);
    PreambleOf(e);
    assert tail[..8] == a[..8];
    NotBoth(tail);
    LengthRead(a, w, rest);
  }

  /** A changed payload size in any record of a log: the replay ends with status ok, hiding this record
      and all that follow, exactly when the size no longer fits the file; it reports corruption here
      exactly when the size fits and the checksum of what it takes for the record does not. */
  lemma OversizedLengthHidesTheRest(front: seq<Entry>, e: Entry, w: Bytes, rest: Bytes, visitor: Visitor)
    requires |w| == 4 && Accepts(visitor, ViewsOf(front))
    ensures var tail, n := Splice(Encode(e), 8, w) + rest, 40 + FromLE(w);
            var r := Replay(EncodeLog(front) + tail, 0, visitor, []);
            && (r == Replayed(ViewsOf(front), Ok) <==> n > |tail|)
            && (r == Replayed(ViewsOf(front), CorruptedRecord)
                <==> n <= |tail| && Field(tail, 32, 4) != Crc32(Covered(tail[..n])))
  {
    hide FindRecord, Encode, ViewsOf, Replay, Crc32, Covered, Field, EncodeLog;
    var a, tail := Encode(e), Splice(Encode(e), 8, w) + rest;
    ReplayVerdict(front, tail, visitor);
    PreambleOf(e);
    assert tail[..8] == a[..8];
    NotBoth(tail);
    LengthRead(a, w, rest);
  }

  lemma LengthRead(a: Bytes, w: Bytes, rest: Bytes)
    requires |a| >= 40 && |w| == 4
    ensures Field(Splice(a, 8, w) + rest, 8, 4) == FromLE(w)
  {
    assert (Splice(a, 8, w) + rest)[8..12] == w;
  }

}
