/** Logs as the writer lays them out, and what every replay of one yields: intact, cut off, followed
    by garbage, or damaged. */
module WalLog {
  import opened Words
  import opened Checksum
  import opened Record
  import opened WalReader

  type Payload = p: Bytes | |p| < 0x1_0000_0000

  /** What one record says. */
  datatype Entry = Entry(sequence: U64, timestamp: U64, flags: U32, payload: Payload)

  function HeaderOf(e: Entry): Header {
    var h := Header(MAGIC, VERSION, HEADER_SIZE, |e.payload|, e.sequence, e.timestamp, 0, e.flags);
    h.(checksum := RecordChecksum(h, e.payload))
  }

  function Encode(e: Entry): (b: Bytes)
    ensures |b| == 40 + |e.payload|
  {
    Serialize(HeaderOf(e)) + e.payload
  }

  function EncodeLog(es: seq<Entry>): Bytes {
    if es == [] then [] else EncodeLog(es[..|es| - 1]) + Encode(es[|es| - 1])
  }

  /** The views a replay of the log hands out: contiguous offsets from zero. */
  function ViewsOf(es: seq<Entry>): seq<View> {
    if es == [] then []
    else
      var n := |es| - 1;
      ViewsOf(es[..n]) + [View(HeaderOf(es[n]), es[n].payload, |EncodeLog(es[..n])|)]
  }

  lemma {:induction false} ViewsLength(es: seq<Entry>)
    ensures |ViewsOf(es)| == |es|
  {
    if es == [] {
    } else {
      ViewsLength(es[..|es| - 1]);
    }
  }

  /** The i-th view shows the i-th entry, right behind the ones before it. */
  lemma {:induction false} ViewAt(es: seq<Entry>, i: nat)
    requires i < |es|
    ensures |ViewsOf(es)| == |es|
    ensures ViewsOf(es)[i] == View(HeaderOf(es[i]), es[i].payload, |EncodeLog(es[..i])|)
    decreases |es|
  {
    hide HeaderOf, Encode;
    var n := |es| - 1;
    ViewsLength(es[..n]);
    if i < n {
      ViewAt(es[..n], i);
      assert es[..n][..i] == es[..i];
    }
  }

  // ---------------------------------------------------------------- one record

  lemma HeaderReads(e: Entry, rest: Bytes)
    ensures Deserialize(Encode(e) + rest) == HeaderOf(e)
  {
    HeaderRoundTrip(HeaderOf(e), e.payload + rest);
    assert Encode(e) + rest == Serialize(HeaderOf(e)) + (e.payload + rest);
  }

  lemma ChecksumHolds(e: Entry)
    ensures HeaderOf(e).checksum == RecordChecksum(HeaderOf(e), e.payload)
  {
  }

  /** A well-formed record is found wherever it lies, whatever surrounds it. */
  lemma RecordIsFound(before: Bytes, e: Entry, rest: Bytes)
    ensures FindRecord(before + Encode(e) + rest, |before|)
            == Found(View(HeaderOf(e), e.payload, |before|))
  {
    hide Serialize, RecordChecksum, HeaderOf;
    var file := before + Encode(e) + rest;
    assert file[|before|..] == Encode(e) + rest;
    HeaderReads(e, rest);
    ChecksumHolds(e);
    HeaderShape(e);
    assert (Encode(e) + rest)[40..40 + |e.payload|] == e.payload;
  }

  lemma HeaderShape(e: Entry)
    ensures HeaderOf(e).magic == MAGIC && ShapeStatus(HeaderOf(e)) == Ok
    ensures TotalSize(HeaderOf(e)) == 40 + |e.payload|
  {
  }

  // ---------------------------------------------------------------- whole logs

  /** The visitor accepts the first n of these views. */
  ghost predicate Accepts(visitor: Visitor, views: seq<View>) {
    forall k :: 1 <= k <= |views| ==> visitor(views[..k]) == Ok
  }

  /** Whatever bytes follow k records, a replay first visits those k. */
  lemma {:induction false} ReplayReachesEnd(es: seq<Entry>, rest: Bytes, visitor: Visitor)
    requires Accepts(visitor, ViewsOf(es))
    ensures Replay(EncodeLog(es) + rest, 0, visitor, [])
            == Replay(EncodeLog(es) + rest, |EncodeLog(es)|, visitor, ViewsOf(es))
    decreases |es|
  {
    hide FindRecord, Encode, HeaderOf, Replay, Accepts;
    if es == [] {
      assert EncodeLog(es) == [] && ViewsOf(es) == [];
    } else {
      var n := |es| - 1;
      var front, e := es[..n], es[n];
      AcceptsFront(visitor, es, n);
      AcceptsAll(visitor, es);
      ReplayReachesEnd(front, Encode(e) + rest, visitor);
      assert EncodeLog(es) + rest == EncodeLog(front) + (Encode(e) + rest);
      NextIsVisited(EncodeLog(front), e, rest, visitor, ViewsOf(front));
    }
  }

  lemma AcceptsAll(visitor: Visitor, es: seq<Entry>)
    requires es != [] && Accepts(visitor, ViewsOf(es))
    ensures visitor(ViewsOf(es)) == Ok
  {
    hide Encode, HeaderOf;
    ViewsLength(es);
    assert ViewsOf(es)[..|es|] == ViewsOf(es);
  }

  lemma NextIsVisited(before: Bytes, e: Entry, rest: Bytes, visitor: Visitor, seen: seq<View>)
    requires visitor(seen + [View(HeaderOf(e), e.payload, |before|)]) == Ok
    ensures var file, view := before + (Encode(e) + rest), View(HeaderOf(e), e.payload, |before|);
            Replay(file, |before|, visitor, seen) == Replay(file, |before + Encode(e)|, visitor, seen + [view])
  {
    hide FindRecord, HeaderOf, Serialize;
    var file := before + (Encode(e) + rest);
    assert file == before + Encode(e) + rest;
    RecordIsFound(before, e, rest);
    FoundFits(file, |before|);
    HeaderShape(e);
  }

  /** The log's end is where the scan stops. */
  lemma ReplayStops(es: seq<Entry>, rest: Bytes, visitor: Visitor)
    requires Accepts(visitor, ViewsOf(es))
    ensures var file := EncodeLog(es) + rest;
            var found := FindRecord(file, |EncodeLog(es)|);
            found.Stop? ==>
              Replay(file, 0, visitor, [])
              == Replayed(ViewsOf(es), if found.status == Empty then Ok else found.status)
  {
    hide FindRecord, Encode, HeaderOf;
    ReplayReachesEnd(es, rest, visitor);
  }

  /** Cutting a log between two records. */
  lemma {:induction false} EncodeLogSplit(es: seq<Entry>, k: nat)
    requires k < |es|
    ensures EncodeLog(es[..k + 1]) == EncodeLog(es[..k]) + Encode(es[k])
    ensures EncodeLog(es[..k + 1]) <= EncodeLog(es)
    decreases |es|
  {
    hide Encode;
    assert es[..k + 1][..k] == es[..k];
    if k + 1 == |es| {
      assert es[..k + 1] == es;
    } else {
      var front := es[..|es| - 1];
      EncodeLogSplit(front, k);
      assert front[..k + 1] == es[..k + 1];
    }
  }

  lemma {:induction false} ViewsPrefix(es: seq<Entry>, k: nat)
    requires k <= |es|
    ensures |ViewsOf(es)| == |es| && ViewsOf(es)[..k] == ViewsOf(es[..k])
    decreases |es|
  {
    hide Encode, HeaderOf;
    ViewsLength(es);
    if k == |es| {
      assert es[..k] == es;
    } else {
      var front := es[..|es| - 1];
      ViewsPrefix(front, k);
      assert front[..k] == es[..k];
    }
  }

  /** The visitor has the last word: once it answers a record of the log with anything but ok, the replay
      shows nothing further and returns that answer, whatever lies behind. */
  lemma ReplayRejected(es: seq<Entry>, t: Bytes, visitor: Visitor, k: nat)
    requires k < |es| && Accepts(visitor, ViewsOf(es[..k])) && visitor(ViewsOf(es[..k + 1])) != Ok
    ensures Replay(EncodeLog(es) + t, 0, visitor, [])
            == Replayed(ViewsOf(es[..k + 1]), visitor(ViewsOf(es[..k + 1])))
    ensures ViewsOf(es[..k + 1]) <= ViewsOf(es) && |ViewsOf(es[..k + 1])| == k + 1
  {
    hide FindRecord, Encode, HeaderOf, Accepts, EncodeLog;
    var front, e, file := es[..k], es[k], EncodeLog(es) + t;
    ViewsPrefix(es, k + 1);
    EncodeLogSplit(es, k);
    var rest := file[|EncodeLog(es[..k + 1])|..];
    assert file == EncodeLog(front) + (Encode(e) + rest);
    assert file == EncodeLog(front) + Encode(e) + rest;
    ReplayReachesEnd(front, Encode(e) + rest, visitor);
    RecordIsFound(EncodeLog(front), e, rest);
    assert es[..k + 1][..k] == front && es[..k + 1][k] == e;
  }

  lemma ZeroTailStops(before: Bytes, n: nat)
    ensures FindRecord(before + Zeros(n), |before|) == Stop(Empty)
  {
    hide RecordChecksum, Serialize;
    var file := before + Zeros(n);
    assert file[|before|..] == Zeros(n);
    if n >= 40 {
      assert Zeros(n)[0..4] == [0, 0, 0, 0];
      ZeroMagic(Zeros(n));
    }
  }

  lemma ZeroMagic(b: Bytes)
    requires |b| >= 40 && b[0..4] == [0, 0, 0, 0]
    ensures Deserialize(b).magic == 0
  {
    var z: Bytes := [0, 0, 0, 0];
    assert FromLE(z) == 0 by {
      assert z[1..] == [0, 0, 0] && z[1..][1..] == [0, 0] && z[1..][1..][1..] == [0];
      assert z[1..][1..][1..][1..] == [];
    }
  }

  /** Round trip: a log followed by any number of zero bytes replays as exactly its entries, in order,
      at contiguous offsets, and the replay returns ok. */
  lemma LogRoundTrip(es: seq<Entry>, n: nat, visitor: Visitor)
    requires Accepts(visitor, ViewsOf(es))
    ensures Replay(EncodeLog(es) + Zeros(n), 0, visitor, []) == Replayed(ViewsOf(es), Ok)
  {
    hide FindRecord, Encode, HeaderOf;
    ZeroTailStops(EncodeLog(es), n);
    ReplayStops(es, Zeros(n), visitor);
  }

  // ---------------------------------------------------------------- truncation

  /** A record cut short is a clean stop. */
  lemma TornRecordStops(before: Bytes, e: Entry, m: nat)
    requires m < |Encode(e)|
    ensures FindRecord(before + Encode(e)[..m], |before|) == Stop(Empty)
  {
    hide RecordChecksum, Serialize, HeaderOf;
    var file := before + Encode(e)[..m];
    assert file[|before|..] == Encode(e)[..m];
    if m >= 40 {
      HeaderShape(e);
      SamePrefixSameHeader(Encode(e)[..m], Encode(e));
      HeaderReads(e, []);
      assert Encode(e) + [] == Encode(e);
    }
  }

  lemma SameField(a: Bytes, b: Bytes, from: nat, n: nat)
    requires |a| >= 40 && |b| >= 40 && a[..40] == b[..40] && from + n <= 40
    ensures Field(a, from, n) == Field(b, from, n)
  {
    SubSlice(a, 40, from, n);
    SubSlice(b, 40, from, n);
  }

  lemma SubSlice(a: Bytes, m: nat, from: nat, n: nat)
    requires from + n <= m <= |a|
    ensures a[..m][from..from + n] == a[from..from + n]
  {
    var x, y := a[..m][from..from + n], a[from..from + n];
    assert |x| == |y| && forall i :: 0 <= i < n ==> x[i] == y[i];
  }

  lemma SamePrefixSameHeader(a: Bytes, b: Bytes)
    requires |a| >= 40 && |b| >= 40 && a[..40] == b[..40]
    ensures Deserialize(a) == Deserialize(b)
  {
    hide Field;
    SameField(a, b, 0, 4);
    SameField(a, b, 4, 2);
    SameField(a, b, 6, 2);
    SameField(a, b, 8, 4);
    SameField(a, b, 16, 8);
    SameField(a, b, 24, 8);
    SameField(a, b, 32, 4);
    SameField(a, b, 36, 4);
  }

  /** Accepting a log means accepting its beginning. */
  lemma {:induction false} AcceptsFront(visitor: Visitor, es: seq<Entry>, n: nat)
    requires n <= |es| && Accepts(visitor, ViewsOf(es))
    ensures Accepts(visitor, ViewsOf(es[..n]))
    decreases |es|
  {
    hide Encode, HeaderOf;
    if n < |es| {
      var front := es[..|es| - 1];
      ViewsLength(front);
      forall k | 1 <= k <= |front| ensures visitor(ViewsOf(front)[..k]) == Ok {
        assert ViewsOf(es)[..k] == ViewsOf(front)[..k];
      }
      AcceptsFront(visitor, front, n);
      assert front[..n] == es[..n];
    } else {
      assert es[..n] == es;
    }
  }

  lemma TornLog(front: seq<Entry>, e: Entry, m: nat, visitor: Visitor)
    requires m < |Encode(e)| && Accepts(visitor, ViewsOf(front))
    ensures Replay(EncodeLog(front) + Encode(e)[..m], 0, visitor, []) == Replayed(ViewsOf(front), Ok)
  {
    hide FindRecord, Encode, HeaderOf;
    TornRecordStops(EncodeLog(front), e, m);
    ReplayStops(front, Encode(e)[..m], visitor);
  }

  /** Cutting a log off anywhere inside its records leaves a file that replays, with status ok, as the
      longest prefix of whole records that fits.  (Cut down to nothing, the file is one that opening
      already refuses.) */
  lemma {:induction false} TruncatedLog(es: seq<Entry>, cut: nat, visitor: Visitor) returns (k: nat)
    requires cut <= |EncodeLog(es)| && Accepts(visitor, ViewsOf(es))
    ensures k <= |es| && |EncodeLog(es[..k])| <= cut
    ensures k < |es| ==> cut < |EncodeLog(es[..k + 1])|
    ensures Replay(EncodeLog(es)[..cut], 0, visitor, []) == Replayed(ViewsOf(es[..k]), Ok)
    decreases |es|
  {
    hide FindRecord, Encode, HeaderOf, Replay, ViewsOf, Accepts;
    if cut == |EncodeLog(es)| {
      k := |es|;
      assert es[..k] == es && EncodeLog(es)[..cut] == EncodeLog(es) + Zeros(0);
      LogRoundTrip(es, 0, visitor);
    } else {
      var n := |es| - 1;
      var front, e := es[..n], es[n];
      AcceptsFront(visitor, es, n);
      if cut < |EncodeLog(front)| {
        k := TruncatedLog(front, cut, visitor);
        assert EncodeLog(es)[..cut] == EncodeLog(front)[..cut];
        assert front[..k] == es[..k];
        assert front[..n] == front;
        assert front[..k + 1] == es[..k + 1];
      } else {
        k := n;
        assert es[..k + 1] == es;
        var m := cut - |EncodeLog(front)|;
        assert EncodeLog(es)[..cut] == EncodeLog(front) + Encode(e)[..m];
        TornLog(front, e, m, visitor);
      }
    }
  }

}
