/** What failed flushes leave behind the log, and what a replay makes of it.

    An append whose flush fails has copied its record into the file without moving past it.  The next
    record that is written lands on top, but it need not be as long. */
module WalResidue {
  import opened Words
  import opened Record
  import opened WalReader
  import opened WalLog
  import opened WalDamage
  import opened WalWriter

  /** What is left of r behind its first n bytes. */
  function Behind(r: Bytes, n: nat): Bytes { if n <= |r| then r[n..] else [] }

  /** The bytes behind the log: a failed record lies on top of what was there, a successful one takes
      its length away from the front. */
  function Residue(w: Writer, calls: seq<Call>): Bytes {
    if calls == [] then []
    else
      var front, last := calls[..|calls| - 1], calls[|calls| - 1];
      var before, r := AppendAll(w, front), Residue(w, front);
      if !Admissible(before, last.message) then r
      else
        var x := Encode(EntryFor(before, last.message, last.clock));
        if Succeeds(before, last) then Behind(r, |x|) else x + Behind(r, |x|)
  }

  /** The record of the last call that wrote one, if its flush failed. */
  function LeftOver(w: Writer, calls: seq<Call>): (es: seq<Entry>)
    ensures |es| <= 1
  {
    if calls == [] then []
    else
      var front, last := calls[..|calls| - 1], calls[|calls| - 1];
      var before := AppendAll(w, front);
      if !Admissible(before, last.message) then LeftOver(w, front)
      else if Succeeds(before, last) then []
      else [EntryFor(before, last.message, last.clock)]
  }

  /** The file is the log, then r, then untouched space. */
  ghost predicate Leaves(w: Writer, es: seq<Entry>, r: Bytes) {
    && Holds(w, es)
    && |r| <= |w.file| - w.offset
    && w.file == EncodeLog(es) + r + Zeros(|w.file| - w.offset - |r|)
  }

  /** A record copied over the front of what lies behind the log. */
  lemma SpliceOver(p: Bytes, r: Bytes, n: nat, x: Bytes)
    requires |x| <= |r| + n
    ensures Splice(p + r + Zeros(n), |p|, x)
            == p + x + Behind(r, |x|) + Zeros(|r| + n - |x| - |Behind(r, |x|)|)
  {
    var l := Splice(p + r + Zeros(n), |p|, x);
    if |x| <= |r| {
      assert l == p + x + r[|x|..] + Zeros(n);
    } else {
      assert l == p + x + [] + Zeros(n - (|x| - |r|));
    }
  }

  lemma AppendLeaves(w: Writer, es: seq<Entry>, r: Bytes, c: Call)
    requires Leaves(w, es, r)
    ensures var w' := Appended(w, c.message, c.clock, c.flush);
            if !Admissible(w, c.message) then w' == w && !Succeeds(w, c)
            else
              var e := EntryFor(w, c.message, c.clock);
              if Succeeds(w, c) then Leaves(w', es + [e], Behind(r, |Encode(e)|))
              else Leaves(w', es, Encode(e) + Behind(r, |Encode(e)|))
  {
    hide Encode, EncodeLog, Numbered, Splice, Behind;
    AppendHolds(w, es, c.message, c.clock, c.flush);
    if Admissible(w, c.message) {
      var e := EntryFor(w, c.message, c.clock);
      EncodeLogAppend(es, e);
      SpliceOver(EncodeLog(es), r, |w.file| - w.offset - |r|, Encode(e));
      BehindShrinks(r, |Encode(e)|);
      var b, z := Behind(r, |Encode(e)|), Zeros(|w.file| - w.offset - |Encode(e)| - |Behind(r, |Encode(e)|)|);
      assert EncodeLog(es) + Encode(e) + b + z == EncodeLog(es) + (Encode(e) + b) + z;
    }
  }

  lemma BehindShrinks(r: Bytes, n: nat)
    ensures |Behind(r, n)| == if n <= |r| then |r| - n else 0
  {
  }

  /** After any mix of successful, refused and flush-failing appends of any lengths, this is the whole
      file, byte for byte. */
  lemma {:induction false} EverySequenceLeaves(w: Writer, calls: seq<Call>)
    requires Leaves(w, [], [])
    ensures Leaves(AppendAll(w, calls), Accepted(w, calls), Residue(w, calls))
    decreases |calls|
  {
    hide Leaves, Appended, AppendStatus, EntryFor, Admissible, Behind, Encode;
    if calls == [] {
    } else {
      var front, c := calls[..|calls| - 1], calls[|calls| - 1];
      EverySequenceLeaves(w, front);
      AppendLeaves(AppendAll(w, front), Accepted(w, front), Residue(w, front), c);
      assert Accepted(w, front) + [] == Accepted(w, front);
    }
  }

  lemma FreshLeaves(size: nat, flush: bool)
    requires size >= 40
    ensures Leaves(Create(false, size, flush, Ok).1, [], [])
  {
    FreshHolds(size, flush);
    assert [] + [] + Zeros(size) == Zeros(size);
  }

  // ---------------------------------------------------------------- replaying it

  /** The residue begins with the left-over record. */
  lemma {:induction false} ResidueBegins(w: Writer, calls: seq<Call>)
    ensures EncodeLog(LeftOver(w, calls)) <= Residue(w, calls)
    decreases |calls|
  {
    hide Appended, AppendStatus, Encode, AppendAll;
    if calls == [] {
    } else {
      var front, c := calls[..|calls| - 1], calls[|calls| - 1];
      ResidueBegins(w, front);
      var before := AppendAll(w, front);
      if Admissible(before, c.message) && !Succeeds(before, c) {
        EncodeLogOfOne(EntryFor(before, c.message, c.clock));
      }
    }
  }

  /** The bytes of the residue that belong to no whole record. */
  function Stale(w: Writer, calls: seq<Call>): Bytes {
    ResidueBegins(w, calls);
    Residue(w, calls)[|EncodeLog(LeftOver(w, calls))|..]
  }

  lemma {:induction false} EncodeLogConcat(a: seq<Entry>, b: seq<Entry>)
    requires |b| <= 1
    ensures EncodeLog(a + b) == EncodeLog(a) + EncodeLog(b)
  {
    hide Encode;
    if b == [] {
      assert a + b == a;
    } else {
      assert b == [b[0]];
      EncodeLogAppend(a, b[0]);
      EncodeLogOfOne(b[0]);
    }
  }

  /** The file, byte for byte: the records a replay is meant to show, the stale bytes, zeros. */
  lemma FileAfterAppends(size: nat, flush: bool, calls: seq<Call>)
    requires size >= 40
    ensures var w := Create(false, size, flush, Ok).1;
            var es, stale := Accepted(w, calls) + LeftOver(w, calls), Stale(w, calls);
            var n := size - |EncodeLog(es)| - |stale|;
            n >= 0 && AppendAll(w, calls).file == EncodeLog(es) + (stale + Zeros(n))
  {
    hide AppendAll, Accepted, LeftOver, Residue, EncodeLog;
    var w := Create(false, size, flush, Ok).1;
    FreshLeaves(size, flush);
    EverySequenceLeaves(w, calls);
    ResidueBegins(w, calls);
    AppendKeepsSize(w, calls);
    var log, left, stale, file := Accepted(w, calls), LeftOver(w, calls), Stale(w, calls), AppendAll(w, calls).file;
    var n: nat := |file| - AppendAll(w, calls).offset - |Residue(w, calls)|;
    EncodeLogConcat(log, left);
    assert Residue(w, calls) == EncodeLog(left) + stale;
    assert file == EncodeLog(log + left) + (stale + Zeros(n));
  }

  lemma {:induction false} AppendKeepsSize(w: Writer, calls: seq<Call>)
    ensures |AppendAll(w, calls).file| == |w.file|
    decreases |calls|
  {
    hide Encode, Splice;
    if calls == [] {
    } else {
      AppendKeepsSize(w, calls[..|calls| - 1]);
    }
  }

  /** Whatever was appended and whatever failed on the way, the exact outcome of a replay: it shows every
      accepted message and the left-over one and returns ok, if and only if the bytes behind them read
      as a clean end; it returns a corrupted record right behind them, if and only if those bytes read
      neither so nor as a record; and it shows a record that no append left there, if and only if they
      do read as one. */
  lemma ReplayAfterAppends(size: nat, flush: bool, calls: seq<Call>, visitor: Visitor)
    requires size >= 40
    requires var w := Create(false, size, flush, Ok).1;
             Accepts(visitor, ViewsOf(Accepted(w, calls) + LeftOver(w, calls)))
    ensures var w := Create(false, size, flush, Ok).1;
            var es, stale := Accepted(w, calls) + LeftOver(w, calls), Stale(w, calls);
            var r, n := Replay(AppendAll(w, calls).file, 0, visitor, []), size - |EncodeLog(es)| - |stale|;
            && n >= 0
            && (r == Replayed(ViewsOf(es), Ok) <==> CleanEnd(stale + Zeros(n)))
            && (r == Replayed(ViewsOf(es), CorruptedRecord)
                <==> !CleanEnd(stale + Zeros(n)) && !BeginsWithRecord(stale + Zeros(n)))
            && (|r.visited| > |es| <==> BeginsWithRecord(stale + Zeros(n)))
  {
    hide ViewsOf, Replay, AppendAll, Accepted, LeftOver, Stale, EncodeLog, Accepts, Create, CleanEnd, BeginsWithRecord;
    var w := Create(false, size, flush, Ok).1;
    var es, stale := Accepted(w, calls) + LeftOver(w, calls), Stale(w, calls);
    FileAfterAppends(size, flush, calls);
    ReplayVerdict(es, stale + Zeros(size - |EncodeLog(es)| - |stale|), visitor);
  }

  // ---------------------------------------------------------------- when nothing is stale

  /** How many bytes are stale, from the lengths of the records alone: each one written covers its own
      length of whatever lay behind the log. */
  function StaleLength(w: Writer, calls: seq<Call>): nat {
    if calls == [] then 0
    else
      var front, last := calls[..|calls| - 1], calls[|calls| - 1];
      var lying := |EncodeLog(LeftOver(w, front))| + StaleLength(w, front);
      if !Admissible(AppendAll(w, front), last.message) then StaleLength(w, front)
      else if lying <= 40 + |last.message.payload| then 0
      else lying - (40 + |last.message.payload|)
  }

  lemma {:induction false} StaleLengthExactly(w: Writer, calls: seq<Call>)
    ensures |Stale(w, calls)| == StaleLength(w, calls)
    ensures |Residue(w, calls)| == |EncodeLog(LeftOver(w, calls))| + StaleLength(w, calls)
    decreases |calls|
  {
    hide Appended, AppendStatus, Encode, AppendAll, EncodeLog, Behind;
    ResidueBegins(w, calls);
    assert EncodeLog([]) == [] by { EmptyLog(); }
    if calls == [] {
    } else {
      var front, c := calls[..|calls| - 1], calls[|calls| - 1];
      StaleLengthExactly(w, front);
      var before := AppendAll(w, front);
      if Admissible(before, c.message) {
        var e := EntryFor(before, c.message, c.clock);
        EncodeLogOfOne(e);
        EncodeLogAppend([], e);
        BehindShrinks(Residue(w, front), |Encode(e)|);
      }
    }
  }

  lemma EmptyLog()
    ensures EncodeLog([]) == []
  {
  }

  /** Every record written right after a failed flush is at least as long as the one it lands on. */
  ghost predicate Covers(w: Writer, calls: seq<Call>) {
    calls == [] ||
    var front, last := calls[..|calls| - 1], calls[|calls| - 1];
    && Covers(w, front)
    && (Admissible(AppendAll(w, front), last.message) && LeftOver(w, front) != [] ==>
          |LeftOver(w, front)[0].payload| <= |last.message.payload|)
  }

  lemma {:induction false} CoveredLeavesNothingStale(w: Writer, calls: seq<Call>)
    requires Covers(w, calls)
    ensures StaleLength(w, calls) == 0 && Stale(w, calls) == []
    decreases |calls|
  {
    hide Appended, AppendStatus, Encode, AppendAll, EncodeLog;
    StaleLengthExactly(w, calls);
    if calls == [] {
    } else {
      var front := calls[..|calls| - 1];
      CoveredLeavesNothingStale(w, front);
      if LeftOver(w, front) == [] {
        EmptyLog();
      } else {
        assert LeftOver(w, front) == [LeftOver(w, front)[0]];
        EncodeLogOfOne(LeftOver(w, front)[0]);
        EncodeLogAppend([], LeftOver(w, front)[0]);
      }
    }
  }

  ghost predicate NoFlushFails(w: Writer, calls: seq<Call>) {
    !w.flushOnAppend || forall i :: 0 <= i < |calls| ==> calls[i].flush == Ok
  }

  lemma {:induction false} AppendKeepsFlushing(w: Writer, calls: seq<Call>)
    ensures AppendAll(w, calls).flushOnAppend == w.flushOnAppend
    decreases |calls|
  {
    hide Encode, Splice;
    if calls == [] {
    } else {
      AppendKeepsFlushing(w, calls[..|calls| - 1]);
    }
  }

  lemma {:induction false} NoFailureNothingLeft(w: Writer, calls: seq<Call>)
    requires NoFlushFails(w, calls)
    ensures LeftOver(w, calls) == [] && Covers(w, calls)
    decreases |calls|
  {
    hide Encode, Appended;
    if calls == [] {
    } else {
      NoFailureNothingLeft(w, calls[..|calls| - 1]);
      AppendKeepsFlushing(w, calls[..|calls| - 1]);
    }
  }

  /** Round trip: create a file of any size, append any messages of any lengths; if no flush fails, a
      replay visits exactly the accepted ones, with their payloads, flags, timestamps and consecutive
      sequence numbers at contiguous offsets, and returns ok. */
  lemma WriterRoundTrip(size: nat, flush: bool, calls: seq<Call>, visitor: Visitor)
    requires size >= 40
    requires var w := Create(false, size, flush, Ok).1;
             NoFlushFails(w, calls) && Accepts(visitor, ViewsOf(Accepted(w, calls)))
    ensures var w := Create(false, size, flush, Ok).1;
            && Replay(AppendAll(w, calls).file, 0, visitor, []) == Replayed(ViewsOf(Accepted(w, calls)), Ok)
            && Numbered(Accepted(w, calls))
  {
    hide FindRecord, ViewsOf, Appended, Encode, Replay, AppendAll, Accepted, Residue, Stale;
    var w := Create(false, size, flush, Ok).1;
    NoFailureNothingLeft(w, calls);
    assert Accepted(w, calls) + [] == Accepted(w, calls);
    RoundTripWithFailures(size, flush, calls, visitor);
    FreshHolds(size, flush);
    EverySequenceHolds(w, calls);
  }

  /** The same with failing flushes, as long as each record covers the failed one it lands on: the
      replay shows the accepted messages and the left-over one, and returns ok. */
  lemma RoundTripWithFailures(size: nat, flush: bool, calls: seq<Call>, visitor: Visitor)
    requires size >= 40
    requires var w := Create(false, size, flush, Ok).1;
             Covers(w, calls) && Accepts(visitor, ViewsOf(Accepted(w, calls) + LeftOver(w, calls)))
    ensures var w := Create(false, size, flush, Ok).1;
            Replay(AppendAll(w, calls).file, 0, visitor, [])
            == Replayed(ViewsOf(Accepted(w, calls) + LeftOver(w, calls)), Ok)
  {
    hide ViewsOf, Appended, Encode, EncodeLog, Replay, AppendAll, Accepted, Stale, Accepts, LeftOver;
    var w := Create(false, size, flush, Ok).1;
    CoveredLeavesNothingStale(w, calls);
    ReplayAfterAppends(size, flush, calls, visitor);
    var n: nat := size - |EncodeLog(Accepted(w, calls) + LeftOver(w, calls))|;
    assert Stale(w, calls) + Zeros(n) == Zeros(n);
  }

  // ---------------------------------------------------------------- what was handed over is what is shown

  /** The calls that returned ok, by position. */
  function OkCalls(w: Writer, calls: seq<Call>): (ks: seq<nat>)
    ensures forall i :: 0 <= i < |ks| ==> ks[i] < |calls|
  {
    if calls == [] then []
    else
      var front, last := calls[..|calls| - 1], calls[|calls| - 1];
      OkCalls(w, front) + if Succeeds(AppendAll(w, front), last) then [|front|] else []
  }

  lemma {:induction false} OkCallsExactly(w: Writer, calls: seq<Call>, k: nat)
    requires k < |calls|
    ensures k in OkCalls(w, calls) <==> Succeeds(AppendAll(w, calls[..k]), calls[k])
    ensures forall i, j :: 0 <= i < j < |OkCalls(w, calls)| ==> OkCalls(w, calls)[i] < OkCalls(w, calls)[j]
    decreases |calls|
  {
    hide Appended, AppendStatus, AppendAll;
    var front := calls[..|calls| - 1];
    if |calls| == 1 {
      assert front == [] && OkCalls(w, front) == [];
    } else if k == |calls| - 1 {
      OkCallsExactly(w, front, 0);
    } else {
      OkCallsExactly(w, front, k);
      assert front[..k] == calls[..k];
    }
  }

  /** The bytes of the records of these calls. */
  function SizeOf(calls: seq<Call>, ks: seq<nat>): nat
    requires forall i :: 0 <= i < |ks| ==> ks[i] < |calls|
  {
    if ks == [] then 0
    else SizeOf(calls, ks[..|ks| - 1]) + 40 + |calls[ks[|ks| - 1]].message.payload|
  }

  /** A view shows this call's message as record number i: its payload and flags, its timestamp or, if it
      has none, the clock's. */
  ghost predicate Shows(v: View, c: Call, i: nat) {
    && v.payload == c.message.payload && v.header.payloadSize == |c.message.payload|
    && v.header.flags == c.message.flags
    && v.header.timestamp == (if c.message.timestamp != 0 then c.message.timestamp else c.clock)
    && v.header.sequence == Wrap(i)
  }

  /** The accepted entries, field by field. */
  lemma {:induction false} AcceptedFields(w: Writer, calls: seq<Call>)
    requires Holds(w, [])
    ensures var es, ks := Accepted(w, calls), OkCalls(w, calls);
            && |es| == |ks| && |EncodeLog(es)| == SizeOf(calls, ks)
            && forall i :: 0 <= i < |ks| ==> Shows(View(HeaderOf(es[i]), es[i].payload, 0), calls[ks[i]], i)
    decreases |calls|
  {
    hide Holds, AppendStatus, Encode, EncodeLog, Wrap, HeaderOf, Appended, AppendAll, Shows, SizeOf, EntryFor;
    if calls == [] {
      EmptyLog();
      NoSize(calls);
    } else {
      var front, c := calls[..|calls| - 1], calls[|calls| - 1];
      AcceptedFields(w, front);
      SizeOfFront(calls, OkCalls(w, front));
      var before, ks := AppendAll(w, front), OkCalls(w, front);
      if Succeeds(before, c) {
        EverySequenceHolds(w, front);
        NewEntryShows(before, Accepted(w, front), c);
        EncodeLogAppend(Accepted(w, front), EntryFor(before, c.message, c.clock));
        SizeOfMore(calls, ks, |front|);
      } else {
        assert Accepted(w, calls) == Accepted(w, front) && OkCalls(w, calls) == ks;
      }
    }
  }

  lemma NoSize(calls: seq<Call>)
    ensures SizeOf(calls, []) == 0
  {
  }

  lemma SizeOfMore(calls: seq<Call>, ks: seq<nat>, k: nat)
    requires k < |calls| && forall i :: 0 <= i < |ks| ==> ks[i] < |calls|
    ensures SizeOf(calls, ks + [k]) == SizeOf(calls, ks) + 40 + |calls[k].message.payload|
  {
    assert (ks + [k])[..|ks|] == ks;
  }

  lemma NewEntryShows(w: Writer, es: seq<Entry>, c: Call)
    requires Holds(w, es) && Succeeds(w, c)
    ensures |c.message.payload| <= MAX_PAYLOAD
    ensures var e := EntryFor(w, c.message, c.clock);
            e.payload == c.message.payload && Shows(View(HeaderOf(e), e.payload, 0), c, |es|)
  {
    hide EncodeLog, RecordChecksum, Wrap, Numbered;
  }

  lemma {:induction false} SizeOfFront(calls: seq<Call>, ks: seq<nat>)
    requires calls != [] && forall i :: 0 <= i < |ks| ==> ks[i] < |calls| - 1
    ensures SizeOf(calls, ks) == SizeOf(calls[..|calls| - 1], ks)
    decreases |ks|
  {
    if ks == [] {
    } else {
      SizeOfFront(calls, ks[..|ks| - 1]);
    }
  }

  lemma {:induction false} OffsetOf(w: Writer, calls: seq<Call>, i: nat)
    requires Holds(w, []) && i < |OkCalls(w, calls)|
    ensures |Accepted(w, calls)| == |OkCalls(w, calls)|
    ensures |EncodeLog(Accepted(w, calls)[..i])| == SizeOf(calls, OkCalls(w, calls)[..i])
    decreases |calls|
  {
    hide Holds, AppendStatus, Encode, EncodeLog, HeaderOf, Appended, AppendAll, Shows;
    var front, ks, es := calls[..|calls| - 1], OkCalls(w, calls), Accepted(w, calls);
    AcceptedFields(w, calls);
    AcceptedFields(w, front);
    var ks', es' := OkCalls(w, front), Accepted(w, front);
    assert ks[..i] == ks'[..i] && es[..i] == es'[..i];
    if i == |ks'| {
      assert ks'[..i] == ks' && es'[..i] == es';
    } else {
      OffsetOf(w, front, i);
    }
    SizeOfFront(calls, ks[..i]);
  }

  /** What was handed over is what is shown.  Create a file, append any messages with any failures, and
      replay it: record number i shows the message of the i-th call that returned ok, behind the records
      of those before it; and if no flush failed, there is nothing else and the replay returns ok. */
  lemma WrittenIsShown(size: nat, flush: bool, calls: seq<Call>, visitor: Visitor)
    requires size >= 40 && forall seen: seq<View> :: visitor(seen) == Ok
    ensures var w := Create(false, size, flush, Ok).1;
            var r, ks := Replay(AppendAll(w, calls).file, 0, visitor, []), OkCalls(w, calls);
            && |ks| <= |r.visited|
            && (forall i :: 0 <= i < |ks| ==>
                  Shows(r.visited[i], calls[ks[i]], i) && r.visited[i].offset == SizeOf(calls, ks[..i]))
            && (NoFlushFails(w, calls) ==> |r.visited| == |ks| && r.status == Ok)
  {
    hide Replay, ViewsOf, AppendAll, Accepted, EncodeLog, Encode, HeaderOf, OkCalls, SizeOf, NoFlushFails;
    var w := Create(false, size, flush, Ok).1;
    var es, ks := Accepted(w, calls), OkCalls(w, calls);
    FreshHolds(size, flush);
    AcceptedFields(w, calls);
    ViewsLength(es);
    assert Accepts(visitor, ViewsOf(es));
    ReplayStartsWithAccepted(w, calls, visitor);
    var r := Replay(AppendAll(w, calls).file, 0, visitor, []);
    forall i | 0 <= i < |ks|
      ensures Shows(r.visited[i], calls[ks[i]], i) && r.visited[i].offset == SizeOf(calls, ks[..i])
    {
      ViewAt(es, i);
      OffsetOf(w, calls, i);
      assert r.visited[i] == ViewsOf(es)[i];
    }
    if NoFlushFails(w, calls) { WriterRoundTrip(size, flush, calls, visitor); }
  }

  // ---------------------------------------------------------------- when something is

  /** The flush of a record with this payload fails, and the caller goes on with an empty message. */
  function FailThenEmpty(payload: Bytes, clock: U64): seq<Call>
    requires |payload| <= MAX_PAYLOAD
  {
    [Call(Message(0, |payload|, 0, payload), clock, IoError), Call(Message(0, 0, 0, []), clock, Ok)]
  }

  lemma PayloadIsStale(w: Writer, payload: Bytes, clock: U64)
    requires w.open && w.flushOnAppend && w.offset == 0 && w.nextSequence == 0
    requires 0 < |payload| <= MAX_PAYLOAD && |w.file| >= 40 + |payload|
    ensures var calls := FailThenEmpty(payload, clock);
            && !Succeeds(w, calls[0]) && Succeeds(AppendAll(w, calls[..1]), calls[1]) && !Covers(w, calls)
            && Accepted(w, calls) == [Entry(0, clock, 0, [])] && LeftOver(w, calls) == []
            && Stale(w, calls) == payload
  {
    hide Serialize, HeaderOf;
    var calls := FailThenEmpty(payload, clock);
    var first, e := calls[..1], Entry(0, clock, 0, payload);
    assert first == [calls[0]] && first[..0] == [] && calls[..1] == first;
    assert AppendAll(w, first[..0]) == w && Residue(w, first[..0]) == [];
    assert Residue(w, first) == Encode(e);
    assert LeftOver(w, first) == [e];
    assert Encode(e)[40..] == payload;
    var before := AppendAll(w, first);
    assert |before.file| == |w.file| && before.offset == 0 && before.open && before.nextSequence == 0;
    assert Admissible(before, calls[1].message) && Succeeds(before, calls[1]);
    var second := EntryFor(before, calls[1].message, clock);
    assert Residue(w, calls) == Behind(Residue(w, first), |Encode(second)|);
    assert Residue(w, calls) == payload;
    assert Accepted(w, first) == Accepted(w, first[..0]) + [];
    assert Accepted(w, calls) == [] + [second];
  }

  /** What is left of the payload of the failed record decides, and it is the caller's: the replay may
      end cleanly, in a corrupted record, or go on to show a record that was never appended. */
  lemma PayloadDecides(size: nat, payload: Bytes, clock: U64, visitor: Visitor)
    requires 0 < |payload| <= MAX_PAYLOAD && size >= 40 + |payload|
    requires Accepts(visitor, ViewsOf([Entry(0, clock, 0, [])]))
    ensures var w, calls, e := Create(false, size, true, Ok).1, FailThenEmpty(payload, clock), Entry(0, clock, 0, []);
            var r, t := Replay(AppendAll(w, calls).file, 0, visitor, []), payload + Zeros(size - 40 - |payload|);
            && Accepted(w, calls) == [e] && LeftOver(w, calls) == [] && Stale(w, calls) == payload
            && AppendAll(w, calls).file == EncodeLog([e]) + t
            && (r == Replayed(ViewsOf([e]), Ok) <==> CleanEnd(t))
            && (r == Replayed(ViewsOf([e]), CorruptedRecord) <==> !CleanEnd(t) && !BeginsWithRecord(t))
            && (|r.visited| > 1 <==> BeginsWithRecord(t))
  {
    hide Replay, ViewsOf, Accepts, EncodeLog, Encode, AppendAll, Accepted, LeftOver, Stale;
    hide CleanEnd, BeginsWithRecord, Succeeds, Covers;
    var w, calls, e := Create(false, size, true, Ok).1, FailThenEmpty(payload, clock), Entry(0, clock, 0, []);
    PayloadIsStale(w, payload, clock);
    assert [e] + [] == [e];
    EncodeLogOfOne(e);
    EncodeLogAppend([], e);
    FileAfterAppends(size, true, calls);
    ReplayAfterAppends(size, true, calls, visitor);
  }

  /** Corrupted: the payload does not begin like a record. */
  lemma ShorterRecordLeavesJunk(size: nat, payload: Bytes, clock: U64, visitor: Visitor)
    requires 40 <= |payload| <= MAX_PAYLOAD && size >= 40 + |payload|
    requires payload[0] != 0 && payload[..8] != PREAMBLE
    requires Accepts(visitor, ViewsOf([Entry(0, clock, 0, [])]))
    ensures var w := Create(false, size, true, Ok).1;
            Replay(AppendAll(w, FailThenEmpty(payload, clock)).file, 0, visitor, [])
            == Replayed(ViewsOf([Entry(0, clock, 0, [])]), CorruptedRecord)
  {
    hide Replay, ViewsOf, Accepts, EncodeLog, Encode, AppendAll, Accepted, LeftOver, Stale, Field, Covered;
    PayloadDecides(size, payload, clock, visitor);
    var t := payload + Zeros(size - 40 - |payload|);
    assert t[..8] == payload[..8] && t[0] != 0;
  }

  /** A record that was never appended: the payload is one, and the replay shows it with status ok. */
  lemma StalePayloadIsReplayed(size: nat, x: Entry, clock: U64, visitor: Visitor)
    requires |Encode(x)| <= MAX_PAYLOAD && size >= 40 + |Encode(x)|
    requires Accepts(visitor, ViewsOf([Entry(0, clock, 0, []), x]))
    ensures var w := Create(false, size, true, Ok).1;
            && Accepted(w, FailThenEmpty(Encode(x), clock)) == [Entry(0, clock, 0, [])]
            && Replay(AppendAll(w, FailThenEmpty(Encode(x), clock)).file, 0, visitor, [])
               == Replayed(ViewsOf([Entry(0, clock, 0, []), x]), Ok)
  {
    hide Replay, ViewsOf, EncodeLog, Encode, AppendAll, Accepted, LeftOver, Stale, CleanEnd, BeginsWithRecord;
    var e, n: nat := Entry(0, clock, 0, []), size - 40 - |Encode(x)|;
    EncodeLogAppend([e], x);
    AcceptsFront(visitor, [e, x], 1);
    assert [e] + [x] == [e, x] && [e, x][..1] == [e];
    PayloadDecides(size, Encode(x), clock, visitor);
    assert EncodeLog([e]) + (Encode(x) + Zeros(n)) == EncodeLog([e, x]) + Zeros(n);
    LogRoundTrip([e, x], n, visitor);
  }

  /** Clean although nothing covered the failed record: its payload is zero. */
  lemma ZeroPayloadIsHarmless(size: nat, n: nat, clock: U64, visitor: Visitor)
    requires 0 < n <= MAX_PAYLOAD && size >= 40 + n
    requires Accepts(visitor, ViewsOf([Entry(0, clock, 0, [])]))
    ensures var w := Create(false, size, true, Ok).1;
            && !Covers(w, FailThenEmpty(Zeros(n), clock))
            && Replay(AppendAll(w, FailThenEmpty(Zeros(n), clock)).file, 0, visitor, [])
               == Replayed(ViewsOf([Entry(0, clock, 0, [])]), Ok)
  {
    hide Replay, ViewsOf, Accepts, EncodeLog, Encode, AppendAll, Accepted, LeftOver, Stale, Field, Covered;
    hide Covers, Succeeds;
    PayloadIsStale(Create(false, size, true, Ok).1, Zeros(n), clock);
    PayloadDecides(size, Zeros(n), clock, visitor);
    assert ZeroFilled(Zeros(n) + Zeros(size - 40 - n));
  }

}
