/** Appending to a log file of fixed size, and what any sequence of appends leaves behind. */
module WalWriter {
  import opened Words
  import opened Record
  import opened WalReader
  import opened WalLog

  /** A message as its producer hands it over; the sequence number it carries is not looked at. */
  datatype Message = Message(timestamp: U64, payloadSize: U32, flags: U32, payload: Bytes)

  datatype Writer = Writer(
    open: bool,
    file: Bytes,
    offset: nat,
    nextSequence: U64,
    recordsWritten: nat,
    flushOnAppend: bool)

  const CLOSED: Writer := Writer(false, [], 0, 0, 0, false)

  /** `create`, where `mapping` is what the operating system answers. */
  function Create(pathEmpty: bool, size: nat, flushOnAppend: bool, mapping: StatusCode): (r: (StatusCode, Writer))
    ensures r.0 == Ok <==> !pathEmpty && size >= 40 && mapping == Ok
  {
    if pathEmpty || size == 0 then (InvalidArgument, CLOSED)
    else if size < HEADER_SIZE then (InvalidArgument, CLOSED)
    else if mapping != Ok then (mapping, CLOSED)
    else (Ok, Writer(true, Zeros(size), 0, 0, 0, flushOnAppend))
  }

  function RemainingSpace(w: Writer): nat {
    if !w.open then 0 else if w.offset <= |w.file| then |w.file| - w.offset else 0
  }

  /** The record an accepted message becomes; a zero timestamp is replaced by the clock's. */
  function EntryFor(w: Writer, m: Message, clock: U64): Entry
    requires |m.payload| <= MAX_PAYLOAD
  {
    Entry(w.nextSequence, if m.timestamp != 0 then m.timestamp else clock, m.flags, m.payload)
  }

  /** The message passes the checks that precede writing. */
  predicate Admissible(w: Writer, m: Message) {
    w.open && m.payloadSize == |m.payload| && 40 + |m.payload| <= RemainingSpace(w)
  }

  /** What `append` returns; `flush` is what the operating system answers if it is asked. */
  function AppendStatus(w: Writer, m: Message, flush: StatusCode): StatusCode {
    if !w.open then InvalidArgument
    else if m.payloadSize != |m.payload| then InvalidArgument
    else if |m.payload| > MAX_PAYLOAD then InvalidArgument
    else if 40 + |m.payload| > RemainingSpace(w) then OutOfSpace
    else if w.flushOnAppend then flush
    else Ok
  }

  /** What `append` leaves: a failed flush has written the bytes but not advanced. */
  function Appended(w: Writer, m: Message, clock: U64, flush: StatusCode): Writer {
    if !Admissible(w, m) then w
    else
      var e := EntryFor(w, m, clock);
      var written := w.(file := Splice(w.file, w.offset, Encode(e)));
      if AppendStatus(w, m, flush) != Ok then written
      else Advanced(written, |Encode(e)|)
  }

  /** What `create` answers, and the writer it makes: an empty log in a file of zeros. */
  lemma CreateExactly(pathEmpty: bool, size: nat, flush: bool, mapping: StatusCode)
    ensures var (status, w) := Create(pathEmpty, size, flush, mapping);
            && (pathEmpty || size < 40 ==> status == InvalidArgument)
            && (!pathEmpty && size >= 40 ==> status == mapping)
            && (status == Ok ==>
                  && w.open && w.file == Zeros(size) && w.flushOnAppend == flush
                  && w.offset == w.nextSequence == w.recordsWritten == 0)
            && (status != Ok ==> !w.open)
  {
  }

  /** What `append` answers: refused for a closed writer or a wrong or excessive size, out of space if the
      record does not fit behind the offset, what the flush answers if there is one, and otherwise ok;
      a refused append changes nothing. */
  lemma AppendExactly(w: Writer, m: Message, clock: U64, flush: StatusCode)
    requires w.offset <= |w.file|
    ensures var status := AppendStatus(w, m, flush);
            var valid := w.open && m.payloadSize == |m.payload|;
            var fits := w.offset + 40 + |m.payload| <= |w.file|;
            && (!valid ==> status == InvalidArgument)
            && (valid && !fits ==> status == OutOfSpace)
            && (valid && fits ==> status == if w.flushOnAppend then flush else Ok)
            && (!valid || !fits ==> Appended(w, m, clock, flush) == w)
            && Appended(w, m, clock, flush).flushOnAppend == w.flushOnAppend
  {
    hide Encode, Splice;
  }

  /** The writer moved past a record of n bytes. */
  function Advanced(w: Writer, n: nat): Writer {
    w.(offset := w.offset + n, nextSequence := Inc64(w.nextSequence), recordsWritten := w.recordsWritten + 1)
  }

  class WalWriter {
    var open: bool
    var file: array<U8>
    var currentOffset: nat
    var nextSequence: U64
    var recordsWritten: nat
    var flushOnAppend: bool

    ghost function State(): Writer
      reads this, file
    {
      Writer(open, file[..], currentOffset, nextSequence, recordsWritten, flushOnAppend)
    }

    /** A default-constructed writer. */
    constructor ()
      ensures State() == CLOSED && fresh(file)
    {
      open, currentOffset, nextSequence, recordsWritten, flushOnAppend := false, 0, 0, 0, false;
      file := new U8[0];
    }

    /** `create` followed by the move assignment into this writer. */
    method Open(pathEmpty: bool, size: nat, flush: bool, mapping: StatusCode) returns (status: StatusCode)
      modifies this
      ensures status == Create(pathEmpty, size, flush, mapping).0
      ensures status == Ok ==> State() == Create(pathEmpty, size, flush, mapping).1 && fresh(file)
      ensures status != Ok ==> State() == old(State()) && file == old(file)
    {
      if pathEmpty || size == 0 { return InvalidArgument; }
      if size < HEADER_SIZE { return InvalidArgument; }
      if mapping != Ok { return mapping; }
      file := new U8[size](_ => 0);
      assert file[..] == Zeros(size);
      open, currentOffset, nextSequence, recordsWritten, flushOnAppend := true, 0, 0, 0, flush;
      status := Ok;
    }

    method Append(m: Message, clock: U64, flush: StatusCode) returns (status: StatusCode)
      modifies this, file
      ensures file == old(file)
      ensures status == AppendStatus(old(State()), m, flush)
      ensures State() == Appended(old(State()), m, clock, flush)
    {
      hide Serialize, RecordChecksum, Splice;
      if !open { return InvalidArgument; }
      if m.payloadSize != |m.payload| { return InvalidArgument; }
      if |m.payload| > MAX_PAYLOAD { return InvalidArgument; }
      var total := HEADER_SIZE + |m.payload|;
      var remaining := if currentOffset <= file.Length then file.Length - currentOffset else 0;
      if total > remaining { return OutOfSpace; }
      var timestamp := if m.timestamp != 0 then m.timestamp else clock;
      var header := Header(MAGIC, VERSION, HEADER_SIZE, |m.payload|, nextSequence, timestamp, 0, m.flags);
      var sum := ComputeRecordChecksum(header, m.payload);
      header := header.(checksum := sum);
      var serialized := SerializeHeader(header);
      ghost var e := EntryFor(State(), m, clock);
      assert serialized == Serialize(HeaderOf(e));
      ghost var before := file[..];
      CopyInto(file, currentOffset, serialized);
      CopyInto(file, currentOffset + HEADER_SIZE, m.payload);
      SpliceTwice(before, currentOffset, serialized, m.payload);
      if flushOnAppend && flush != Ok { return flush; }
      currentOffset := currentOffset + total;
      nextSequence := Inc64(nextSequence);
      recordsWritten := recordsWritten + 1;
      status := Ok;
    }
  }

  /** Two adjacent copies are one. */
  lemma SpliceTwice(s: Bytes, at: nat, x: Bytes, y: Bytes)
    requires at + |x| + |y| <= |s|
    ensures Splice(Splice(s, at, x), at + |x|, y) == Splice(s, at, x + y)
  {
  }

  // ---------------------------------------------------------------- sequences of appends

  datatype Call = Call(message: Message, clock: U64, flush: StatusCode)

  /** The writer after a sequence of calls. */
  function AppendAll(w: Writer, calls: seq<Call>): Writer {
    if calls == [] then w
    else
      var last := calls[|calls| - 1];
      Appended(AppendAll(w, calls[..|calls| - 1]), last.message, last.clock, last.flush)
  }

  /** The call returned ok. */
  predicate Succeeds(w: Writer, c: Call) { AppendStatus(w, c.message, c.flush) == Ok }

  /** The messages of the calls that returned ok, in order, numbered from zero. */
  function Accepted(w: Writer, calls: seq<Call>): seq<Entry> {
    if calls == [] then []
    else
      var front, last := calls[..|calls| - 1], calls[|calls| - 1];
      var before := AppendAll(w, front);
      Accepted(w, front)
      + if Succeeds(before, last) then [EntryFor(before, last.message, last.clock)] else []
  }

  ghost predicate Numbered(es: seq<Entry>) { forall i :: 0 <= i < |es| ==> es[i].sequence == Wrap(i) }

  /** The file begins with these entries, and the writer stands right behind them. */
  ghost predicate Holds(w: Writer, es: seq<Entry>) {
    && w.open
    && w.offset == |EncodeLog(es)| <= |w.file|
    && w.file[..w.offset] == EncodeLog(es)
    && w.nextSequence == Wrap(|es|)
    && w.recordsWritten == |es|
    && Numbered(es)
  }

  lemma AppendHolds(w: Writer, es: seq<Entry>, m: Message, clock: U64, flush: StatusCode)
    requires Holds(w, es)
    ensures var ok := AppendStatus(w, m, flush) == Ok;
            Holds(Appended(w, m, clock, flush), if ok then es + [EntryFor(w, m, clock)] else es)
  {
    hide Encode, Numbered, Splice, EncodeLog;
    if Admissible(w, m) {
      var e := EntryFor(w, m, clock);
      SplicePrefix(w.file, w.offset, Encode(e));
      WrappingSuccessor(|es|);
      EncodeLogAppend(es, e);
      NumberedAppend(es, e);
    }
  }

  lemma SplicePrefix(s: Bytes, at: nat, x: Bytes)
    requires at + |x| <= |s|
    ensures Splice(s, at, x)[..at] == s[..at]
    ensures Splice(s, at, x)[..at + |x|] == s[..at] + x
    ensures Splice(s, at, x)[at + |x|..] == s[at + |x|..]
  {
  }

  lemma EncodeLogAppend(es: seq<Entry>, e: Entry)
    ensures EncodeLog(es + [e]) == EncodeLog(es) + Encode(e)
    ensures |Encode(e)| == 40 + |e.payload|
  {
    assert (es + [e])[..|es|] == es;
  }

  lemma EncodeLogOfOne(e: Entry)
    ensures EncodeLog([e]) == Encode(e)
  {
    EncodeLogAppend([], e);
    assert [] + [e] == [e] && EncodeLog([]) + Encode(e) == Encode(e);
  }

  lemma NumberedAppend(es: seq<Entry>, e: Entry)
    requires Numbered(es)
    ensures e.sequence == Wrap(|es|) ==> Numbered(es + [e])
  {
    hide Wrap;
  }

  /** After any mix of successful, refused and flush-failing appends, the file begins with exactly the
      accepted messages. */
  lemma {:induction false} EverySequenceHolds(w: Writer, calls: seq<Call>)
    requires Holds(w, [])
    ensures Holds(AppendAll(w, calls), Accepted(w, calls))
    decreases |calls|
  {
    hide Holds, Appended, AppendStatus, EntryFor;
    if calls == [] {
    } else {
      var front, c := calls[..|calls| - 1], calls[|calls| - 1];
      EverySequenceHolds(w, front);
      AppendHolds(AppendAll(w, front), Accepted(w, front), c.message, c.clock, c.flush);
      assert Accepted(w, front) + [] == Accepted(w, front);
    }
  }

  lemma FreshHolds(size: nat, flush: bool)
    requires size >= 40
    ensures Holds(Create(false, size, flush, Ok).1, [])
  {
  }

  /** Whatever failed on the way, a replay first visits every accepted message, in order. */
  lemma ReplayStartsWithAccepted(w: Writer, calls: seq<Call>, visitor: Visitor)
    requires Holds(w, []) && Accepts(visitor, ViewsOf(Accepted(w, calls)))
    ensures ViewsOf(Accepted(w, calls)) <= Replay(AppendAll(w, calls).file, 0, visitor, []).visited
  {
    hide FindRecord, ViewsOf, AppendAll, Accepted, EncodeLog, Replay, Accepts;
    var w', es := AppendAll(w, calls), Accepted(w, calls);
    EverySequenceHolds(w, calls);
    assert w'.file == EncodeLog(es) + w'.file[w'.offset..];
    ReplayReachesEnd(es, w'.file[w'.offset..], visitor);
    ReplayIsBounded(w'.file, |EncodeLog(es)|, visitor, ViewsOf(es));
  }

}
