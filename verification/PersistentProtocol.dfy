/** `PersistentBroker` with its consumer running concurrently: the queue's interleaved protocol and
    the log, composed as `try_publish` composes them.

    A value is its object representation, `size` bytes, which is all that the broker ever copies.
    The bytes of a record are written one per step and in any order, as a copy may, so every state
    of the mapping that an interrupted process could leave is a state here. */
module PersistentProtocol {
  import opened Words
  import opened Record
  import opened WalReader
  import opened WalLog
  import opened WalWriter
  import opened RingCore
  import opened SpscProtocol

  /** Where the producer is inside `try_publish`. */
  datatype PublishPc =
    | BIdle
    | BHasRoom(value: Bytes, flags: U32)
    | BWriting(value: Bytes, flags: U32, clock: U64, todo: set<nat>, start: Writer)
    | BLogged(value: Bytes)
    | BPushing(value: Bytes)

  datatype Broker = Broker(
    size: nat,
    queue: Spsc<Bytes>,
    writer: Writer,
    pc: PublishPc,
    returned: StatusCode,
    // metrics
    published: nat,
    walRecords: nat,
    walBytes: nat,
    // history: the appended entries, and a record left behind by a failed flush
    log: seq<Entry>,
    dirty: seq<Entry>)

  datatype Action =
    | CheckFull(value: Bytes, flags: U32, t: nat)
    | BeginAppend(clock: U64)
    | WriteByte(k: nat)
    | FinishAppend(flush: StatusCode)
    | BeginPush
    | Push(push: SpscProtocol.Action<Bytes>)
    | Consume(step: ConsumerAction)

  /** `append_to_wal`'s message: no timestamp of its own. */
  function MessageFor(value: Bytes, flags: U32): Message
    requires |value| <= MAX_PAYLOAD
  {
    Message(0, |value|, flags, value)
  }

  /** The record being written. */
  function Writing(pc: PublishPc): Entry
    requires pc.BWriting? && |pc.value| <= MAX_PAYLOAD
  {
    EntryFor(pc.start, MessageFor(pc.value, pc.flags), pc.clock)
  }

  /** The positions of the bytes of a record that long. */
  function Below(n: nat): (r: set<nat>)
    ensures |r| == n && forall k :: k in r <==> 0 <= k < n
  {
    if n == 0 then {} else Below(n - 1) + {n - 1}
  }

  ghost function Opened(cap: nat, size: nat, fileSize: nat, flush: bool): Broker
    requires size <= MAX_PAYLOAD && fileSize >= 40 + size
  {
    Broker(size, Init(cap), Create(false, fileSize, flush, Ok).1, BIdle, Ok, 0, 0, 0, [], [])
  }

  ghost predicate CanStep(s: Broker, a: Action) {
    match a
    case CheckFull(v, _, t) =>
      s.pc.BIdle? && |v| == s.size <= MAX_PAYLOAD && SpscProtocol.CanStep(s.queue, SizeLoadTail(t))
    case BeginAppend(_) => s.pc.BHasRoom? && |s.pc.value| <= MAX_PAYLOAD
    case WriteByte(k) =>
      && s.pc.BWriting? && |s.pc.value| <= MAX_PAYLOAD
      && k in s.pc.todo && k < |Encode(Writing(s.pc))|
      && s.writer.offset + k < |s.writer.file|
    case FinishAppend(flush) =>
      && s.pc.BWriting? && |s.pc.value| <= MAX_PAYLOAD && s.pc.todo == {}
      && (flush == Ok || flush == IoError)  // all that flushing an open mapping answers
    case BeginPush => s.pc.BLogged? && SpscProtocol.CanStep(s.queue, PushBegin(s.pc.value))
    case Push(step) =>
      && s.pc.BPushing? && (step.PushLoadTail? || step.PushConstruct? || step.PushStore?)
      && SpscProtocol.CanStep(s.queue, step)
    case Consume(step) => SpscProtocol.CanStep(s.queue, Consumer(step))
  }

  ghost function Step(s: Broker, a: Action): Broker
    requires CanStep(s, a)
  {
    match a
    case CheckFull(v, flags, t) =>
      var q := SpscProtocol.Step(s.queue, SizeLoadTail(t));
      if q.size >= q.core.cap then s.(queue := q, returned := Full)
      else s.(queue := q, pc := BHasRoom(v, flags))
    case BeginAppend(clock) =>
      var m := MessageFor(s.pc.value, s.pc.flags);
      if !Admissible(s.writer, m) then s.(pc := BIdle, returned := AppendStatus(s.writer, m, Ok))
      else s.(pc := BWriting(s.pc.value, s.pc.flags, clock, Below(40 + |s.pc.value|), s.writer))
    case WriteByte(k) =>
      var at := s.writer.offset + k;
      s.(writer := s.writer.(file := s.writer.file[at := Encode(Writing(s.pc))[k]]),
         pc := s.pc.(todo := s.pc.todo - {k}))
    case FinishAppend(flush) =>
      var e, w := Writing(s.pc), s.writer;
      if w.flushOnAppend && flush != Ok then
        s.(pc := BIdle, returned := flush, dirty := [e])
      else
        var w' := Advanced(w, |Encode(e)|);
        s.(writer := w', pc := BLogged(s.pc.value), log := s.log + [e], dirty := [],
           walRecords := s.walRecords + 1, walBytes := s.walBytes + (w'.offset - w.offset))
    case BeginPush =>
      s.(queue := SpscProtocol.Step(s.queue, PushBegin(s.pc.value)), pc := BPushing(s.pc.value))
    case Push(step) =>
      var q := SpscProtocol.Step(s.queue, step);
      if !q.ppc.PIdle? then s.(queue := q)
      else if q.pushResult == Some(true) then
        s.(queue := q, pc := BIdle, returned := Ok, published := s.published + 1)
      else s.(queue := q, pc := BIdle, returned := Unknown)
    case Consume(step) => s.(queue := SpscProtocol.Step(s.queue, Consumer(step)))
  }

  ghost predicate Runs(s: Broker, acts: seq<Action>, s': Broker)
    decreases |acts|
  {
    if acts == [] then s' == s
    else CanStep(s, acts[0]) && Runs(Step(s, acts[0]), acts[1..], s')
  }

  // ---------------------------------------------------------------- invariant

  /** The values of a log, in order. */
  function Payloads(es: seq<Entry>): seq<Bytes> { seq(|es|, i requires 0 <= i < |es| => es[i].payload) }

  /** The value that is in the log but not yet in the queue. */
  function Unpublished(pc: PublishPc): seq<Bytes> {
    if pc.BLogged? || pc.BPushing? then [pc.value] else []
  }

  function RecordSize(s: Broker): nat { 40 + s.size }

  ghost predicate AllOfSize(es: seq<Entry>, size: nat) {
    forall i :: 0 <= i < |es| ==> |es[i].payload| == size
  }

  /** Behind the log lies at most one left-over record, carrying the next sequence number, and then
      nothing but zeros. */
  ghost predicate TailOk(w: Writer, dirty: seq<Entry>, size: nat)
    requires w.offset <= |w.file|
  {
    && |dirty| <= 1
    && AllOfSize(dirty, size)
    && (forall i :: 0 <= i < |dirty| ==> dirty[i].sequence == w.nextSequence)
    && |EncodeLog(dirty)| <= |w.file| - w.offset
    && w.file[w.offset..] == EncodeLog(dirty) + Zeros(|w.file| - w.offset - |EncodeLog(dirty)|)
  }

  ghost predicate QueueOk(s: Broker) {
    && SpscInv(s.queue)
    && Payloads(s.log) == s.queue.core.pushed + Unpublished(s.pc)
    && (s.pc.BPushing? <==> !s.queue.ppc.PIdle?)
    && (s.pc.BPushing? ==> s.queue.ppc.value == s.pc.value)
    // the room seen by `full` cannot disappear: only the producer fills the queue
    && (!s.pc.BIdle? ==> |s.queue.core.pushed| < s.queue.core.seenTail + s.queue.core.cap)
  }

  ghost predicate ValueOk(s: Broker) {
    s.size <= MAX_PAYLOAD && (!s.pc.BIdle? ==> |s.pc.value| == s.size)
  }

  /** The part of the writer's state that is settled: what it was before the record being written. */
  ghost function Settled(s: Broker): Writer {
    if s.pc.BWriting? then s.pc.start else s.writer
  }

  ghost predicate LogOk(s: Broker) {
    && Holds(Settled(s), s.log)
    && TailOk(Settled(s), s.dirty, s.size)
    && AllOfSize(s.log, s.size)
  }

  ghost predicate WritingOk(s: Broker)
    requires ValueOk(s)
  {
    s.pc.BWriting? ==>
      var e := Writing(s.pc);
      && Admissible(s.pc.start, MessageFor(s.pc.value, s.pc.flags))
      && s.pc.todo <= Below(|Encode(e)|)
      && s.writer == s.pc.start.(file := Partly(s.pc.start.file, s.pc.start.offset, Encode(e), s.pc.todo))
  }

  /** The file with x copied to `at`, except for the bytes still to do. */
  function Partly(file: Bytes, at: nat, x: Bytes, todo: set<nat>): (r: Bytes)
    requires at + |x| <= |file|
    ensures |r| == |file|
  {
    seq(|file|, i requires 0 <= i < |file| =>
      if at <= i < at + |x| && i - at !in todo then x[i - at] else file[i])
  }

  lemma NothingCopied(file: Bytes, at: nat, x: Bytes)
    requires at + |x| <= |file|
    ensures Partly(file, at, x, Below(|x|)) == file
  {
  }

  lemma OneMoreCopied(file: Bytes, at: nat, x: Bytes, todo: set<nat>, k: nat)
    requires at + |x| <= |file| && k in todo && k < |x|
    ensures Partly(file, at, x, todo)[at + k := x[k]] == Partly(file, at, x, todo - {k})
  {
  }

  /** In whatever order the bytes went, what they leave is the record. */
  lemma AllCopied(file: Bytes, at: nat, x: Bytes)
    requires at + |x| <= |file|
    ensures Partly(file, at, x, {}) == Splice(file, at, x)
  {
  }

  lemma FrontUntouched(file: Bytes, at: nat, x: Bytes, todo: set<nat>)
    requires at + |x| <= |file|
    ensures Partly(file, at, x, todo)[..at] == file[..at]
  {
  }

  ghost predicate MetricsOk(s: Broker) {
    && s.walRecords == |s.log|
    && s.walBytes == s.writer.offset == |s.log| * RecordSize(s)
    && s.published == |s.queue.core.pushed|
    && s.returned != Unknown
  }

  ghost predicate BInv(s: Broker) {
    ValueOk(s) && QueueOk(s) && LogOk(s) && WritingOk(s) && MetricsOk(s)
  }

  lemma OpenedInv(cap: nat, size: nat, fileSize: nat, flush: bool)
    requires IsCapacity(cap) && size <= MAX_PAYLOAD && fileSize >= 40 + size
    ensures BInv(Opened(cap, size, fileSize, flush))
  {
    EmptyInv<Bytes>(cap);
    FreshHolds(fileSize, flush);
    assert Zeros(fileSize)[0..] == [] + Zeros(fileSize);
  }

  // ---------------------------------------------------------------- preservation

  lemma CheckFullKeepsInv(s: Broker, a: Action)
    requires BInv(s) && a.CheckFull? && CanStep(s, a)
    ensures BInv(Step(s, a))
  {
    hide LogOk, WritingOk, Encode;
    SpscProtocol.StepKeepsInv(s.queue, SizeLoadTail(a.t));
    FullTest(s.queue.core, a.t);
    LogFrame(s, Step(s, a));
  }

  /** The log's invariant does not look at the queue. */
  lemma LogFrame(s: Broker, s': Broker)
    requires ValueOk(s) && ValueOk(s') && LogOk(s) && WritingOk(s) && !s.pc.BWriting? && !s'.pc.BWriting?
    requires s'.writer == s.writer && s'.log == s.log && s'.dirty == s.dirty
    requires s'.size == s.size
    ensures LogOk(s') && WritingOk(s')
  {
    hide Holds, TailOk;
  }

  lemma BeginAppendKeepsInv(s: Broker, a: Action)
    requires BInv(s) && a.BeginAppend? && CanStep(s, a)
    ensures BInv(Step(s, a))
  {
    hide Holds, TailOk, SpscInv, Encode, Partly, Below;
    var m := MessageFor(s.pc.value, s.pc.flags);
    if Admissible(s.writer, m) {
      NothingCopied(s.writer.file, s.writer.offset, Encode(Writing(Step(s, a).pc)));
    }
  }

  lemma WriteByteKeepsInv(s: Broker, k: nat)
    requires BInv(s) && CanStep(s, WriteByte(k))
    ensures BInv(Step(s, WriteByte(k)))
  {
    hide Holds, TailOk, SpscInv, Encode, Partly, Below;
    OneMoreCopied(s.pc.start.file, s.pc.start.offset, Encode(Writing(s.pc)), s.pc.todo, k);
  }

  lemma PayloadsAppend(es: seq<Entry>, e: Entry)
    ensures Payloads(es + [e]) == Payloads(es) + [e.payload]
  {
  }

  /** A finished record replaces whatever the tail began with. */
  lemma FinishTail(w: Writer, dirty: seq<Entry>, size: nat, e: Entry)
    requires w.offset <= |w.file| && TailOk(w, dirty, size)
    requires |e.payload| == size && w.offset + |Encode(e)| <= |w.file|
    ensures var f := Splice(w.file, w.offset, Encode(e));
            f[w.offset..] == Encode(e) + Zeros(|w.file| - w.offset - |Encode(e)|)
  {
    hide Encode, EncodeLog, Splice;
    var n, tail := |Encode(e)|, w.file[w.offset..];
    EncodeLogOne(dirty);
    SpliceTail(w.file, w.offset, Encode(e));
    EncodedSize(e);
    if dirty == [] {
      assert tail == Zeros(|tail|);
    } else {
      EncodedSize(dirty[0]);
    }
    assert tail[n..] == Zeros(|tail| - n);
  }

  lemma SpliceTail(s: Bytes, at: nat, x: Bytes)
    requires at + |x| <= |s|
    ensures Splice(s, at, x)[at..] == x + s[at..][|x|..]
  {
  }

  lemma EncodeLogOne(es: seq<Entry>)
    requires |es| <= 1
    ensures EncodeLog(es) == if es == [] then [] else Encode(es[0])
  {
    if es == [] {
    } else {
      EncodeLogOfOne(es[0]);
      assert es == [es[0]];
    }
  }

  /** What `FinishAppend` does is what `append` does. */
  lemma FinishIsAppend(s: Broker, flush: StatusCode)
    requires BInv(s) && CanStep(s, FinishAppend(flush))
    ensures var m := MessageFor(s.pc.value, s.pc.flags);
            Step(s, FinishAppend(flush)).writer == Appended(s.pc.start, m, s.pc.clock, flush)
  {
    hide Encode, Splice, Partly, Holds, TailOk, SpscInv;
    AllCopied(s.pc.start.file, s.pc.start.offset, Encode(Writing(s.pc)));
  }

  lemma FinishAppendKeepsLog(s: Broker, flush: StatusCode)
    requires BInv(s) && CanStep(s, FinishAppend(flush))
    ensures LogOk(Step(s, FinishAppend(flush)))
  {
    hide Encode, Splice, Partly, SpscInv, TailOk;
    var m := MessageFor(s.pc.value, s.pc.flags);
    AppendHolds(s.pc.start, s.log, m, s.pc.clock, flush);
    FinishIsAppend(s, flush);
    FinishAppendKeepsTail(s.pc.start, s.dirty, s.size, Writing(s.pc));
    EncodedSize(Writing(s.pc));
    AllCopied(s.pc.start.file, s.pc.start.offset, Encode(Writing(s.pc)));
  }

  lemma FinishAppendKeepsTail(w: Writer, dirty: seq<Entry>, size: nat, e: Entry)
    requires w.offset <= |w.file| && TailOk(w, dirty, size)
    requires |e.payload| == size && w.offset + |Encode(e)| <= |w.file| && e.sequence == w.nextSequence
    ensures var w' := w.(file := Splice(w.file, w.offset, Encode(e)));
            TailOk(w', [e], size) && TailOk(Advanced(w', |Encode(e)|), [], size)
  {
    hide Encode, Splice;
    FinishTail(w, dirty, size, e);
    EncodeLogOne([e]);
    var f, n := Splice(w.file, w.offset, Encode(e)), |w.file| - w.offset - |Encode(e)|;
    TailBehind(f, w.offset, Encode(e), n);
    assert [] + Zeros(n) == Zeros(n);
  }

  lemma TailBehind(f: Bytes, at: nat, x: Bytes, n: nat)
    requires at <= |f| && f[at..] == x + Zeros(n)
    ensures at + |x| <= |f| && f[at + |x|..] == Zeros(n)
  {
    assert f[at + |x|..] == f[at..][|x|..];
  }

  lemma FinishAppendKeepsInv(s: Broker, flush: StatusCode)
    requires BInv(s) && CanStep(s, FinishAppend(flush))
    ensures BInv(Step(s, FinishAppend(flush)))
  {
    hide Encode, EncodeLog, Splice, Partly, SpscInv, LogOk, MetricsOk;
    FinishAppendKeepsLog(s, flush);
    FinishAppendKeepsMetrics(s, flush);
    PayloadsAppend(s.log, Writing(s.pc));
    assert Payloads(s.log) == s.queue.core.pushed + [];
  }

  lemma FinishAppendKeepsMetrics(s: Broker, flush: StatusCode)
    requires BInv(s) && CanStep(s, FinishAppend(flush))
    ensures MetricsOk(Step(s, FinishAppend(flush)))
  {
    hide Encode, Partly, QueueOk, LogOk;
    EncodedSize(Writing(s.pc));
    MulNext(|s.log|, RecordSize(s));
  }

  lemma EncodedSize(e: Entry)
    ensures |Encode(e)| == 40 + |e.payload|
  {
  }

  lemma PushKeepsInv(s: Broker, a: Action)
    requires BInv(s) && CanStep(s, a) && (a.BeginPush? || a.Push?)
    ensures BInv(Step(s, a))
  {
    hide LogOk, WritingOk, Encode, Inv;
    var step := if a.BeginPush? then PushBegin(s.pc.value) else a.push;
    SpscProtocol.StepKeepsInv(s.queue, step);
    SpscProtocol.StepHistory(s.queue, step);
    if step.PushLoadTail? { FullTest(s.queue.core, step.t); }
    var s' := Step(s, a);
    assert s'.queue.core.pushed + [] == s'.queue.core.pushed;
    LogFrame(s, s');
  }

  lemma ConsumeKeepsInv(s: Broker, step: ConsumerAction)
    requires BInv(s) && CanStep(s, Consume(step))
    ensures BInv(Step(s, Consume(step)))
  {
    hide LogOk, Encode, Inv;
    SpscProtocol.StepKeepsInv(s.queue, Consumer(step));
    SpscProtocol.StepHistory(s.queue, Consumer(step));
    LogFrameQueue(s, SpscProtocol.Step(s.queue, Consumer(step)));
  }

  lemma LogFrameQueue(s: Broker, q: Spsc<Bytes>)
    requires ValueOk(s) && LogOk(s) && WritingOk(s)
    ensures LogOk(s.(queue := q)) && WritingOk(s.(queue := q))
  {
    hide Holds, TailOk;
  }

  lemma StepKeepsInv(s: Broker, a: Action)
    requires BInv(s) && CanStep(s, a)
    ensures BInv(Step(s, a))
  {
    hide BInv, CanStep, Step;
    match a
    case CheckFull(_, _, _) => CheckFullKeepsInv(s, a);
    case BeginAppend(_) => BeginAppendKeepsInv(s, a);
    case WriteByte(k) => WriteByteKeepsInv(s, k);
    case FinishAppend(flush) => FinishAppendKeepsInv(s, flush);
    case BeginPush => PushKeepsInv(s, a);
    case Push(_) => PushKeepsInv(s, a);
    case Consume(step) => ConsumeKeepsInv(s, step);
  }

  lemma {:induction false} RunKeepsInv(s: Broker, acts: seq<Action>, s': Broker)
    requires BInv(s) && Runs(s, acts, s')
    ensures BInv(s')
    decreases |acts|
  {
    hide BInv, CanStep, Step;
    if acts == [] {
    } else {
      StepKeepsInv(s, acts[0]);
      RunKeepsInv(Step(s, acts[0]), acts[1..], s');
    }
  }

  // ---------------------------------------------------------------- theorems over every run

  /** In every run of one producer and one concurrent consumer: the logged values are the consumed
      ones, then the queued ones, then at most one that is logged but not yet queued.  Nothing is
      visible before it is logged, and the push after the append never fails. */
  lemma LogQueueAndConsumerAgree(
      cap: nat, size: nat, fileSize: nat, flush: bool, acts: seq<Action>, s: Broker)
    requires IsCapacity(cap) && size <= MAX_PAYLOAD && fileSize >= 40 + size
    requires Runs(Opened(cap, size, fileSize, flush), acts, s)
    ensures BInv(s) && Inv(s.queue.core)
    ensures var c := s.queue.core;
            Payloads(s.log) == c.popped + InFlight(c) + Queue(c) + Unpublished(s.pc)
    ensures |Unpublished(s.pc)| <= 1 && s.returned != Unknown
  {
    hide CanStep, Step, Opened, LogOk, WritingOk, SpscInv;
    OpenedInv(cap, size, fileSize, flush);
    RunKeepsInv(Opened(cap, size, fileSize, flush), acts, s);
    QueueIsFifo(s);
  }

  lemma QueueIsFifo(s: Broker)
    requires BInv(s)
    ensures Inv(s.queue.core)
    ensures s.queue.core.pushed == s.queue.core.popped + InFlight(s.queue.core) + Queue(s.queue.core)
  {
    hide LogOk, WritingOk, Inv;
    Fifo(s.queue.core);
  }

  /** The file, between appends: the log, at most one left-over record, zeros. */
  lemma FileBetweenAppends(s: Broker)
    requires BInv(s) && !s.pc.BWriting?
    ensures exists n: nat :: s.writer.file == EncodeLog(s.log + s.dirty) + Zeros(n)
  {
    hide QueueOk, Encode;
    var w := s.writer;
    var n: nat := |w.file| - w.offset - |EncodeLog(s.dirty)|;
    assert w.file == w.file[..w.offset] + w.file[w.offset..];
    if s.dirty == [] {
      assert s.log + s.dirty == s.log && EncodeLog(s.dirty) == [];
      assert w.file == EncodeLog(s.log) + Zeros(n);
    } else {
      assert s.dirty == [s.dirty[0]];
      EncodeLogAppend(s.log, s.dirty[0]);
      EncodeLogOne(s.dirty);
      assert w.file == EncodeLog(s.log + s.dirty) + Zeros(n);
    }
  }

  /** The payloads a replay showed. */
  function Shown(views: seq<View>): seq<Bytes> {
    seq(|views|, i requires 0 <= i < |views| => views[i].payload)
  }

  lemma ShownByReplay(es: seq<Entry>)
    ensures Shown(ViewsOf(es)) == Payloads(es)
  {
    hide HeaderOf, EncodeLog;
    ViewsLength(es);
    forall i | 0 <= i < |es| ensures Shown(ViewsOf(es))[i] == Payloads(es)[i] { ViewAt(es, i); }
  }

  lemma PayloadsConcat(a: seq<Entry>, b: seq<Entry>)
    ensures Payloads(a + b) == Payloads(a) + Payloads(b)
  {
  }

  /** End to end: between appends, replaying the file with a visitor that accepts shows, with status
      ok, exactly the consumed values, the queued values, the one on its way into the queue, and at
      most one more, left by a failed flush and carrying the sequence number to be used next. */
  lemma ReplayShowsEverything(
      cap: nat, size: nat, fileSize: nat, flush: bool, acts: seq<Action>, s: Broker, visitor: Visitor)
    requires IsCapacity(cap) && size <= MAX_PAYLOAD && fileSize >= 40 + size
    requires Runs(Opened(cap, size, fileSize, flush), acts, s)
    requires !s.pc.BWriting? && Accepts(visitor, ViewsOf(s.log + s.dirty))
    ensures Inv(s.queue.core)
    ensures var c, r := s.queue.core, Replay(s.writer.file, 0, visitor, []);
            && r.status == Ok
            && Shown(r.visited)
               == c.popped + InFlight(c) + Queue(c) + Unpublished(s.pc) + Payloads(s.dirty)
    ensures Replay(s.writer.file, 0, visitor, []).visited == ViewsOf(s.log + s.dirty)
    ensures |s.dirty| <= 1 && Numbered(s.log) && s.writer.nextSequence == Wrap(|s.log|)
    ensures s.dirty != [] ==> s.dirty[0].sequence == s.writer.nextSequence
    ensures s.dirty != [] <==> flush && LastFlush(acts).Some? && LastFlush(acts) != Some(Ok)
  {
    hide CanStep, Step, Opened, Encode, FindRecord, Replay, ViewsOf, Accepts, EncodeLog, QueueOk, Shown, Payloads;
    LogQueueAndConsumerAgree(cap, size, fileSize, flush, acts, s);
    FileBetweenAppends(s);
    var n: nat :| s.writer.file == EncodeLog(s.log + s.dirty) + Zeros(n);
    LogRoundTrip(s.log + s.dirty, n, visitor);
    ShownByReplay(s.log + s.dirty);
    PayloadsConcat(s.log, s.dirty);
    OpenedClean(cap, size, fileSize, flush);
    LeftOverExactly(Opened(cap, size, fileSize, flush), acts, s);
  }

  lemma OpenedClean(cap: nat, size: nat, fileSize: nat, flush: bool)
    requires size <= MAX_PAYLOAD && fileSize >= 40 + size
    ensures var s := Opened(cap, size, fileSize, flush); s.dirty == [] && s.writer.flushOnAppend == flush
  {
  }

  /** What the flush of the last record written so far answered. */
  function LastFlush(acts: seq<Action>): Option<StatusCode> {
    if acts == [] then None
    else
      var later := LastFlush(acts[1..]);
      if later.None? && acts[0].FinishAppend? then Some(acts[0].flush) else later
  }

  /** A failed flush leaves a record behind the log, and the next append that completes removes it. */
  lemma {:induction false} LeftOverExactly(s: Broker, acts: seq<Action>, s': Broker)
    requires Runs(s, acts, s')
    ensures s'.writer.flushOnAppend == s.writer.flushOnAppend
    ensures s'.dirty != [] <==>
              match LastFlush(acts) {
                case None => s.dirty != []
                case Some(flush) => s.writer.flushOnAppend && flush != Ok
              }
    decreases |acts|
  {
    hide Encode;
    if acts == [] {
    } else {
      LeftOverExactly(Step(s, acts[0]), acts[1..], s');
    }
  }

  lemma {:induction false} RunsConcat(s: Broker, a: seq<Action>, s1: Broker, b: seq<Action>, s2: Broker)
    requires Runs(s, a, s1) && Runs(s1, b, s2)
    ensures Runs(s, a + b, s2)
    decreases |a|
  {
    hide CanStep, Step;
    if a == [] {
      assert a + b == b;
    } else {
      assert (a + b)[1..] == a[1..] + b;
      RunsConcat(Step(s, a[0]), a[1..], s1, b, s2);
    }
  }

  lemma OneStep(s: Broker, a: Action)
    requires CanStep(s, a)
    ensures Runs(s, [a], Step(s, a))
  {
    hide CanStep, Step;
    assert [a][1..] == [];
  }

  /** The rest of a record can always be written. */
  lemma {:induction false} WriteAll(s: Broker) returns (acts: seq<Action>, s': Broker)
    requires BInv(s) && s.pc.BWriting?
    ensures Runs(s, acts, s') && BInv(s') && s'.pc == s.pc.(todo := {})
    ensures s' == s.(pc := s'.pc, writer := s'.writer) && s'.writer == s.writer.(file := s'.writer.file)
    ensures LastFlush(acts).None?
    decreases |s.pc.todo|
  {
    hide BInv, CanStep, Runs;
    if s.pc.todo == {} {
      acts, s' := [], s;
      assert Runs(s, [], s) by { NoSteps(s); }
    } else {
      var k :| k in s.pc.todo;
      WritingNeverBlocks(s, Ok);
      StepKeepsInv(s, WriteByte(k));
      OneStep(s, WriteByte(k));
      var rest;
      rest, s' := WriteAll(Step(s, WriteByte(k)));
      acts := [WriteByte(k)] + rest;
      RunsConcat(s, [WriteByte(k)], Step(s, WriteByte(k)), rest, s');
    }
  }

  lemma NoSteps(s: Broker)
    ensures Runs(s, [], s)
  {
  }

  /** The left-over record is real: with flushing on, a first publish whose flush fails returns that
      failure, queues nothing, and yet a replay shows its value. */
  lemma FailedFlushIsReplayed(
      cap: nat, size: nat, fileSize: nat, value: Bytes, flags: U32, clock: U64, visitor: Visitor)
    returns (acts: seq<Action>, s: Broker)
    requires IsCapacity(cap) && |value| == size <= MAX_PAYLOAD && fileSize >= 40 + size
    requires Accepts(visitor, ViewsOf([Entry(0, clock, flags, value)]))
    ensures Runs(Opened(cap, size, fileSize, true), acts, s)
    ensures s.pc.BIdle? && s.returned == IoError && s.log == [] && s.queue.core.pushed == []
    ensures Shown(Replay(s.writer.file, 0, visitor, []).visited) == [value]
  {
    hide FindRecord, Replay, ViewsOf, Accepts, EncodeLog, Runs, Shown, Encode;
    acts, s := FailedPublish(cap, size, fileSize, value, flags, clock);
    assert s.log + s.dirty == [Entry(0, clock, flags, value)];
    ReplayShowsEverything(cap, size, fileSize, true, acts, s, visitor);
    var c := s.queue.core;
    assert c.popped + InFlight(c) + Queue(c) == [] by { QueueIsFifo(s); }
    assert Payloads(s.dirty) == [value];
  }

  /** The run behind it. */
  lemma FailedPublish(cap: nat, size: nat, fileSize: nat, value: Bytes, flags: U32, clock: U64)
    returns (acts: seq<Action>, s: Broker)
    requires IsCapacity(cap) && |value| == size <= MAX_PAYLOAD && fileSize >= 40 + size
    ensures Runs(Opened(cap, size, fileSize, true), acts, s) && BInv(s)
    ensures s.pc.BIdle? && s.returned == IoError && s.log == [] && s.queue.core.pushed == []
    ensures s.dirty == [Entry(0, clock, flags, value)]
  {
    hide BInv, Runs, Encode;
    var start := Opened(cap, size, fileSize, true);
    var begin, s1 := FirstWrite(cap, size, fileSize, value, flags, clock);
    var writes, s2 := WriteAll(s1);
    WritingNeverBlocks(s2, IoError);
    StepKeepsInv(s2, FinishAppend(IoError));
    OneStep(s2, FinishAppend(IoError));
    s := Step(s2, FinishAppend(IoError));
    RunsConcat(start, begin, s1, writes, s2);
    acts := begin + writes + [FinishAppend(IoError)];
    RunsConcat(start, begin + writes, s2, [FinishAppend(IoError)], s);
  }

  /** The first publish of a fresh broker gets as far as writing its record. */
  lemma FirstWrite(cap: nat, size: nat, fileSize: nat, value: Bytes, flags: U32, clock: U64)
    returns (acts: seq<Action>, s: Broker)
    requires IsCapacity(cap) && |value| == size <= MAX_PAYLOAD && fileSize >= 40 + size
    ensures Runs(Opened(cap, size, fileSize, true), acts, s) && BInv(s) && s.pc.BWriting?
    ensures Writing(s.pc) == Entry(0, clock, flags, value)
    ensures s.log == [] && s.queue.core.pushed == [] && s.writer.flushOnAppend
  {
    hide BInv, Runs, Encode;
    var start, a, b := Opened(cap, size, fileSize, true), CheckFull(value, flags, 0), BeginAppend(clock);
    OpenedInv(cap, size, fileSize, true);
    StepKeepsInv(start, a);
    OneStep(start, a);
    var s1 := Step(start, a);
    StepKeepsInv(s1, b);
    OneStep(s1, b);
    s := Step(s1, b);
    acts := [a] + [b];
    RunsConcat(start, [a], s1, [b], s);
  }

  /** Crash safety at the granularity of single bytes: in every state, also in the middle of writing a
      record, a replay first visits every record whose append has completed. */
  lemma CompletedAppendsSurvive(
      cap: nat, size: nat, fileSize: nat, flush: bool, acts: seq<Action>, s: Broker, visitor: Visitor)
    requires IsCapacity(cap) && size <= MAX_PAYLOAD && fileSize >= 40 + size
    requires Runs(Opened(cap, size, fileSize, flush), acts, s)
    requires Accepts(visitor, ViewsOf(s.log))
    ensures ViewsOf(s.log) <= Replay(s.writer.file, 0, visitor, []).visited
  {
    hide CanStep, Step, Opened, FindRecord, Replay, ViewsOf, Accepts, EncodeLog, BInv;
    LogQueueAndConsumerAgree(cap, size, fileSize, flush, acts, s);
    FileBeginsWithLog(s);
    var rest :| s.writer.file == EncodeLog(s.log) + rest;
    ReplayReachesEnd(s.log, rest, visitor);
    ReplayIsBounded(s.writer.file, |EncodeLog(s.log)|, visitor, ViewsOf(s.log));
  }

  lemma FileBeginsWithLog(s: Broker)
    requires BInv(s)
    ensures exists rest :: s.writer.file == EncodeLog(s.log) + rest
  {
    hide QueueOk, Encode, EncodeLog, Partly, MetricsOk;
    var w := Settled(s);
    if s.pc.BWriting? { FrontUntouched(w.file, w.offset, Encode(Writing(s.pc)), s.pc.todo); }
    assert s.writer.file == EncodeLog(s.log) + s.writer.file[w.offset..];
  }

  /** Accounting in every state between two publishes. */
  lemma LogAccounting(cap: nat, size: nat, fileSize: nat, flush: bool, acts: seq<Action>, s: Broker)
    requires IsCapacity(cap) && size <= MAX_PAYLOAD && fileSize >= 40 + size
    requires Runs(Opened(cap, size, fileSize, flush), acts, s) && s.pc.BIdle?
    ensures s.walBytes == s.writer.offset == s.writer.recordsWritten * (40 + s.size)
    ensures s.published == s.walRecords == s.writer.recordsWritten == |s.log|
    ensures s.writer.nextSequence == Wrap(s.published)
  {
    hide CanStep, Step, Opened, Encode, EncodeLog, SpscInv, TailOk;
    LogQueueAndConsumerAgree(cap, size, fileSize, flush, acts, s);
    assert s.queue.core.pushed + [] == s.queue.core.pushed;
    assert |Payloads(s.log)| == |s.log|;
  }

  /** A publish returns full exactly when `cap` values lay between the head and the store of `tail_` that
      its test read, and otherwise goes on to the log. */
  lemma CheckOutcome(s: Broker, v: Bytes, flags: U32, t: nat)
    requires BInv(s) && CanStep(s, CheckFull(v, flags, t))
    ensures var s' := Step(s, CheckFull(v, flags, t));
            && (s'.pc.BIdle? && s'.returned == Full <==> |s.queue.core.pushed| - t == s.queue.core.cap)
            && (s'.pc == BHasRoom(v, flags) <==> |s.queue.core.pushed| - t < s.queue.core.cap)
  {
    hide LogOk, WritingOk, MetricsOk, SlotOk, StampOk, ClocksOk;
    SizeIsBounded(s.queue, t, s.queue.core.seenHead);
  }

  /** A publish that found room in the queue is refused for lack of space exactly when the file holds
      as many records as fit. */
  lemma OutOfSpaceExactly(s: Broker, flush: StatusCode)
    requires BInv(s) && s.pc.BHasRoom? && flush != OutOfSpace
    ensures var m := MessageFor(s.pc.value, s.pc.flags);
            AppendStatus(s.writer, m, flush) == OutOfSpace
            <==> s.writer.recordsWritten == |s.writer.file| / (40 + s.size)
  {
    hide Encode, EncodeLog, SpscInv, TailOk;
    var n, r, f := |s.log|, 40 + s.size, |s.writer.file|;
    assert s.writer.offset == n * r <= f;
    FitsExactly(n, r, f);
  }

  lemma FitsExactly(n: nat, r: nat, f: nat)
    requires r > 0 && n * r <= f
    ensures r > f - n * r <==> n == f / r
  {
    assert n * r == r * n;
    if r > f - n * r {
      ModUnique(f, r, n, f - r * n);
    } else {
      assert f == r * (f / r) + f % r;
    }
  }

  // ---------------------------------------------------------------- progress

  /** The step `try_publish` takes next. */
  ghost function PublishNext(s: Broker, value: Bytes, flags: U32, t: nat, clock: U64, flush: StatusCode): Action
    requires BInv(s)
  {
    match s.pc
    case BIdle => CheckFull(value, flags, t)
    case BHasRoom(_, _) => BeginAppend(clock)
    case BWriting(_, _, _, todo, _) =>
      if todo == {} then FinishAppend(flush) else var k :| k in todo; WriteByte(k)
    case BLogged(_) => BeginPush
    case BPushing(_) => Push(ProducerNext(s.queue.ppc, value, t))
  }

  /** An upper bound on the steps left in the publish the producer is in. */
  ghost function PublishRank(s: Broker): nat {
    match s.pc
    case BIdle => 0
    case BHasRoom(_, _) => 46 + s.size
    case BWriting(_, _, _, todo, _) => 5 + |todo|
    case BLogged(_) => 4
    case BPushing(_) => ProducerRank(s.queue.ppc)
  }

  /** A publish never waits for the consumer: its next step is always possible, also the write of each
      byte inside the file, and brings it closer to its end. */
  lemma PublishNeverBlocks(s: Broker, value: Bytes, flags: U32, t: nat, clock: U64, flush: StatusCode)
    requires BInv(s) && |value| == s.size && (flush == Ok || flush == IoError)
    requires s.queue.core.seenTail <= t <= |s.queue.core.popped|
    ensures var a := PublishNext(s, value, flags, t, clock, flush);
            CanStep(s, a) && (!s.pc.BIdle? ==> PublishRank(Step(s, a)) < PublishRank(s))
  {
    hide BInv, CanStep, Step, PublishRank;
    match s.pc
    case BIdle => CheckNeverBlocks(s, value, flags, t);
    case BWriting(_, _, _, _, _) => WritingProgress(s, PublishNext(s, value, flags, t, clock, flush));
    case BPushing(_) => PushingNeverBlocks(s, value, t);
    case _ => BetweenNeverBlocks(s, PublishNext(s, value, flags, t, clock, flush));
  }

  lemma CheckNeverBlocks(s: Broker, value: Bytes, flags: U32, t: nat)
    requires BInv(s) && s.pc.BIdle? && |value| == s.size
    requires s.queue.core.seenTail <= t <= |s.queue.core.popped|
    ensures CanStep(s, CheckFull(value, flags, t))
  {
    hide LogOk, WritingOk, MetricsOk, ClocksOk, ConsumerOk, LifetimesOk, SlotOk, StampOk;
  }

  lemma BetweenNeverBlocks(s: Broker, a: Action)
    requires BInv(s) && ((s.pc.BHasRoom? && a.BeginAppend?) || (s.pc.BLogged? && a.BeginPush?))
    ensures CanStep(s, a) && PublishRank(Step(s, a)) < PublishRank(s)
  {
    hide LogOk, WritingOk, MetricsOk, Inv;
  }

  lemma WritingProgress(s: Broker, a: Action)
    requires BInv(s) && s.pc.BWriting?
    requires if s.pc.todo == {} then a.FinishAppend? && (a.flush == Ok || a.flush == IoError)
             else a.WriteByte? && a.k in s.pc.todo
    ensures CanStep(s, a) && PublishRank(Step(s, a)) < PublishRank(s)
  {
    hide BInv, Encode, Partly;
    WritingNeverBlocks(s, if a.FinishAppend? then a.flush else Ok);
  }

  lemma PushingNeverBlocks(s: Broker, value: Bytes, t: nat)
    requires BInv(s) && s.pc.BPushing?
    requires s.queue.core.seenTail <= t <= |s.queue.core.popped|
    ensures var a := Push(ProducerNext(s.queue.ppc, value, t));
            CanStep(s, a) && PublishRank(Step(s, a)) < PublishRank(s)
  {
    hide LogOk, MetricsOk, WritingOk, ClocksOk, ConsumerOk, LifetimesOk, SlotOk, StampOk;
    NeitherThreadBlocks(s.queue, value, t, s.queue.core.seenHead);
  }

  lemma WritingNeverBlocks(s: Broker, flush: StatusCode)
    requires BInv(s) && s.pc.BWriting? && (flush == Ok || flush == IoError)
    ensures s.pc.todo == {} ==> CanStep(s, FinishAppend(flush))
    ensures forall k :: k in s.pc.todo ==> CanStep(s, WriteByte(k))
  {
    hide Encode, Partly, QueueOk, Holds, TailOk, MetricsOk;
  }

}
