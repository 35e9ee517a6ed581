/** The persistent broker class and the concurrent protocol: an uninterrupted call is a run, so what
    holds of every run holds of the class. */
module PersistentAlone {
  import opened Words
  import opened Record
  import opened WalReader
  import opened WalLog
  import opened RingCore
  import opened RingAlone
  import opened P = PersistentProtocol
  import W = WalWriter
  import Q = SpscProtocol
  import Brokers
  import B = PersistentBroker
  import A = BrokerAnswers

  // ---------------------------------------------------------------- the phases of try_publish

  /** The queue as its two threads see it is unchanged. */
  ghost predicate SameQueue(s: Broker, s': Broker) {
    SameMemory(s.queue.core, s'.queue.core) && s'.queue.core.cpc == s.queue.core.cpc
  }

  ghost predicate SameMetrics(s: Broker, s': Broker) {
    s'.published == s.published && s'.walRecords == s.walRecords && s'.walBytes == s.walBytes
  }

  /** The test of `full`, reading the newest store of `tail_`. */
  lemma CheckAlone(s: Broker, v: Bytes, flags: U32) returns (s': Broker)
    requires BInv(s) && s.pc.BIdle? && |v| == s.size
    ensures Runs(s, [CheckFull(v, flags, |s.queue.core.popped|)], s') && BInv(s')
    ensures SameQueue(s, s') && SameMetrics(s, s') && s'.size == s.size
    ensures s'.writer == s.writer && s'.log == s.log && s'.dirty == s.dirty
    ensures |s.queue.core.popped| <= |s.queue.core.pushed|
    ensures if |Pending(s.queue.core)| >= s.queue.core.cap then s'.pc.BIdle? && s'.returned == Full
            else s'.pc == BHasRoom(v, flags)
  {
    hide LogOk, WritingOk, MetricsOk, Runs, ClocksOk, SlotOk, StampOk, LifetimesOk, Wrap;
    var t := |s.queue.core.popped|;
    var a := CheckFull(v, flags, t);
    FullTest(s.queue.core, t);
    P.StepKeepsInv(s, a);
    P.OneStep(s, a);
    s' := P.Step(s, a);
  }

  /** The append, the bytes of the record copied in some order. */
  lemma AppendAlone(s: Broker, clock: U64, flush: StatusCode) returns (acts: seq<Action>, s': Broker)
    requires BInv(s) && s.pc.BHasRoom? && (flush == Ok || flush == IoError)
    ensures s.size <= MAX_PAYLOAD && |s.pc.value| == s.size
    ensures Runs(s, acts, s') && BInv(s')
    ensures s'.queue == s.queue && s'.size == s.size && s'.published == s.published
    ensures var m := MessageFor(s.pc.value, s.pc.flags);
            var status := W.AppendStatus(s.writer, m, flush);
            var e := Entry(Wrap(|s.log|), clock, s.pc.flags, s.pc.value);
            && s'.log == (if status == Ok then s.log + [e] else s.log)
            && s'.dirty == (if status == Ok then [] else if status == IoError then [e] else s.dirty)
            && s'.writer == W.Appended(s.writer, m, clock, flush)
            && if status == Ok then
                 && s'.pc == BLogged(s.pc.value) && s'.walRecords == s.walRecords + 1
                 && s'.walBytes == s.walBytes + (s'.writer.offset - s.writer.offset)
               else s'.pc.BIdle? && s'.returned == status && SameMetrics(s, s')
  {
    hide LogOk, QueueOk, MetricsOk, Runs, Encode, Partly, Below, Splice, Wrap;
    NextNumber(s);
    var m, a := MessageFor(s.pc.value, s.pc.flags), BeginAppend(clock);
    P.StepKeepsInv(s, a);
    P.OneStep(s, a);
    var s1 := P.Step(s, a);
    if !W.Admissible(s.writer, m) {
      acts, s' := [a], s1;
    } else {
      var writes, s2 := WriteAll(s1);
      WritingNeverBlocks(s2, flush);
      var f := FinishAppend(flush);
      P.StepKeepsInv(s2, f);
      P.OneStep(s2, f);
      FinishIsAppend(s2, flush);
      s' := P.Step(s2, f);
      P.RunsConcat(s, [a], s1, writes, s2);
      P.RunsConcat(s, [a] + writes, s2, [f], s');
      acts := [a] + writes + [f];
    }
  }

  lemma NextNumber(s: Broker)
    requires BInv(s) && !s.pc.BWriting?
    ensures s.writer.nextSequence == Wrap(|s.log|)
  {
    hide QueueOk, MetricsOk, WritingOk, EncodeLog, TailOk, Wrap;
  }

  /** The push, which succeeds. */
  lemma PushAlone(s: Broker) returns (acts: seq<Action>, s': Broker)
    requires BInv(s) && s.pc.BLogged?
    ensures Runs(s, acts, s') && BInv(s') && s'.pc.BIdle? && s'.returned == Ok
    ensures s'.writer == s.writer && s'.log == s.log && s'.dirty == s.dirty && s'.size == s.size
    ensures s'.walRecords == s.walRecords && s'.walBytes == s.walBytes && s'.published == s.published + 1
    ensures var c, c' := s.queue.core, s'.queue.core;
            c'.pushed == c.pushed + [s.pc.value] && c'.popped == c.popped && c'.cap == c.cap && c'.cpc == c.cpc
  {
    hide LogOk, WritingOk, MetricsOk, Runs, Inv;
    var s2 := PushClaims(s);
    var s4 := PushPublishes(s2);
    acts := [BeginPush, Push(Q.PushLoadTail(|s.queue.core.popped|))] + [Push(Q.PushConstruct), Push(Q.PushStore)];
    s' := s4;
    P.RunsConcat(s, [BeginPush, Push(Q.PushLoadTail(|s.queue.core.popped|))], s2,
                 [Push(Q.PushConstruct), Push(Q.PushStore)], s');
  }

  lemma TwoSteps(s: Broker, a: Action, b: Action)
    requires P.CanStep(s, a) && P.CanStep(P.Step(s, a), b)
    ensures Runs(s, [a, b], P.Step(P.Step(s, a), b))
  {
    hide P.CanStep, P.Step;
    P.OneStep(s, a);
    P.OneStep(P.Step(s, a), b);
    P.RunsConcat(s, [a], P.Step(s, a), [b], P.Step(P.Step(s, a), b));
    assert [a] + [b] == [a, b];
  }

  lemma PushClaims(s: Broker) returns (s': Broker)
    requires BInv(s) && s.pc.BLogged?
    ensures Runs(s, [BeginPush, Push(Q.PushLoadTail(|s.queue.core.popped|))], s') && BInv(s')
    ensures s'.queue.ppc.PClaimed? && s'.pc == BPushing(s.pc.value) && SameQueue(s, s')
    ensures s' == s.(queue := s'.queue, pc := s'.pc)
  {
    hide LogOk, WritingOk, MetricsOk, Runs, ClocksOk, SlotOk, StampOk, LifetimesOk, Wrap;
    var b := Push(Q.PushLoadTail(|s.queue.core.popped|));
    P.StepKeepsInv(s, BeginPush);
    var s1 := P.Step(s, BeginPush);
    FullTest(s.queue.core, |s.queue.core.popped|);
    P.StepKeepsInv(s1, b);
    TwoSteps(s, BeginPush, b);
    s' := P.Step(s1, b);
  }

  lemma PushPublishes(s: Broker) returns (s': Broker)
    requires BInv(s) && s.pc.BPushing? && s.queue.ppc.PClaimed?
    ensures Runs(s, [Push(Q.PushConstruct), Push(Q.PushStore)], s') && BInv(s')
    ensures s'.pc.BIdle? && s'.returned == Ok && s'.published == s.published + 1
    ensures s' == s.(queue := s'.queue, pc := s'.pc, returned := Ok, published := s'.published)
    ensures var c, c' := s.queue.core, s'.queue.core;
            c'.pushed == c.pushed + [s.pc.value] && c'.popped == c.popped && c'.cap == c.cap && c'.cpc == c.cpc
  {
    hide LogOk, WritingOk, MetricsOk, Runs, ClocksOk, SlotOk, StampOk, LifetimesOk, Wrap, And;
    var a, b := Push(Q.PushConstruct), Push(Q.PushStore);
    P.StepKeepsInv(s, a);
    var s1 := P.Step(s, a);
    P.StepKeepsInv(s1, b);
    TwoSteps(s, a, b);
    s' := P.Step(s1, b);
  }

  // ---------------------------------------------------------------- try_consume

  ghost function ByConsumer(steps: seq<ConsumerAction>): seq<Action> {
    seq(|steps|, i requires 0 <= i < |steps| => P.Consume(steps[i]))
  }

  lemma {:induction false} LiftConsumer(s: Broker, steps: seq<ConsumerAction>, c: Core<Bytes>)
    requires ConsumerRuns(s.queue.core, steps, c)
    ensures Runs(s, ByConsumer(steps), s.(queue := s.queue.(core := c)))
    decreases |steps|
  {
    hide RingCore.Consume, CanConsume;
    if steps == [] {
    } else {
      assert ByConsumer(steps)[1..] == ByConsumer(steps[1..]);
      LiftConsumer(P.Step(s, P.Consume(steps[0])), steps[1..], c);
    }
  }

  // ---------------------------------------------------------------- class and protocol

  /** The protocol's state, between two calls, is the one the class shows. */
  ghost predicate Matches(p: B.Persistent, s: Broker) {
    && BInv(s) && s.pc.BIdle? && s.queue.core.cpc.CIdle?
    && p.size == s.size && p.writer == s.writer && p.writer.open
    && p.queue.status == Ok && p.queue.cap == s.queue.core.cap && IsCapacity(p.queue.cap)
    && |s.queue.core.popped| <= |s.queue.core.pushed| && p.queue.contents == Pending(s.queue.core)
    && p.counters.published == s.published
    && p.counters.walRecordsWritten == s.walRecords && p.counters.walBytesWritten == s.walBytes
  }

  /** The value that a call puts into the queue, and the one it takes out. */
  function Entering(p: B.Persistent, c: B.Call): seq<Bytes> { if A.KindOf(p, c).Publishes? then [c.value] else [] }

  function Leaving(p: B.Persistent, c: B.Call): seq<Bytes> {
    if A.KindOf(p, c).Consumes? then [p.queue.contents[0]] else []
  }

  /** The record that a publish writes: numbered by the publishes before it. */
  function RecordOf(p: B.Persistent, c: B.Call): Entry
    requires B.CanCall(p, c) && c.CallPublish? && p.writer.open
  {
    Entry(Wrap(p.counters.published), c.clock, c.flags, c.value)
  }

  function Logging(p: B.Persistent, c: B.Call): seq<Entry>
    requires B.CanCall(p, c)
  {
    if A.KindOf(p, c).Publishes? then [RecordOf(p, c)] else []
  }

  /** The left-over record: a publish leaves its own if its flush fails, and none if it succeeds. */
  function LeftBy(p: B.Persistent, c: B.Call, before: seq<Entry>): seq<Entry>
    requires B.CanCall(p, c)
  {
    var k := A.KindOf(p, c);
    if k.Publishes? then [] else if k.FlushFails? then [RecordOf(p, c)] else before
  }

  /** All that flushing an open mapping answers. */
  ghost predicate Answers(c: B.Call) { c.CallPublish? ==> c.flush == Ok || c.flush == IoError }

  /** What one call does, said in the protocol's terms. */
  ghost predicate Performs(p: B.Persistent, s: Broker, c: B.Call, acts: seq<Action>, s': Broker)
    requires B.CanCall(p, c)
  {
    && Runs(s, acts, s') && Matches(B.After(p, c), s')
    && s'.queue.core.pushed == s.queue.core.pushed + Entering(p, c)
    && s'.queue.core.popped == s.queue.core.popped + Leaving(p, c)
    && s'.log == s.log + Logging(p, c)
    && s'.dirty == LeftBy(p, c, s.dirty)
  }

  /** A refused call is the empty run. */
  lemma RefusedCall(p: B.Persistent, s: Broker, c: B.Call) returns (acts: seq<Action>, s': Broker)
    requires B.CanCall(p, c) && Matches(p, s) && (c.CallOpen? || !B.IsOpen(p))
    ensures Performs(p, s, c, acts, s')
  {
    hide BInv;
    acts, s' := [], s;
    var h := s.queue.core;
    assert h.pushed + [] == h.pushed && h.popped + [] == h.popped && s.log + [] == s.log;
    if c.CallOpen? { A.OpenExactly(p, c.config, c.mapping); }
  }

  /** The log holds one record for each publish, and the offset is inside the file. */
  lemma MatchesRegular(p: B.Persistent, s: Broker)
    requires Matches(p, s)
    ensures A.Regular(p) && |s.log| == p.counters.published && p.writer.offset <= |p.writer.file|
  {
    hide WritingOk, TailOk, EncodeLog, W.Numbered, SlotOk, StampOk, ClocksOk;
    PendingFits(s.queue.core);
    FullTest(s.queue.core, s.queue.core.seenTail);
    assert s.queue.core.pushed + [] == s.queue.core.pushed;
    assert |Payloads(s.log)| == |s.log|;
  }

  lemma PublishIsARun(p: B.Persistent, s: Broker, c: B.Call) returns (acts: seq<Action>, s': Broker)
    requires B.CanCall(p, c) && Matches(p, s) && c.CallPublish? && B.IsOpen(p) && Answers(c)
    ensures Performs(p, s, c, acts, s')
    ensures s'.returned == B.PublishLogged(p, c.value, c.flags, c.clock, c.flush).status
  {
    hide BInv, Runs, IsCapacity, W.Appended, W.AppendStatus, Wrap;
    MatchesRegular(p, s);
    A.CallExactly(p, c);
    W.AppendExactly(p.writer, MessageFor(c.value, c.flags), c.clock, c.flush);
    var h := s.queue.core;
    assert h.pushed + [] == h.pushed && h.popped + [] == h.popped && s.log + [] == s.log;
    var check := [CheckFull(c.value, c.flags, |h.popped|)];
    var s1 := CheckAlone(s, c.value, c.flags);
    if s1.pc.BIdle? {
      acts, s' := check, s1;
    } else {
      var append, s2 := AppendAlone(s1, c.clock, c.flush);
      P.RunsConcat(s, check, s1, append, s2);
      StatusIsKnown(p.writer, MessageFor(c.value, c.flags), c.flush);
      AdvanceIsCounted(p.writer, MessageFor(c.value, c.flags), c.clock, c.flush);
      if s2.pc.BIdle? {
        acts, s' := check + append, s2;
      } else {
        var push, s3 := PushAlone(s2);
        P.RunsConcat(s, check + append, s2, push, s3);
        acts, s' := check + append + push, s3;
        assert (h.pushed + [c.value])[|h.popped|..] == h.pushed[|h.popped|..] + [c.value];
      }
    }
  }

  lemma StatusIsKnown(w: W.Writer, m: W.Message, flush: StatusCode)
    ensures W.AppendStatus(w, m, flush) == IoError ==> flush == IoError
  {
  }

  lemma AdvanceIsCounted(w: W.Writer, m: W.Message, clock: U64, flush: StatusCode)
    ensures W.Appended(w, m, clock, flush).open == w.open
    ensures W.Appended(w, m, clock, flush).offset >= w.offset
  {
  }

  lemma ConsumeIsARun(p: B.Persistent, s: Broker, c: B.Call) returns (acts: seq<Action>, s': Broker)
    requires B.CanCall(p, c) && Matches(p, s) && c.CallConsume? && B.IsOpen(p)
    ensures Performs(p, s, c, acts, s')
    ensures B.ConsumeLogged(p).status == if |s'.queue.core.popped| == |s.queue.core.popped| then Empty else Ok
    ensures B.ConsumeLogged(p).out
            == if Leaving(p, c) == [] then None else Some(s'.queue.core.popped[|s.queue.core.popped|])
  {
    hide BInv, Runs, ConsumerRuns, Inv, IsCapacity;
    MatchesRegular(p, s);
    A.CallExactly(p, c);
    assert s.log + [] == s.log;
    var h := s.queue.core;
    QueueIsFifo(s);
    var ok, after := PopAlone(h);
    LiftConsumer(s, PopSteps(h, ok), after);
    acts, s' := ByConsumer(PopSteps(h, ok)), s.(queue := s.queue.(core := after));
    P.RunKeepsInv(s, acts, s');
    PrefixGrows(s);
    PrefixGrows(s');
    assert h.pushed + [] == h.pushed && h.popped + [] == h.popped;
    if ok { OneMoreTaken(h.pushed, h.popped, after.popped); }
  }

  lemma PrefixGrows(s: Broker)
    requires BInv(s)
    ensures |s.queue.core.popped| <= |s.queue.core.pushed|
    ensures s.queue.core.popped == s.queue.core.pushed[..|s.queue.core.popped|]
  {
    hide LogOk, WritingOk, MetricsOk, ClocksOk, SlotOk, StampOk;
  }

  lemma OneMoreTaken(pushed: seq<Bytes>, popped: seq<Bytes>, popped': seq<Bytes>)
    requires |popped| < |pushed| && popped == pushed[..|popped|]
    requires |popped'| <= |pushed| && popped' == pushed[..|popped'|]
    requires pushed[|popped'|..] == pushed[|popped|..][1..]
    ensures popped' == popped + [pushed[|popped|..][0]]
  {
    assert |pushed[|popped'|..]| == |pushed| - |popped'|;
  }

  lemma CallIsARun(p: B.Persistent, s: Broker, c: B.Call) returns (acts: seq<Action>, s': Broker)
    requires B.CanCall(p, c) && Matches(p, s) && Answers(c)
    ensures Performs(p, s, c, acts, s')
  {
    hide Matches, Performs, B.CanCall;
    if c.CallOpen? || !B.IsOpen(p) {
      acts, s' := RefusedCall(p, s, c);
    } else if c.CallPublish? {
      acts, s' := PublishIsARun(p, s, c);
    } else {
      acts, s' := ConsumeIsARun(p, s, c);
    }
  }

  // ---------------------------------------------------------------- any sequence of calls

  function EnteringAll(p: B.Persistent, calls: seq<B.Call>): seq<Bytes>
    decreases |calls|
  {
    if calls == [] || !B.CanCall(p, calls[0]) then []
    else Entering(p, calls[0]) + EnteringAll(B.After(p, calls[0]), calls[1..])
  }

  function LeavingAll(p: B.Persistent, calls: seq<B.Call>): seq<Bytes>
    decreases |calls|
  {
    if calls == [] || !B.CanCall(p, calls[0]) then []
    else Leaving(p, calls[0]) + LeavingAll(B.After(p, calls[0]), calls[1..])
  }

  function LoggingAll(p: B.Persistent, calls: seq<B.Call>): seq<Entry>
    decreases |calls|
  {
    if calls == [] || !B.CanCall(p, calls[0]) then []
    else Logging(p, calls[0]) + LoggingAll(B.After(p, calls[0]), calls[1..])
  }

  function LeftByAll(p: B.Persistent, calls: seq<B.Call>, before: seq<Entry>): seq<Entry>
    decreases |calls|
  {
    if calls == [] || !B.CanCall(p, calls[0]) then before
    else LeftByAll(B.After(p, calls[0]), calls[1..], LeftBy(p, calls[0], before))
  }

  /** The log holds what entered the queue, and as many values entered and left as calls succeeded. */
  lemma {:induction false} CallsAdded(p: B.Persistent, calls: seq<B.Call>)
    ensures Payloads(LoggingAll(p, calls)) == EnteringAll(p, calls)
    ensures |EnteringAll(p, calls)| == A.Times(A.Publishes, p, calls)
    ensures |LeavingAll(p, calls)| == A.Times(A.Consumes, p, calls)
    decreases |calls|
  {
    hide B.CanCall, B.After, A.KindOf;
    if calls == [] || !B.CanCall(p, calls[0]) {
    } else {
      var c, p1 := calls[0], B.After(p, calls[0]);
      CallsAdded(p1, calls[1..]);
      PayloadsConcat(Logging(p, c), LoggingAll(p1, calls[1..]));
    }
  }

  ghost predicate AllAnswer(calls: seq<B.Call>) { forall i :: 0 <= i < |calls| ==> Answers(calls[i]) }

  /** What a sequence of calls does, said in the protocol's terms. */
  ghost predicate PerformsAll(p: B.Persistent, s: Broker, calls: seq<B.Call>, p': B.Persistent, s': Broker) {
    && Matches(p', s')
    && s'.queue.core.pushed == s.queue.core.pushed + EnteringAll(p, calls)
    && s'.queue.core.popped == s.queue.core.popped + LeavingAll(p, calls)
    && s'.log == s.log + LoggingAll(p, calls)
    && s'.dirty == LeftByAll(p, calls, s.dirty)
    && |p'.writer.file| == |p.writer.file| && p'.writer.flushOnAppend == p.writer.flushOnAppend
  }

  lemma OpenStaysOpen(p: B.Persistent, c: B.Call)
    requires B.CanCall(p, c) && p.writer.open
    ensures var w := B.After(p, c).writer;
            w.open && |w.file| == |p.writer.file| && w.flushOnAppend == p.writer.flushOnAppend
  {
    hide Encode, Splice;
  }

  /** On an open broker any sequence of calls is a run. */
  lemma {:induction false} OpenCallsAreARun(p: B.Persistent, s: Broker, calls: seq<B.Call>, p': B.Persistent)
    returns (acts: seq<Action>, s': Broker)
    requires Matches(p, s) && B.Calls(p, calls, p') && AllAnswer(calls)
    ensures Runs(s, acts, s') && PerformsAll(p, s, calls, p', s')
    decreases |calls|
  {
    hide Matches, B.CanCall, B.After, Entering, Leaving, Logging, LeftBy, Runs;
    if calls == [] {
      acts, s' := [], s;
      NoSteps(s);
      assert s.queue.core.pushed + [] == s.queue.core.pushed && s.queue.core.popped + [] == s.queue.core.popped;
      assert s.log + [] == s.log;
    } else {
      var c, rest := calls[0], calls[1..];
      assert Answers(c) && p.writer.open by { assert Matches(p, s); MatchesOpen(p, s); }
      var first, s1 := CallIsARun(p, s, c);
      OpenStaysOpen(p, c);
      var more;
      more, s' := OpenCallsAreARun(B.After(p, c), s1, rest, p');
      P.RunsConcat(s, first, s1, more, s');
      acts := first + more;
      assert s.queue.core.pushed + Entering(p, c) + EnteringAll(B.After(p, c), rest)
          == s.queue.core.pushed + EnteringAll(p, calls);
      assert s.queue.core.popped + Leaving(p, c) + LeavingAll(B.After(p, c), rest)
          == s.queue.core.popped + LeavingAll(p, calls);
      assert s.log + Logging(p, c) + LoggingAll(B.After(p, c), rest) == s.log + LoggingAll(p, calls);
    }
  }

  lemma MatchesOpen(p: B.Persistent, s: Broker)
    requires Matches(p, s)
    ensures p.writer.open
  {
    hide BInv;
  }

  /** A broker that has never been opened. */
  ghost predicate Unopened(p: B.Persistent) {
    && p.openStatus != Ok && p.writer == W.CLOSED
    && IsCapacity(p.queue.cap) && p.queue.status == Ok && p.queue.contents == []
    && p.counters.published == p.counters.walRecordsWritten == p.counters.walBytesWritten == 0
  }

  /** Call number k opens a broker of this size and capacity that is not open. */
  ghost predicate OpensAt(size: nat, cap: nat, calls: seq<B.Call>, k: nat) {
    k < |calls| && calls[k].CallOpen? && A.Acceptable(size, cap, calls[k].config) && calls[k].mapping == Ok
  }

  /** A call on it either opens it, in the protocol's initial state for the configuration, or leaves it so. */
  lemma CallOnUnopened(p: B.Persistent, c: B.Call)
    requires Unopened(p) && B.CanCall(p, c)
    ensures var p' := B.After(p, c);
            && Entering(p, c) == [] && Leaving(p, c) == [] && Logging(p, c) == [] && LeftBy(p, c, []) == []
            && p'.size == p.size && p'.queue.cap == p.queue.cap
            && if OpensAt(p.size, p.queue.cap, [c], 0) then
                 && p'.writer.flushOnAppend == c.config.flush && |p'.writer.file| == c.config.fileSize
                 && Matches(p', P.Opened(p.queue.cap, p.size, c.config.fileSize, c.config.flush))
               else Unopened(p')
  {
    hide BInv, IsCapacity;
    if c.CallOpen? { A.OpenExactly(p, c.config, c.mapping); }
    if OpensAt(p.size, p.queue.cap, [c], 0) { OpenedInv(p.queue.cap, p.size, c.config.fileSize, c.config.flush); }
  }

  /** Without such a call it is never opened. */
  lemma {:induction false} NeverOpened(p: B.Persistent, calls: seq<B.Call>, p': B.Persistent)
    requires Unopened(p) && B.Calls(p, calls, p')
    requires forall k :: 0 <= k < |calls| ==> !OpensAt(p.size, p.queue.cap, calls, k)
    ensures Unopened(p')
    decreases |calls|
  {
    hide Matches, B.CanCall, B.After, Unopened, Entering, Leaving, Logging, LeftBy;
    if calls == [] {
    } else {
      CallOnUnopened(p, calls[0]);
      assert !OpensAt(p.size, p.queue.cap, calls, 0);
      forall k | 0 <= k < |calls| - 1 ensures !OpensAt(p.size, p.queue.cap, calls[1..], k) {
        assert !OpensAt(p.size, p.queue.cap, calls, k + 1);
      }
      NeverOpened(B.After(p, calls[0]), calls[1..], p');
    }
  }

  /** From the first such call on, any sequence of calls is a run in a file of the configured size. */
  lemma {:induction false} UnopenedCallsAreARun(p: B.Persistent, calls: seq<B.Call>, k: nat, p': B.Persistent)
    returns (acts: seq<Action>, s': Broker)
    requires Unopened(p) && B.Calls(p, calls, p') && AllAnswer(calls)
    requires OpensAt(p.size, p.queue.cap, calls, k)
    requires forall j :: 0 <= j < k ==> !OpensAt(p.size, p.queue.cap, calls, j)
    ensures var config := calls[k].config;
            && Runs(P.Opened(p.queue.cap, p.size, config.fileSize, config.flush), acts, s')
            && |p'.writer.file| == config.fileSize && p'.writer.flushOnAppend == config.flush
    ensures Matches(p', s')
    ensures s'.queue.core.pushed == EnteringAll(p, calls) && s'.queue.core.popped == LeavingAll(p, calls)
    ensures s'.log == LoggingAll(p, calls) && s'.dirty == LeftByAll(p, calls, [])
    decreases |calls|
  {
    hide Matches, B.CanCall, B.After, Entering, Leaving, Logging, LeftBy, Runs, BInv, A.Acceptable, Unopened;
    var c, rest := calls[0], calls[1..];
    var p1 := B.After(p, c);
    CallOnUnopened(p, c);
    assert AllAnswer(rest);
    assert [] + EnteringAll(p1, rest) == EnteringAll(p1, rest) && [] + LeavingAll(p1, rest) == LeavingAll(p1, rest);
    assert [] + LoggingAll(p1, rest) == LoggingAll(p1, rest);
    if k == 0 {
      AcceptableFits(p.size, p.queue.cap, c.config);
      var s := P.Opened(p.queue.cap, p.size, c.config.fileSize, c.config.flush);
      assert s.queue.core.pushed == [] && s.queue.core.popped == [] && s.log == [] && s.dirty == [];
      acts, s' := OpenCallsAreARun(p1, s, rest, p');
    } else {
      assert !OpensAt(p.size, p.queue.cap, calls, 0);
      forall j | 0 <= j < k - 1 ensures !OpensAt(p.size, p.queue.cap, rest, j) {
        assert !OpensAt(p.size, p.queue.cap, calls, j + 1);
      }
      acts, s' := UnopenedCallsAreARun(p1, rest, k - 1, p');
    }
  }

  lemma AcceptableFits(size: nat, cap: nat, c: B.Config)
    requires A.Acceptable(size, cap, c)
    ensures size <= MAX_PAYLOAD && c.fileSize >= 40 + size
  {
  }

  /** The class, the queue and the log, end to end.  After any calls on a broker from its construction on,
      with any refusals and failing flushes, among them one that opens it: its file has the configured
      size; the values published are the values consumed followed by the contents, as many as publishes
      and consumes succeeded; and a replay returns ok and shows exactly one record for each value
      published, in order, with its flags, the clock's time and consecutive numbers, and behind them the
      record of a publish whose flush failed, if no publish has succeeded since. */
  lemma EveryCallSequenceIsReplayed(
      size: nat, capacity: nat, calls: seq<B.Call>, k: nat, p: B.Persistent, visitor: Visitor)
    requires IsCapacity(capacity) && B.Calls(B.Fresh(size, capacity), calls, p) && AllAnswer(calls)
    requires OpensAt(size, capacity, calls, k) && forall j :: 0 <= j < k ==> !OpensAt(size, capacity, calls, j)
    requires forall seen: seq<View> :: visitor(seen) == Ok
    ensures var start, r := B.Fresh(size, capacity), Replay(p.writer.file, 0, visitor, []);
            && p.writer.open && |p.writer.file| == calls[k].config.fileSize
            && EnteringAll(start, calls) == LeavingAll(start, calls) + p.queue.contents
            && |EnteringAll(start, calls)| == A.Times(A.Publishes, start, calls)
            && |LeavingAll(start, calls)| == A.Times(A.Consumes, start, calls)
            && Payloads(LoggingAll(start, calls)) == EnteringAll(start, calls)
            && r == Replayed(ViewsOf(LoggingAll(start, calls) + LeftByAll(start, calls, [])), Ok)
  {
    hide BInv, Runs, Replay, ViewsOf, Shown, Payloads, EnteringAll, LeavingAll, LoggingAll, LeftByAll;
    hide IsCapacity, B.Calls, A.Acceptable, A.Times;
    var start := B.Fresh(size, capacity);
    AcceptableFits(size, capacity, calls[k].config);
    var acts, s := UnopenedCallsAreARun(start, calls, k, p);
    assert Accepts(visitor, ViewsOf(s.log + s.dirty));
    ReplayShowsEverything(capacity, size, calls[k].config.fileSize, calls[k].config.flush, acts, s, visitor);
    CallsAdded(start, calls);
    QueueIsFifo(s);
    PrefixGrows(s);
    var h := s.queue.core;
    assert h.pushed == h.popped + Pending(h);
  }

}
