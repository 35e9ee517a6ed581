/** What the brokers answer and what they count, in terms of their contents, their log and their
    configuration. */
module BrokerAnswers {
  import opened Words
  import opened Record
  import opened WalReader
  import opened WalLog
  import opened WalDamage
  import W = WalWriter
  import opened RingCore
  import opened Brokers
  import opened PersistentBroker

  // ---------------------------------------------------------------- the in-memory brokers

  /** A publish succeeds exactly on a valid broker with room, and then appends; otherwise the answer and
      the one counter that moves say why. */
  lemma PublishOneExactly<T>(b: Brokers.State<T>, v: T)
    requires |b.contents| <= b.cap
    ensures var r, n := PublishOne(b, v), b.counters;
            && (r.status == Ok <==> b.status == Ok && |b.contents| < b.cap)
            && (r.status == Full <==> b.status == Full || (b.status == Ok && |b.contents| == b.cap))
            && (b.status != Ok ==>
                  r == Outcome(b.status, b.(counters := n.(publishFailedInvalid := n.publishFailedInvalid + 1))))
            && (b.status == Ok && |b.contents| == b.cap ==>
                  r == Outcome(Full, b.(counters := n.(publishFailedFull := n.publishFailedFull + 1))))
            && (r.status == Ok ==> r.state.contents == b.contents + [v]
                                   && r.state.counters == n.(published := n.published + 1))
            && r.state.status == b.status && r.state.cap == b.cap
  {
  }

  /** A consume succeeds exactly on a valid broker with contents, and then takes the front. */
  lemma ConsumeOneExactly<T>(b: Brokers.State<T>)
    ensures var r, n := ConsumeOne(b), b.counters;
            && (r.status == Ok <==> b.status == Ok && b.contents != [])
            && (r.out.Some? <==> r.status == Ok)
            && (b.status != Ok ==>
                  r == Taken(b.status, None, b.(counters := n.(consumeFailedInvalid := n.consumeFailedInvalid + 1))))
            && (b.status == Ok && b.contents == [] ==>
                  r == Taken(Empty, None, b.(counters := n.(consumeFailedEmpty := n.consumeFailedEmpty + 1))))
            && (r.status == Ok ==> b.contents == [r.out.value] + r.state.contents
                                   && r.state.counters == n.(consumed := n.consumed + 1))
            && r.state.status == b.status && r.state.cap == b.cap
  {
  }

  /** A batch on an invalid broker moves nothing and counts once, unless it is empty. */
  lemma InvalidBatches<T>(b: Brokers.State<T>, vs: seq<T>, room: nat)
    requires b.status != Ok
    ensures var n := b.counters;
            && PublishEach(b, vs)
               == Batch(0, if vs == [] then b
                           else b.(counters := n.(publishFailedInvalid := n.publishFailedInvalid + 1)))
            && ConsumeBatch(b, room)
               == ConsumedBatch([], if room == 0 then b
                                    else b.(counters := n.(consumeFailedInvalid := n.consumeFailedInvalid + 1)))
  {
  }

  // ---------------------------------------------------------------- opening

  /** What a broker of this payload size and capacity takes for a configuration. */
  predicate Acceptable(size: nat, cap: nat, c: Config) {
    && c.queueCapacity == cap && c.enableWal && !c.pathEmpty
    && size <= MAX_PAYLOAD && c.fileSize >= 40 + size
  }

  /** `open`: a broker that is not open opens exactly on an acceptable configuration whose file can be
      mapped, with an empty log in a file of zeros of the configured size; in every other case only the
      open status changes, to what is returned. */
  lemma OpenExactly(p: Persistent, c: Config, mapping: StatusCode)
    requires IsCapacity(p.queue.cap)
    ensures var p' := Opened(p, c, mapping);
            if p.writer.open || !Acceptable(p.size, p.queue.cap, c) then p' == p.(openStatus := InvalidArgument)
            else if mapping != Ok then p' == p.(openStatus := mapping)
            else p' == p.(openStatus := Ok, writer := W.Writer(true, Zeros(c.fileSize), 0, 0, 0, c.flush))
  {
  }

  // ---------------------------------------------------------------- what each call comes to

  datatype Kind =
    | Opens
    | Publishes | FindsFull | FindsNoSpace | FlushFails | PublishRefused
    | Consumes | FindsEmpty | ConsumeRefused

  /** What a call comes to, from what the broker holds. */
  function KindOf(p: Persistent, c: Call): Kind {
    match c
    case CallOpen(_, _) => Opens
    case CallPublish(v, _, _, flush) =>
      if !IsOpen(p) then PublishRefused
      else if |p.queue.contents| == p.queue.cap then FindsFull
      else if p.writer.offset + 40 + |v| > |p.writer.file| then FindsNoSpace
      else if p.writer.flushOnAppend && flush != Ok then FlushFails
      else Publishes
    case CallConsume =>
      if !IsOpen(p) then ConsumeRefused else if p.queue.contents == [] then FindsEmpty else Consumes
  }

  /** What the call returns. */
  function Answer(p: Persistent, c: Call): StatusCode
    requires CanCall(p, c)
  {
    match c
    case CallOpen(config, mapping) => Opened(p, config, mapping).openStatus
    case CallPublish(v, flags, clock, flush) => PublishLogged(p, v, flags, clock, flush).status
    case CallConsume => ConsumeLogged(p).status
  }

  /** What every consistent broker is. */
  predicate Regular(p: Persistent) {
    && Sound(p) && |p.queue.contents| <= p.queue.cap && p.queue.status == Ok
    && (p.writer.open ==> p.writer.offset <= |p.writer.file|)
  }

  /** Every publish and consume of every consistent broker: what it returns, what it puts into the queue
      or takes out of it, and how far the log grows. */
  lemma CallExactly(p: Persistent, c: Call)
    requires Regular(p) && CanCall(p, c) && !c.CallOpen?
    ensures var p', k := After(p, c), KindOf(p, c);
            && Answer(p, c) == (match k
                                case Publishes => Ok
                                case Consumes => Ok
                                case FindsFull => Full
                                case FindsNoSpace => OutOfSpace
                                case FlushFails => c.flush
                                case FindsEmpty => Empty
                                case _ => p.openStatus)
            && p'.queue.contents == (if k.Publishes? then p.queue.contents + [c.value]
                                     else if k.Consumes? then p.queue.contents[1..] else p.queue.contents)
            && p'.writer.offset == p.writer.offset + (if k.Publishes? then 40 + p.size else 0)
            && (c.CallConsume? ==>
                  ConsumeLogged(p).out == if k.Consumes? then Some(p.queue.contents[0]) else None)
            && (!k.Publishes? && !k.FlushFails? ==> p'.writer == p.writer)
            && p'.openStatus == p.openStatus && p'.size == p.size
  {
    hide Encode, Splice;
  }

  /** The counters after a call of this kind, the broker's own and those of the queue inside it. */
  function Counted(n: Counters, k: Kind, size: nat): Counters {
    match k
    case Opens => n
    case Publishes => n.(published := n.published + 1, walRecordsWritten := n.walRecordsWritten + 1,
                         walBytesWritten := n.walBytesWritten + 40 + size)
    case FindsFull => n.(publishFailedFull := n.publishFailedFull + 1)
    case FindsNoSpace => n.(walFailures := n.walFailures + 1)
    case FlushFails => n.(walFailures := n.walFailures + 1)
    case PublishRefused => n.(publishFailedInvalid := n.publishFailedInvalid + 1)
    case Consumes => n.(consumed := n.consumed + 1)
    case FindsEmpty => n.(consumeFailedEmpty := n.consumeFailedEmpty + 1)
    case ConsumeRefused => n.(consumeFailedInvalid := n.consumeFailedInvalid + 1)
  }

  function CountedInside(n: Counters, k: Kind): Counters {
    match k
    case Publishes => n.(published := n.published + 1)
    case Consumes => n.(consumed := n.consumed + 1)
    case FindsEmpty => n.(consumeFailedEmpty := n.consumeFailedEmpty + 1)
    case _ => n
  }

  lemma CallIsCounted(p: Persistent, c: Call)
    requires Regular(p) && CanCall(p, c)
    ensures After(p, c).counters == Counted(p.counters, KindOf(p, c), p.size)
    ensures After(p, c).queue.counters == CountedInside(p.queue.counters, KindOf(p, c))
    ensures After(p, c).size == p.size
  {
    hide Encode, Splice;
  }

  lemma ConsistentIsRegular(p: Persistent)
    requires Consistent(p)
    ensures Regular(p)
  {
  }

  /** How many of the calls are of a kind. */
  function Times(k: Kind, p: Persistent, calls: seq<Call>): nat
    decreases |calls|
  {
    if calls == [] || !CanCall(p, calls[0]) then 0
    else (if KindOf(p, calls[0]) == k then 1 else 0) + Times(k, After(p, calls[0]), calls[1..])
  }

  /** Every counter tells how many calls came to what it names. */
  ghost predicate Tallies(n: Counters, p: Persistent, calls: seq<Call>, n': Counters) {
    && n'.published == n.published + Times(Publishes, p, calls)
    && n'.consumed == n.consumed + Times(Consumes, p, calls)
    && n'.publishFailedFull == n.publishFailedFull + Times(FindsFull, p, calls)
    && n'.consumeFailedEmpty == n.consumeFailedEmpty + Times(FindsEmpty, p, calls)
    && n'.publishFailedInvalid == n.publishFailedInvalid + Times(PublishRefused, p, calls)
    && n'.consumeFailedInvalid == n.consumeFailedInvalid + Times(ConsumeRefused, p, calls)
    && n'.walRecordsWritten == n.walRecordsWritten + Times(Publishes, p, calls)
    && n'.walFailures == n.walFailures + Times(FindsNoSpace, p, calls) + Times(FlushFails, p, calls)
    && n'.recoveredRecords == n.recoveredRecords && n'.recoveryFailures == n.recoveryFailures
  }

  ghost predicate TalliesInside(n: Counters, p: Persistent, calls: seq<Call>, n': Counters) {
    n' == n.(published := n.published + Times(Publishes, p, calls),
             consumed := n.consumed + Times(Consumes, p, calls),
             consumeFailedEmpty := n.consumeFailedEmpty + Times(FindsEmpty, p, calls))
  }

  lemma {:induction false} CallsAreTallied(p: Persistent, calls: seq<Call>, p': Persistent)
    requires Consistent(p) && Calls(p, calls, p')
    ensures Tallies(p.counters, p, calls, p'.counters) && TalliesInside(p.queue.counters, p, calls, p'.queue.counters)
    decreases |calls|
  {
    hide Consistent, Regular, CanCall, After, KindOf;
    if calls == [] {
    } else {
      ConsistentIsRegular(p);
      CallIsCounted(p, calls[0]);
      CallKeepsConsistent(p, calls[0]);
      CallsAreTallied(After(p, calls[0]), calls[1..], p');
    }
  }

  /** From construction on, whatever is called in whatever order: each counter is exactly the number of
      calls that came to what it names. */
  lemma EveryCallIsCounted(size: nat, capacity: nat, calls: seq<Call>, p: Persistent)
    requires IsCapacity(capacity) && Calls(Fresh(size, capacity), calls, p)
    ensures Tallies(NO_COUNTS, Fresh(size, capacity), calls, p.counters)
    ensures TalliesInside(NO_COUNTS, Fresh(size, capacity), calls, p.queue.counters)
  {
    FreshIsConsistent(size, capacity);
    CallsAreTallied(Fresh(size, capacity), calls, p);
  }

  // ---------------------------------------------------------------- typed replay

  /** The first k records have the right size and are accepted. */
  ghost predicate AcceptsTyped(es: seq<Entry>, size: nat, visitor: Visitor, k: nat)
    requires k <= |es|
  {
    forall i :: 0 <= i < k ==> |es[i].payload| == size && visitor(ViewsOf(es[..i + 1])) == Ok
  }

  lemma TypedView(es: seq<Entry>, size: nat, visitor: Visitor, i: nat)
    requires i < |es|
    ensures Typed(size, visitor)(ViewsOf(es[..i + 1]))
            == if |es[i].payload| != size then CorruptedRecord else visitor(ViewsOf(es[..i + 1]))
  {
    hide Typed, HeaderOf, EncodeLog;
    var front := es[..i + 1];
    ViewsLength(front);
    ViewAt(front, i);
    TypedAnswer(size, visitor, ViewsOf(front));
  }

  lemma TypedAccepts(es: seq<Entry>, size: nat, visitor: Visitor, k: nat)
    requires k <= |es| && AcceptsTyped(es, size, visitor, k)
    ensures Accepts(Typed(size, visitor), ViewsOf(es[..k]))
  {
    hide Typed, HeaderOf, EncodeLog;
    var front := es[..k];
    ViewsLength(front);
    forall j | 1 <= j <= |ViewsOf(front)| ensures Typed(size, visitor)(ViewsOf(front)[..j]) == Ok {
      ViewsPrefix(front, j);
      assert front[..j] == es[..j];
      TypedView(es, size, visitor, j - 1);
    }
  }

  /** Recovery stops at the first record of the log that has the wrong size, with a corrupted record, or
      that the visitor rejects, with its answer: the records before it are counted as recovered, and one
      failure is counted. */
  lemma RecoveryStops(es: seq<Entry>, t: Bytes, size: nat, visitor: Visitor, k: nat, n: Counters)
    requires k < |es| && AcceptsTyped(es, size, visitor, k)
    requires |es[k].payload| != size || visitor(ViewsOf(es[..k + 1])) != Ok
    ensures var r := Replay(EncodeLog(es) + t, 0, Typed(size, visitor), []);
            && r.visited == ViewsOf(es[..k + 1])
            && r.status == (if |es[k].payload| != size then CorruptedRecord else visitor(ViewsOf(es[..k + 1])))
            && Recovered(n, r, Typed(size, visitor))
               == n.(recoveredRecords := n.recoveredRecords + k, recoveryFailures := n.recoveryFailures + 1)
  {
    hide Typed, HeaderOf, EncodeLog, Replay, ViewsOf, Accepts;
    TypedAccepts(es, size, visitor, k);
    TypedView(es, size, visitor, k);
    ReplayRejected(es, t, Typed(size, visitor), k);
  }

  /** If it accepts the whole log, all records are counted as recovered, and what lies behind decides
      whether a failure is. */
  lemma RecoveryEnds(es: seq<Entry>, t: Bytes, size: nat, visitor: Visitor, n: Counters)
    requires AcceptsTyped(es, size, visitor, |es|) && !BeginsWithRecord(t)
    ensures var r := Replay(EncodeLog(es) + t, 0, Typed(size, visitor), []);
            && r == Replayed(ViewsOf(es), if CleanEnd(t) then Ok else CorruptedRecord)
            && Recovered(n, r, Typed(size, visitor))
               == n.(recoveredRecords := n.recoveredRecords + |es|,
                     recoveryFailures := n.recoveryFailures + (if CleanEnd(t) then 0 else 1))
  {
    hide Typed, HeaderOf, EncodeLog, Replay, ViewsOf, CleanEnd, BeginsWithRecord, Accepts;
    TypedAccepts(es, size, visitor, |es|);
    assert es[..|es|] == es;
    ReplayVerdict(es, t, Typed(size, visitor));
    ViewsLength(es);
    if es == [] {
      NoViews();
    } else {
      TypedView(es, size, visitor, |es| - 1);
    }
  }

  lemma NoViews()
    ensures ViewsOf([]) == []
  {
  }

}
