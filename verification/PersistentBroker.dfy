/** The persistent broker class: opening, publishing and consuming with all their refusals and
    counters, and typed replay of a log. */
module PersistentBroker {
  import opened Words
  import opened Record
  import opened WalReader
  import opened WalLog
  import opened WalWriter
  import opened RingCore
  import opened Brokers
  import SpscProtocol

  /** `BrokerConfig`, with the facts about its path that matter. */
  datatype Config = Config(queueCapacity: nat, enableWal: bool, pathEmpty: bool, fileSize: nat, flush: bool)

  /** The broker as its callers can observe it while no call is under way. */
  datatype Persistent = Persistent(
    openStatus: StatusCode,
    size: nat,
    queue: Brokers.State<Bytes>,
    writer: Writer,
    counters: Counters)

  /** A broker that has not been opened. */
  function Fresh(size: nat, capacity: nat): Persistent {
    Persistent(InvalidArgument, size, Brokers.State(Ok, capacity, [], NO_COUNTS), CLOSED, NO_COUNTS)
  }

  predicate IsOpen(p: Persistent) { p.openStatus == Ok && p.writer.open }

  /** What the template's constraints and `open` see to. */
  predicate Sound(p: Persistent) { IsCapacity(p.queue.cap) && (p.writer.open ==> p.size <= MAX_PAYLOAD) }

  /** The checks `open` makes before it creates the file. */
  function ConfigStatus(p: Persistent, c: Config): StatusCode
    requires IsCapacity(p.queue.cap)
  {
    if p.writer.open then InvalidArgument
    else if QueueConfigStatus(c.queueCapacity, p.queue.cap) != Ok then InvalidArgument
    else if !c.enableWal then InvalidArgument
    else if c.pathEmpty || c.fileSize == 0 then InvalidArgument
    else if p.size > MAX_PAYLOAD then InvalidArgument
    else if c.fileSize < HEADER_SIZE + p.size then InvalidArgument
    else Ok
  }

  function Opened(p: Persistent, c: Config, mapping: StatusCode): Persistent
    requires IsCapacity(p.queue.cap)
  {
    if ConfigStatus(p, c) != Ok then p.(openStatus := ConfigStatus(p, c))
    else
      var (status, w) := Create(c.pathEmpty, c.fileSize, c.flush, mapping);
      if status != Ok then p.(openStatus := status) else p.(openStatus := Ok, writer := w)
  }

  datatype Result = Result(status: StatusCode, state: Persistent)

  /** The counters after an append that took the writer from w to w'. */
  function Logged(n: Counters, w: Writer, w': Writer, status: StatusCode): Counters {
    if status != Ok then n.(walFailures := n.walFailures + 1)
    else n.(walRecordsWritten := n.walRecordsWritten + 1,
            walBytesWritten := n.walBytesWritten + if w'.offset >= w.offset then w'.offset - w.offset else 0)
  }

  function PublishLogged(p: Persistent, v: Bytes, flags: U32, clock: U64, flush: StatusCode): Result
    requires |v| == p.size && Sound(p)
  {
    var n := p.counters;
    if !IsOpen(p) then
      Result(p.openStatus, p.(counters := n.(publishFailedInvalid := n.publishFailedInvalid + 1)))
    else if |p.queue.contents| >= p.queue.cap then
      Result(Full, p.(counters := n.(publishFailedFull := n.publishFailedFull + 1)))
    else
      var m := Message(0, |v|, flags, v);
      var w, status := Appended(p.writer, m, clock, flush), AppendStatus(p.writer, m, flush);
      var n' := Logged(n, p.writer, w, status);
      if status != Ok then Result(status, p.(writer := w, counters := n'))
      else
        var q := PublishOne(p.queue, v);
        if q.status != Ok then
          Result(Unknown, p.(writer := w, queue := q.state, counters := n'.(walFailures := n'.walFailures + 1)))
        else
          Result(Ok, p.(writer := w, queue := q.state, counters := n'.(published := n'.published + 1)))
  }

  datatype ConsumeResult = ConsumeResult(status: StatusCode, out: Option<Bytes>, state: Persistent)

  function ConsumeLogged(p: Persistent): ConsumeResult {
    var n := p.counters;
    if !IsOpen(p) then
      ConsumeResult(p.openStatus, None, p.(counters := n.(consumeFailedInvalid := n.consumeFailedInvalid + 1)))
    else
      var t := ConsumeOne(p.queue);
      var n' := if t.status == Ok then n.(consumed := n.consumed + 1)
                else if t.status == Empty then n.(consumeFailedEmpty := n.consumeFailedEmpty + 1)
                else n;
      ConsumeResult(t.status, t.out, p.(queue := t.state, counters := n'))
  }

  class PersistentBroker {
    const size: nat
    const broker: BatchBroker<Bytes>
    const writer: WalWriter
    var openStatus: StatusCode
    var counters: Counters

    ghost predicate Valid()
      reads this, broker, broker.queue, broker.queue.buffer, writer, writer.file
    {
      && broker.Valid()
      && IsCapacity(broker.queue.buffer.Length)
      && (writer.open ==> size <= MAX_PAYLOAD)
    }

    ghost function Now(): Persistent
      requires Valid()
      reads this, broker, broker.queue, broker.queue.buffer, writer, writer.file
    {
      Persistent(openStatus, size, broker.Now(), writer.State(), counters)
    }

    constructor (size: nat, capacity: nat)
      requires IsCapacity(capacity)
      ensures Valid()
      ensures fresh(broker) && fresh(broker.queue) && fresh(broker.queue.buffer) && fresh(writer) && fresh(writer.file)
      ensures Now() == Fresh(size, capacity)
      ensures openStatus == InvalidArgument && !writer.open
    {
      this.size := size;
      broker := new BatchBroker<Bytes>(capacity, capacity);
      writer := new WalWriter();
      openStatus := InvalidArgument;
      counters := NO_COUNTS;
    }

    method Open(c: Config, mapping: StatusCode) returns (status: StatusCode)
      requires Valid()
      modifies this, writer
      ensures Valid() && Now() == Opened(old(Now()), c, mapping) && status == Now().openStatus
      ensures writer.file == old(writer.file) || fresh(writer.file)
    {
      if writer.open {
        openStatus := InvalidArgument;
        return openStatus;
      }
      var capacity := broker.queue.buffer.Length;
      if QueueConfigStatus(c.queueCapacity, capacity) != Ok {
        openStatus := InvalidArgument;
        return openStatus;
      }
      if !c.enableWal {
        openStatus := InvalidArgument;
        return openStatus;
      }
      if c.pathEmpty || c.fileSize == 0 || size > MAX_PAYLOAD || c.fileSize < HEADER_SIZE + size {
        openStatus := InvalidArgument;
        return openStatus;
      }
      openStatus := writer.Open(c.pathEmpty, c.fileSize, c.flush, mapping);
      status := openStatus;
    }

    method TryPublish(value: Bytes, flags: U32, clock: U64, flush: StatusCode) returns (status: StatusCode)
      requires Valid() && |value| == size
      modifies this, broker, broker.queue, broker.queue.buffer, writer, writer.file
      ensures writer.file == old(writer.file)
      ensures Valid() && Result(status, Now()) == PublishLogged(old(Now()), value, flags, clock, flush)
    {
      hide BatchBroker.Valid, BatchBroker.Now, Appended, AppendStatus, IsCapacity;
      if openStatus != Ok || !writer.open {
        counters := counters.(publishFailedInvalid := counters.publishFailedInvalid + 1);
        return openStatus;
      }
      var full := broker.IsFull();
      if full {
        counters := counters.(publishFailedFull := counters.publishFailedFull + 1);
        return Full;
      }
      status := AppendToWal(value, flags, clock, flush);
      if status != Ok { return; }
      status := broker.TryPublish(value);
      if status != Ok {
        counters := counters.(walFailures := counters.walFailures + 1);
        return Unknown;
      }
      counters := counters.(published := counters.published + 1);
    }

    /** The logging half of `try_publish`, with its counters. */
    method AppendToWal(value: Bytes, flags: U32, clock: U64, flush: StatusCode) returns (status: StatusCode)
      requires |value| <= MAX_PAYLOAD
      modifies this`counters, writer, writer.file
      ensures writer.file == old(writer.file)
      ensures var m, w := Message(0, |value|, flags, value), old(writer.State());
              && status == AppendStatus(w, m, flush)
              && writer.State() == Appended(w, m, clock, flush)
              && counters == Logged(old(counters), w, writer.State(), status)
    {
      hide Appended, AppendStatus;
      var before := writer.currentOffset;
      status := writer.Append(Message(0, |value|, flags, value), clock, flush);
      if status != Ok {
        counters := counters.(walFailures := counters.walFailures + 1);
        return;
      }
      var after := writer.currentOffset;
      counters := counters.(walRecordsWritten := counters.walRecordsWritten + 1,
                            walBytesWritten := counters.walBytesWritten
                                               + if after >= before then after - before else 0);
    }

    method TryConsume() returns (status: StatusCode, out: Option<Bytes>)
      requires Valid()
      modifies this, broker, broker.queue, broker.queue.buffer
      ensures Valid() && ConsumeResult(status, out, Now()) == ConsumeLogged(old(Now()))
    {
      hide SpscProtocol.SpscInv;
      if openStatus != Ok || !writer.open {
        counters := counters.(consumeFailedInvalid := counters.consumeFailedInvalid + 1);
        return openStatus, None;
      }
      status, out := broker.TryConsume();
      if status == Ok {
        counters := counters.(consumed := counters.consumed + 1);
      } else if status == Empty {
        counters := counters.(consumeFailedEmpty := counters.consumeFailedEmpty + 1);
      }
    }
  }

  // ---------------------------------------------------------------- any sequence of calls

  datatype Call =
    | CallOpen(config: Config, mapping: StatusCode)
    | CallPublish(value: Bytes, flags: U32, clock: U64, flush: StatusCode)
    | CallConsume

  predicate CanCall(p: Persistent, c: Call) { Sound(p) && (c.CallPublish? ==> |c.value| == p.size) }

  function After(p: Persistent, c: Call): Persistent
    requires CanCall(p, c)
  {
    match c
    case CallOpen(config, mapping) => Opened(p, config, mapping)
    case CallPublish(v, flags, clock, flush) => PublishLogged(p, v, flags, clock, flush).state
    case CallConsume => ConsumeLogged(p).state
  }

  /** The counters, the writer and the queue tell one story. */
  ghost predicate Consistent(p: Persistent) {
    var n, q := p.counters, p.queue;
    && Sound(p) && |q.contents| <= q.cap && q.status == Ok
    && n.walRecordsWritten == n.published == q.counters.published == p.writer.recordsWritten
    && n.walBytesWritten == p.writer.offset == n.published * (40 + p.size)
    && n.consumed == q.counters.consumed
    && n.published == n.consumed + |q.contents|
    && (p.writer.open ==> p.writer.offset <= |p.writer.file|)
    && (!p.writer.open ==> p.writer == CLOSED)
  }

  lemma FreshIsConsistent(size: nat, capacity: nat)
    requires IsCapacity(capacity)
    ensures Consistent(Fresh(size, capacity))
  {
    assert 0 * (40 + size) == 0;
  }

  lemma PublishKeepsConsistent(p: Persistent, v: Bytes, flags: U32, clock: U64, flush: StatusCode)
    requires Consistent(p) && |v| == p.size
    ensures var r := PublishLogged(p, v, flags, clock, flush);
            Consistent(r.state) && (r.status == Unknown ==> flush == Unknown || p.openStatus == Unknown)
  {
    hide Appended, AppendStatus, IsCapacity;
    if p.writer.open { AppendMoves(p.writer, Message(0, |v|, flags, v), clock, flush); }
    MulNext(p.counters.published, 40 + p.size);
  }

  /** How `append` moves the writer. */
  lemma AppendMoves(w: Writer, m: Message, clock: U64, flush: StatusCode)
    requires m.payloadSize == |m.payload| <= MAX_PAYLOAD && w.open && w.offset <= |w.file|
    ensures var w', ok := Appended(w, m, clock, flush), AppendStatus(w, m, flush) == Ok;
            && w'.open && |w'.file| == |w.file| && w'.offset <= |w'.file|
            && w'.offset == w.offset + (if ok then 40 + |m.payload| else 0)
            && w'.recordsWritten == w.recordsWritten + (if ok then 1 else 0)
            && (AppendStatus(w, m, flush) == Unknown ==> flush == Unknown)
  {
    hide Serialize, HeaderOf;
  }

  lemma CallKeepsConsistent(p: Persistent, c: Call)
    requires Consistent(p) && CanCall(p, c)
    ensures Consistent(After(p, c)) && After(p, c).size == p.size
  {
    match c
    case CallOpen(_, _) => assert 0 * (40 + p.size) == 0;
    case CallPublish(v, flags, clock, flush) => PublishKeepsConsistent(p, v, flags, clock, flush);
    case CallConsume =>
  }

  ghost predicate Calls(p: Persistent, calls: seq<Call>, p': Persistent)
    decreases |calls|
  {
    if calls == [] then p' == p
    else CanCall(p, calls[0]) && Calls(After(p, calls[0]), calls[1..], p')
  }

  /** A broker from its construction on, whatever is called in whatever order, with any refusals and
      failing flushes: every counter agrees with the log and the queue, and as many records are logged
      as were ever queued. */
  lemma EveryCallSequenceIsConsistent(size: nat, capacity: nat, calls: seq<Call>, p: Persistent)
    requires IsCapacity(capacity) && Calls(Fresh(size, capacity), calls, p)
    ensures Consistent(p)
  {
    FreshIsConsistent(size, capacity);
    CallsKeepConsistent(Fresh(size, capacity), calls, p);
  }

  lemma {:induction false} CallsKeepConsistent(p: Persistent, calls: seq<Call>, p': Persistent)
    requires Consistent(p) && Calls(p, calls, p')
    ensures Consistent(p')
    decreases |calls|
  {
    hide Consistent, After;
    if calls == [] {
    } else {
      CallKeepsConsistent(p, calls[0]);
      CallsKeepConsistent(After(p, calls[0]), calls[1..], p');
    }
  }

  /** Opening an open broker is refused, and the refusal disables it for good: whatever is called
      afterwards, it never opens again, and its log and its queue stay as they are. */
  lemma SecondOpenDisables(p: Persistent, c: Config, mapping: StatusCode, calls: seq<Call>, p': Persistent)
    requires Sound(p) && p.writer.open && Calls(Opened(p, c, mapping), calls, p')
    ensures !IsOpen(p') && p'.writer == p.writer && p'.queue == p.queue
  {
    StaysDisabled(Opened(p, c, mapping), calls, p');
  }

  lemma {:induction false} StaysDisabled(p: Persistent, calls: seq<Call>, p': Persistent)
    requires p.writer.open && !IsOpen(p) && Calls(p, calls, p')
    ensures !IsOpen(p') && p'.writer == p.writer && p'.queue == p.queue
    decreases |calls|
  {
    if calls == [] {
    } else {
      StaysDisabled(After(p, calls[0]), calls[1..], p');
    }
  }

  // ---------------------------------------------------------------- typed replay

  /** The visitor `replay_with_metrics` passes to the reader: a payload of the wrong size is corrupt. */
  function Typed(size: nat, visitor: Visitor): Visitor {
    (seen: seq<View>) =>
      if seen != [] && |seen[|seen| - 1].payload| != size then CorruptedRecord else visitor(seen)
  }

  lemma TypedAnswer(size: nat, visitor: Visitor, seen: seq<View>)
    requires seen != []
    ensures Typed(size, visitor)(seen)
            == if |seen[|seen| - 1].payload| != size then CorruptedRecord else visitor(seen)
  {
  }

  /** How many of the visited records the visitor accepted: all, or all but the last. */
  function Successes(r: Replayed, visitor: Visitor): nat {
    if r.visited != [] && visitor(r.visited) != Ok then |r.visited| - 1 else |r.visited|
  }

  function Recovered(n: Counters, r: Replayed, visitor: Visitor): Counters {
    n.(recoveredRecords := n.recoveredRecords + Successes(r, visitor),
       recoveryFailures := n.recoveryFailures + (if r.status == Ok then 0 else 1))
  }

  /** `recovered_records` grows by the number of records the visitor accepted, `recovery_failures` by
      one if the replay does not return ok and by nothing otherwise. */
  method ReplayWithMetrics(mapping: StatusCode, file: array<U8>, size: nat, visitor: Visitor, counters: Counters)
    returns (status: StatusCode, after: Counters)
    ensures mapping != Ok ==>
              status == mapping && after == counters.(recoveryFailures := counters.recoveryFailures + 1)
    ensures mapping == Ok ==>
              var r := Replay(file[..], 0, Typed(size, visitor), []);
              status == r.status && after == Recovered(counters, r, Typed(size, visitor))
  {
    hide FindRecord, Typed;
    if mapping != Ok {
      return mapping, counters.(recoveryFailures := counters.recoveryFailures + 1);
    }
    var reader := new WalReader(file);
    var seen: seq<View> := [];
    var failureRecorded := false;
    ghost var bytes := file[..];
    after := counters;
    while true
      invariant reader.open && reader.file == file && file[..] == bytes && fresh(reader) && !failureRecorded
      invariant after == counters.(recoveredRecords := counters.recoveredRecords + |seen|)
      invariant seen != [] ==> Typed(size, visitor)(seen) == Ok
      invariant Replay(bytes, reader.currentOffset, Typed(size, visitor), seen)
                == Replay(bytes, 0, Typed(size, visitor), [])
      decreases file.Length - reader.currentOffset
    {
      var found := reader.Next();
      if found.Stop? {
        status := if found.status == Empty then Ok else found.status;
        break;
      }
      FoundFits(bytes, found.view.offset);
      seen := seen + [found.view];
      TypedAnswer(size, visitor, seen);
      if |found.view.payload| != size {
        after := after.(recoveryFailures := after.recoveryFailures + 1);
        failureRecorded := true;
        status := CorruptedRecord;
      } else {
        status := visitor(seen);
        if status == Ok {
          after := after.(recoveredRecords := after.recoveredRecords + 1);
        } else {
          after := after.(recoveryFailures := after.recoveryFailures + 1);
          failureRecorded := true;
        }
      }
      if status != Ok { break; }
    }
    if status != Ok && !failureRecorded {
      after := after.(recoveryFailures := after.recoveryFailures + 1);
    }
  }

}
