/** The in-memory brokers: a queue, a configuration status and counters. */
module Brokers {
  import opened Words
  import opened Record
  import opened RingCore
  import opened SpscProtocol
  import Ring = SpscRingBuffer

  /** The counters of `BrokerMetricsSnapshot`. */
  datatype Counters = Counters(
    published: nat,
    consumed: nat,
    publishFailedFull: nat,
    consumeFailedEmpty: nat,
    publishFailedInvalid: nat,
    consumeFailedInvalid: nat,
    walBytesWritten: nat,
    walRecordsWritten: nat,
    walFailures: nat,
    recoveredRecords: nat,
    recoveryFailures: nat)

  const NO_COUNTS: Counters := Counters(0, 0, 0, 0, 0, 0, 0, 0, 0, 0, 0)

  /** `validate_queue_config_for_capacity`. */
  function QueueConfigStatus(configured: nat, capacity: nat): (s: StatusCode)
    requires IsCapacity(capacity)
    ensures s == if configured == capacity then Ok else InvalidArgument
  {
    if configured == 0 then InvalidArgument
    else if And(configured, configured - 1) != 0 then InvalidArgument
    else if configured != capacity then InvalidArgument
    else Ok
  }

  /** A broker as its callers can observe it while no call is under way. */
  datatype State<T> = State(status: StatusCode, cap: nat, contents: seq<T>, counters: Counters)

  datatype Outcome<T> = Outcome(status: StatusCode, state: State<T>)

  function PublishOne<T>(b: State<T>, v: T): Outcome<T> {
    if b.status != Ok then
      Outcome(b.status, b.(counters := b.counters.(publishFailedInvalid := b.counters.publishFailedInvalid + 1)))
    else if |b.contents| >= b.cap then
      Outcome(Full, b.(counters := b.counters.(publishFailedFull := b.counters.publishFailedFull + 1)))
    else
      Outcome(Ok, b.(contents := b.contents + [v], counters := b.counters.(published := b.counters.published + 1)))
  }

  datatype Taken<T> = Taken(status: StatusCode, out: Option<T>, state: State<T>)

  function ConsumeOne<T>(b: State<T>): Taken<T> {
    if b.status != Ok then
      Taken(b.status, None,
            b.(counters := b.counters.(consumeFailedInvalid := b.counters.consumeFailedInvalid + 1)))
    else if b.contents == [] then
      Taken(Empty, None, b.(counters := b.counters.(consumeFailedEmpty := b.counters.consumeFailedEmpty + 1)))
    else
      Taken(Ok, Some(b.contents[0]),
            b.(contents := b.contents[1..], counters := b.counters.(consumed := b.counters.consumed + 1)))
  }

  /** `Broker` and `BatchBroker`; the single-item calls of the two are the same. */
  class BatchBroker<T> {
    var configStatus: StatusCode
    const queue: Ring.SpscRingBuffer<T>
    var counters: Counters

    ghost predicate Valid()
      reads this, queue, queue.buffer
    {
      queue.Valid()
    }

    ghost function Now(): State<T>
      requires Valid()
      reads this, queue, queue.buffer
    {
      State(configStatus, queue.buffer.Length, queue.Contents(), counters)
    }

    constructor (configured: nat, capacity: nat)
      requires IsCapacity(capacity)
      ensures Valid() && fresh(queue) && fresh(queue.buffer)
      ensures Now() == State(if configured == capacity then Ok else InvalidArgument, capacity, [], NO_COUNTS)
    {
      configStatus := QueueConfigStatus(configured, capacity);
      queue := new Ring.SpscRingBuffer<T>(capacity);
      counters := NO_COUNTS;
    }

    method IsFull() returns (full: bool)
      requires Valid()
      ensures full <==> |Now().contents| >= Now().cap
    {
      full := queue.Full();
    }

    method TryPublish(value: T) returns (status: StatusCode)
      requires Valid()
      modifies this, queue, queue.buffer
      ensures Valid() && Outcome(status, Now()) == PublishOne(old(Now()), value)
    {
      hide SpscInv, Runs;
      if configStatus != Ok {
        counters := counters.(publishFailedInvalid := counters.publishFailedInvalid + 1);
        return configStatus;
      }
      var pushed := queue.TryEmplace(value);
      if !pushed {
        counters := counters.(publishFailedFull := counters.publishFailedFull + 1);
        return Full;
      }
      counters := counters.(published := counters.published + 1);
      status := Ok;
    }

    method TryConsume() returns (status: StatusCode, out: Option<T>)
      requires Valid()
      modifies this, queue, queue.buffer
      ensures Valid() && Taken(status, out, Now()) == ConsumeOne(old(Now()))
    {
      hide SpscInv, Runs;
      out := None;
      if configStatus != Ok {
        counters := counters.(consumeFailedInvalid := counters.consumeFailedInvalid + 1);
        return configStatus, None;
      }
      var popped;
      popped, out := queue.TryPop();
      if !popped {
        counters := counters.(consumeFailedEmpty := counters.consumeFailedEmpty + 1);
        return Empty, None;
      }
      counters := counters.(consumed := counters.consumed + 1);
      status := Ok;
    }

    /** Leaves the queue and the counters exactly as `TryPublish` on each element until the first
        failure would. */
    method TryPublishBatch(messages: seq<T>) returns (published: nat)
      requires Valid()
      modifies this, queue, queue.buffer
      ensures Valid() && Batch(published, Now()) == PublishEach(old(Now()), messages)
    {
      hide SpscInv, Runs;
      if messages == [] { return 0; }
      if configStatus != Ok {
        counters := counters.(publishFailedInvalid := counters.publishFailedInvalid + 1);
        return 0;
      }
      published := 0;
      for i := 0 to |messages|
        invariant Valid() && configStatus == Ok && published == i
        invariant PublishEach(old(Now()), messages)
                  == PublishEach(Now(), messages[i..]).Plus(i)
      {
        assert messages[i..][1..] == messages[i + 1..];
        var pushed := queue.TryEmplace(messages[i]);
        if !pushed {
          counters := counters.(publishFailedFull := counters.publishFailedFull + 1);
          break;
        }
        published := published + 1;
        counters := counters.(published := counters.published + 1);
      }
    }

    /** Takes what `TryConsume` would take, in order; it reports an empty queue only if it took
        nothing. */
    method TryConsumeBatch(room: nat) returns (out: seq<T>)
      requires Valid()
      modifies this, queue, queue.buffer
      ensures Valid() && ConsumedBatch(out, Now()) == ConsumeBatch(old(Now()), room)
    {
      hide SpscInv, Runs;
      out := [];
      if room == 0 { return; }
      if configStatus != Ok {
        counters := counters.(consumeFailedInvalid := counters.consumeFailedInvalid + 1);
        return;
      }
      ghost var start := Now();
      for i := 0 to room
        invariant Valid() && configStatus == Ok && |out| == i <= |start.contents|
        invariant out == start.contents[..i]
        invariant Now() == start.(contents := start.contents[i..],
                                  counters := start.counters.(consumed := start.counters.consumed + i))
      {
        var popped, value := queue.TryPop();
        if !popped { break; }
        out := out + [value.value];
        counters := counters.(consumed := counters.consumed + 1);
      }
      if out == [] {
        counters := counters.(consumeFailedEmpty := counters.consumeFailedEmpty + 1);
      }
    }
  }

  // ---------------------------------------------------------------- batches as repeated calls

  datatype Batch<T> = Batch(count: nat, state: State<T>) {
    function Plus(n: nat): Batch<T> { Batch(count + n, state) }
  }

  /** Publish one after the other, stopping after the first call that fails. */
  function PublishEach<T>(b: State<T>, vs: seq<T>): Batch<T>
    decreases |vs|
  {
    if vs == [] then Batch(0, b)
    else
      var first := PublishOne(b, vs[0]);
      if first.status != Ok then Batch(0, first.state) else PublishEach(first.state, vs[1..]).Plus(1)
  }

  /** On a valid broker a batch publishes as many of its elements as there are free slots. */
  lemma {:induction false} BatchFillsFreeSlots<T>(b: State<T>, vs: seq<T>)
    requires b.status == Ok && |b.contents| <= b.cap
    ensures var r, free := PublishEach(b, vs), b.cap - |b.contents|;
            && r.count == (if |vs| < free then |vs| else free)
            && r.state.contents == b.contents + vs[..r.count]
            && r.state.counters.published == b.counters.published + r.count
            && r.state.counters.publishFailedFull
               == b.counters.publishFailedFull + (if r.count < |vs| then 1 else 0)
    decreases |vs|
  {
    if vs == [] || |b.contents| >= b.cap {
    } else {
      var next := PublishOne(b, vs[0]).state;
      BatchFillsFreeSlots(next, vs[1..]);
      var n := PublishEach(next, vs[1..]).count;
      assert b.contents + vs[..n + 1] == b.contents + [vs[0]] + vs[1..][..n];
    }
  }

  datatype ConsumedBatch<T> = ConsumedBatch(out: seq<T>, state: State<T>) {
    function After(v: T): ConsumedBatch<T> { ConsumedBatch([v] + out, state) }
  }

  /** Consume one after the other, stopping after the first call that fails. */
  function ConsumeEach<T>(b: State<T>, room: nat): ConsumedBatch<T>
    decreases room
  {
    if room == 0 then ConsumedBatch([], b)
    else
      var first := ConsumeOne(b);
      if first.status != Ok then ConsumedBatch([], first.state)
      else ConsumeEach(first.state, room - 1).After(first.out.value)
  }

  /** `try_consume_batch`. */
  function ConsumeBatch<T>(b: State<T>, room: nat): ConsumedBatch<T> {
    if room == 0 then ConsumedBatch([], b)
    else if b.status != Ok then ConsumedBatch([], ConsumeOne(b).state)
    else
      var n := if room < |b.contents| then room else |b.contents|;
      if n == 0 then ConsumedBatch([], ConsumeOne(b).state)
      else ConsumedBatch(b.contents[..n],
                         b.(contents := b.contents[n..], counters := b.counters.(consumed := b.counters.consumed + n)))
  }

  lemma {:induction false} ConsumeEachTakes<T>(b: State<T>, room: nat)
    requires b.status == Ok
    ensures var n := if room < |b.contents| then room else |b.contents|;
            ConsumeEach(b, room)
            == ConsumedBatch(b.contents[..n],
                 b.(contents := b.contents[n..],
                    counters := b.counters.(consumed := b.counters.consumed + n,
                                            consumeFailedEmpty := b.counters.consumeFailedEmpty
                                                                  + (if n < room then 1 else 0))))
    decreases room
  {
    if room == 0 || b.contents == [] {
    } else {
      ConsumeEachTakes(ConsumeOne(b).state, room - 1);
      var n := if room < |b.contents| then room else |b.contents|;
      assert b.contents[..n] == [b.contents[0]] + b.contents[1..][..n - 1];
    }
  }

  /** A consuming batch always takes what repeated calls would take, but it leaves the same counters
      exactly when it does not run dry halfway: a partly filled batch does not count as a failed
      consume, although the single call that ends the repetition does. */
  lemma ConsumeBatchVersusEach<T>(b: State<T>, room: nat)
    ensures ConsumeBatch(b, room).out == ConsumeEach(b, room).out
    ensures ConsumeBatch(b, room).state.contents == ConsumeEach(b, room).state.contents
    ensures ConsumeBatch(b, room) == ConsumeEach(b, room)
            <==> !(b.status == Ok && 0 < |b.contents| < room)
  {
    if b.status == Ok { ConsumeEachTakes(b, room); }
  }

}
