/** The storage and the two counters that both lock-free queues share, with everything the C++
    memory model adds to them.

    One producer owns `head_`, one consumer owns `tail_`.  The k-th store to a counter writes k
    modulo 2^64, so a counter's modification order is numbered 0, 1, 2, ...  A load of the other
    thread's counter may return any store from the last one this thread read up to the newest.

    Happens-before is tracked explicitly: each thread numbers its own slot accesses, a release
    store remembers how many its thread had made, and an acquire load that reads the store learns
    that number.  An access to a slot is free of data races when the other thread's last access to
    the same slot is among those this thread has learned of. */
module RingCore {
  import opened Words

  datatype Option<+T> = None | Some(value: T)

  /** Raw storage, a live object, or an object that has been moved from but not yet destroyed. */
  datatype Slot<+T> = Dead | Live(value: T) | MovedFrom

  /** The number of the last access each thread made to a slot, 0 for none. */
  datatype Stamp = Stamp(p: nat, c: nat)

  /** Where the consumer is inside `try_pop`. */
  datatype ConsumerPc<+T> =
    | CIdle
    | CLoadedTail(tail: U64)
    | CClaimed(tail: U64)
    | CMoved(tail: U64, out: T)
    | CDestroyed(tail: U64, out: T)

  datatype Core<T> = Core(
    cap: nat,
    head: U64,
    tail: U64,
    slots: seq<Slot<T>>,
    cpc: ConsumerPc<T>,
    // reads-from: the newest store of the other side's counter each thread has read
    seenTail: nat,
    seenHead: nat,
    // happens-before
    pClock: nat,
    cClock: nat,
    pKnows: nat,
    cKnows: nat,
    headClocks: seq<nat>,
    tailClocks: seq<nat>,
    stamps: seq<Stamp>,
    // history: published values, returned values, an unpublished object of the producer
    pushed: seq<T>,
    popped: seq<T>,
    built: Option<T>,
    constructions: nat,
    destructions: nat)

  function Empty<T>(cap: nat): Core<T> {
    Core(cap, 0, 0, seq(cap, _ => Dead), CIdle, 0, 0, 0, 0, 0, 0, [0], [0],
         seq(cap, _ => Stamp(0, 0)), [], [], None, 0, 0)
  }

  /** The vectors have the length the code indexes them with. */
  ghost predicate Shaped<T>(c: Core<T>) {
    && IsCapacity(c.cap)
    && |c.slots| == c.cap
    && |c.stamps| == c.cap
    && |c.headClocks| == |c.pushed| + 1
    && |c.tailClocks| == |c.popped| + 1
  }

  /** `slot_ptr(index)` as a position in the buffer. */
  function SlotIndex<T>(c: Core<T>, index: U64): (j: nat)
    requires c.cap >= 1
    ensures j < c.cap
  {
    And(index, c.cap - 1)
  }

  function Max(a: nat, b: nat): nat { if a < b then b else a }

  // ---------------------------------------------------------------- producer actions

  ghost predicate CanLoadTail<T>(c: Core<T>, t: nat) {
    Shaped(c) && c.seenTail <= t <= |c.popped|
  }

  /** Acquire load of `tail_` that reads its store number t. */
  ghost function LoadTail<T>(c: Core<T>, t: nat): Core<T>
    requires CanLoadTail(c, t)
  {
    c.(seenTail := t, pKnows := Max(c.pKnows, c.tailClocks[t]))
  }

  /** `construct_at(slot_ptr(index), v)`. */
  ghost function Build<T>(c: Core<T>, index: U64, v: T): Core<T>
    requires Shaped(c)
  {
    var j := SlotIndex(c, index);
    c.(slots := c.slots[j := Live(v)], stamps := c.stamps[j := c.stamps[j].(p := c.pClock + 1)],
       pClock := c.pClock + 1, built := Some(v), constructions := c.constructions + 1)
  }

  /** `destroy_at(slot_ptr(index))` by the producer. */
  ghost function Unbuild<T>(c: Core<T>, index: U64): Core<T>
    requires Shaped(c)
  {
    var j := SlotIndex(c, index);
    c.(slots := c.slots[j := Dead], stamps := c.stamps[j := c.stamps[j].(p := c.pClock + 1)],
       pClock := c.pClock + 1, built := None, destructions := c.destructions + 1)
  }

  /** Release store of `head_`. */
  ghost function Publish<T>(c: Core<T>, value: U64): Core<T>
    requires c.built.Some?
  {
    c.(head := value, headClocks := c.headClocks + [c.pClock],
       pushed := c.pushed + [c.built.value], built := None)
  }

  // ---------------------------------------------------------------- consumer actions

  datatype ConsumerAction =
    | PopBegin
    | PopLoadHead(h: nat)
    | MoveOut
    | DestroySlot
    | StoreTail
    | SizeLoadHead(h: nat)

  ghost predicate CanConsume<T>(c: Core<T>, a: ConsumerAction) {
    Shaped(c) &&
    match a
    case PopBegin => c.cpc.CIdle?
    case PopLoadHead(h) => c.cpc.CLoadedTail? && c.seenHead <= h <= |c.pushed|
    case MoveOut => c.cpc.CClaimed? && c.slots[SlotIndex(c, c.cpc.tail)].Live?
    case DestroySlot => c.cpc.CMoved?
    case StoreTail => c.cpc.CDestroyed?
    case SizeLoadHead(h) => c.cpc.CIdle? && c.seenHead <= h <= |c.pushed|
  }

  /** Acquire load of `head_` that reads its store number h. */
  ghost function LoadHead<T>(c: Core<T>, h: nat): Core<T>
    requires Shaped(c) && c.seenHead <= h <= |c.pushed|
  {
    c.(seenHead := h, cKnows := Max(c.cKnows, c.headClocks[h]))
  }

  /** A consumer access to the slot at position j that leaves it as `after`. */
  ghost function Touch<T>(c: Core<T>, j: nat, after: Slot<T>): Core<T>
    requires Shaped(c) && j < c.cap
  {
    c.(slots := c.slots[j := after], stamps := c.stamps[j := c.stamps[j].(c := c.cClock + 1)],
       cClock := c.cClock + 1)
  }

  /** The steps of `try_pop`, and the head load of `size_approx`. */
  ghost function Consume<T>(c: Core<T>, a: ConsumerAction): Core<T>
    requires CanConsume(c, a)
  {
    match a
    case PopBegin => c.(cpc := CLoadedTail(c.tail))
    case PopLoadHead(h) =>
      LoadHead(c, h).(cpc := if c.cpc.tail == Wrap(h) then CIdle else CClaimed(c.cpc.tail))
    case MoveOut =>
      var j := SlotIndex(c, c.cpc.tail);
      Touch(c, j, MovedFrom).(cpc := CMoved(c.cpc.tail, c.slots[j].value))
    case DestroySlot =>
      Touch(c, SlotIndex(c, c.cpc.tail), Dead)
        .(cpc := CDestroyed(c.cpc.tail, c.cpc.out), destructions := c.destructions + 1)
    case StoreTail =>
      c.(tail := Inc64(c.cpc.tail), tailClocks := c.tailClocks + [c.cClock],
         popped := c.popped + [c.cpc.out], cpc := CIdle)
    case SizeLoadHead(h) => LoadHead(c, h)
  }

  // ---------------------------------------------------------------- what is safe

  ghost predicate ProducerRaceFree<T>(c: Core<T>, j: nat)
    requires Shaped(c) && j < c.cap
  {
    c.stamps[j].c <= c.pKnows
  }

  ghost predicate ConsumerRaceFree<T>(c: Core<T>, j: nat)
    requires Shaped(c) && j < c.cap
  {
    c.stamps[j].p <= c.cKnows
  }

  /** Whatever the consumer does next is legal: it moves from a live object, destroys the object it
      moved from, and neither access races with the producer. */
  ghost predicate ConsumerSafe<T>(c: Core<T>)
    requires Shaped(c)
  {
    && (c.cpc.CClaimed? ==>
          var j := SlotIndex(c, c.cpc.tail); c.slots[j].Live? && ConsumerRaceFree(c, j))
    && (c.cpc.CMoved? ==>
          var j := SlotIndex(c, c.cpc.tail); c.slots[j].MovedFrom? && ConsumerRaceFree(c, j))
  }

  // ---------------------------------------------------------------- invariant

  ghost predicate HoldsValue<T>(pc: ConsumerPc<T>) { pc.CMoved? || pc.CDestroyed? }

  /** The state the buffer owes to count i, one of the `cap` counts from the consumer's position on. */
  ghost function SlotFor<T>(c: Core<T>, i: nat): Slot<T>
    requires |c.popped| <= i
  {
    if i == |c.popped| && c.cpc.CMoved? then MovedFrom
    else if i == |c.popped| && c.cpc.CDestroyed? then Dead
    else if i < |c.pushed| then Live(c.pushed[i])
    else if i == |c.pushed| && c.built.Some? then Live(c.built.value)
    else Dead
  }

  ghost predicate SlotOk<T>(c: Core<T>, i: nat)
    requires Shaped(c) && |c.popped| <= i
  {
    c.slots[Position(i, c.cap)] == SlotFor(c, i)
  }

  /** A published slot was last touched by the producer between the publication before its own and its
      own; a free one was last touched by the consumer between the store of `tail_` before the one that
      freed it and that one. */
  ghost predicate StampOk<T>(c: Core<T>, i: nat)
    requires Shaped(c) && |c.popped| <= i < |c.popped| + c.cap
  {
    var s := c.stamps[Position(i, c.cap)];
    && s.p <= c.pClock
    && s.c <= c.cClock
    && (i < |c.pushed| ==> c.headClocks[i] < s.p <= c.headClocks[i + 1])
    && (i == |c.pushed| && c.built.Some? ==> c.headClocks[i] < s.p)
    && (i >= |c.pushed| ==>
          if i < c.cap then s.c == 0 else c.tailClocks[i - c.cap] < s.c <= c.tailClocks[i - c.cap + 1])
    && (i == |c.popped| && HoldsValue(c.cpc) ==> c.tailClocks[i] < s.c)
  }

  ghost predicate Increasing(s: seq<nat>) { forall i, j :: 0 <= i <= j < |s| ==> s[i] <= s[j] }

  ghost predicate CountersOk<T>(c: Core<T>) {
    && c.head == Wrap(|c.pushed|)
    && c.tail == Wrap(|c.popped|)
    && c.seenTail <= |c.popped| <= c.seenHead <= |c.pushed| <= c.seenTail + c.cap
    && (c.built.Some? ==> |c.pushed| < c.seenTail + c.cap)
    && c.popped == c.pushed[..|c.popped|]
  }

  ghost predicate ClocksOk<T>(c: Core<T>)
    requires Shaped(c) && CountersOk(c)
  {
    && Increasing(c.headClocks) && c.headClocks[|c.pushed|] <= c.pClock
    && Increasing(c.tailClocks) && c.tailClocks[|c.popped|] <= c.cClock
    && c.headClocks[c.seenHead] == c.cKnows
    && c.tailClocks[c.seenTail] == c.pKnows
  }

  ghost predicate ConsumerOk<T>(c: Core<T>)
    requires CountersOk(c)
  {
    && (!c.cpc.CIdle? ==> c.cpc.tail == c.tail)
    && (c.cpc.CClaimed? || HoldsValue(c.cpc) ==> |c.popped| < c.seenHead)
    && (HoldsValue(c.cpc) ==> c.cpc.out == c.pushed[|c.popped|])
  }

  /** Every construction is matched by a destruction or by an object still in the buffer. */
  ghost predicate LifetimesOk<T>(c: Core<T>) {
    c.constructions + (if c.cpc.CDestroyed? then 1 else 0)
    == c.destructions + (|c.pushed| - |c.popped|) + (if c.built.Some? then 1 else 0)
  }

  ghost predicate Inv<T>(c: Core<T>) {
    && Shaped(c)
    && CountersOk(c)
    && ClocksOk(c)
    && ConsumerOk(c)
    && LifetimesOk(c)
    && (forall i :: |c.popped| <= i < |c.popped| + c.cap ==> SlotOk(c, i))
    && (forall i :: |c.popped| <= i < |c.popped| + c.cap ==> StampOk(c, i))
  }

  lemma EmptyInv<T>(cap: nat)
    requires IsCapacity(cap)
    ensures Inv(Empty<T>(cap))
  {
  }

  // ---------------------------------------------------------------- preservation, producer

  lemma LoadTailKeepsInv<T>(c: Core<T>, t: nat)
    requires Inv(c) && CanLoadTail(c, t)
    ensures Inv(LoadTail(c, t))
  {
    var c' := LoadTail(c, t);
    forall i | |c.popped| <= i < |c.popped| + c.cap ensures SlotOk(c', i) && StampOk(c', i) {
      assert SlotOk(c, i) && StampOk(c, i);
    }
  }

  /** The producer may use the slot at `head` once the tail it has seen leaves room there. */
  lemma ProducerSlot<T>(c: Core<T>)
    requires Inv(c) && |c.pushed| < c.seenTail + c.cap
    ensures SlotIndex(c, c.head) == Position(|c.pushed|, c.cap)
    ensures ProducerRaceFree(c, SlotIndex(c, c.head))
    ensures c.slots[SlotIndex(c, c.head)] == if c.built.Some? then Live(c.built.value) else Dead
    ensures !c.cpc.CIdle? && !c.cpc.CLoadedTail? ==> SlotIndex(c, c.cpc.tail) != SlotIndex(c, c.head)
  {
    var h, t := |c.pushed|, |c.popped|;
    SlotOfCounter(h, c.cap);
    assert SlotOk(c, h) && StampOk(c, h);
    if c.cpc.CClaimed? || HoldsValue(c.cpc) {
      SlotOfCounter(t, c.cap);
      SlotsDistinct(t, h, c.cap);
    }
  }

  lemma OtherSlots<T>(c: Core<T>, h: nat)
    requires Shaped(c) && |c.popped| <= h < |c.popped| + c.cap
    ensures forall i :: |c.popped| <= i < |c.popped| + c.cap && i != h ==> Position(i, c.cap) != Position(h, c.cap)
  {
    forall i | |c.popped| <= i < |c.popped| + c.cap && i != h ensures Position(i, c.cap) != Position(h, c.cap) {
      if i < h { SlotsDistinct(i, h, c.cap); } else { SlotsDistinct(h, i, c.cap); }
    }
  }

  lemma BuildKeepsInv<T>(c: Core<T>, v: T)
    requires Inv(c) && c.built.None? && |c.pushed| < c.seenTail + c.cap
    ensures Inv(Build(c, c.head, v))
  {
    hide Position, Wrap, And;
    var c' := Build(c, c.head, v);
    ProducerSlot(c);
    OtherSlots(c, |c.pushed|);
    forall i | |c.popped| <= i < |c.popped| + c.cap ensures SlotOk(c', i) && StampOk(c', i) {
      assert SlotOk(c, i) && StampOk(c, i);
    }
  }

  lemma UnbuildKeepsInv<T>(c: Core<T>)
    requires Inv(c) && c.built.Some?
    ensures Inv(Unbuild(c, c.head))
  {
    hide Position, Wrap, And;
    var c' := Unbuild(c, c.head);
    ProducerSlot(c);
    OtherSlots(c, |c.pushed|);
    forall i | |c.popped| <= i < |c.popped| + c.cap ensures SlotOk(c', i) && StampOk(c', i) {
      assert SlotOk(c, i) && StampOk(c, i);
    }
  }

  lemma PublishKeepsInv<T>(c: Core<T>)
    requires Inv(c) && c.built.Some?
    ensures Inv(Publish(c, Inc64(c.head)))
  {
    hide Position, Wrap, And;
    var c' := Publish(c, Inc64(c.head));
    WrappingSuccessor(|c.pushed|);
    forall i | |c.popped| <= i < |c.popped| + c.cap ensures SlotOk(c', i) && StampOk(c', i) {
      assert SlotOk(c, i) && StampOk(c, i);
    }
  }

  // ---------------------------------------------------------------- preservation, consumer

  lemma LoadHeadKeepsInv<T>(c: Core<T>, h: nat)
    requires Inv(c) && c.seenHead <= h <= |c.pushed|
    ensures Inv(LoadHead(c, h))
  {
    var c' := LoadHead(c, h);
    forall i | |c.popped| <= i < |c.popped| + c.cap ensures SlotOk(c', i) && StampOk(c', i) {
      assert SlotOk(c, i) && StampOk(c, i);
    }
  }

  /** `tail == head` on the words decides emptiness for the store that was read. */
  lemma EmptyTest<T>(c: Core<T>, h: nat)
    requires Inv(c) && c.seenHead <= h <= |c.pushed|
    ensures c.tail == Wrap(h) <==> h == |c.popped|
  {
    WrappingDistance(h, |c.popped|);
  }

  /** Changing only the consumer's program counter, outside the part of `try_pop` that touches slots. */
  lemma ControlKeepsInv<T>(c: Core<T>, pc: ConsumerPc<T>)
    requires Inv(c) && !HoldsValue(c.cpc) && !HoldsValue(pc)
    requires !pc.CIdle? ==> pc.tail == c.tail
    requires pc.CClaimed? ==> |c.popped| < c.seenHead
    ensures Inv(c.(cpc := pc))
  {
    var c' := c.(cpc := pc);
    forall i | |c.popped| <= i < |c.popped| + c.cap ensures SlotOk(c', i) && StampOk(c', i) {
      assert SlotOk(c, i) && StampOk(c, i);
    }
  }

  lemma ConsumerSlot<T>(c: Core<T>)
    requires Inv(c) && (c.cpc.CClaimed? || HoldsValue(c.cpc))
    ensures SlotIndex(c, c.cpc.tail) == Position(|c.popped|, c.cap)
    ensures ConsumerRaceFree(c, SlotIndex(c, c.cpc.tail))
    ensures c.slots[SlotIndex(c, c.cpc.tail)] == SlotFor(c, |c.popped|)
  {
    var t := |c.popped|;
    SlotOfCounter(t, c.cap);
    assert SlotOk(c, t) && StampOk(c, t);
  }

  lemma TouchKeepsInv<T>(c: Core<T>, a: ConsumerAction)
    requires Inv(c) && CanConsume(c, a) && (a.MoveOut? || a.DestroySlot?)
    ensures Inv(Consume(c, a))
  {
    hide Position, Wrap, And;
    var c' := Consume(c, a);
    ConsumerSlot(c);
    OtherSlots(c, |c.popped|);
    forall i | |c.popped| <= i < |c.popped| + c.cap ensures SlotOk(c', i) && StampOk(c', i) {
      assert SlotOk(c, i) && StampOk(c, i);
    }
  }

  lemma StoreTailKeepsSlots<T>(c: Core<T>)
    requires Inv(c) && CanConsume(c, StoreTail)
    ensures var c' := Consume(c, StoreTail);
            forall i :: |c'.popped| <= i < |c'.popped| + c'.cap ==> SlotOk(c', i)
  {
    var c', t := Consume(c, StoreTail), |c.popped|;
    assert SlotOk(c, t);
    forall i | t + 1 <= i < t + 1 + c.cap ensures SlotOk(c', i) {
      if i < t + c.cap { assert SlotOk(c, i); }
    }
  }

  lemma StoreTailKeepsStamps<T>(c: Core<T>)
    requires Inv(c) && CanConsume(c, StoreTail)
    ensures var c' := Consume(c, StoreTail);
            forall i :: |c'.popped| <= i < |c'.popped| + c'.cap ==> StampOk(c', i)
  {
    var c', t := Consume(c, StoreTail), |c.popped|;
    assert StampOk(c, t);
    forall i | t + 1 <= i < t + 1 + c.cap ensures StampOk(c', i) {
      if i < t + c.cap { assert StampOk(c, i); }
    }
  }

  lemma StoreTailKeepsInv<T>(c: Core<T>)
    requires Inv(c) && CanConsume(c, StoreTail)
    ensures Inv(Consume(c, StoreTail))
  {
    WrappingSuccessor(|c.popped|);
    StoreTailKeepsSlots(c);
    StoreTailKeepsStamps(c);
  }

  /** Every consumer step keeps the invariant. */
  lemma ConsumeKeepsInv<T>(c: Core<T>, a: ConsumerAction)
    requires Inv(c) && CanConsume(c, a)
    ensures Inv(Consume(c, a))
  {
    match a
    case PopBegin => ControlKeepsInv(c, CLoadedTail(c.tail));
    case PopLoadHead(h) =>
      EmptyTest(c, h);
      LoadHeadKeepsInv(c, h);
      ControlKeepsInv(LoadHead(c, h), Consume(c, a).cpc);
    case MoveOut => TouchKeepsInv(c, a);
    case DestroySlot => TouchKeepsInv(c, a);
    case StoreTail => StoreTailKeepsInv(c);
    case SizeLoadHead(h) => LoadHeadKeepsInv(c, h);
  }

  // ---------------------------------------------------------------- what the invariant gives

  /** The bounded queue as its users see it: a value belongs to it from the store of `head_` to the
      store of `tail_`. */
  ghost function Pending<T>(c: Core<T>): seq<T>
    requires |c.popped| <= |c.pushed|
  {
    c.pushed[|c.popped|..]
  }

  lemma PendingFits<T>(c: Core<T>)
    requires Inv(c)
    ensures |c.popped| <= |c.pushed| <= |c.popped| + c.cap && c.cap == |c.slots| >= 2
  {
  }

  /** The values the consumer has taken out of the buffer but not yet accounted for in `tail_`. */
  ghost function InFlight<T>(c: Core<T>): seq<T> {
    if HoldsValue(c.cpc) then [c.cpc.out] else []
  }

  /** What a walk over the buffer finds, from the first slot the consumer has not emptied up to
      `head_`, using only the machine words. */
  ghost function Walk<T>(c: Core<T>): seq<Slot<T>>
    requires Shaped(c)
  {
    var from := if HoldsValue(c.cpc) then Inc64(c.tail) else c.tail;
    seq(Sub64(c.head, from), k requires 0 <= k => c.slots[SlotIndex(c, Wrap(from + k))])
  }

  ghost predicate AllLive<T>(slots: seq<Slot<T>>) { forall k :: 0 <= k < |slots| ==> slots[k].Live? }

  ghost function Values<T>(slots: seq<Slot<T>>): seq<T>
    requires AllLive(slots)
  {
    seq(|slots|, k requires 0 <= k < |slots| => slots[k].value)
  }

  /** The queued values in order. */
  ghost function Queue<T>(c: Core<T>): seq<T>
    requires Inv(c)
  {
    WalkFindsLive(c);
    Values(Walk(c))
  }

  lemma WalkAt<T>(c: Core<T>, from: nat, k: nat)
    requires Inv(c)
    requires from == |c.popped| + |InFlight(c)| && from + k < |c.pushed|
    ensures c.slots[SlotIndex(c, Wrap(Wrap(from) + k))] == Live(c.pushed[from + k])
  {
    hide StampOk, ClocksOk, LifetimesOk, Position, Wrap, And;
    SlotOfCounter(from + k, c.cap);
    WrappingAdd(from, k);
    assert SlotOk(c, from + k);
  }

  lemma WalkLength<T>(c: Core<T>)
    requires Inv(c)
    ensures |Walk(c)| == |c.pushed| - |c.popped| - |InFlight(c)|
    ensures forall k :: 0 <= k < |Walk(c)| ==>
              Walk(c)[k] == c.slots[SlotIndex(c, Wrap(Wrap(|c.popped| + |InFlight(c)|) + k))]
  {
    hide SlotOk, StampOk, ClocksOk, LifetimesOk, Wrap, SlotIndex;
    WrappingSuccessor(|c.popped|);
    WrappingDistance(|c.pushed|, |c.popped| + |InFlight(c)|);
  }

  lemma WalkFindsLive<T>(c: Core<T>)
    requires Inv(c)
    ensures AllLive(Walk(c))
    ensures Values(Walk(c)) == c.pushed[|c.popped| + |InFlight(c)|..]
  {
    hide SlotOk, StampOk, ClocksOk, LifetimesOk, Wrap, SlotIndex, Walk, AllLive, Values;
    var from := |c.popped| + |InFlight(c)|;
    WalkLength(c);
    forall k | 0 <= k < |c.pushed| - from ensures Walk(c)[k] == Live(c.pushed[from + k]) {
      WalkAt(c, from, k);
    }
    LiveValues(Walk(c), c.pushed[from..]);
  }

  lemma LiveValues<T>(slots: seq<Slot<T>>, values: seq<T>)
    requires |slots| == |values| && forall k :: 0 <= k < |slots| ==> slots[k] == Live(values[k])
    ensures AllLive(slots) && Values(slots) == values
  {
  }

  /** First in, first out, without loss or duplication: the published values are the returned ones,
      then the one in the consumer's hands, then what the buffer holds; and the buffer never holds
      more than its capacity. */
  lemma Fifo<T>(c: Core<T>)
    requires Inv(c)
    ensures c.pushed == c.popped + InFlight(c) + Queue(c)
    ensures Pending(c) == InFlight(c) + Queue(c)
    ensures |InFlight(c)| + |Queue(c)| <= c.cap
  {
    hide SlotOk, StampOk, ClocksOk, LifetimesOk, Wrap, SlotIndex, Walk;
    WalkFindsLive(c);
  }

  /** The consumer never makes an illegal or racing access. */
  lemma ConsumerIsSafe<T>(c: Core<T>)
    requires Inv(c)
    ensures ConsumerSafe(c)
  {
    if c.cpc.CClaimed? || HoldsValue(c.cpc) { ConsumerSlot(c); }
  }

  /** `head - tail >= Capacity` on the words decides, for the store of `tail_` that was read, whether
      exactly `cap` values lay between it and the head; the difference never exceeds that. */
  lemma FullTest<T>(c: Core<T>, t: nat)
    requires Inv(c) && CanLoadTail(c, t)
    ensures Sub64(c.head, Wrap(t)) == |c.pushed| - t <= c.cap
    ensures Sub64(c.head, Wrap(t)) >= c.cap <==> |c.pushed| - t == c.cap
  {
    WrappingDistance(|c.pushed|, t);
  }

  /** `size_approx` called by the consumer stays in 0..Capacity. */
  lemma ConsumerSize<T>(c: Core<T>, h: nat)
    requires Inv(c) && c.seenHead <= h <= |c.pushed|
    ensures Sub64(Wrap(h), c.tail) == h - |c.popped| <= c.cap
  {
    WrappingDistance(h, |c.popped|);
  }

  /** The tests of the code are exactly what makes its accesses free of races: the producer may touch a
      free slot if and only if it has read the store of `tail_` that freed it, and the consumer a
      published one if and only if it has read the store of `head_` that published it. */
  lemma RaceFreeExactly<T>(c: Core<T>, i: nat)
    requires Inv(c) && |c.popped| <= i < |c.popped| + c.cap
    ensures i >= |c.pushed| ==> (ProducerRaceFree(c, Position(i, c.cap)) <==> i < c.seenTail + c.cap)
    ensures i < |c.pushed| ==> (ConsumerRaceFree(c, Position(i, c.cap)) <==> i < c.seenHead)
  {
    hide SlotOk, Position;
    assert StampOk(c, i);
  }

  // ---------------------------------------------------------------- progress

  /** The step the code takes next; h is the store of `head_` a load would read. */
  function ConsumerNext<T>(pc: ConsumerPc<T>, h: nat): ConsumerAction {
    match pc
    case CIdle => PopBegin
    case CLoadedTail(_) => PopLoadHead(h)
    case CClaimed(_) => MoveOut
    case CMoved(_, _) => DestroySlot
    case CDestroyed(_, _) => StoreTail
  }

  /** An upper bound on the steps left in the call the consumer is in. */
  function ConsumerRank<T>(pc: ConsumerPc<T>): nat {
    match pc
    case CIdle => 0
    case CLoadedTail(_) => 4
    case CClaimed(_) => 3
    case CMoved(_, _) => 2
    case CDestroyed(_, _) => 1
  }

  /** The guards of the consumer's steps hide nothing: its next step is always possible, and brings
      the call it is in closer to its end. */
  lemma ConsumerNeverBlocks<T>(c: Core<T>, h: nat)
    requires Inv(c) && c.seenHead <= h <= |c.pushed|
    ensures var a := ConsumerNext(c.cpc, h);
            CanConsume(c, a) && (!c.cpc.CIdle? ==> ConsumerRank(Consume(c, a).cpc) < ConsumerRank(c.cpc))
  {
    hide SlotOk, StampOk;
    ConsumerIsSafe(c);
  }

}
