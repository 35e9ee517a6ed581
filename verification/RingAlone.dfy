/** Calls on a ring that no other thread disturbs: the consumer's side and the destructor, which the
    two queues share word for word. */
module RingAlone {
  import opened Words
  import opened RingCore

  ghost predicate ConsumerRuns<T>(c: Core<T>, steps: seq<ConsumerAction>, c': Core<T>)
    decreases |steps|
  {
    if steps == [] then c' == c
    else CanConsume(c, steps[0]) && ConsumerRuns(Consume(c, steps[0]), steps[1..], c')
  }

  lemma {:induction false} ConsumerRunsConcat<T>(
      c: Core<T>, a: seq<ConsumerAction>, c1: Core<T>, b: seq<ConsumerAction>, c2: Core<T>)
    requires ConsumerRuns(c, a, c1) && ConsumerRuns(c1, b, c2)
    ensures ConsumerRuns(c, a + b, c2)
    decreases |a|
  {
    hide CanConsume, Consume;
    if a == [] {
      assert a + b == b;
    } else {
      assert (a + b)[1..] == a[1..] + b;
      ConsumerRunsConcat(Consume(c, a[0]), a[1..], c1, b, c2);
    }
  }

  lemma OneConsumerStep<T>(c: Core<T>, a: ConsumerAction)
    requires CanConsume(c, a)
    ensures ConsumerRuns(c, [a], Consume(c, a))
  {
    hide CanConsume, Consume;
    assert [a][1..] == [];
  }

  /** The steps of an uninterrupted `try_pop`: it reads the newest store of `head_`. */
  ghost function PopSteps<T>(c: Core<T>, ok: bool): seq<ConsumerAction> {
    [PopBegin, PopLoadHead(|c.pushed|)] + if ok then [MoveOut, DestroySlot, StoreTail] else []
  }

  ghost predicate Quiet<T>(c: Core<T>) { Inv(c) && c.cpc.CIdle? }

  /** Everything a caller can observe of the shared state. */
  ghost predicate SameMemory<T>(c: Core<T>, c': Core<T>) {
    && c'.cap == c.cap && c'.head == c.head && c'.tail == c.tail && c'.slots == c.slots
    && c'.pushed == c.pushed && c'.popped == c.popped
  }

  ghost predicate SameShared<T>(c: Core<T>, c': Core<T>) { SameMemory(c, c') && SameProducer(c, c') }

  /** Nothing the producer depends on has changed, except that room may have appeared. */
  ghost predicate SameProducer<T>(c: Core<T>, c': Core<T>) {
    && c'.cap == c.cap && c'.head == c.head && c'.pushed == c.pushed
    && c'.built == c.built && c'.seenTail == c.seenTail
  }

  lemma PopLoad<T>(c: Core<T>) returns (ok: bool, c': Core<T>)
    requires Quiet(c)
    ensures ConsumerRuns(c, [PopBegin, PopLoadHead(|c.pushed|)], c')
    ensures Inv(c') && SameShared(c, c')
    ensures ok <==> |c.popped| < |c.pushed|
    ensures ok <==> c.tail != c.head
    ensures c'.cpc == if ok then CClaimed(c.tail) else CIdle
  {
    hide Inv;
    PopLoadCore(c);
    var c1 := Consume(c, PopBegin);
    OneConsumerStep(c, PopBegin);
    OneConsumerStep(c1, PopLoadHead(|c.pushed|));
    c' := Consume(c1, PopLoadHead(|c.pushed|));
    ConsumerRunsConcat(c, [PopBegin], c1, [PopLoadHead(|c.pushed|)], c');
    assert [PopBegin] + [PopLoadHead(|c.pushed|)] == [PopBegin, PopLoadHead(|c.pushed|)];
    ok := c.tail != c.head;
  }

  lemma PopLoadCore<T>(c: Core<T>)
    requires Quiet(c)
    ensures CanConsume(c, PopBegin) && CanConsume(Consume(c, PopBegin), PopLoadHead(|c.pushed|))
    ensures Inv(Consume(Consume(c, PopBegin), PopLoadHead(|c.pushed|)))
    ensures c.tail == Wrap(|c.pushed|) <==> |c.pushed| == |c.popped|
    ensures |c.popped| <= |c.pushed| && c.head == Wrap(|c.pushed|)
  {
    EmptyTest(c, |c.pushed|);
    ConsumeKeepsInv(c, PopBegin);
    ConsumeKeepsInv(Consume(c, PopBegin), PopLoadHead(|c.pushed|));
  }

  lemma PopMove<T>(c: Core<T>) returns (c': Core<T>)
    requires Inv(c) && c.cpc.CClaimed?
    ensures ConsumerRuns(c, [MoveOut], c')
    ensures Inv(c') && |c.popped| < |c.pushed| && c'.cpc == CMoved(c.tail, c.pushed[|c.popped|])
    ensures SameShared(c.(slots := c'.slots), c')
    ensures var j := And(c.tail, c.cap - 1);
            c.slots[j] == Live(c.pushed[|c.popped|]) && c'.slots == c.slots[j := MovedFrom]
  {
    hide SlotOk, StampOk, ClocksOk, LifetimesOk, Wrap, And, Position;
    ConsumerSlot(c);
    ConsumeKeepsInv(c, MoveOut);
    OneConsumerStep(c, MoveOut);
    c' := Consume(c, MoveOut);
  }

  lemma PopDestroy<T>(c: Core<T>) returns (c': Core<T>)
    requires Inv(c) && c.cpc.CMoved?
    ensures ConsumerRuns(c, [DestroySlot], c')
    ensures Inv(c') && c'.cpc == CDestroyed(c.tail, c.cpc.out)
    ensures SameShared(c.(slots := c'.slots), c')
    ensures c'.slots == c.slots[And(c.tail, c.cap - 1) := Dead]
  {
    hide SlotOk, StampOk, ClocksOk, LifetimesOk, Wrap, And, Position;
    ConsumeKeepsInv(c, DestroySlot);
    OneConsumerStep(c, DestroySlot);
    c' := Consume(c, DestroySlot);
  }

  lemma PopFinish<T>(c: Core<T>) returns (c': Core<T>)
    requires Inv(c) && c.cpc.CDestroyed?
    ensures ConsumerRuns(c, [StoreTail], c')
    ensures Quiet(c') && SameProducer(c, c') && c'.slots == c.slots && c'.tail == Inc64(c.tail)
    ensures c'.popped == c.popped + [c.cpc.out]
  {
    hide SlotOk, StampOk, ClocksOk, LifetimesOk, Wrap, And, Position;
    ConsumeKeepsInv(c, StoreTail);
    OneConsumerStep(c, StoreTail);
    c' := Consume(c, StoreTail);
  }

  /** What follows the loads of a successful `try_pop`. */
  lemma PopTake<T>(c: Core<T>) returns (c': Core<T>)
    requires Inv(c) && c.cpc.CClaimed?
    ensures ConsumerRuns(c, [MoveOut, DestroySlot, StoreTail], c')
    ensures Quiet(c') && SameProducer(c, c') && c'.tail == Inc64(c.tail)
    ensures |c.popped| < |c.pushed| && |c'.popped| == |c.popped| + 1
    ensures var j := And(c.tail, c.cap - 1);
            c.slots[j] == Live(c.pushed[|c.popped|]) && c'.slots == c.slots[j := Dead]
  {
    hide Inv, ConsumerRuns;
    PendingFits(c);
    var c1 := PopMove(c);
    var c2 := PopDestroy(c1);
    c' := PopFinish(c2);
    ConsumerRunsConcat(c1, [DestroySlot], c2, [StoreTail], c');
    ConsumerRunsConcat(c, [MoveOut], c1, [DestroySlot] + [StoreTail], c');
    assert [MoveOut] + ([DestroySlot] + [StoreTail]) == [MoveOut, DestroySlot, StoreTail];
    assert c'.slots == c.slots[And(c.tail, c.cap - 1) := Dead];
  }

  /** An uninterrupted `try_pop`. */
  lemma PopAlone<T>(c: Core<T>) returns (ok: bool, c': Core<T>)
    requires Quiet(c)
    ensures ConsumerRuns(c, PopSteps(c, ok), c')
    ensures Quiet(c') && SameProducer(c, c')
    ensures |c.popped| <= |c.pushed| && |c'.popped| <= |c'.pushed|
    ensures ok <==> Pending(c) != []
    ensures ok <==> c.tail != c.head
    ensures !ok ==> c'.tail == c.tail && c'.slots == c.slots && Pending(c') == Pending(c)
    ensures ok ==> var j := And(c.tail, c.cap - 1);
                   && 0 <= j < |c.slots| && c.slots[j] == Live(Pending(c)[0])
                   && c'.slots == c.slots[j := Dead]
                   && c'.tail == Inc64(c.tail)
                   && Pending(c') == Pending(c)[1..]
  {
    hide ConsumerRuns;
    var c2;
    ok, c2 := PopLoad(c);
    var loads := [PopBegin, PopLoadHead(|c.pushed|)];
    if ok {
      c' := PopTake(c2);
      ConsumerRunsConcat(c, loads, c2, [MoveOut, DestroySlot, StoreTail], c');
    } else {
      c' := c2;
      assert loads + [] == loads;
    }
  }

  // ---------------------------------------------------------------- the destructor

  /** The first n queued objects are gone, the rest of the buffer is as it was. */
  ghost predicate Destroyed<T>(c: Core<T>, n: nat, slots: seq<Slot<T>>)
    requires Inv(c)
  {
    |slots| == c.cap &&
    forall i :: |c.popped| <= i < |c.popped| + c.cap ==>
      slots[Position(i, c.cap)] == if i < |c.popped| + n then Dead else SlotFor(c, i)
  }

  lemma NoneDestroyed<T>(c: Core<T>)
    requires Inv(c)
    ensures Destroyed(c, 0, c.slots)
  {
    forall i | |c.popped| <= i < |c.popped| + c.cap ensures c.slots[Position(i, c.cap)] == SlotFor(c, i) {
      assert SlotOk(c, i);
    }
  }

  lemma NextDestroyed<T>(c: Core<T>, n: nat, t: U64, slots: seq<Slot<T>>)
    requires Inv(c) && c.cpc.CIdle? && Destroyed(c, n, slots) && |c.popped| + n <= |c.pushed|
    requires t == Wrap(|c.popped| + n) && t != c.head
    ensures |c.popped| + n < |c.pushed|
    ensures slots[And(t, c.cap - 1)].Live?
    ensures Destroyed(c, n + 1, slots[And(t, c.cap - 1) := Dead])
    ensures Inc64(t) == Wrap(|c.popped| + (n + 1))
  {
    hide Destroyed, SlotOk, StampOk, ClocksOk, LifetimesOk, Wrap, And, Position;
    var i := |c.popped| + n;
    WrappingSuccessor(i);
    WrappingDistance(|c.pushed|, i);
    SlotOfCounter(i, c.cap);
    DestroyOne(c, n, slots);
  }

  lemma DestroyOne<T>(c: Core<T>, n: nat, slots: seq<Slot<T>>)
    requires Inv(c) && c.cpc.CIdle? && Destroyed(c, n, slots) && |c.popped| + n < |c.pushed|
    ensures slots[Position(|c.popped| + n, c.cap)].Live?
    ensures Destroyed(c, n + 1, slots[Position(|c.popped| + n, c.cap) := Dead])
  {
    OtherSlots(c, |c.popped| + n);
    assert SlotFor(c, |c.popped| + n).Live?;
  }

  lemma AllDestroyed<T>(c: Core<T>, slots: seq<Slot<T>>)
    requires Inv(c) && c.cpc.CIdle? && c.built.None?
    requires Destroyed(c, |c.pushed| - |c.popped|, slots)
    ensures forall j :: 0 <= j < |slots| ==> slots[j].Dead?
  {
    forall j | 0 <= j < |slots| ensures slots[j].Dead? {
      var i := SlotCovered(|c.popped|, j, c.cap);
      assert SlotFor(c, i) == if i < |c.pushed| then Live(c.pushed[i]) else Dead;
    }
  }

  /** `destroy_remaining`: walks from `tail` to `head` on the wrapping words and destroys each object
      while it is alive; afterwards the whole buffer is raw storage. */
  method DestroyRemaining<T>(buffer: array<Slot<T>>, tail: U64, head: U64, ghost c: Core<T>)
    returns (destroyed: nat)
    requires Quiet(c) && c.built.None?
    requires buffer[..] == c.slots && tail == c.tail && head == c.head
    modifies buffer
    ensures destroyed == |Pending(c)|
    ensures forall j :: 0 <= j < buffer.Length ==> buffer[j].Dead?
    ensures c.constructions == c.destructions + destroyed
  {
    hide Destroyed, SlotOk, StampOk, ClocksOk, Wrap, And, Position;
    var t := tail;
    destroyed := 0;
    NoneDestroyed(c);
    while t != head
      invariant destroyed <= |c.pushed| - |c.popped| && t == Wrap(|c.popped| + destroyed)
      invariant Destroyed(c, destroyed, buffer[..])
      decreases |c.pushed| - |c.popped| - destroyed
    {
      NextDestroyed(c, destroyed, t, buffer[..]);
      var j := And(t, buffer.Length - 1);
      assert buffer[j].Live?;
      buffer[j] := Dead;
      t := Inc64(t);
      destroyed := destroyed + 1;
    }
    WrappingDistance(|c.pushed|, |c.popped| + destroyed);
    AllDestroyed(c, buffer[..]);
  }

}
