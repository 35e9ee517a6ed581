/** The ring buffer class itself: counters and slots updated in place.

    A call that is not interrupted is a run of the protocol.  The ghost field `model` is the
    protocol's state, and every method says which run it performed. */
module SpscRingBuffer {
  import opened Words
  import opened RingCore
  import opened SpscProtocol
  import opened RingAlone

  class SpscRingBuffer<T> {
    var head: U64
    var tail: U64
    const buffer: array<Slot<T>>
    ghost var model: Spsc<T>

    ghost predicate Valid()
      reads this, buffer
    {
      && Idle(model)
      && model.core.cap == buffer.Length
      && model.core.head == head
      && model.core.tail == tail
      && model.core.slots == buffer[..]
    }

    /** The queued values, oldest first. */
    ghost function Contents(): seq<T>
      requires Valid()
      reads this, buffer
    {
      Pending(model.core)
    }

    /** The contents are what a walk over the slots from `tail` to `head` finds. */
    lemma ContentsAreInTheSlots(k: nat)
      requires Valid()
      ensures |Contents()| == Sub64(head, tail) <= buffer.Length
      ensures k < |Contents()| ==>
                buffer[And(Wrap(tail + k), buffer.Length - 1)] == Live(Contents()[k])
    {
      hide SlotOk, StampOk, ClocksOk, LifetimesOk, Wrap, And, Position;
      FullTest(model.core, |model.core.popped|);
      if k < |Contents()| { WalkAt(model.core, |model.core.popped|, k); }
    }

    constructor (capacity: nat)
      requires IsCapacity(capacity)
      ensures Valid() && fresh(buffer)
      ensures buffer.Length == capacity && Contents() == []
      ensures model == Init(capacity)
    {
      head := 0;
      tail := 0;
      buffer := new Slot<T>[capacity](_ => Dead);
      model := Init(capacity);
      EmptyInv<T>(capacity);
    }

    method SizeApprox() returns (n: nat)
      requires Valid()
      ensures n == |Contents()| <= buffer.Length
    {
      n := Sub64(head, tail);
      FullTest(model.core, |model.core.popped|);
    }

    method Full() returns (full: bool)
      requires Valid()
      ensures full <==> |Contents()| == buffer.Length
      ensures |Contents()| <= buffer.Length
    {
      var n := SizeApprox();
      full := n >= buffer.Length;
    }

    method IsEmpty() returns (empty: bool)
      requires Valid()
      ensures empty <==> Contents() == []
    {
      empty := head == tail;
      EmptyTest(model.core, |model.core.pushed|);
    }

    method TryEmplace(value: T) returns (ok: bool)
      requires Valid()
      modifies this, buffer
      ensures Valid()
      ensures ok <==> |old(Contents())| < buffer.Length
      ensures Contents() == if ok then old(Contents()) + [value] else old(Contents())
      ensures Runs(old(model), PushSchedule(old(model), value, ok), model) && model.pushResult == Some(ok)
    {
      hide Inv, Runs;
      ghost var accepted, after := PushAlone(model, value);
      model := after;
      var h := head;
      var t := tail;
      if Sub64(h, t) >= buffer.Length {
        return false;
      }
      buffer[And(h, buffer.Length - 1)] := Live(value);
      head := Inc64(h);
      ok := true;
    }

    method TryPop() returns (ok: bool, out: Option<T>)
      requires Valid()
      modifies this, buffer
      ensures Valid()
      ensures ok <==> old(Contents()) != []
      ensures ok ==> out == Some(old(Contents())[0]) && Contents() == old(Contents())[1..]
      ensures !ok ==> out == None && Contents() == old(Contents())
      ensures Runs(old(model), ByConsumer(PopSteps(old(model).core, ok)), model)
    {
      hide Inv;
      ghost var taken, after := PopAlone(model.core);
      LiftConsumer(model, PopSteps(model.core, taken), after);
      model := model.(core := after);
      var t := tail;
      var h := head;
      if t == h {
        return false, None;
      }
      var j := And(t, buffer.Length - 1);
      out := Some(buffer[j].value);
      buffer[j] := Dead;
      tail := Inc64(t);
      ok := true;
    }

    /** The destructor.  Exactly the queued objects are destroyed, so over the buffer's whole life every
        construction is matched by one destruction. */
    method Destroy() returns (destroyed: nat)
      requires Valid()
      modifies buffer
      ensures destroyed == |old(Contents())|
      ensures forall j :: 0 <= j < buffer.Length ==> buffer[j].Dead?
      ensures model.core.constructions == model.core.destructions + destroyed
    {
      hide Inv;
      destroyed := DestroyRemaining(buffer, tail, head, model.core);
    }
  }

  // ---------------------------------------------------------------- the runs of one call

  /** The steps of an uninterrupted `try_emplace`: it reads the newest store of `tail_`. */
  ghost function PushSchedule<T>(s: Spsc<T>, value: T, ok: bool): seq<Action<T>> {
    [PushBegin(value), PushLoadTail(|s.core.popped|)]
    + if ok then [PushConstruct, PushStore] else []
  }

  ghost function ByConsumer<T>(steps: seq<ConsumerAction>): seq<Action<T>> {
    seq(|steps|, i requires 0 <= i < |steps| => Consumer(steps[i]))
  }

  lemma {:induction false} RunsConcat<T>(s: Spsc<T>, a: seq<Action<T>>, s1: Spsc<T>, b: seq<Action<T>>, s2: Spsc<T>)
    requires Runs(s, a, s1) && Runs(s1, b, s2)
    ensures Runs(s, a + b, s2)
    decreases |a|
  {
    if a == [] {
      assert a + b == b;
    } else {
      assert (a + b)[1..] == a[1..] + b;
      RunsConcat(Step(s, a[0]), a[1..], s1, b, s2);
    }
  }

  lemma OneStep<T>(s: Spsc<T>, a: Action<T>)
    requires CanStep(s, a)
    ensures Runs(s, [a], Step(s, a))
  {
  }

  lemma TwoSteps<T>(s: Spsc<T>, a: Action<T>, b: Action<T>)
    requires CanStep(s, a) && CanStep(Step(s, a), b)
    ensures Runs(s, [a, b], Step(Step(s, a), b))
  {
    OneStep(s, a);
    OneStep(Step(s, a), b);
    assert [a] + [b] == [a, b];
    RunsConcat(s, [a], Step(s, a), [b], Step(Step(s, a), b));
  }

  /** No call is under way. */
  ghost predicate Idle<T>(s: Spsc<T>) { SpscInv(s) && s.ppc.PIdle? && s.core.cpc.CIdle? }

  /** The two loads of `try_emplace`, and what they decide. */
  lemma PushLoads<T>(s: Spsc<T>, value: T) returns (ok: bool, s': Spsc<T>)
    requires Idle(s)
    ensures Runs(s, [PushBegin(value), PushLoadTail(|s.core.popped|)], s')
    ensures SpscInv(s') && SameMemory(s.core, s'.core) && s'.core.cpc.CIdle?
    ensures ok <==> |s.core.pushed| - |s.core.popped| < s.core.cap
    ensures ok <==> Sub64(s.core.head, s.core.tail) < s.core.cap
    ensures s'.ppc == if ok then PClaimed(value, s.core.head) else PIdle
    ensures !ok ==> s'.pushResult == Some(false)
  {
    var a, b := PushBegin(value), PushLoadTail(|s.core.popped|);
    StepKeepsInv(s, a);
    FullTest(s.core, |s.core.popped|);
    StepKeepsInv(Step(s, a), b);
    TwoSteps(s, a, b);
    s' := Step(Step(s, a), b);
    ok := Sub64(s.core.head, s.core.tail) < s.core.cap;
  }

  /** The rest of a successful `try_emplace`. */
  lemma PushFinish<T>(s: Spsc<T>) returns (s': Spsc<T>)
    requires SpscInv(s) && s.ppc.PClaimed? && s.core.cpc.CIdle?
    ensures Runs(s, [PushConstruct, PushStore], s')
    ensures Idle(s') && s'.core.cap == s.core.cap && s'.core.tail == s.core.tail
    ensures s'.core.head == Inc64(s.core.head)
    ensures s'.core.slots == s.core.slots[And(s.core.head, s.core.cap - 1) := Live(s.ppc.value)]
    ensures s'.core.pushed == s.core.pushed + [s.ppc.value] && s'.core.popped == s.core.popped
    ensures s'.pushResult == Some(true)
  {
    StepKeepsInv(s, PushConstruct);
    StepKeepsInv(Step(s, PushConstruct), PushStore);
    TwoSteps(s, PushConstruct, PushStore);
    s' := Step(Step(s, PushConstruct), PushStore);
  }

  /** An uninterrupted `try_emplace` on the protocol's state. */
  lemma PushAlone<T>(s: Spsc<T>, value: T) returns (ok: bool, s': Spsc<T>)
    requires Idle(s)
    ensures Runs(s, PushSchedule(s, value, ok), s')
    ensures Idle(s') && s'.core.cap == s.core.cap && s'.core.tail == s.core.tail
    ensures s'.pushResult == Some(ok)
    ensures ok <==> |Pending(s.core)| < s.core.cap
    ensures ok <==> Sub64(s.core.head, s.core.tail) < s.core.cap
    ensures Pending(s'.core) == if ok then Pending(s.core) + [value] else Pending(s.core)
    ensures s'.core.head == if ok then Inc64(s.core.head) else s.core.head
    ensures s'.core.slots == if ok then s.core.slots[And(s.core.head, s.core.cap - 1) := Live(value)] else s.core.slots
  {
    hide Runs, Inv;
    PendingFits(s.core);
    var s2;
    ok, s2 := PushLoads(s, value);
    var loads := [PushBegin(value), PushLoadTail(|s.core.popped|)];
    if ok {
      s' := PushFinish(s2);
      RunsConcat(s, loads, s2, [PushConstruct, PushStore], s');
    } else {
      s' := s2;
      assert loads + [] == loads;
    }
  }

  /** The consumer's steps leave the producer alone. */
  lemma {:induction false} LiftConsumer<T>(s: Spsc<T>, steps: seq<ConsumerAction>, c: Core<T>)
    requires ConsumerRuns(s.core, steps, c)
    ensures Runs(s, ByConsumer(steps), s.(core := c))
    decreases |steps|
  {
    hide RingCore.Consume, CanConsume;
    if steps == [] {
    } else {
      assert ByConsumer<T>(steps)[1..] == ByConsumer<T>(steps[1..]);
      LiftConsumer(s.(core := RingCore.Consume(s.core, steps[0])), steps[1..], c);
    }
  }

}
