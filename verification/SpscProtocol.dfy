/** `SpscRingBuffer` as an interleaved two-thread protocol: `try_emplace` and `try_pop` cut into
    their atomic steps, every interleaving allowed, every stale read allowed. */
module SpscProtocol {
  import opened Words
  import opened RingCore

  /** Where the producer is inside `try_emplace`. */
  datatype ProducerPc<+T> =
    | PIdle
    | PLoadedHead(value: T, head: U64)
    | PClaimed(value: T, head: U64)
    | PBuilt(value: T, head: U64)

  datatype Spsc<T> = Spsc(
    core: Core<T>,
    ppc: ProducerPc<T>,
    pushResult: Option<bool>, // what the last `try_emplace` returned
    size: nat)                // what the producer's last `size_approx` returned

  datatype Action<T> =
    | PushBegin(value: T)
    | PushLoadTail(t: nat)
    | PushConstruct
    | PushStore
    | SizeLoadTail(t: nat)
    | Consumer(step: ConsumerAction)

  function Init<T>(cap: nat): Spsc<T> { Spsc(Empty(cap), PIdle, None, 0) }

  ghost predicate CanStep<T>(s: Spsc<T>, a: Action<T>) {
    match a
    case PushBegin(_) => s.ppc.PIdle?
    case PushLoadTail(t) => s.ppc.PLoadedHead? && CanLoadTail(s.core, t)
    case PushConstruct => s.ppc.PClaimed? && Shaped(s.core)
    case PushStore => s.ppc.PBuilt? && s.core.built.Some?
    case SizeLoadTail(t) => s.ppc.PIdle? && CanLoadTail(s.core, t)
    case Consumer(step) => CanConsume(s.core, step)
  }

  ghost function Step<T>(s: Spsc<T>, a: Action<T>): Spsc<T>
    requires CanStep(s, a)
  {
    match a
    case PushBegin(v) => s.(ppc := PLoadedHead(v, s.core.head))
    case PushLoadTail(t) =>
      var c := LoadTail(s.core, t);
      if Sub64(s.ppc.head, Wrap(t)) >= s.core.cap
      then s.(core := c, ppc := PIdle, pushResult := Some(false))
      else s.(core := c, ppc := PClaimed(s.ppc.value, s.ppc.head))
    case PushConstruct =>
      s.(core := Build(s.core, s.ppc.head, s.ppc.value), ppc := PBuilt(s.ppc.value, s.ppc.head))
    case PushStore =>
      s.(core := Publish(s.core, Inc64(s.ppc.head)), ppc := PIdle, pushResult := Some(true))
    case SizeLoadTail(t) =>
      s.(core := LoadTail(s.core, t), size := Sub64(s.core.head, Wrap(t)))
    case Consumer(step) => s.(core := Consume(s.core, step))
  }

  /** `acts` is a possible interleaving from s to s'. */
  ghost predicate Runs<T>(s: Spsc<T>, acts: seq<Action<T>>, s': Spsc<T>)
    decreases |acts|
  {
    if acts == [] then s' == s
    else CanStep(s, acts[0]) && Runs(Step(s, acts[0]), acts[1..], s')
  }

  // ---------------------------------------------------------------- invariant

  ghost predicate SpscInv<T>(s: Spsc<T>) {
    && Inv(s.core)
    && (!s.ppc.PIdle? ==> s.ppc.head == s.core.head)
    && (s.ppc.PClaimed? ==> |s.core.pushed| < s.core.seenTail + s.core.cap)
    && s.core.built == (if s.ppc.PBuilt? then Some(s.ppc.value) else None)
  }

  lemma StepKeepsInv<T>(s: Spsc<T>, a: Action<T>)
    requires SpscInv(s) && CanStep(s, a)
    ensures SpscInv(Step(s, a))
  {
    match a
    case PushBegin(v) =>
    case PushLoadTail(t) => LoadTailKeepsInv(s.core, t); FullTest(s.core, t);
    case PushConstruct => BuildKeepsInv(s.core, s.ppc.value);
    case PushStore => PublishKeepsInv(s.core);
    case SizeLoadTail(t) => LoadTailKeepsInv(s.core, t);
    case Consumer(step) => ConsumeKeepsInv(s.core, step);
  }

  lemma {:induction false} RunKeepsInv<T>(s: Spsc<T>, acts: seq<Action<T>>, s': Spsc<T>)
    requires SpscInv(s) && Runs(s, acts, s')
    ensures SpscInv(s')
    decreases |acts|
  {
    if acts == [] {
    } else {
      StepKeepsInv(s, acts[0]);
      RunKeepsInv(Step(s, acts[0]), acts[1..], s');
    }
  }

  // ---------------------------------------------------------------- theorems over every run

  /** The object the producer is about to construct goes into raw storage; nobody races for it; and
      while both threads are inside the buffer they are in different slots. */
  ghost predicate ProducerSafe<T>(s: Spsc<T>)
    requires Shaped(s.core)
  {
    var inside := s.ppc.PClaimed? || s.ppc.PBuilt?;
    && (s.ppc.PClaimed? ==>
          var j := SlotIndex(s.core, s.ppc.head);
          s.core.slots[j].Dead? && ProducerRaceFree(s.core, j))
    && (inside && (s.core.cpc.CClaimed? || HoldsValue(s.core.cpc)) ==>
          SlotIndex(s.core, s.ppc.head) != SlotIndex(s.core, s.core.cpc.tail))
  }

  /** In every interleaving, with every stale read: the values pushed are the values popped, then
      the one being popped, then the buffer's contents in order; the buffer never overflows; and
      every slot access is legal and free of data races. */
  lemma EveryRunIsFifo<T>(cap: nat, acts: seq<Action<T>>, s: Spsc<T>)
    requires IsCapacity(cap) && Runs(Init(cap), acts, s)
    ensures Inv(s.core) && s.core.cap == cap
    ensures s.core.pushed == s.core.popped + InFlight(s.core) + Queue(s.core)
    ensures |InFlight(s.core)| + |Queue(s.core)| <= cap
    ensures ProducerSafe(s) && ConsumerSafe(s.core)
  {
    EmptyInv<T>(cap);
    RunKeepsInv(Init(cap), acts, s);
    RunKeepsCapacity(Init(cap), acts, s);
    Fifo(s.core);
    ConsumerIsSafe(s.core);
    if s.ppc.PClaimed? || s.ppc.PBuilt? { ProducerSlot(s.core); }
  }

  lemma {:induction false} RunKeepsCapacity<T>(s: Spsc<T>, acts: seq<Action<T>>, s': Spsc<T>)
    requires Runs(s, acts, s')
    ensures s'.core.cap == s.core.cap
    decreases |acts|
  {
    if acts == [] {
    } else {
      RunKeepsCapacity(Step(s, acts[0]), acts[1..], s');
    }
  }

  lemma StepHistory<T>(s: Spsc<T>, a: Action<T>)
    requires CanStep(s, a)
    ensures var c, c' := s.core, Step(s, a).core;
            && c'.pushed == (if a.PushStore? then c.pushed + [c.built.value] else c.pushed)
            && c'.popped == (if a == Consumer(StoreTail) then c.popped + [c.cpc.out] else c.popped)
  {
  }

  /** Each step is one step of a bounded FIFO or none: the store of `head_` enqueues the value the
      call began with, the store of `tail_` dequeues the front and returns it, nothing else changes
      the queue. */
  lemma StepRefinesFifo<T>(s: Spsc<T>, a: Action<T>)
    requires SpscInv(s) && CanStep(s, a)
    ensures SpscInv(Step(s, a))
    ensures a.PushStore? ==>
              |Pending(s.core)| < s.core.cap && Pending(Step(s, a).core) == Pending(s.core) + [s.ppc.value]
    ensures a == Consumer(StoreTail) ==> Pending(s.core) == [s.core.cpc.out] + Pending(Step(s, a).core)
    ensures !a.PushStore? && a != Consumer(StoreTail) ==> Pending(Step(s, a).core) == Pending(s.core)
  {
    hide SlotOk, StampOk, ClocksOk, LifetimesOk, Wrap, And;
    StepKeepsInv(s, a);
    StepHistory(s, a);
  }

  /** A push returns false exactly when `cap` values lay between the head and the store of `tail_` it
      read, and is otherwise still under way; if it read the newest store, exactly when the queue is
      full at that load. */
  lemma PushOutcome<T>(s: Spsc<T>, t: nat)
    requires SpscInv(s) && CanStep(s, PushLoadTail(t))
    ensures var s' := Step(s, PushLoadTail(t));
            && (s'.ppc.PIdle? && s'.pushResult == Some(false) <==> |s.core.pushed| - t == s.core.cap)
            && (s'.ppc == PClaimed(s.ppc.value, s.core.head) <==> |s.core.pushed| - t < s.core.cap)
    ensures t == |s.core.popped| ==>
              (Step(s, PushLoadTail(t)).pushResult == Some(false) && Step(s, PushLoadTail(t)).ppc.PIdle?
               <==> |Pending(s.core)| == s.core.cap)
  {
    FullTest(s.core, t);
  }

  /** What `try_emplace` returns is what it did: from its first step to its return, whatever the consumer
      does meanwhile, it pushed its argument and returned true, or pushed nothing and returned false. */
  lemma PushReturns<T>(s: Spsc<T>, value: T, acts: seq<Action<T>>, s': Spsc<T>)
    requires SpscInv(s) && CanStep(s, PushBegin(value)) && Runs(Step(s, PushBegin(value)), acts, s')
    requires (forall i :: 0 <= i < |acts| ==> !acts[i].PushBegin?) && s'.ppc.PIdle?
    ensures s'.pushResult == Some(true) || s'.pushResult == Some(false)
    ensures s'.core.pushed == if s'.pushResult == Some(true) then s.core.pushed + [value] else s.core.pushed
  {
    hide Inv;
    StepKeepsInv(s, PushBegin(value));
    PushUnderWay(Step(s, PushBegin(value)), acts, s');
  }

  /** The same from any point of the call on; without a call, nothing is pushed and the answer stands. */
  lemma {:induction false} PushUnderWay<T>(s: Spsc<T>, acts: seq<Action<T>>, s': Spsc<T>)
    requires SpscInv(s) && Runs(s, acts, s') && forall i :: 0 <= i < |acts| ==> !acts[i].PushBegin?
    ensures s.ppc.PIdle? ==>
              s'.ppc.PIdle? && s'.pushResult == s.pushResult && s'.core.pushed == s.core.pushed
    ensures !s.ppc.PIdle? && !s'.ppc.PIdle? ==> s'.core.pushed == s.core.pushed && s'.ppc.value == s.ppc.value
    ensures !s.ppc.PIdle? && s'.ppc.PIdle? ==>
              || (s'.pushResult == Some(true) && s'.core.pushed == s.core.pushed + [s.ppc.value])
              || (s'.pushResult == Some(false) && s'.core.pushed == s.core.pushed)
    decreases |acts|
  {
    hide Inv;
    if acts == [] {
    } else {
      assert !acts[0].PushBegin?;
      StepKeepsInv(s, acts[0]);
      StepHistory(s, acts[0]);
      PushUnderWay(Step(s, acts[0]), acts[1..], s');
    }
  }

  /** A pop gives up exactly when the store of `head_` it read equals its position; if it read the
      newest store, exactly when the queue is empty at that load. */
  lemma PopOutcome<T>(s: Spsc<T>, h: nat)
    requires SpscInv(s) && CanStep(s, Consumer(PopLoadHead(h)))
    ensures Step(s, Consumer(PopLoadHead(h))).core.cpc.CIdle? <==> h == |s.core.popped|
    ensures h == |s.core.pushed| ==>
              (Step(s, Consumer(PopLoadHead(h))).core.cpc.CIdle? <==> Pending(s.core) == [])
  {
    EmptyTest(s.core, h);
  }

  /** `size_approx` is the distance to the store it read; it stays in 0..Capacity for either thread, and
      never under-reports to the producer nor over-reports to the consumer. */
  lemma SizeIsBounded<T>(s: Spsc<T>, t: nat, h: nat)
    requires SpscInv(s) && CanStep(s, SizeLoadTail(t))
    requires s.core.seenHead <= h <= |s.core.pushed|
    ensures Step(s, SizeLoadTail(t)).size == |s.core.pushed| - t
    ensures |Pending(s.core)| <= Step(s, SizeLoadTail(t)).size <= s.core.cap
    ensures Sub64(Wrap(h), s.core.tail) <= |Pending(s.core)|
  {
    FullTest(s.core, t);
    ConsumerSize(s.core, h);
  }

  // ---------------------------------------------------------------- progress

  /** The step `try_emplace` takes next; t is the store of `tail_` a load would read. */
  function ProducerNext<T>(pc: ProducerPc<T>, value: T, t: nat): Action<T> {
    match pc
    case PIdle => PushBegin(value)
    case PLoadedHead(_, _) => PushLoadTail(t)
    case PClaimed(_, _) => PushConstruct
    case PBuilt(_, _) => PushStore
  }

  /** An upper bound on the steps left in the call the producer is in. */
  function ProducerRank<T>(pc: ProducerPc<T>): nat {
    match pc
    case PIdle => 0
    case PLoadedHead(_, _) => 3
    case PClaimed(_, _) => 2
    case PBuilt(_, _) => 1
  }

  /** Neither thread ever waits for the other: whatever store its load returns, the next step of its
      code is possible, and brings its call closer to its end. */
  lemma NeitherThreadBlocks<T>(s: Spsc<T>, value: T, t: nat, h: nat)
    requires SpscInv(s) && s.core.seenTail <= t <= |s.core.popped| && s.core.seenHead <= h <= |s.core.pushed|
    ensures var a := ProducerNext(s.ppc, value, t);
            CanStep(s, a) && (!s.ppc.PIdle? ==> ProducerRank(Step(s, a).ppc) < ProducerRank(s.ppc))
    ensures var a := ConsumerNext(s.core.cpc, h);
            && CanStep(s, Consumer(a))
            && (!s.core.cpc.CIdle? ==> ConsumerRank(Consume(s.core, a).cpc) < ConsumerRank(s.core.cpc))
  {
    ConsumerNeverBlocks(s.core, h);
  }

  function ProducerSteps<T>(acts: seq<Action<T>>): nat {
    if acts == [] then 0 else (if acts[0].Consumer? then 0 else 1) + ProducerSteps(acts[1..])
  }

  /** Wait freedom: however the consumer's steps fall between them, a `try_emplace` that has begun
      returns within three more steps of its own. */
  lemma {:induction false} PushIsWaitFree<T>(s: Spsc<T>, acts: seq<Action<T>>, s': Spsc<T>)
    requires Runs(s, acts, s')
    requires forall i :: 0 <= i < |acts| ==> !acts[i].PushBegin? && !acts[i].SizeLoadTail?
    ensures ProducerSteps(acts) + ProducerRank(s'.ppc) <= ProducerRank(s.ppc) <= 3
    decreases |acts|
  {
    if acts == [] {
    } else {
      assert !acts[0].PushBegin? && !acts[0].SizeLoadTail?;
      PushIsWaitFree(Step(s, acts[0]), acts[1..], s');
    }
  }

  function ConsumerSteps<T>(acts: seq<Action<T>>): nat {
    if acts == [] then 0 else (if acts[0].Consumer? then 1 else 0) + ConsumerSteps(acts[1..])
  }

  /** And a `try_pop` that has begun, within four. */
  lemma {:induction false} PopIsWaitFree<T>(s: Spsc<T>, acts: seq<Action<T>>, s': Spsc<T>)
    requires Runs(s, acts, s')
    requires forall i :: 0 <= i < |acts| && acts[i].Consumer? ==>
               !acts[i].step.PopBegin? && !acts[i].step.SizeLoadHead?
    ensures ConsumerSteps(acts) + ConsumerRank(s'.core.cpc) <= ConsumerRank(s.core.cpc) <= 4
    decreases |acts|
  {
    if acts == [] {
    } else {
      assert acts[0].Consumer? ==> !acts[0].step.PopBegin? && !acts[0].step.SizeLoadHead?;
      PopIsWaitFree(Step(s, acts[0]), acts[1..], s');
    }
  }

}
