/** `ZeroCopySpsc` and its `Reservation` objects as an interleaved protocol.  Each step makes at most
    one access to memory the threads share.

    Reservation objects are identified by handles of an arbitrary type H. */
module ZeroCopyProtocol {
  import opened Words
  import opened RingCore

  /** The fields of a `Reservation`: `queue` says that `queue_` is not null. */
  datatype Reservation = Reservation(queue: bool, index: U64, ptr: Option<nat>, constructed: bool)

  /** Where the producer is inside an operation on the queue or on a reservation. */
  datatype ProducerPc<+T, +H> =
    | ZIdle
    | ZFlagged(into: H)                     // try_reserve has set the flag
    | ZLoadedHead(into: H, head: U64)       // try_reserve has loaded head_
    | ZNoRoom                               // try_reserve is about to clear the flag again
    | ZConstructing(r: H, value: T)         // construct has disposed of an earlier object
    | ZCommitting(r: H)                     // commit has stored head_
    | ZCancelling(r: H, source: Option<H>)    // cancel has destroyed the object; then move from `source`

  datatype ZeroCopy<T, !H> = ZeroCopy(
    core: Core<T>,
    active: bool,
    res: map<H, Reservation>,
    pc: ProducerPc<T, H>,
    // history: the reservation whose `queue_` is set, and the last value constructed
    holder: Option<H>,
    latest: Option<T>)

  function Init<T, H>(cap: nat): ZeroCopy<T, H> { ZeroCopy(Empty(cap), false, map[], ZIdle, None, None) }

  function Emptied(r: Reservation): Reservation { r.(queue := false, ptr := None, constructed := false) }

  datatype Action<T, H> =
    | Reserve(into: H)
    | ReserveLoadHead
    | ReserveLoadTail(t: nat)
    | ReserveRelease
    | Construct(r: H, value: T)
    | ConstructObject
    | Commit(r: H)
    | CommitRelease
    | Cancel(r: H)
    | CancelRelease
    | MoveConstruct(from: H, into: H)
    | MoveAssign(from: H, onto: H)
    | Consumer(step: ConsumerAction)

  ghost predicate CanStep<T, H>(s: ZeroCopy<T, H>, a: Action<T, H>) {
    Shaped(s.core) &&
    match a
    case Reserve(into) => s.pc.ZIdle? && into !in s.res
    case ReserveLoadHead => s.pc.ZFlagged?
    case ReserveLoadTail(t) => s.pc.ZLoadedHead? && CanLoadTail(s.core, t)
    case ReserveRelease => s.pc.ZNoRoom?
    // the source dereferences `ptr_` here, so its callers must hold a reservation
    case Construct(r, _) => s.pc.ZIdle? && r in s.res && s.res[r].queue
    case ConstructObject => s.pc.ZConstructing? && s.pc.r in s.res
    case Commit(r) => s.pc.ZIdle? && r in s.res && (s.res[r].queue && s.res[r].constructed ==> s.core.built.Some?)
    case CommitRelease => s.pc.ZCommitting? && s.pc.r in s.res
    case Cancel(r) => s.pc.ZIdle? && r in s.res
    case CancelRelease => s.pc.ZCancelling? && s.pc.r in s.res && (s.pc.source.Some? ==> s.pc.source.value in s.res)
    case MoveConstruct(from, into) => s.pc.ZIdle? && from in s.res && into !in s.res
    case MoveAssign(from, onto) => s.pc.ZIdle? && from in s.res && onto in s.res && from != onto
    case Consumer(step) => CanConsume(s.core, step)
  }

  /** `move_from`: the target takes over every field, the source is left empty. */
  ghost function Move<T, H>(s: ZeroCopy<T, H>, from: H, into: H): ZeroCopy<T, H>
    requires from in s.res && from != into
  {
    s.(res := s.res[into := s.res[from]][from := Emptied(s.res[from])],
       holder := if s.holder == Some(from) then Some(into) else s.holder,
       pc := ZIdle)
  }

  /** The part of `cancel` before the flag is cleared. */
  ghost function BeginCancel<T, H>(s: ZeroCopy<T, H>, r: H, source: Option<H>): ZeroCopy<T, H>
    requires Shaped(s.core) && r in s.res && s.res[r].queue
  {
    s.(core := if s.res[r].constructed then Unbuild(s.core, s.res[r].index) else s.core,
       pc := ZCancelling(r, source))
  }

  ghost function Release<T, H>(s: ZeroCopy<T, H>, r: H): ZeroCopy<T, H>
    requires r in s.res
  {
    s.(active := false, res := s.res[r := Emptied(s.res[r])], holder := None, pc := ZIdle)
  }

  ghost function Step<T, H>(s: ZeroCopy<T, H>, a: Action<T, H>): ZeroCopy<T, H>
    requires CanStep(s, a)
  {
    match a
    case Reserve(into) => if s.active then s else s.(active := true, pc := ZFlagged(into))
    case ReserveLoadHead => s.(pc := ZLoadedHead(s.pc.into, s.core.head))
    case ReserveLoadTail(t) =>
      var s' := s.(core := LoadTail(s.core, t));
      if Sub64(s.pc.head, Wrap(t)) >= s.core.cap then s'.(pc := ZNoRoom)
      else
        var r := Reservation(true, s.pc.head, Some(SlotIndex(s.core, s.pc.head)), false);
        s'.(res := s.res[s.pc.into := r], holder := Some(s.pc.into), pc := ZIdle)
    case ReserveRelease => s.(active := false, pc := ZIdle)
    case Construct(r, v) =>
      s.(core := if s.res[r].constructed then Unbuild(s.core, s.res[r].index) else s.core,
         res := s.res[r := s.res[r].(constructed := false)],
         pc := ZConstructing(r, v))
    case ConstructObject =>
      var r := s.pc.r;
      s.(core := Build(s.core, s.res[r].index, s.pc.value),
         res := s.res[r := s.res[r].(constructed := true)],
         pc := ZIdle, latest := Some(s.pc.value))
    case Commit(r) =>
      if !s.res[r].queue || !s.res[r].constructed then s
      else s.(core := Publish(s.core, Inc64(s.res[r].index)), pc := ZCommitting(r))
    case CommitRelease => Release(s, s.pc.r)
    case Cancel(r) => if !s.res[r].queue then s else BeginCancel(s, r, None)
    case CancelRelease =>
      var s' := Release(s, s.pc.r);
      if s.pc.source.Some? && s.pc.source.value != s.pc.r then Move(s', s.pc.source.value, s.pc.r) else s'
    case MoveConstruct(from, into) => Move(s, from, into)
    case MoveAssign(from, onto) =>
      if !s.res[onto].queue then Move(s, from, onto) else BeginCancel(s, onto, Some(from))
    case Consumer(step) => s.(core := Consume(s.core, step))
  }

  ghost predicate Runs<T, H>(s: ZeroCopy<T, H>, acts: seq<Action<T, H>>, s': ZeroCopy<T, H>)
    decreases |acts|
  {
    if acts == [] then s' == s
    else CanStep(s, acts[0]) && Runs(Step(s, acts[0]), acts[1..], s')
  }

  lemma {:induction false} RunsConcat<T, H>(
      s: ZeroCopy<T, H>, a: seq<Action<T, H>>, s1: ZeroCopy<T, H>, b: seq<Action<T, H>>, s2: ZeroCopy<T, H>)
    requires Runs(s, a, s1) && Runs(s1, b, s2)
    ensures Runs(s, a + b, s2)
    decreases |a|
  {
    hide CanStep, Step;
    if a == [] {
      assert a + b == b;
    } else {
      assert (a + b)[1..] == a[1..] + b;
      RunsConcat(Step(s, a[0]), a[1..], s1, b, s2);
    }
  }

  lemma OneStep<T, H>(s: ZeroCopy<T, H>, a: Action<T, H>)
    requires CanStep(s, a)
    ensures Runs(s, [a], Step(s, a))
  {
    hide CanStep, Step;
    assert [a][1..] == [];
  }

  // ---------------------------------------------------------------- invariant

  /** The producer is inside `try_reserve`, past the flag. */
  ghost predicate Reserving<T, H>(pc: ProducerPc<T, H>) { pc.ZFlagged? || pc.ZLoadedHead? || pc.ZNoRoom? }

  /** The reservation h, before `commit` stores `head_`: it stands on the head slot. */
  ghost predicate Holding<T, H>(s: ZeroCopy<T, H>, h: H)
    requires Shaped(s.core)
  {
    && h in s.res
    && s.res[h].index == s.core.head
    && s.res[h].ptr == Some(SlotIndex(s.core, s.core.head))
    && |s.core.pushed| < s.core.seenTail + s.core.cap
    && (s.core.built.Some? <==> s.res[h].constructed && !s.pc.ZCancelling?)
    && (s.core.built.Some? ==> s.core.built == s.latest)
  }

  ghost predicate PcOk<T, H>(s: ZeroCopy<T, H>) {
    match s.pc
    case ZIdle => true
    case ZFlagged(into) => into !in s.res
    case ZLoadedHead(into, head) => into !in s.res && head == s.core.head
    case ZNoRoom => true
    case ZConstructing(r, _) => s.holder == Some(r) && r in s.res && !s.res[r].constructed
    case ZCommitting(r) => s.holder == Some(r) && r in s.res
    case ZCancelling(r, source) =>
      s.holder == Some(r) && r in s.res && (source.Some? ==> source.value in s.res && source.value != r)
  }

  ghost predicate ZInv<T, H>(s: ZeroCopy<T, H>) {
    && Inv(s.core)
    && (forall r :: r in s.res ==> (s.res[r].queue <==> s.holder == Some(r)))
    && (forall r :: r in s.res && !s.res[r].queue ==> !s.res[r].constructed && s.res[r].ptr == None)
    && (s.active <==> s.holder.Some? || Reserving(s.pc))
    && !(s.holder.Some? && Reserving(s.pc))
    && (s.holder.Some? ==> s.holder.value in s.res)
    && (s.holder.None? || s.pc.ZCommitting? ==> s.core.built.None?)
    && (s.holder.Some? && !s.pc.ZCommitting? ==> Holding(s, s.holder.value))
    && PcOk(s)
  }

  lemma InitInv<T, H>(cap: nat)
    requires IsCapacity(cap)
    ensures ZInv(Init<T, H>(cap))
  {
    EmptyInv<T>(cap);
  }

  lemma ReserveKeepsInv<T, H>(s: ZeroCopy<T, H>, a: Action<T, H>)
    requires ZInv(s) && CanStep(s, a)
    requires a.Reserve? || a.ReserveLoadHead? || a.ReserveLoadTail? || a.ReserveRelease?
    ensures ZInv(Step(s, a))
  {
    hide SlotOk, StampOk, ClocksOk, LifetimesOk, Wrap, And;
    if a.ReserveLoadTail? {
      LoadTailKeepsInv(s.core, a.t);
      FullTest(s.core, a.t);
    }
  }

  lemma ConstructKeepsInv<T, H>(s: ZeroCopy<T, H>, a: Action<T, H>)
    requires ZInv(s) && CanStep(s, a)
    requires a.Construct? || a.ConstructObject?
    ensures ZInv(Step(s, a))
  {
    hide SlotOk, StampOk, ClocksOk, LifetimesOk, Wrap, And;
    if a.Construct? {
      if s.res[a.r].constructed { UnbuildKeepsInv(s.core); }
    } else {
      BuildKeepsInv(s.core, s.pc.value);
    }
  }

  lemma CommitKeepsInv<T, H>(s: ZeroCopy<T, H>, a: Action<T, H>)
    requires ZInv(s) && CanStep(s, a)
    requires a.Commit? || a.CommitRelease?
    ensures ZInv(Step(s, a))
  {
    if a.Commit? && s.res[a.r].queue && s.res[a.r].constructed { PublishKeepsInv(s.core); }
  }

  lemma MoveKeepsInv<T, H>(s: ZeroCopy<T, H>, from: H, into: H)
    requires ZInv(s) && s.pc.ZIdle? && from in s.res && from != into
    requires into in s.res ==> !s.res[into].queue
    ensures ZInv(Move(s, from, into))
  {
  }

  lemma BeginCancelKeepsInv<T, H>(s: ZeroCopy<T, H>, r: H, source: Option<H>)
    requires ZInv(s) && s.pc.ZIdle? && r in s.res && s.res[r].queue
    requires source.Some? ==> source.value in s.res && source.value != r
    ensures ZInv(BeginCancel(s, r, source))
  {
    if s.res[r].constructed { UnbuildKeepsInv(s.core); }
  }

  lemma CancelReleaseKeepsInv<T, H>(s: ZeroCopy<T, H>)
    requires ZInv(s) && s.pc.ZCancelling?
    ensures ZInv(Release(s, s.pc.r))
  {
  }

  lemma StepKeepsInv<T, H>(s: ZeroCopy<T, H>, a: Action<T, H>)
    requires ZInv(s) && CanStep(s, a)
    ensures ZInv(Step(s, a))
  {
    match a
    case Reserve(_) => ReserveKeepsInv(s, a);
    case ReserveLoadHead => ReserveKeepsInv(s, a);
    case ReserveLoadTail(_) => ReserveKeepsInv(s, a);
    case ReserveRelease => ReserveKeepsInv(s, a);
    case Construct(_, _) => ConstructKeepsInv(s, a);
    case ConstructObject => ConstructKeepsInv(s, a);
    case Commit(_) => CommitKeepsInv(s, a);
    case CommitRelease => CommitKeepsInv(s, a);
    case Cancel(r) => if s.res[r].queue { BeginCancelKeepsInv(s, r, None); }
    case CancelRelease =>
      CancelReleaseKeepsInv(s);
      if s.pc.source.Some? { MoveKeepsInv(Release(s, s.pc.r), s.pc.source.value, s.pc.r); }
    case MoveConstruct(from, into) => MoveKeepsInv(s, from, into);
    case MoveAssign(from, onto) =>
      if s.res[onto].queue { BeginCancelKeepsInv(s, onto, Some(from)); } else { MoveKeepsInv(s, from, onto); }
    case Consumer(step) => ConsumerKeepsInv(s, step);
  }

  lemma ConsumerKeepsInv<T, H>(s: ZeroCopy<T, H>, step: ConsumerAction)
    requires ZInv(s) && CanConsume(s.core, step)
    ensures ZInv(s.(core := Consume(s.core, step)))
  {
    hide SlotOk, StampOk, ClocksOk, LifetimesOk, Wrap, And;
    ConsumeKeepsInv(s.core, step);
  }

  lemma {:induction false} RunKeepsInv<T, H>(s: ZeroCopy<T, H>, acts: seq<Action<T, H>>, s': ZeroCopy<T, H>)
    requires ZInv(s) && Runs(s, acts, s')
    ensures ZInv(s')
    decreases |acts|
  {
    if acts == [] {
    } else {
      StepKeepsInv(s, acts[0]);
      RunKeepsInv(Step(s, acts[0]), acts[1..], s');
    }
  }

  // ---------------------------------------------------------------- theorems over every run

  /** No two reservations are live at once. */
  ghost predicate AtMostOne<T, H>(s: ZeroCopy<T, H>) {
    forall r1, r2 :: r1 in s.res && r2 in s.res && s.res[r1].queue && s.res[r2].queue ==> r1 == r2
  }

  /** A live reservation that has not published stands at `head_`, on a slot that holds no committed
      value and that the consumer is not in; the slot is raw exactly when nothing is constructed, so
      objects are only ever constructed in raw storage. */
  ghost predicate OutOfReach<T, H>(s: ZeroCopy<T, H>, r: H)
    requires Shaped(s.core) && r in s.res
  {
    s.res[r].queue && s.pc != ZCommitting(r) ==>
      && s.res[r].index == s.core.head
      && s.res[r].ptr == Some(SlotIndex(s.core, s.core.head))
      && (forall i :: |s.core.popped| <= i < |s.core.pushed| ==> Position(i, s.core.cap) != s.res[r].ptr.value)
      && (s.core.cpc.CClaimed? || HoldsValue(s.core.cpc) ==> SlotIndex(s.core, s.core.cpc.tail) != s.res[r].ptr.value)
      && ProducerRaceFree(s.core, s.res[r].ptr.value)
      && s.core.slots[s.res[r].ptr.value]
         == (if s.res[r].constructed && !s.pc.ZCancelling? && s.latest.Some? then Live(s.latest.value) else Dead)
      && (s.pc.ZConstructing? ==> s.core.slots[s.res[r].ptr.value].Dead?)
  }

  /** In every run: one reservation at a time, out of the consumer's reach until it is committed; the
      consumer sees only committed values, in order, and never touches a slot illegally. */
  lemma EveryRunKeepsReservationsApart<T, H>(cap: nat, acts: seq<Action<T, H>>, s: ZeroCopy<T, H>)
    requires IsCapacity(cap) && Runs(Init(cap), acts, s)
    ensures Inv(s.core) && s.core.cap == cap && AtMostOne(s)
    ensures forall r :: r in s.res ==> OutOfReach(s, r)
    ensures s.core.pushed == s.core.popped + InFlight(s.core) + Queue(s.core)
    ensures |InFlight(s.core)| + |Queue(s.core)| <= cap
    ensures ConsumerSafe(s.core)
  {
    InitInv<T, H>(cap);
    RunKeepsInv(Init(cap), acts, s);
    RunKeepsCapacity(Init(cap), acts, s);
    Fifo(s.core);
    ConsumerIsSafe(s.core);
    forall r | r in s.res ensures OutOfReach(s, r) { LiveIsOutOfReach(s, r); }
  }

  lemma {:induction false} RunKeepsCapacity<T, H>(s: ZeroCopy<T, H>, acts: seq<Action<T, H>>, s': ZeroCopy<T, H>)
    requires Runs(s, acts, s')
    ensures s'.core.cap == s.core.cap
    decreases |acts|
  {
    if acts == [] {
    } else {
      RunKeepsCapacity(Step(s, acts[0]), acts[1..], s');
    }
  }

  lemma LiveIsOutOfReach<T, H>(s: ZeroCopy<T, H>, r: H)
    requires ZInv(s) && r in s.res
    ensures OutOfReach(s, r)
  {
    if s.res[r].queue && s.pc != ZCommitting(r) {
      ProducerSlot(s.core);
      OtherSlots(s.core, |s.core.pushed|);
    }
  }

  /** Each step is one step of a bounded FIFO or none: `commit` enqueues the value constructed last,
      a successful consume dequeues the front, reserving, constructing, moving and cancelling leave
      the queue alone. */
  lemma StepRefinesFifo<T, H>(s: ZeroCopy<T, H>, a: Action<T, H>)
    requires ZInv(s) && CanStep(s, a)
    ensures ZInv(Step(s, a))
    ensures var commits := a.Commit? && s.res[a.r].queue && s.res[a.r].constructed;
            if commits then
              s.latest.Some? && |Pending(s.core)| < s.core.cap
              && Pending(Step(s, a).core) == Pending(s.core) + [s.latest.value]
            else if a == Consumer(StoreTail) then Pending(s.core) == [s.core.cpc.out] + Pending(Step(s, a).core)
            else Pending(Step(s, a).core) == Pending(s.core)
  {
    hide SlotOk, StampOk, ClocksOk, LifetimesOk, Wrap, And;
    StepKeepsInv(s, a);
    StepHistory(s, a);
  }

  lemma StepHistory<T, H>(s: ZeroCopy<T, H>, a: Action<T, H>)
    requires CanStep(s, a)
    ensures var c, c' := s.core, Step(s, a).core;
            && c'.pushed == (if a.Commit? && s.res[a.r].queue && s.res[a.r].constructed
                             then c.pushed + [c.built.value] else c.pushed)
            && c'.popped == (if a == Consumer(StoreTail) then c.popped + [c.cpc.out] else c.popped)
  {
  }

  /** Constructions and destructions balance: when no reservation is live and the consumer is idle,
      the objects not yet destroyed are exactly the queued ones. */
  lemma ObjectsBalance<T, H>(cap: nat, acts: seq<Action<T, H>>, s: ZeroCopy<T, H>)
    requires IsCapacity(cap) && Runs(Init(cap), acts, s)
    requires s.holder.None? && s.core.cpc.CIdle?
    ensures Inv(s.core)
    ensures s.core.constructions == s.core.destructions + |Queue(s.core)|
  {
    InitInv<T, H>(cap);
    RunKeepsInv(Init(cap), acts, s);
    Fifo(s.core);
  }

  // ---------------------------------------------------------------- progress

  /** The step the code takes next inside an operation; t is the store of `tail_` a load would read. */
  function ProducerNext<T, H>(pc: ProducerPc<T, H>, t: nat): Action<T, H>
    requires !pc.ZIdle?
  {
    match pc
    case ZFlagged(_) => ReserveLoadHead
    case ZLoadedHead(_, _) => ReserveLoadTail(t)
    case ZNoRoom => ReserveRelease
    case ZConstructing(_, _) => ConstructObject
    case ZCommitting(_) => CommitRelease
    case ZCancelling(_, _) => CancelRelease
  }

  function ProducerRank<T, H>(pc: ProducerPc<T, H>): nat {
    match pc
    case ZIdle => 0
    case ZFlagged(_) => 3
    case ZLoadedHead(_, _) => 2
    case _ => 1
  }

  /** The guards of the steps hide nothing: `construct` may be called on a live reservation, `commit`
      and `cancel` on any, and every operation once begun goes on to its end. */
  lemma ProducerNeverBlocks<T, H>(s: ZeroCopy<T, H>, r: H, value: T, t: nat)
    requires ZInv(s) && s.core.seenTail <= t <= |s.core.popped|
    ensures s.pc.ZIdle? && r !in s.res ==> CanStep(s, Reserve(r))
    ensures s.pc.ZIdle? && r in s.res ==>
              CanStep(s, Commit(r)) && CanStep(s, Cancel(r)) && (s.res[r].queue ==> CanStep(s, Construct(r, value)))
    ensures !s.pc.ZIdle? ==>
              var a := ProducerNext(s.pc, t);
              CanStep(s, a) && ProducerRank(Step(s, a).pc) < ProducerRank(s.pc)
  {
    hide SlotOk, StampOk;
  }

}
