/** Uninterrupted calls on the zero-copy queue and its reservations, as runs of the protocol. */
module ZeroCopyAlone {
  import opened Words
  import opened RingCore
  import opened RingAlone
  import opened ZeroCopyProtocol

  /** No call is under way. */
  ghost predicate Idle<T, H>(s: ZeroCopy<T, H>) { ZInv(s) && s.pc.ZIdle? && s.core.cpc.CIdle? }

  lemma IdleCounts<T, H>(s: ZeroCopy<T, H>)
    requires Idle(s)
    ensures |s.core.popped| <= |s.core.pushed|
  {
  }

  lemma IdleShape<T, H>(s: ZeroCopy<T, H>)
    requires Idle(s)
    ensures Shaped(s.core) && |s.core.popped| <= |s.core.pushed|
    ensures s.active <==> s.holder.Some?
    ensures s.holder.Some? ==> s.holder.value in s.res
    ensures forall r :: r in s.res ==> (s.res[r].queue <==> s.holder == Some(r))
  {
  }

  // ---------------------------------------------------------------- try_reserve

  /** It reads the newest store of `tail_`. */
  ghost function ReserveSteps<T, H>(s: ZeroCopy<T, H>, into: H, ok: bool): seq<Action<T, H>> {
    if s.active then [Reserve(into)]
    else [Reserve(into), ReserveLoadHead]
         + ([ReserveLoadTail(|s.core.popped|)] + if ok then [] else [ReserveRelease])
  }

  lemma ReserveAlone<T, H>(s: ZeroCopy<T, H>, into: H) returns (ok: bool, s': ZeroCopy<T, H>)
    requires Idle(s) && into !in s.res
    ensures Runs(s, ReserveSteps(s, into, ok), s') && Idle(s')
    ensures Shaped(s.core) && |s.core.popped| <= |s.core.pushed|
    ensures ok <==> !s.active && |Pending(s.core)| < s.core.cap
    ensures ok <==> !s.active && Sub64(s.core.head, s.core.tail) < s.core.cap
    ensures |Pending(s.core)| <= s.core.cap
    ensures SameMemory(s.core, s'.core) && s'.core.built == s.core.built
    ensures !ok ==> s'.res == s.res && s'.holder == s.holder && s'.active == s.active
    ensures ok ==> s'.active && s'.holder == Some(into) && s'.res.Keys == s.res.Keys + {into}
    ensures ok ==> s'.res[into] == Reservation(true, s.core.head, Some(SlotIndex(s.core, s.core.head)), false)
  {
    hide Runs, Inv;
    IdleShape(s);
    OneStep(s, Reserve(into));
    if s.active {
      NewestTail(s.core);
      ok, s' := false, s;
    } else {
      var s1, s2 := ReserveBegins(s, into);
      ok, s' := ReserveEnds(s2, into);
      RunsConcat(s, [Reserve(into), ReserveLoadHead], s2,
                 [ReserveLoadTail(|s.core.popped|)] + if ok then [] else [ReserveRelease], s');
    }
  }

  lemma NewestTail<T>(c: Core<T>)
    requires Quiet(c)
    ensures CanLoadTail(c, |c.popped|) && |c.popped| <= |c.pushed| && c.tail == Wrap(|c.popped|)
    ensures Sub64(c.head, c.tail) >= c.cap <==> |Pending(c)| == c.cap
    ensures |Pending(c)| <= c.cap
  {
    FullTest(c, |c.popped|);
  }

  lemma ReserveBegins<T, H>(s: ZeroCopy<T, H>, into: H) returns (s1: ZeroCopy<T, H>, s2: ZeroCopy<T, H>)
    requires Idle(s) && into !in s.res && !s.active
    ensures Runs(s, [Reserve(into), ReserveLoadHead], s2) && ZInv(s2)
    ensures s2 == s.(active := true, pc := ZLoadedHead(into, s.core.head))
  {
    hide Runs, Inv;
    IdleShape(s);
    s1 := Step(s, Reserve(into));
    StepKeepsInv(s, Reserve(into));
    OneStep(s, Reserve(into));
    s2 := Step(s1, ReserveLoadHead);
    StepKeepsInv(s1, ReserveLoadHead);
    OneStep(s1, ReserveLoadHead);
    var a: Action<T, H> := Reserve(into);
    RunsConcat(s, [a], s1, [ReserveLoadHead], s2);
    assert [a] + [ReserveLoadHead] == [a, ReserveLoadHead];
  }

  lemma ReserveEnds<T, H>(s: ZeroCopy<T, H>, into: H) returns (ok: bool, s': ZeroCopy<T, H>)
    requires ZInv(s) && s.pc == ZLoadedHead(into, s.core.head) && s.core.cpc.CIdle?
    ensures Runs(s, [ReserveLoadTail(|s.core.popped|)] + if ok then [] else [ReserveRelease], s') && Idle(s')
    ensures |s.core.popped| <= |s.core.pushed| && |Pending(s.core)| <= s.core.cap
    ensures ok <==> |Pending(s.core)| < s.core.cap
    ensures ok <==> Sub64(s.core.head, s.core.tail) < s.core.cap
    ensures Shaped(s.core) && SameMemory(s.core, s'.core) && s'.core.built == s.core.built
    ensures !ok ==> s'.res == s.res && s'.holder == s.holder && !s'.active
    ensures ok ==> s'.active == s.active && s'.holder == Some(into)
    ensures ok ==> s'.res
                   == s.res[into := Reservation(true, s.core.head, Some(SlotIndex(s.core, s.core.head)), false)]
  {
    hide Runs, Inv;
    NewestTail(s.core);
    var a: Action<T, H> := ReserveLoadTail(|s.core.popped|);
    var s1 := Step(s, a);
    StepKeepsInv(s, a);
    OneStep(s, a);
    ok := s1.pc.ZIdle?;
    if ok {
      s' := s1;
      assert [a] + [] == [a];
    } else {
      s' := Step(s1, ReserveRelease);
      StepKeepsInv(s1, ReserveRelease);
      OneStep(s1, ReserveRelease);
      RunsConcat(s, [a], s1, [ReserveRelease], s');
    }
  }

  // ---------------------------------------------------------------- on a live reservation

  ghost function ConstructSteps<T, H>(r: H, value: T): seq<Action<T, H>> { [Construct(r, value), ConstructObject] }

  lemma ConstructAlone<T, H>(s: ZeroCopy<T, H>, r: H, value: T) returns (s': ZeroCopy<T, H>)
    requires Idle(s) && r in s.res && s.res[r].queue
    ensures Runs(s, ConstructSteps(r, value), s') && Idle(s')
    ensures Shaped(s.core) && s.res[r].ptr == Some(SlotIndex(s.core, s.core.head))
    ensures var j := SlotIndex(s.core, s.core.head);
            && s.core.slots[j].Live? == s.res[r].constructed && (s.core.slots[j].Live? || s.core.slots[j].Dead?)
            && SameMemory(s.core.(slots := s.core.slots[j := Live(value)]), s'.core)
    ensures s'.core.built == Some(value) && s'.holder == s.holder && s'.active == s.active
    ensures s'.res == s.res[r := s.res[r].(constructed := true)]
  {
    hide Runs, Inv;
    IdleShape(s);
    LiveSlot(s, r);
    var a := Construct(r, value);
    var s1 := Step(s, a);
    StepKeepsInv(s, a);
    OneStep(s, a);
    s' := Step(s1, ConstructObject);
    StepKeepsInv(s1, ConstructObject);
    OneStep(s1, ConstructObject);
    RunsConcat(s, [a], s1, [ConstructObject], s');
    assert [a] + [ConstructObject] == [a, ConstructObject];
  }

  /** The slot a live reservation stands on. */
  lemma LiveSlot<T, H>(s: ZeroCopy<T, H>, r: H)
    requires Idle(s) && r in s.res && s.res[r].queue
    ensures Shaped(s.core) && s.holder == Some(r) && s.active && s.res[r].index == s.core.head
    ensures s.res[r].ptr == Some(SlotIndex(s.core, s.core.head))
    ensures s.res[r].constructed <==> s.core.built.Some?
    ensures s.core.slots[SlotIndex(s.core, s.core.head)]
            == if s.core.built.Some? then Live(s.core.built.value) else Dead
  {
    ProducerSlot(s.core);
  }

  ghost function CommitSteps<T, H>(r: H, ok: bool): seq<Action<T, H>> {
    [Commit(r)] + if ok then [CommitRelease] else []
  }

  lemma CommitAlone<T, H>(s: ZeroCopy<T, H>, r: H) returns (s': ZeroCopy<T, H>)
    requires Idle(s) && r in s.res && s.res[r].queue
    ensures Runs(s, CommitSteps(r, s.res[r].constructed), s') && Idle(s')
    ensures s.res[r].index == s.core.head && |s.core.popped| <= |s.core.pushed|
    ensures !s.res[r].constructed ==> s' == s
    ensures s.res[r].constructed ==>
              && s.core.built.Some?
              && SameMemory(
                   s.core.(head := Inc64(s.core.head), pushed := s.core.pushed + [s.core.built.value]), s'.core)
              && s'.holder == None && !s'.active && s'.res == s.res[r := Emptied(s.res[r])]
  {
    hide Runs, Inv;
    IdleShape(s);
    LiveSlot(s, r);
    var a: Action<T, H> := Commit(r);
    var s1 := Step(s, a);
    StepKeepsInv(s, a);
    OneStep(s, a);
    if s.res[r].constructed {
      s' := Step(s1, CommitRelease);
      StepKeepsInv(s1, CommitRelease);
      OneStep(s1, CommitRelease);
      RunsConcat(s, [a], s1, [CommitRelease], s');
    } else {
      s' := s1;
      assert [a] + [] == [a];
    }
  }

  ghost function CancelSteps<T, H>(r: H): seq<Action<T, H>> { [Cancel(r), CancelRelease] }

  lemma CancelAlone<T, H>(s: ZeroCopy<T, H>, r: H) returns (s': ZeroCopy<T, H>)
    requires Idle(s) && r in s.res && s.res[r].queue
    ensures Runs(s, CancelSteps(r), s') && Idle(s')
    ensures Shaped(s.core) && s.res[r].ptr == Some(SlotIndex(s.core, s.core.head))
    ensures var j, built := SlotIndex(s.core, s.core.head), s.res[r].constructed;
            && s.core.slots[j].Live? == built
            && SameMemory(s.core.(slots := if built then s.core.slots[j := Dead] else s.core.slots), s'.core)
            && s'.core.constructions == s.core.constructions
            && s'.core.destructions == s.core.destructions + (if built then 1 else 0)
    ensures s'.holder == None && !s'.active && s'.res == s.res[r := Emptied(s.res[r])]
  {
    hide Runs, Inv;
    IdleShape(s);
    LiveSlot(s, r);
    var a: Action<T, H> := Cancel(r);
    var s1 := Step(s, a);
    StepKeepsInv(s, a);
    OneStep(s, a);
    s' := Step(s1, CancelRelease);
    StepKeepsInv(s1, CancelRelease);
    OneStep(s1, CancelRelease);
    RunsConcat(s, [a], s1, [CancelRelease], s');
    assert [a] + [CancelRelease] == [a, CancelRelease];
  }

  lemma MoveAlone<T, H>(s: ZeroCopy<T, H>, from: H, into: H) returns (s': ZeroCopy<T, H>)
    requires Idle(s) && from in s.res && into !in s.res
    ensures Runs(s, [MoveConstruct(from, into)], s') && Idle(s')
    ensures s'.core == s.core && s'.active == s.active
    ensures s'.res.Keys == s.res.Keys + {into} && s'.res[into] == s.res[from]
    ensures s'.holder == if s.holder == Some(from) then Some(into) else s.holder
  {
    hide Runs, Inv;
    IdleShape(s);
    var a: Action<T, H> := MoveConstruct(from, into);
    StepKeepsInv(s, a);
    OneStep(s, a);
    s' := Step(s, a);
  }

  // ---------------------------------------------------------------- try_consume

  ghost function ByConsumer<T, H>(steps: seq<ConsumerAction>): seq<Action<T, H>> {
    seq(|steps|, i requires 0 <= i < |steps| => Consumer(steps[i]))
  }

  lemma {:induction false} LiftConsumer<T, H>(s: ZeroCopy<T, H>, steps: seq<ConsumerAction>, c: Core<T>)
    requires ZInv(s) && ConsumerRuns(s.core, steps, c)
    ensures Runs(s, ByConsumer(steps), s.(core := c)) && ZInv(s.(core := c))
    decreases |steps|
  {
    hide RingCore.Consume, ZInv;
    if steps == [] {
    } else {
      assert ByConsumer<T, H>(steps)[1..] == ByConsumer<T, H>(steps[1..]);
      ConsumerKeepsInv(s, steps[0]);
      LiftConsumer(s.(core := RingCore.Consume(s.core, steps[0])), steps[1..], c);
    }
  }

  lemma ConsumeAlone<T, H>(s: ZeroCopy<T, H>) returns (ok: bool, s': ZeroCopy<T, H>)
    requires Idle(s)
    ensures Runs(s, ByConsumer(PopSteps(s.core, ok)), s') && Idle(s')
    ensures s' == s.(core := s'.core) && SameProducer(s.core, s'.core)
    ensures |s.core.popped| <= |s.core.pushed| && |s'.core.popped| <= |s'.core.pushed|
    ensures ok <==> Pending(s.core) != []
    ensures ok <==> s.core.tail != s.core.head
    ensures !ok ==> s'.core.tail == s.core.tail && s'.core.slots == s.core.slots && Pending(s'.core) == Pending(s.core)
    ensures ok ==> var c, c', j := s.core, s'.core, And(s.core.tail, s.core.cap - 1);
                   && 0 <= j < |c.slots| && c.slots[j] == Live(Pending(c)[0]) && c'.slots == c.slots[j := Dead]
                   && c'.tail == Inc64(c.tail) && Pending(c') == Pending(c)[1..]
  {
    hide Runs, Inv, ConsumerRuns;
    var c;
    ok, c := PopAlone(s.core);
    LiftConsumer(s, PopSteps(s.core, ok), c);
    s' := s.(core := c);
  }

}
