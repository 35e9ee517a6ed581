/** The zero-copy queue and its reservations as the objects they are: fields updated in place, one
    reservation pointing back at its queue.

    A call that is not interrupted is a run of `ZeroCopyProtocol`.  The ghost field `model` is the
    protocol's state, in which reservations go by number, and every method says which run it
    performed. */
module ZeroCopySpsc {
  import opened Words
  import opened RingCore
  import opened RingAlone
  import opened ZeroCopyProtocol
  import opened ZeroCopyAlone

  class ZeroCopySpsc<T> {
    var head: U64
    var tail: U64
    var active: bool
    const buffer: array<Slot<T>>
    ghost var model: ZeroCopy<T, nat>
    ghost var holder: Reservation?<T>
    ghost var nextId: nat

    ghost predicate Valid()
      reads this, buffer, holder
    {
      && Idle(model)
      && model.core.cap == buffer.Length && model.core.head == head && model.core.tail == tail
      && model.core.slots == buffer[..] && model.active == active
      && (forall r :: r in model.res ==> r < nextId)
      && (model.holder.Some? <==> holder != null)
      && (holder != null ==> model.holder == Some(holder.id) && Mirrors(holder))
    }

    /** The model knows the live reservation as it is. */
    ghost predicate Mirrors(r: Reservation<T>)
      reads this, r
    {
      && r.queue == this && r.id in model.res && model.res[r.id].queue
      && model.res[r.id].index == r.index && model.res[r.id].ptr == r.ptr
      && model.res[r.id].constructed == r.constructed
    }

    /** The committed values, oldest first. */
    ghost function Contents(): seq<T>
      requires Valid()
      reads this, buffer, holder
    {
      IdleCounts(model);
      Pending(model.core)
    }

    constructor (capacity: nat)
      requires IsCapacity(capacity)
      ensures Valid() && fresh(buffer)
      ensures holder == null && buffer.Length == capacity && Contents() == []
      ensures model == Init(capacity)
    {
      head, tail, active := 0, 0, false;
      buffer := new Slot<T>[capacity](_ => Dead);
      model, holder, nextId := Init(capacity), null, 0;
      InitInv<T, nat>(capacity);
    }

    method TryReserve() returns (r: Reservation?<T>)
      requires Valid()
      modifies this
      ensures Valid() && Contents() == old(Contents()) && model.core.built == old(model.core.built)
      ensures r == null <==> old(active) || |old(Contents())| == buffer.Length
      ensures r == null ==> holder == old(holder)
      ensures r != null ==> fresh(r) && holder == r && r.queue == this && !r.constructed
      ensures Runs(old(model), ReserveSteps(old(model), old(nextId), r != null), model)
    {
      hide Idle, Runs;
      IdleShape(model);
      ghost var ok, after := ReserveAlone(model, nextId);
      model := after;
      IdleShape(model);
      if active { return null; }
      active := true;
      var h := head;
      var t := tail;
      if Sub64(h, t) >= buffer.Length {
        active := false;
        return null;
      }
      r := new Reservation<T>(this, h, Some(And(h, buffer.Length - 1)), nextId);
      holder, nextId := r, nextId + 1;
    }

    method TryConsume() returns (ok: bool, out: Option<T>)
      requires Valid()
      modifies this, buffer
      ensures Valid() && holder == old(holder) && model.core.built == old(model.core.built)
      ensures ok <==> old(Contents()) != []
      ensures ok ==> out == Some(old(Contents())[0]) && Contents() == old(Contents())[1..]
      ensures !ok ==> out == None && Contents() == old(Contents())
      ensures Runs(old(model), ByConsumer(PopSteps(old(model).core, ok)), model)
    {
      hide Idle, Runs, Inv, ConsumerRuns;
      IdleShape(model);
      ghost var taken, after := ConsumeAlone(model);
      model := after;
      IdleShape(model);
      var t := tail;
      var h := head;
      if t == h { return false, None; }
      var j := And(t, buffer.Length - 1);
      out := Some(buffer[j].value);
      buffer[j] := Dead;
      tail := Inc64(t);
      ok := true;
    }

    /** The model takes `into`, which has copied the live reservation's fields, for a new reservation. */
    ghost method PassOn(into: Reservation<T>)
      requires Valid() && holder != null && into != holder
      requires into.queue == this && into.index == holder.index && into.ptr == holder.ptr
      requires into.constructed == holder.constructed
      modifies this`model, this`holder, this`nextId, into`id
      ensures Valid() && holder == into && Contents() == old(Contents())
      ensures model.core == old(model.core)
      ensures Runs(old(model), [MoveConstruct(old(holder.id), into.id)], model)
    {
      hide Idle, Runs, Pending;
      into.id := nextId;
      var after := MoveAlone(model, holder.id, nextId);
      model, holder, nextId := after, into, nextId + 1;
    }

    /** The destructor; no reservation may outlive its queue. */
    method Destroy() returns (destroyed: nat)
      requires Valid() && holder == null
      modifies buffer
      ensures destroyed == |old(Contents())|
      ensures forall j :: 0 <= j < buffer.Length ==> buffer[j].Dead?
      ensures model.core.constructions == model.core.destructions + destroyed
    {
      hide Inv;
      destroyed := DestroyRemaining(buffer, tail, head, model.core);
    }
  }

  class Reservation<T> {
    var queue: ZeroCopySpsc?<T>
    var index: U64
    var ptr: Option<nat>
    var constructed: bool
    ghost var id: nat

    constructor (queue: ZeroCopySpsc<T>, index: U64, ptr: Option<nat>, ghost id: nat)
      ensures this.queue == queue && this.index == index && this.ptr == ptr && !constructed && this.id == id
    {
      this.queue, this.index, this.ptr, constructed, this.id := queue, index, ptr, false, id;
    }

    /** Not attached to a queue, or the one reservation its queue knows of. */
    ghost predicate Valid()
      reads this, queue, if queue == null then {} else {queue.buffer, queue.holder}
    {
      if queue == null then !constructed && ptr.None? else queue.Valid() && queue.holder == this
    }

    /** Builds the object in the reserved slot, replacing an earlier one. */
    method Construct(value: T)
      requires Valid() && queue != null
      modifies this`constructed, queue`model, queue.buffer
      ensures Valid() && queue == old(queue) && constructed
      ensures queue.Contents() == old(queue.Contents())
      ensures queue.model.core.built == Some(value)
      ensures Runs(old(queue.model), ConstructSteps(id, value), queue.model)
    {
      hide Idle, Runs;
      IdleShape(queue.model);
      ghost var after := ConstructAlone(queue.model, id, value);
      if constructed {
        assert queue.buffer[ptr.value].Live?;
        queue.buffer[ptr.value] := Dead;
        constructed := false;
      }
      assert queue.buffer[ptr.value].Dead?;
      queue.buffer[ptr.value] := Live(value);
      constructed := true;
      queue.model := after;
      IdleShape(queue.model);
    }

    /** Appends the object constructed last, if there is one. */
    method Commit() returns (ok: bool)
      requires Valid()
      modifies this, queue
      ensures Valid()
      ensures ok <==> old(queue != null && constructed)
      ensures ok ==> var q := old(queue);
                     && queue == null && q.Valid() && q.holder == null
                     && old(q.model.core.built).Some?
                     && q.Contents() == old(q.Contents()) + [old(q.model.core.built).value]
      ensures !ok ==> queue == old(queue) && (queue != null ==> queue.Contents() == old(queue.Contents()))
      ensures old(queue) != null ==> Runs(old(queue.model), CommitSteps(old(id), ok), old(queue).model)
    {
      hide Idle, Runs;
      if queue == null { return false; }
      var q := queue;
      IdleShape(q.model);
      ghost var after := CommitAlone(q.model, id);
      q.model := after;
      IdleShape(q.model);
      if !constructed { return false; }
      q.head := Inc64(index);
      q.active := false;
      q.holder := null;
      queue, ptr, constructed := null, None, false;
      ok := true;
    }

    /** Destroys what was constructed and gives the slot back; also the destructor. */
    method Cancel()
      requires Valid()
      modifies this, queue, if queue == null then {} else {queue.buffer}
      ensures Valid() && queue == null
      ensures old(queue) != null ==>
                var q := old(queue);
                && q.Valid() && q.holder == null && q.Contents() == old(q.Contents())
                && q.model.core.constructions == old(q.model.core.constructions)
                && q.model.core.destructions == old(q.model.core.destructions) + (if old(constructed) then 1 else 0)
                && Runs(old(q.model), CancelSteps(old(id)), q.model)
    {
      hide Idle, Runs;
      if queue == null { return; }
      var q := queue;
      IdleShape(q.model);
      ghost var after := CancelAlone(q.model, id);
      if constructed {
        assert q.buffer[ptr.value].Live?;
        q.buffer[ptr.value] := Dead;
      }
      q.model := after;
      IdleShape(q.model);
      q.active := false;
      q.holder := null;
      queue, ptr, constructed := null, None, false;
    }

    /** `move_from`, on an empty target, which the model takes for a new reservation: the other one is
        left empty. */
    method MoveFrom(other: Reservation<T>)
      requires Valid() && queue == null && other.Valid() && other != this
      modifies this, other, other.queue
      ensures Valid() && other.Valid() && other.queue == null
      ensures queue == old(other.queue) && constructed == old(other.constructed)
      ensures queue != null ==>
                && queue.Contents() == old(other.queue.Contents())
                && queue.model.core == old(other.queue.model.core)
                && Runs(old(other.queue.model), [MoveConstruct(old(other.id), id)], queue.model)
    {
      hide Idle, Runs, Pending;
      hide ZeroCopySpsc.Mirrors;
      queue, index, ptr, constructed := other.queue, other.index, other.ptr, other.constructed;
      if queue != null { queue.PassOn(this); }
      other.queue, other.ptr, other.constructed := null, None, false;
    }

    /** Move assignment: first gives up what it holds; assigning to itself does nothing. */
    method MoveAssign(other: Reservation<T>)
      requires Valid() && other.Valid()
      // two queues never share storage
      requires other == this || queue == null || other.queue == null || queue.buffer != other.queue.buffer
      modifies this, queue, if queue == null then {} else {queue.buffer}, other, other.queue
      ensures Valid() && other.Valid()
      ensures other == this ==> queue == old(queue) && constructed == old(constructed)
      ensures other != this ==>
                && other.queue == null && queue == old(other.queue) && constructed == old(other.constructed)
                && (old(queue) != null ==>
                      var q := old(queue);
                      && q.Valid() && q.holder == null && q.Contents() == old(q.Contents())
                      && q.model.core.destructions
                         == old(q.model.core.destructions) + (if old(constructed) then 1 else 0)
                      && Runs(old(q.model), CancelSteps(old(id)), q.model))
                && (queue != null ==> Runs(old(other.queue.model), [MoveConstruct(old(other.id), id)], queue.model))
      ensures queue != null ==> queue.Contents() == old(other.queue.Contents())
    {
      hide Idle, Runs, Pending;
      if this != other {
        Cancel();
        MoveFrom(other);
      }
    }
  }

}
