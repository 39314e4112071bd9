/**
 * FrameState of src/handleMultiplayerIO.ts: a world handle, the persisted
 * control state, and the sorted queue of events still to be applied. Each
 * method is proved against the replay functions of module Replay through
 * `Value()`, the frame state read as a value.
 */
module FrameStates {
  import opened ControlStates
  import opened WorldHandle
  import opened Replay
  import opened Structures

  /** Position `p` of `q` has no later frame before it and no earlier frame from it on. */
  ghost predicate FrameSlot(q: seq<Event>, f: int, p: int)
  {
    && 0 <= p <= |q|
    && (forall j :: 0 <= j < p ==> q[j].frame <= f)
    && (forall j :: p <= j < |q| ==> f <= q[j].frame)
  }

  /** `q'` is `q` with `e` spliced in at a place that keeps it sorted by frame. */
  ghost predicate QueuedInOrder(q: seq<Event>, e: Event, q': seq<Event>)
  {
    exists p :: FrameSlot(q, e.frame, p) && q' == Spliced(q, p, e)
  }

  /** An insertion point under the queue's key is a slot by frame. */
  lemma InsertionPointIsSlot(q: seq<Event>, f: int, p: int)
    requires InsertionPoint(q, EventFrame, f, p)
    ensures FrameSlot(q, f, p)
  {
    forall j | 0 <= j < p ensures q[j].frame <= f {
      assert EventFrame(q[j]) <= f;
    }
    forall j | p <= j < |q| ensures f <= q[j].frame {
      assert f <= EventFrame(q[j]);
    }
  }

  /** The handle, as a set of objects: empty while it is missing. */
  ghost function HandleSet(h: WorldHandler?): set<object>
  {
    if h == null then {} else {h}
  }

  class FrameState {
    var snapshot: WorldHandler?
    var state: ControlState
    const events: SortedArr<Event>
    ghost var Repr: set<object>

    /** The objects are laid out as expected; the handle may still be missing. */
    ghost predicate Shaped()
      reads this, Repr
    {
      && this in Repr && events in Repr
      && Repr == {this, events} + HandleSet(snapshot)
      && events.key == EventFrame && events.Valid()
    }

    /** The object invariant: a live handle and a queue sorted by frame. */
    ghost predicate Valid()
      reads this, Repr
    {
      Shaped() && snapshot != null && snapshot.live
    }

    /** Nothing in the queue lies before the current frame: forward may run. */
    ghost predicate Pending()
      reads this, Repr
      requires Valid()
    {
      NotBefore(events.arr, snapshot.frame)
    }

    /** The frame state as a value: the moment it is at and its pending events. */
    ghost function Value(): Timeline
      reads this, Repr
      requires Shaped() && snapshot != null
    {
      Timeline(Moment(snapshot.world, snapshot.frame, state), events.arr)
    }

    lemma ValidIsWellFormed()
      requires Valid() && Pending()
      ensures WellFormed(Value())
    {
      forall i, j | 0 <= i < j < |events.arr| ensures FramesInOrder(events.arr, i, j) {
        assert KeysInOrder(events.arr, EventFrame, i, j);
      }
    }

    constructor (snapshot: WorldHandler?, state: ControlState)
      ensures Shaped() && this.snapshot == snapshot && this.state == state && events.arr == []
      ensures snapshot != null && snapshot.live ==> Valid() && Pending()
      ensures fresh(Repr - HandleSet(snapshot))
    {
      this.snapshot := snapshot;
      this.state := state;
      events := new SortedArr([], EventFrame);
      Repr := {this, events} + HandleSet(snapshot);
    }

    /** A new frame state over a copy of this one's world, state and queue. */
    method Clone() returns (res: FrameState)
      requires Valid()
      ensures fresh(res.Repr) && res.Valid() && res.Value() == Value()
      ensures Pending() ==> res.Pending()
    {
      res := new FrameState(null, map[]);
      res.MakeCopyFrom(this);
    }

    /**
     * Frees this state's own handle, if any, and becomes a copy of `other`:
     * a cloned handle, the same control state and the same queued events.
     */
    method MakeCopyFrom(other: FrameState)
      requires Shaped() && (snapshot != null ==> snapshot.live)
      requires other.Valid() && Repr !! other.Repr
      modifies Repr
      ensures Valid() && Value() == other.Value() && (other.Pending() ==> Pending())
      ensures fresh(snapshot) && fresh(Repr - old(Repr))
      ensures old(snapshot) != null ==> !old(snapshot).live
    {
      if snapshot != null {
        snapshot.Free();
      }
      snapshot := other.snapshot.Clone();
      state := other.state;
      events.arr := other.events.arr;
      Repr := {this, events, snapshot};
    }

    method GetFrame() returns (f: int)
      requires Valid()
      ensures f == Value().now.frame
    {
      f := snapshot.GetFrame();
    }

    /** addEvent: an event from the past fails the assertion; any other is queued in order. */
    method AddEvent(ev: Event)
      requires Valid() && ev.frame >= Value().now.frame
      modifies events
      ensures Valid() && Value().now == old(Value().now) && (old(Pending()) ==> Pending())
      ensures QueuedInOrder(old(Value().events), ev, Value().events)
    {
      var pos := events.Insert(ev);
      InsertionPointIsSlot(old(events.arr), ev.frame, pos);
    }

    /** applyEvent: the event's diff is applied onto the persisted state at once. */
    method ApplyEvent(ev: Event)
      requires Valid()
      modifies this
      ensures Valid() && (old(Pending()) ==> Pending())
      ensures Repr == old(Repr) && snapshot == old(snapshot)
      ensures Value() == old(Value()).(now := old(Value()).now.(state := Patch(old(state), ev.diff)))
    {
      state := ApplyDiff(state, ev.diff);
    }

    /** step: one tick of the world with the persisted state. */
    method Step()
      requires Valid()
      modifies snapshot
      ensures Valid() && Value().events == old(Value().events) && state == old(state)
      ensures Value().now == Moment(StepWorld(old(snapshot.frame), old(snapshot.world), state), old(snapshot.frame) + 1, state)
      ensures Value().now == TickTo(old(Value().now), old(snapshot.frame) + 1)
    {
      TickOnce(Value().now);
      snapshot.Step(state);
    }

    /** noEventStepTo: ticks until the frame is `targetFrame`; a target in the past fails the assertion. */
    method NoEventStepTo(targetFrame: int)
      requires Valid() && Value().now.frame <= targetFrame
      modifies snapshot
      ensures Valid() && Value().events == old(Value().events) && state == old(state)
      ensures Value().now == TickTo(old(Value().now), targetFrame)
    {
      ghost var m := Value().now;
      while snapshot.frame < targetFrame
        invariant Valid() && events.arr == old(events.arr)
        invariant m.frame <= snapshot.frame <= targetFrame
        invariant StepTo(snapshot.world, snapshot.frame, state, targetFrame) == StepTo(m.world, m.frame, state, targetFrame)
        decreases targetFrame - snapshot.frame
      {
        Step();
      }
    }

    /** One round of forward's loop: tick up to the event's frame, then apply its diff. */
    method HandleEvent(ev: Event)
      requires Valid() && Value().now.frame <= ev.frame
      modifies this, snapshot
      ensures Valid() && Repr == old(Repr) && snapshot == old(snapshot) && events.arr == old(events.arr)
      ensures Value().now == ApplyAt(old(Value().now), ev)
    {
      NoEventStepTo(ev.frame);
      ApplyEvent(ev);
    }

    /** The loop of forward: handles, in order, the queued events at or before `targetFrame`. */
    method HandleDue(targetFrame: int) returns (k: int)
      requires Valid() && Pending() && Value().now.frame <= targetFrame
      modifies this, snapshot
      ensures Valid() && Repr == old(Repr) && snapshot == old(snapshot) && events.arr == old(events.arr)
      ensures k == PrefixLen(old(Value().events), targetFrame)
      ensures Value().now == Play(old(Value().now), old(Value().events)[..k])
      ensures Value().now.frame <= targetFrame
    {
      ValidIsWellFormed();
      ghost var tl := Value();
      PrefixLenBounds(tl.events, targetFrame);
      k := 0;
      while k < |events.arr|
        invariant Valid() && Repr == old(Repr) && snapshot == old(snapshot)
        invariant events.arr == tl.events
        invariant 0 <= k <= PrefixLen(tl.events, targetFrame)
        invariant Value().now == Play(tl.now, tl.events[..k])
        invariant k == 0 ==> snapshot.frame == tl.now.frame
        invariant k > 0 ==> snapshot.frame == tl.events[k - 1].frame
      {
        var ev := events.arr[k];
        if ev.frame > targetFrame {
          break;
        }
        if k > 0 {
          assert FramesInOrder(tl.events, k - 1, k);
        }
        HandleEvent(ev);
        PlayPrefixStep(tl.now, tl.events, k);
        k := k + 1;
      }
      PlayFrame(tl.now, tl.events[..k], targetFrame);
    }

    /**
     * forward: handles the queued events at or before `targetFrame` in order,
     * removes them, and ticks to `targetFrame`.
     */
    method Forward(targetFrame: int)
      requires Valid() && Pending() && Value().now.frame <= targetFrame
      modifies Repr
      ensures Valid() && Repr == old(Repr) && snapshot == old(snapshot)
      ensures Value() == Replay.Forward(old(Value()), targetFrame) && Pending()
    {
      ghost var tl := Value();
      ValidIsWellFormed();
      var k := HandleDue(targetFrame);
      PrefixLenBounds(tl.events, targetFrame);
      DropFirstAscending(events.arr, EventFrame, k);
      events.arr := DropFirst(events.arr, k);
      NoEventStepTo(targetFrame);
      ForwardResult(tl, targetFrame);
    }
  }
}
