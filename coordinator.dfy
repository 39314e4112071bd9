/**
 * HandleMultyplayerIO of src/handleMultiplayerIO.ts: the rollback
 * coordinator. It owns a predictive frame state (`currState`) and an
 * authoritative one (`sureState`). `Coherent` is the invariant of the
 * protocol: the current timeline is what replaying the sure timeline with
 * its pending (not yet confirmed) local events gives.
 */
module Coordinator {
  import opened Wrappers
  import opened ControlStates
  import opened WorldHandle
  import opened Replay
  import opened Structures
  import opened FrameStates

  /**
   * The rollback invariant on the two timelines' values. While `sure` is not
   * ahead, forwarding it to the current frame gives the current timeline, and
   * every event it still holds is a local one from before the current frame.
   * When a heartbeat has run `sure` ahead, it holds no events and is the
   * current timeline ticked forward.
   */
  ghost predicate Coherent(sure: Timeline, curr: Timeline)
  {
    && curr.events == []
    && if sure.now.frame <= curr.now.frame then
         && (forall i :: 0 <= i < |sure.events| ==> sure.events[i].frame < curr.now.frame)
         && Forward(sure, curr.now.frame) == curr
       else
         sure.events == [] && Forward(curr, sure.now.frame) == sure
  }

  /** Forwarding reaches every queued event at or before the target. */
  lemma ForwardAllBefore(tl: Timeline, t: int)
    requires forall i :: 0 <= i < |tl.events| ==> tl.events[i].frame <= t
    ensures Forward(tl, t).events == []
  {
    PrefixLenIs(tl.events, t, |tl.events|);
  }

  /** Every element of a spliced queue is the new one or an old one. */
  lemma SplicedFrames(q: seq<Event>, e: Event, q': seq<Event>, bound: int)
    requires QueuedInOrder(q, e, q')
    requires e.frame < bound && forall i :: 0 <= i < |q| ==> q[i].frame < bound
    ensures forall i :: 0 <= i < |q'| ==> q'[i].frame < bound
  {
    var p :| FrameSlot(q, e.frame, p) && q' == Spliced(q, p, e);
    forall i | 0 <= i < |q'| ensures q'[i].frame < bound {
      if i < p { assert q'[i] == q[i]; }
      else if i > p { assert q'[i] == q[i - 1]; }
    }
  }

  /** An event later than everything queued goes to the back. */
  lemma QueuedAtBack(q: seq<Event>, e: Event, q': seq<Event>)
    requires QueuedInOrder(q, e, q')
    requires forall i :: 0 <= i < |q| ==> q[i].frame < e.frame
    ensures q' == q + [e]
  {
    var p :| FrameSlot(q, e.frame, p) && q' == Spliced(q, p, e);
    if |q| > 0 {
      assert q[|q| - 1].frame < e.frame;
    }
    assert p == |q|;
  }

  /**
   * A local event at the current frame, queued on `sure`, followed by one
   * tick of `current` with the patched state: replaying `sure` one frame
   * further gives exactly that.
   */
  lemma ForwardLocalEvent(n: Moment, q: seq<Event>, c: Moment, e: Event)
    requires forall i :: 0 <= i < |q| ==> q[i].frame < e.frame
    requires c.frame == e.frame && Forward(Timeline(n, q), e.frame) == Timeline(c, [])
    ensures var s := Patch(c.state, e.diff);
      Forward(Timeline(n, q + [e]), e.frame + 1) == Timeline(Moment(StepWorld(e.frame, c.world, s), e.frame + 1, s), [])
  {
    var qe := q + [e];
    PrefixLenIs(q, e.frame, |q|);
    PrefixLenIs(qe, e.frame + 1, |qe|);
    assert qe[..|qe|] == qe && DropFirst(qe, |qe|) == [];
    assert q[..|q|] == q;
    PlaySnoc(n, q, e);
    var p := Play(n, q);
    assert TickTo(p, e.frame) == c;
    var a := ApplyAt(p, e);
    assert a == c.(state := Patch(c.state, e.diff));
    TickOnce(a);
    assert Forward(Timeline(n, qe), e.frame + 1) == Timeline(TickTo(a, e.frame + 1), []);
  }

  /** What forwarding leaves in the queue is a tail of what was there. */
  lemma ForwardKeepsTail(tl: Timeline, t: int, bound: int)
    requires forall i :: 0 <= i < |tl.events| ==> tl.events[i].frame < bound
    ensures forall i :: 0 <= i < |Forward(tl, t).events| ==> Forward(tl, t).events[i].frame < bound
  {
    var k := PrefixLen(tl.events, t);
    forall i | 0 <= i < |Forward(tl, t).events| ensures Forward(tl, t).events[i].frame < bound {
      assert Forward(tl, t).events[i] == tl.events[k + i];
    }
  }

  /** A heartbeat keeps the invariant. */
  lemma HeartbeatKeepsCoherent(sure: Timeline, curr: Timeline, f: int)
    requires Coherent(sure, curr) && WellFormed(sure) && sure.now.frame <= f
    ensures Coherent(Forward(sure, f), curr)
  {
    var cf := curr.now.frame;
    ForwardResult(sure, f);
    if sure.now.frame <= cf {
      ForwardKeepsTail(sure, f, cf);
      if f <= cf {
        ForwardTwice(sure, f, cf);
      } else {
        ForwardTwice(sure, cf, f);
        HeartbeatAhead(sure, curr, f);
      }
    } else {
      ForwardTwice(curr, sure.now.frame, f);
    }
  }

  /** A heartbeat past the current frame empties the sure queue. */
  lemma HeartbeatAhead(sure: Timeline, curr: Timeline, f: int)
    requires WellFormed(sure) && curr.now.frame < f && curr.events == []
    requires forall i :: 0 <= i < |Forward(sure, f).events| ==> Forward(sure, f).events[i].frame < curr.now.frame
    requires Forward(sure, curr.now.frame) == curr
    ensures Forward(sure, f).events == [] && Forward(curr, f) == Forward(sure, f)
  {
    ForwardResult(sure, f);
    ForwardTwice(sure, curr.now.frame, f);
    if Forward(sure, f).events != [] {
      assert false;
    }
  }

  /** Queuing an event that is not in the past keeps the queue well formed. */
  lemma QueuedWellFormed(sure: Timeline, e: Event, q: seq<Event>)
    requires WellFormed(sure) && sure.now.frame <= e.frame
    requires QueuedInOrder(sure.events, e, q)
    ensures WellFormed(Timeline(sure.now, q))
  {
    var p :| FrameSlot(sure.events, e.frame, p) && q == Spliced(sure.events, p, e);
    var s := sure.events;
    forall i | 0 <= i < |q| ensures sure.now.frame <= q[i].frame {
      if i < p { assert q[i] == s[i]; }
      else if i > p { assert q[i] == s[i - 1]; }
    }
    SplicedInOrder(s, e, p);
  }

  /** Splicing at a slot keeps the queue sorted by frame. */
  lemma SplicedInOrder(s: seq<Event>, e: Event, p: int)
    requires FramesAscending(s) && FrameSlot(s, e.frame, p)
    ensures FramesAscending(Spliced(s, p, e))
  {
    var q := Spliced(s, p, e);
    forall i, j | 0 <= i < j < |q| ensures FramesInOrder(q, i, j) {
      var a := if i < p then i else i - 1;
      var b := if j < p then j else j - 1;
      if i != p && j != p && a < b {
        assert FramesInOrder(s, a, b);
      }
    }
  }

  /** What the rollback makes of `current`: `sure`, forwarded to `cf` when that is later. */
  ghost function Rebuilt(sure: Timeline, cf: int): Timeline
  {
    if cf > sure.now.frame then Forward(sure, cf) else sure
  }

  /** A remote diff followed by the rebuild of `current` keeps the invariant. */
  lemma RemoteDiffKeepsCoherent(sure: Timeline, curr: Timeline, e: Event, q: seq<Event>)
    requires Coherent(sure, curr) && WellFormed(sure) && sure.now.frame <= e.frame
    requires QueuedInOrder(sure.events, e, q)
    ensures var s' := Forward(Timeline(sure.now, q), e.frame);
      var c' := Rebuilt(s', curr.now.frame);
      && Coherent(s', c')
      && s'.now.frame == e.frame
      && c' == Forward(Timeline(sure.now, q), Max(curr.now.frame, e.frame))
      && c'.now.frame == Max(curr.now.frame, e.frame)
  {
    if curr.now.frame > e.frame {
      RemoteDiffBehind(sure, curr, e, q);
    } else {
      RemoteDiffAhead(sure, curr, e, q);
    }
  }

  /** The remote diff is older than the current frame: `current` is replayed up to it again. */
  lemma RemoteDiffBehind(sure: Timeline, curr: Timeline, e: Event, q: seq<Event>)
    requires Coherent(sure, curr) && WellFormed(sure) && sure.now.frame <= e.frame
    requires QueuedInOrder(sure.events, e, q)
    requires curr.now.frame > e.frame
    ensures var s' := Forward(Timeline(sure.now, q), e.frame);
      var c' := Rebuilt(s', curr.now.frame);
      && Coherent(s', c')
      && s'.now.frame == e.frame
      && c' == Forward(Timeline(sure.now, q), Max(curr.now.frame, e.frame))
      && c'.now.frame == Max(curr.now.frame, e.frame)
  {
    QueuedWellFormed(sure, e, q);
    SplicedFrames(sure.events, e, q, curr.now.frame);
    RebuildBehind(Timeline(sure.now, q), e.frame, curr.now.frame);
  }

  /** The remote diff is at or past the current frame: `current` becomes a copy of `sure`. */
  lemma RemoteDiffAhead(sure: Timeline, curr: Timeline, e: Event, q: seq<Event>)
    requires Coherent(sure, curr) && WellFormed(sure) && sure.now.frame <= e.frame
    requires QueuedInOrder(sure.events, e, q)
    requires curr.now.frame <= e.frame
    ensures var s' := Forward(Timeline(sure.now, q), e.frame);
      var c' := Rebuilt(s', curr.now.frame);
      && Coherent(s', c')
      && s'.now.frame == e.frame
      && c' == Forward(Timeline(sure.now, q), Max(curr.now.frame, e.frame))
      && c'.now.frame == Max(curr.now.frame, e.frame)
  {
    QueuedWellFormed(sure, e, q);
    SplicedFrames(sure.events, e, q, e.frame + 1);
    var tl := Timeline(sure.now, q);
    RebuildAhead(tl, e.frame);
    assert Rebuilt(Forward(tl, e.frame), curr.now.frame) == Forward(tl, e.frame);
    assert Max(curr.now.frame, e.frame) == e.frame;
  }

  /** Rebuilt and forwarded back to a later current frame: nothing is left queued. */
  lemma RebuildBehind(tl: Timeline, f: int, cf: int)
    requires WellFormed(tl) && tl.now.frame <= f < cf
    requires forall i :: 0 <= i < |tl.events| ==> tl.events[i].frame < cf
    ensures Coherent(Forward(tl, f), Forward(Forward(tl, f), cf))
    ensures Forward(Forward(tl, f), cf) == Forward(tl, cf) && Forward(tl, cf).now.frame == cf
    ensures Forward(tl, f).now.frame == f
  {
    var s' := Forward(tl, f);
    ForwardResult(tl, f);
    ForwardKeepsTail(tl, f, cf);
    ForwardResult(s', cf);
    ForwardAllBefore(s', cf);
    ForwardTwice(tl, f, cf);
  }

  /** Rebuilt at or past the current frame: the copy holds no events. */
  lemma RebuildAhead(tl: Timeline, f: int)
    requires WellFormed(tl) && tl.now.frame <= f
    requires forall i :: 0 <= i < |tl.events| ==> tl.events[i].frame < f + 1
    ensures Coherent(Forward(tl, f), Forward(tl, f)) && Forward(tl, f).now.frame == f
  {
    var s' := Forward(tl, f);
    ForwardResult(tl, f);
    ForwardAllBefore(tl, f);
    assert Forward(s', f) == s';
  }

  /**
   * A local event at the current frame, with `sure` not ahead, applied to
   * `current` and queued on `sure`, followed by one tick of `current`, keeps
   * the invariant.
   */
  lemma LocalEventKeepsCoherent(sure: Timeline, curr: Timeline, e: Event, q: seq<Event>)
    requires Coherent(sure, curr) && sure.now.frame <= curr.now.frame == e.frame
    requires QueuedInOrder(sure.events, e, q)
    ensures Coherent(Timeline(sure.now, q), Timeline(TickTo(ApplyAt(curr.now, e), e.frame + 1), []))
  {
    assert ApplyAt(curr.now, e) == curr.now.(state := Patch(curr.now.state, e.diff));
    TickOnce(ApplyAt(curr.now, e));
    QueuedAtBack(sure.events, e, q);
    ForwardLocalEvent(sure.now, sure.events, curr.now, e);
    SplicedFrames(sure.events, e, q, e.frame + 1);
  }

  /**
   * Catching `current` up with a `sure` that a heartbeat ran ahead keeps the
   * invariant: both timelines are then the same, with nothing queued.
   */
  lemma CatchUpKeepsCoherent(sure: Timeline, curr: Timeline)
    requires Coherent(sure, curr)
    ensures var f := Max(curr.now.frame, sure.now.frame);
      && TickTo(curr.now, f).frame == f
      && Coherent(sure, Timeline(TickTo(curr.now, f), []))
      && (sure.now.frame > curr.now.frame ==> Timeline(TickTo(curr.now, f), []) == sure)
  {
    if sure.now.frame > curr.now.frame {
      ForwardEmpty(curr.now, sure.now.frame);
      ForwardEmpty(sure.now, sure.now.frame);
    }
  }

  /** One local step without a diff keeps the invariant. */
  lemma TickKeepsCoherent(sure: Timeline, curr: Timeline)
    requires Coherent(sure, curr)
    ensures Coherent(sure, Timeline(TickTo(curr.now, curr.now.frame + 1), []))
  {
    var cf := curr.now.frame;
    if sure.now.frame <= cf {
      ForwardTwice(sure, cf, cf + 1);
    } else {
      ForwardTwice(curr, cf + 1, sure.now.frame);
    }
  }

  class HandleMultyplayerIO {
    const currState: FrameState
    const sureState: FrameState
    ghost var Repr: set<object>

    /** The two frame states are separate, valid, and have nothing queued in their past. */
    ghost predicate Owned()
      reads this, Repr
    {
      && this in Repr && currState in Repr && sureState in Repr
      && currState.Repr <= Repr && sureState.Repr <= Repr
      && Repr == {this} + currState.Repr + sureState.Repr
      && this !in currState.Repr && this !in sureState.Repr
      && currState.Repr !! sureState.Repr
      && currState.Valid() && sureState.Valid()
      && currState.Pending() && sureState.Pending()
    }

    /** The object invariant: the two timelines are coherent. */
    ghost predicate Valid()
      reads this, Repr
    {
      Owned() && Coherent(sureState.Value(), currState.Value())
    }

    /** Both timelines start from the handler's world, with an all-zero state and no events. */
    constructor (handler: WorldHandler)
      requires handler.live
      ensures Valid() && fresh(Repr - {handler})
      ensures currState.Value() == Timeline(Moment(handler.world, handler.frame, map[]), [])
      ensures sureState.Value() == currState.Value()
    {
      var c := new FrameState(handler, map[]);
      var s := c.Clone();
      currState := c;
      sureState := s;
      Repr := {this} + c.Repr + s.Repr;
    }

    method GetCurrWorld() returns (w: World)
      requires Owned()
      ensures w == currState.Value().now.world
    {
      w := currState.snapshot.world;
    }

    method GetSureWorld() returns (w: World)
      requires Owned()
      ensures w == sureState.Value().now.world
    {
      w := sureState.snapshot.world;
    }

    method GetCurrFrame() returns (f: int)
      requires Owned()
      ensures f == currState.Value().now.frame
    {
      f := currState.GetFrame();
    }

    method GetSureFrame() returns (f: int)
      requires Owned()
      ensures f == sureState.Value().now.frame
    {
      f := sureState.GetFrame();
    }

    /**
     * The out-of-sync guard of stepLocal, comparing the sure frame with the
     * current frame: when a heartbeat has run `sure` ahead, `current` is
     * forwarded to the sure frame, which becomes the event's frame.
     */
    method CatchUp() returns (f: int)
      requires Valid()
      modifies Repr
      ensures Valid() && Repr == old(Repr)
      ensures f == Max(old(currState.Value().now.frame), old(sureState.Value().now.frame)) == currState.Value().now.frame
      ensures sureState.Value() == old(sureState.Value())
      ensures currState.Value() == Timeline(TickTo(old(currState.Value().now), f), [])
      ensures old(sureState.Value().now.frame) > old(currState.Value().now.frame) ==> currState.Value() == sureState.Value()
    {
      ghost var s0, c0 := sureState.Value(), currState.Value();
      CatchUpKeepsCoherent(s0, c0);
      var sureFrame := sureState.GetFrame();
      var currFrame := currState.GetFrame();
      f := currFrame;
      if sureFrame > currFrame {
        currState.Forward(sureFrame);
        f := sureFrame;
      }
    }

    /** The final `currState.step()` of stepLocal when the input did not change. */
    method Tick()
      requires Valid()
      modifies Repr
      ensures Valid() && Repr == old(Repr)
      ensures sureState.Value() == old(sureState.Value())
      ensures currState.Value() == Timeline(TickTo(old(currState.Value().now), old(currState.Value().now.frame) + 1), [])
    {
      ghost var s0, c0 := sureState.Value(), currState.Value();
      currState.Step();
      TickKeepsCoherent(s0, c0);
    }

    /**
     * The rest of stepLocal for a changed input: the event is applied to the
     * current state at once and queued on `sure`, then the current state ticks.
     */
    method QueueLocal(e: Event)
      requires Valid()
      requires sureState.Value().now.frame <= currState.Value().now.frame == e.frame
      modifies Repr
      ensures Valid() && Repr == old(Repr)
      ensures sureState.Value().now == old(sureState.Value().now)
      ensures QueuedInOrder(old(sureState.Value().events), e, sureState.Value().events)
      ensures currState.Value() == Timeline(TickTo(ApplyAt(old(currState.Value().now), e), e.frame + 1), [])
    {
      ghost var s0, c0 := sureState.Value(), currState.Value();
      sureState.AddEvent(e);
      assert currState.Value() == c0;
      ghost var s1 := sureState.Value();
      PredictLocal(e);
      LocalEventKeepsCoherent(s0, c0, e, s1.events);
    }

    /** The part of stepLocal on `current`: applyEvent, then one step. */
    method PredictLocal(e: Event)
      requires Owned() && currState.Value() == Timeline(currState.Value().now, []) && currState.Value().now.frame == e.frame
      modifies currState, currState.snapshot
      ensures Owned() && Repr == old(Repr)
      ensures sureState.Value() == old(sureState.Value())
      ensures currState.Value() == Timeline(TickTo(ApplyAt(old(currState.Value().now), e), e.frame + 1), [])
    {
      ghost var c0 := currState.Value();
      currState.ApplyEvent(e);
      currState.Step();
      assert ApplyAt(c0.now, e) == c0.now.(state := Patch(c0.now.state, e.diff));
    }

    /**
     * stepLocal: a changed input becomes an event at the current frame (after
     * catching up with `sure`); it is applied to the current state at once and
     * queued on `sure`. Then the current state ticks once.
     */
    method StepLocal(state: ControlState) returns (ev: Option<Event>)
      requires Valid()
      modifies Repr
      ensures Valid() && Repr == old(Repr)
      ensures ev.None? <==> Diff(old(currState.Value().now.state), state).None?
      ensures ev.None? ==> (sureState.Value() == old(sureState.Value()) &&
                currState.Value() == Timeline(TickTo(old(currState.Value().now), old(currState.Value().now.frame) + 1), []))
      ensures ev.Some? ==>
                && Some(ev.value.diff) == Diff(old(currState.Value().now.state), state)
                && ev.value.frame == Max(old(currState.Value().now.frame), old(sureState.Value().now.frame))
                && sureState.Value().now == old(sureState.Value().now)
                && QueuedInOrder(old(sureState.Value().events), ev.value, sureState.Value().events)
                && currState.Value() == Timeline(TickTo(ApplyAt(old(currState.Value().now), ev.value), ev.value.frame + 1), [])
    {
      var localDiff := DiffData(currState.state, state);
      DiffDataIsDiff(currState.state, state, localDiff);
      ev := StepWithDiff(localDiff);
    }

    /** stepLocal once its diff is known. */
    method StepWithDiff(localDiff: Option<ControlState>) returns (ev: Option<Event>)
      requires Valid()
      modifies Repr
      ensures Valid() && Repr == old(Repr)
      ensures ev.None? <==> localDiff.None?
      ensures ev.None? ==> (sureState.Value() == old(sureState.Value()) &&
                currState.Value() == Timeline(TickTo(old(currState.Value().now), old(currState.Value().now.frame) + 1), []))
      ensures ev.Some? ==>
                && ev.value.diff == localDiff.value
                && ev.value.frame == Max(old(currState.Value().now.frame), old(sureState.Value().now.frame))
                && sureState.Value().now == old(sureState.Value().now)
                && QueuedInOrder(old(sureState.Value().events), ev.value, sureState.Value().events)
                && currState.Value() == Timeline(TickTo(ApplyAt(old(currState.Value().now), ev.value), ev.value.frame + 1), [])
    {
      if localDiff.Some? {
        var e := StepChanged(localDiff.value);
        ev := Some(e);
      } else {
        Tick();
        ev := None;
      }
    }

    /** stepLocal with a changed input: catch up, then apply and queue the event. */
    method StepChanged(d: ControlState) returns (e: Event)
      requires Valid()
      modifies Repr
      ensures Valid() && Repr == old(Repr)
      ensures e.diff == d && e.frame == Max(old(currState.Value().now.frame), old(sureState.Value().now.frame))
      ensures sureState.Value().now == old(sureState.Value().now)
      ensures QueuedInOrder(old(sureState.Value().events), e, sureState.Value().events)
      ensures currState.Value() == Timeline(TickTo(ApplyAt(old(currState.Value().now), e), e.frame + 1), [])
    {
      ghost var s0, c0 := sureState.Value(), currState.Value();
      var f := CatchUp();
      e := Event(f, d);
      ghost var c1 := currState.Value();
      assert ApplyAt(c0.now, e) == ApplyAt(c1.now, e) by {
        TickToTwice(c0.now, f, f);
      }
      assert sureState.Value() == s0;
      QueueLocal(e);
    }

    /**
     * stepLocal as written: the guard reads the sure frame twice, so it never
     * fires. When a heartbeat has run `sure` ahead of `current`, a changed
     * input then fails addEvent's assertion, after its diff was already
     * applied to the current state.
     */
    method StepLocalAsWritten(state: ControlState) returns (ok: bool, ev: Option<Event>)
      requires Valid()
      modifies Repr
      ensures Repr == old(Repr)
      ensures ok <==> Diff(old(currState.Value().now.state), state).None? || old(sureState.Value().now.frame) <= old(currState.Value().now.frame)
      ensures ok ==> Valid() && (ev.None? <==> Diff(old(currState.Value().now.state), state).None?)
      ensures ok && ev.None? ==> (sureState.Value() == old(sureState.Value()) &&
                currState.Value() == Timeline(TickTo(old(currState.Value().now), old(currState.Value().now.frame) + 1), []))
      ensures ok && ev.Some? ==>
                && Some(ev.value.diff) == Diff(old(currState.Value().now.state), state)
                && ev.value.frame == old(currState.Value().now.frame)
                && sureState.Value().now == old(sureState.Value().now)
                && QueuedInOrder(old(sureState.Value().events), ev.value, sureState.Value().events)
                && currState.Value() == Timeline(TickTo(ApplyAt(old(currState.Value().now), ev.value), ev.value.frame + 1), [])
      ensures !ok ==> (Owned() && sureState.Value() == old(sureState.Value()) &&
                currState.Value().now == old(currState.Value().now).(state := Patch(old(currState.Value().now.state), Diff(old(currState.Value().now.state), state).value)))
    {
      var localDiff := DiffData(currState.state, state);
      DiffDataIsDiff(currState.state, state, localDiff);
      ok, ev := StepWithDiffAsWritten(localDiff);
    }

    /** stepLocal as written, once its diff is known. */
    method StepWithDiffAsWritten(localDiff: Option<ControlState>) returns (ok: bool, ev: Option<Event>)
      requires Valid()
      modifies Repr
      ensures Repr == old(Repr)
      ensures ok <==> localDiff.None? || old(sureState.Value().now.frame) <= old(currState.Value().now.frame)
      ensures ok ==> Valid() && (ev.None? <==> localDiff.None?)
      ensures ok && ev.None? ==> (sureState.Value() == old(sureState.Value()) &&
                currState.Value() == Timeline(TickTo(old(currState.Value().now), old(currState.Value().now.frame) + 1), []))
      ensures ok && ev.Some? ==>
                && ev.value.diff == localDiff.value
                && ev.value.frame == old(currState.Value().now.frame)
                && sureState.Value().now == old(sureState.Value().now)
                && QueuedInOrder(old(sureState.Value().events), ev.value, sureState.Value().events)
                && currState.Value() == Timeline(TickTo(ApplyAt(old(currState.Value().now), ev.value), ev.value.frame + 1), [])
      ensures !ok ==> (Owned() && sureState.Value() == old(sureState.Value()) &&
                currState.Value().now == old(currState.Value().now).(state := Patch(old(currState.Value().now.state), localDiff.value)))
    {
      if localDiff.Some? {
        var e;
        ok, e := StepChangedAsWritten(localDiff.value);
        ev := if ok then Some(e) else None;
      } else {
        Tick();
        ok, ev := true, None;
      }
    }

    /**
     * stepLocal as written, for a changed input: the event takes the current
     * frame, since the guard cannot fire. It fails exactly when `sure` is
     * ahead, after the diff was applied to the current state.
     */
    method StepChangedAsWritten(d: ControlState) returns (ok: bool, e: Event)
      requires Valid()
      modifies Repr
      ensures Repr == old(Repr)
      ensures e == Event(old(currState.Value().now.frame), d)
      ensures ok <==> old(sureState.Value().now.frame) <= old(currState.Value().now.frame)
      ensures ok ==> Valid() && sureState.Value().now == old(sureState.Value().now)
      ensures ok ==> QueuedInOrder(old(sureState.Value().events), e, sureState.Value().events)
      ensures ok ==> currState.Value() == Timeline(TickTo(ApplyAt(old(currState.Value().now), e), e.frame + 1), [])
      ensures !ok ==> (Owned() && sureState.Value() == old(sureState.Value()) &&
                currState.Value().now == old(currState.Value().now).(state := Patch(old(currState.Value().now.state), d)))
    {
      var f := currState.GetFrame();
      e := Event(f, d);
      var sureFrame := sureState.GetFrame();
      var currFrame := sureState.GetFrame();
      if sureFrame > currFrame {
        // Both frames were read from sureState: this branch cannot run.
        assert false;
      }
      if e.frame < sureFrame {
        // applyEvent runs, then addEvent's assertion fails: the applied diff stays behind.
        currState.ApplyEvent(e);
        return false, e;
      }
      QueueLocal(e);
      ok := true;
    }

    /**
     * The rollback of gotRemoteDiff: `current` becomes a copy of `sure` and,
     * if it had reached a later frame, is forwarded back to it.
     */
    method Rebuild()
      requires Owned()
      modifies Repr
      ensures Owned() && fresh(Repr - old(Repr))
      ensures sureState.Value() == old(sureState.Value())
      ensures currState.Value() == Rebuilt(sureState.Value(), old(currState.Value().now.frame))
    {
      var currFrame := currState.GetFrame();
      currState.MakeCopyFrom(sureState);
      Repr := {this} + currState.Repr + sureState.Repr;
      var copiedFrame := currState.GetFrame();
      if currFrame > copiedFrame {
        currState.Forward(currFrame);
      }
    }

    /** gotRemoteDiff without a diff: a heartbeat only forwards `sure` to `frame`. */
    method Heartbeat(frame: int)
      requires Valid() && sureState.Value().now.frame <= frame
      modifies Repr
      ensures Valid() && Repr == old(Repr)
      ensures sureState.Value() == Forward(old(sureState.Value()), frame) && sureState.Value().now.frame == frame
      ensures currState.Value() == old(currState.Value()) && currState.snapshot == old(currState.snapshot)
    {
      ghost var s0, c0 := sureState.Value(), currState.Value();
      sureState.ValidIsWellFormed();
      sureState.Forward(frame);
      HeartbeatKeepsCoherent(s0, c0, frame);
      ForwardResult(s0, frame);
    }

    /**
     * gotRemoteDiff with a diff: the event is queued on `sure`, `sure` is
     * forwarded to its frame, and `current` is rebuilt from it.
     */
    method RemoteDiff(e: Event) returns (ghost q: seq<Event>)
      requires Valid() && sureState.Value().now.frame <= e.frame
      modifies Repr
      ensures Valid() && fresh(Repr - old(Repr))
      ensures QueuedInOrder(old(sureState.Value().events), e, q)
      ensures sureState.Value() == Forward(Timeline(old(sureState.Value().now), q), e.frame)
      ensures sureState.Value().now.frame == e.frame
      ensures currState.Value() == Forward(Timeline(old(sureState.Value().now), q), Max(old(currState.Value().now.frame), e.frame))
      ensures currState.Value().now.frame == Max(old(currState.Value().now.frame), e.frame)
    {
      ghost var s0, c0 := sureState.Value(), currState.Value();
      sureState.ValidIsWellFormed();
      q := QueueRemote(e);
      Rebuild();
      RemoteDiffKeepsCoherent(s0, c0, e, q);
    }

    /** The first half of gotRemoteDiff with a diff: `sure` queues the event and is forwarded to its frame. */
    method QueueRemote(e: Event) returns (ghost q: seq<Event>)
      requires Valid() && sureState.Value().now.frame <= e.frame
      modifies sureState.Repr
      ensures Owned() && Repr == old(Repr)
      ensures currState.Value() == old(currState.Value())
      ensures QueuedInOrder(old(sureState.Value().events), e, q)
      ensures sureState.Value() == Forward(Timeline(old(sureState.Value().now), q), e.frame)
      ensures sureState.Value().now.frame == e.frame
    {
      ghost var s0, c0 := sureState.Value(), currState.Value();
      sureState.ValidIsWellFormed();
      sureState.AddEvent(e);
      assert currState.Value() == c0;
      sureState.ValidIsWellFormed();
      ghost var queued := sureState.Value();
      q := queued.events;
      sureState.Forward(e.frame);
      assert currState.Value() == c0;
      ForwardResult(queued, e.frame);
    }

    /**
     * gotRemoteDiff: queues the remote diff (if any) on `sure` and forwards
     * `sure` to `frame`. A heartbeat stops there; a diff rebuilds `current`
     * from `sure`. A frame before the sure frame fails an assertion before
     * anything changes.
     */
    method GotRemoteDiff(frame: int, diff: Option<ControlState>) returns (ok: bool)
      requires Valid()
      modifies Repr
      ensures Valid() && fresh(Repr - old(Repr))
      ensures ok <==> old(sureState.Value().now.frame) <= frame
      ensures !ok ==> sureState.Value() == old(sureState.Value()) && currState.Value() == old(currState.Value())
      ensures ok ==> sureState.Value().now.frame == frame
      ensures ok && diff.None? ==> sureState.Value() == Forward(old(sureState.Value()), frame)
      ensures diff.None? ==> currState.Value() == old(currState.Value()) && currState.snapshot == old(currState.snapshot)
      ensures ok && diff.Some? ==>
                && currState.Value().now.frame == Max(old(currState.Value().now.frame), frame)
                && exists q :: QueuedInOrder(old(sureState.Value().events), Event(frame, diff.value), q) &&
                     sureState.Value() == Forward(Timeline(old(sureState.Value().now), q), frame) &&
                     currState.Value() == Forward(Timeline(old(sureState.Value().now), q), Max(old(currState.Value().now.frame), frame))
    {
      var sureFrame := sureState.GetFrame();
      if frame < sureFrame {
        // addEvent's assertion, or forward's final one, fails before any change.
        return false;
      }
      ok := true;
      if diff.None? {
        Heartbeat(frame);
      } else {
        ghost var q := RemoteDiff(Event(frame, diff.value));
      }
    }
  }

  /**
   * The input that shows the stepLocal defect: from frame 0, a heartbeat for
   * frame 5 runs `sure` ahead, and a changed input then fails as written.
   */
  method AsWrittenAfterHeartbeat(handler: WorldHandler) returns (ok: bool)
    requires handler.live && handler.frame == 0
    modifies handler
    ensures !ok
  {
    var io := new HandleMultyplayerIO(handler);
    var beat := io.GotRemoteDiff(5, None);
    var input: ControlState := map["up" := 1];
    assert "up" in ChangedKeys(map[], input);
    var ev;
    ok, ev := io.StepLocalAsWritten(input);
  }

  /** The same input with the corrected stepLocal: the event is queued at the sure frame. */
  method CorrectedAfterHeartbeat(handler: WorldHandler) returns (ev: Option<Event>)
    requires handler.live && handler.frame == 0
    modifies handler
    ensures ev.Some? && ev.value.frame == 5
  {
    var io := new HandleMultyplayerIO(handler);
    var beat := io.GotRemoteDiff(5, None);
    var input: ControlState := map["up" := 1];
    assert "up" in ChangedKeys(map[], input);
    ev := io.StepLocal(input);
  }
}
