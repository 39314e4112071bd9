/**
 * The world handle of src/wolrdHandler.ts: a frame counter wrapped around an
 * opaque physics world and the stepper that drives it.
 *
 * The physics engine is not modelled. A world is represented by its own
 * history: the initial world it started from and the (frame, control state)
 * of every tick applied since. A deterministic stepper maps equal histories
 * to equal worlds, so every equality between worlds proved here holds for
 * any deterministic stepper. The stepper's own state is part of that world
 * value; freeing releases both together.
 */
module WorldHandle {
  import opened ControlStates

  datatype World = Initial(id: nat) | Ticked(before: World, frame: int, input: ControlState)

  /** One tick of the stepper followed by `world.step()`. */
  function StepWorld(frame: int, w: World, input: ControlState): (r: World)
    ensures History(r) == History(w) + [(frame, input)]
  {
    Ticked(w, frame, input)
  }

  /** The ticks a world has gone through since it was created, oldest first. */
  function History(w: World): seq<(int, ControlState)>
  {
    match w
    case Initial(_) => []
    case Ticked(before, frame, input) => History(before) + [(frame, input)]
  }

  /**
   * The world after ticking with the same control state from frame `f` up to
   * frame `t` (no tick when `f >= t`).
   */
  function StepTo(w: World, f: int, s: ControlState, t: int): (r: World)
    ensures f >= t ==> r == w
    decreases t - f
  {
    if f >= t then w else StepTo(StepWorld(f, w, s), f + 1, s, t)
  }

  /** Ticking from `f` to `t` adds one tick per frame f, f+1, ..., t-1, all with `s`. */
  lemma {:induction false} StepToHistory(w: World, f: int, s: ControlState, t: int)
    ensures History(StepTo(w, f, s, t)) ==
            History(w) + seq(if f < t then t - f else 0, i => (f + i, s))
    decreases t - f
  {
    if f < t {
      StepToHistory(StepWorld(f, w, s), f + 1, s, t);
      assert seq(t - f, i => (f + i, s)) == [(f, s)] + seq(t - (f + 1), i => (f + 1 + i, s));
    }
  }

  /** Ticking up to `m` and then on to `t` is ticking up to `t`. */
  lemma {:induction false} StepToSplit(w: World, f: int, s: ControlState, m: int, t: int)
    requires f <= m <= t
    ensures StepTo(StepTo(w, f, s, m), m, s, t) == StepTo(w, f, s, t)
    decreases m - f
  {
    if f < m {
      StepToSplit(StepWorld(f, w, s), f + 1, s, m, t);
    }
  }

  /** One tick more at the end. */
  lemma StepToOneMore(w: World, f: int, s: ControlState, t: int)
    requires f <= t
    ensures StepTo(w, f, s, t + 1) == StepWorld(t, StepTo(w, f, s, t), s)
  {
    StepToSplit(w, f, s, t, t + 1);
  }

  /** WorldHandler: an owned world, its frame counter, and whether it was freed. */
  class WorldHandler {
    var world: World
    var frame: int
    var live: bool

    /** A new handler's frame is the given one, 0 by default. */
    constructor (world: World, frame: int := 0)
      ensures this.world == world && this.frame == frame && live
    {
      this.world := world;
      this.frame := frame;
      live := true;
    }

    /**
     * A new handler over a copy of the world (snapshot then restore) and a
     * cloned stepper, at the same frame; the original is left as it was.
     */
    method Clone() returns (h: WorldHandler)
      requires live
      ensures fresh(h) && h.live
      ensures h.world == world && h.frame == frame
    {
      h := new WorldHandler(world, frame);
    }

    /** Releases the world and the stepper; the handle must not be used again. */
    method Free()
      requires live
      modifies this
      ensures !live && world == old(world) && frame == old(frame)
    {
      live := false;
    }

    method GetFrame() returns (f: int)
      ensures f == frame
    {
      f := frame;
    }

    /** The stepper sees the pre-step frame and state; then the counter moves on by one. */
    method Step(data: ControlState)
      requires live
      modifies this
      ensures live && frame == old(frame) + 1
      ensures world == StepWorld(old(frame), old(world), data)
      ensures History(world) == History(old(world)) + [(old(frame), data)]
    {
      world := StepWorld(frame, world, data);
      frame := frame + 1;
    }
  }
}
