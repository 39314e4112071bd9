/**
 * The replay algorithm of a frame state (`noEventStepTo`, `applyEvent` and
 * `forward` in src/handleMultiplayerIO.ts) as functions on values: a moment
 * (world, frame counter, persisted control state) and a queue of pending
 * events. The FrameState class is proved against these functions.
 */
module Replay {
  import opened ControlStates
  import opened WorldHandle
  import opened Structures

  /** A diff to apply when the frame counter is at `frame`, before that frame's tick. */
  datatype Event = Event(frame: int, diff: ControlState)

  /** The key the event queue is sorted by. */
  function EventFrame(e: Event): int
  {
    e.frame
  }

  datatype Moment = Moment(world: World, frame: int, state: ControlState)

  datatype Timeline = Timeline(now: Moment, events: seq<Event>)

  function Max(a: int, b: int): int
  {
    if a < b then b else a
  }

  /** The events at `i` and `j` are in frame order. */
  ghost predicate FramesInOrder(evs: seq<Event>, i: int, j: int)
    requires 0 <= i < j < |evs|
  {
    evs[i].frame <= evs[j].frame
  }

  /** The queue is sorted by frame; a proof names the pairs it uses through FramesInOrder. */
  ghost predicate FramesAscending(evs: seq<Event>)
  {
    forall i, j :: 0 <= i < j < |evs| ==> FramesInOrder(evs, i, j)
  }

  /** Every event lies at or after `f`. */
  ghost predicate NotBefore(evs: seq<Event>, f: int)
  {
    forall i :: 0 <= i < |evs| ==> f <= evs[i].frame
  }

  /** The frame state invariant: the queue is sorted and nothing in it lies in the past. */
  ghost predicate WellFormed(tl: Timeline)
  {
    FramesAscending(tl.events) && NotBefore(tl.events, tl.now.frame)
  }

  /** noEventStepTo: tick with the persisted state until the counter reaches `t`. */
  function TickTo(m: Moment, t: int): (r: Moment)
    ensures r.frame >= t && r.frame >= m.frame && r.state == m.state
  {
    Moment(StepTo(m.world, m.frame, m.state, t), Max(m.frame, t), m.state)
  }

  /** One loop round of forward: tick up to the event's frame, then patch the state. */
  function ApplyAt(m: Moment, e: Event): (r: Moment)
    ensures r.frame == Max(m.frame, e.frame)
    ensures r.state == Patch(m.state, e.diff)
  {
    var ticked := TickTo(m, e.frame);
    ticked.(state := Patch(ticked.state, e.diff))
  }

  /** The moment after handling the events in order: the last one is handled last. */
  function Play(m: Moment, evs: seq<Event>): Moment
    decreases |evs|
  {
    if evs == [] then m else ApplyAt(Play(m, evs[..|evs| - 1]), evs[|evs| - 1])
  }

  /** How many leading events lie at or before `t`: where forward's loop breaks. */
  function PrefixLen(evs: seq<Event>, t: int): (k: nat)
    ensures k <= |evs|
  {
    PrefixFrom(evs, t, 0)
  }

  /** forward's loop from index `i` on: the index at which it breaks. */
  function PrefixFrom(evs: seq<Event>, t: int, i: nat): (k: nat)
    requires i <= |evs|
    ensures i <= k <= |evs|
    decreases |evs| - i
  {
    if i == |evs| || evs[i].frame > t then i else PrefixFrom(evs, t, i + 1)
  }

  /** forward(t): handle the leading events up to `t`, drop them, tick to `t`. */
  function Forward(tl: Timeline, t: int): Timeline
  {
    var k := PrefixLen(tl.events, t);
    Timeline(TickTo(Play(tl.now, tl.events[..k]), t), DropFirst(tl.events, k))
  }

  /** The persisted state after folding every diff of `evs` in order. */
  function PatchAll(s: ControlState, evs: seq<Event>): ControlState
    decreases |evs|
  {
    if evs == [] then s else Patch(PatchAll(s, evs[..|evs| - 1]), evs[|evs| - 1].diff)
  }

  lemma {:induction false} PrefixFromBounds(evs: seq<Event>, t: int, i: nat)
    requires i <= |evs|
    requires forall j :: 0 <= j < i ==> evs[j].frame <= t
    ensures forall j :: 0 <= j < PrefixFrom(evs, t, i) ==> evs[j].frame <= t
    ensures PrefixFrom(evs, t, i) < |evs| ==> evs[PrefixFrom(evs, t, i)].frame > t
    decreases |evs| - i
  {
    if i < |evs| && evs[i].frame <= t {
      PrefixFromBounds(evs, t, i + 1);
    }
  }

  /** Every event before the prefix length lies at or before `t`; the one at it, after. */
  lemma PrefixLenBounds(evs: seq<Event>, t: int)
    ensures PrefixLen(evs, t) <= |evs|
    ensures forall j :: 0 <= j < PrefixLen(evs, t) ==> evs[j].frame <= t
    ensures PrefixLen(evs, t) < |evs| ==> evs[PrefixLen(evs, t)].frame > t
  {
    PrefixFromBounds(evs, t, 0);
  }

  lemma {:induction false} PrefixFromIs(evs: seq<Event>, t: int, i: nat, n: nat)
    requires i <= n <= |evs|
    requires forall j :: i <= j < n ==> evs[j].frame <= t
    requires n < |evs| ==> evs[n].frame > t
    ensures PrefixFrom(evs, t, i) == n
    decreases n - i
  {
    if i < n {
      PrefixFromIs(evs, t, i + 1, n);
    }
  }

  /** The loop's exit test pins PrefixLen down. */
  lemma PrefixLenIs(evs: seq<Event>, t: int, n: nat)
    requires n <= |evs|
    requires forall j :: 0 <= j < n ==> evs[j].frame <= t
    requires n < |evs| ==> evs[n].frame > t
    ensures PrefixLen(evs, t) == n
  {
    PrefixFromIs(evs, t, 0, n);
  }

  /** On a sorted queue every event after the prefix lies after `t`. */
  lemma SortedRestAfter(evs: seq<Event>, t: int)
    requires FramesAscending(evs)
    ensures forall j :: PrefixLen(evs, t) <= j < |evs| ==> evs[j].frame > t
  {
    var k := PrefixLen(evs, t);
    PrefixLenBounds(evs, t);
    forall j | k < j < |evs| ensures evs[j].frame > t {
      assert FramesInOrder(evs, k, j);
    }
  }

  /** Dropping a prefix keeps the rest sorted. */
  lemma DropFirstSorted(evs: seq<Event>, k: nat)
    requires k <= |evs| && FramesAscending(evs)
    ensures FramesAscending(DropFirst(evs, k))
  {
    var r := DropFirst(evs, k);
    forall i, j | 0 <= i < j < |r| ensures FramesInOrder(r, i, j) {
      assert FramesInOrder(evs, k + i, k + j);
    }
  }

  /** Handling the events one more at a time: what forward's loop relies on. */
  lemma PlaySnoc(m: Moment, evs: seq<Event>, e: Event)
    ensures Play(m, evs + [e]) == ApplyAt(Play(m, evs), e)
  {
    assert (evs + [e])[..|evs|] == evs;
  }

  /** Handling the events up to index `i` inclusive: one more than up to `i` exclusive. */
  lemma PlayPrefixStep(m: Moment, evs: seq<Event>, i: int)
    requires 0 <= i < |evs|
    ensures Play(m, evs[..i + 1]) == ApplyAt(Play(m, evs[..i]), evs[i])
  {
    assert evs[..i + 1][..i] == evs[..i];
  }

  lemma {:induction false} PlayAppend(m: Moment, a: seq<Event>, b: seq<Event>)
    ensures Play(m, a + b) == Play(Play(m, a), b)
    decreases |b|
  {
    if b == [] {
      assert a + b == a;
    } else {
      var b' := b[..|b| - 1];
      assert (a + b)[..|a + b| - 1] == a + b';
      PlayAppend(m, a, b');
    }
  }

  /** The persisted state only changes by the events' diffs. */
  lemma {:induction false} PlayState(m: Moment, evs: seq<Event>)
    ensures Play(m, evs).state == PatchAll(m.state, evs)
    decreases |evs|
  {
    if evs != [] {
      PlayState(m, evs[..|evs| - 1]);
    }
  }

  /** Handling events due by `t` moves the counter forward, never past `t`. */
  lemma {:induction false} PlayFrame(m: Moment, evs: seq<Event>, t: int)
    requires m.frame <= t
    requires forall j :: 0 <= j < |evs| ==> evs[j].frame <= t
    ensures m.frame <= Play(m, evs).frame <= t
    decreases |evs|
  {
    if evs != [] {
      PlayFrame(m, evs[..|evs| - 1], t);
    }
  }

  /** Ticking one frame ahead is one step of the world with the persisted state. */
  lemma TickOnce(m: Moment)
    ensures TickTo(m, m.frame + 1) == Moment(StepWorld(m.frame, m.world, m.state), m.frame + 1, m.state)
  {
    assert StepTo(m.world, m.frame, m.state, m.frame + 1)
        == StepTo(StepWorld(m.frame, m.world, m.state), m.frame + 1, m.state, m.frame + 1);
  }

  lemma TickToTwice(m: Moment, t1: int, t2: int)
    requires t1 <= t2
    ensures TickTo(TickTo(m, t1), t2) == TickTo(m, t2)
  {
    if m.frame < t1 {
      StepToSplit(m.world, m.frame, m.state, t1, t2);
    }
  }

  /**
   * forward(t) from a frame at or before `t` ends exactly at frame `t`,
   * removes exactly the leading events at or before `t` (their diffs folded
   * into the state in order) and keeps the rest, in order, all after `t`.
   */
  lemma ForwardResult(tl: Timeline, t: int)
    requires WellFormed(tl) && tl.now.frame <= t
    ensures Forward(tl, t).now.frame == t
    ensures var k := PrefixLen(tl.events, t);
      && k <= |tl.events|
      && Forward(tl, t).events == DropFirst(tl.events, k)
      && (forall j :: 0 <= j < k ==> tl.events[j].frame <= t)
      && Forward(tl, t).now.state == PatchAll(tl.now.state, tl.events[..k])
    ensures forall j :: 0 <= j < |Forward(tl, t).events| ==> Forward(tl, t).events[j].frame > t
    ensures WellFormed(Forward(tl, t))
  {
    var k := PrefixLen(tl.events, t);
    PrefixLenBounds(tl.events, t);
    SortedRestAfter(tl.events, t);
    DropFirstSorted(tl.events, k);
    PlayFrame(tl.now, tl.events[..k], t);
    PlayState(tl.now, tl.events[..k]);
  }

  /** How far the prefix reaches for a later target extends the one for an earlier target. */
  lemma PrefixLenGrows(evs: seq<Event>, t1: int, t2: int)
    requires t1 <= t2
    ensures PrefixLen(evs, t1) <= PrefixLen(evs, t2) <= |evs|
    ensures PrefixLen(evs, t2) == PrefixLen(evs, t1) + PrefixLen(DropFirst(evs, PrefixLen(evs, t1)), t2)
  {
    var k1, k2 := PrefixLen(evs, t1), PrefixLen(evs, t2);
    PrefixLenBounds(evs, t1);
    PrefixLenBounds(evs, t2);
    var rest := DropFirst(evs, k1);
    PrefixLenIs(rest, t2, k2 - k1);
  }

  /** Ticking ahead before handling events later than the tick target changes nothing. */
  lemma {:induction false} PlayAfterTick(p: Moment, t1: int, evs: seq<Event>)
    requires evs != [] ==> evs[0].frame > t1
    ensures Play(TickTo(p, t1), evs) == if evs == [] then TickTo(p, t1) else Play(p, evs)
    decreases |evs|
  {
    if |evs| == 1 {
      TickToTwice(p, t1, evs[0].frame);
      assert Play(TickTo(p, t1), evs) == ApplyAt(TickTo(p, t1), evs[0]);
      assert Play(p, evs) == ApplyAt(p, evs[0]);
    } else if evs != [] {
      PlayAfterTick(p, t1, evs[..|evs| - 1]);
    }
  }

  /**
   * Batching does not matter: forwarding to `t1` and then to `t2` gives the
   * same frame state as forwarding to `t2` at once.
   */
  lemma ForwardTwice(tl: Timeline, t1: int, t2: int)
    requires t1 <= t2
    ensures Forward(Forward(tl, t1), t2) == Forward(tl, t2)
  {
    var evs := tl.events;
    var k1 := PrefixLen(evs, t1);
    var k2 := PrefixLen(evs, t2);
    PrefixLenGrows(evs, t1, t2);
    PrefixLenBounds(evs, t1);
    var rest := DropFirst(evs, k1);
    var j := PrefixLen(rest, t2);
    var p := Play(tl.now, evs[..k1]);
    assert Forward(tl, t1) == Timeline(TickTo(p, t1), rest);
    TakeSplit(evs, k1, j);
    DropFirstTwice(evs, k1, j);
    PlayAppend(tl.now, evs[..k1], rest[..j]);
    PlayAfterTick(p, t1, rest[..j]);
    if j == 0 {
      TickToTwice(p, t1, t2);
    }
  }

  /** Two splices from the front are one. */
  lemma DropFirstTwice(s: seq<Event>, a: nat, b: nat)
    requires a + b <= |s|
    ensures DropFirst(DropFirst(s, a), b) == DropFirst(s, a + b)
  {
    var l, r := DropFirst(DropFirst(s, a), b), DropFirst(s, a + b);
    assert |l| == |r|;
    forall i | 0 <= i < |l| ensures l[i] == r[i] {
      assert l[i] == DropFirst(s, a)[b + i];
    }
  }

  /** The first `a + b` elements are the first `a` ones and then the first `b` after them. */
  lemma TakeSplit(s: seq<Event>, a: nat, b: nat)
    requires a + b <= |s|
    ensures s[..a + b] == s[..a] + DropFirst(s, a)[..b]
  {
    var l, r := s[..a + b], s[..a] + DropFirst(s, a)[..b];
    forall i | 0 <= i < a + b ensures l[i] == r[i] {
      if i >= a {
        assert r[i] == DropFirst(s, a)[i - a];
      }
    }
  }

  /** A queue with nothing left in it just ticks. */
  lemma ForwardEmpty(m: Moment, t: int)
    ensures Forward(Timeline(m, []), t) == Timeline(TickTo(m, t), [])
  {
  }
}
