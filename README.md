# MultiPhy core, modelled in Dafny

MultiPhy runs a physics world in the browser for two peers. Each peer ticks
its own copy of the world at a fixed rate. Peers exchange only changes to
their control inputs, and roll back when a remote change arrives late. This
project models that core and proves properties of it. It also models the
small server-side pieces:

- the room registry of the signalling server;
- the path helpers used to upload the site over SFTP.

Modules, one per source file:

- `ControlStates` (control_state.dfy) models `applyDiff` and `diffData`.
  - A control state maps control names to values. An absent name reads as 0.
  - The model proves that patching with the diff reproduces the new state.
- `WorldHandle` (world_handler.dfy) models `WorldHandler`.
  - The physics world is not modelled. A world is the history of the ticks
    applied to it: each tick records its frame and its control state.
  - Any deterministic stepper turns equal histories into equal worlds. So
    every equality between worlds proved here holds for any stepper.
- `Structures` (structures.dfy) models the sorted event queue:
  - `binSearch`, proved to return an insertion point;
  - `sortedInsert`, proved to keep the array ascending;
  - the object `SortedArr`.
- `Replay` (replay.dfy) states, as functions on values, what a frame state
  does:
  - tick to a frame;
  - apply an event at its frame;
  - `forward(t)`.

  It proves `forward` correct: the frame reached, the events consumed, and
  the state folded. It also proves that forwarding in two batches equals
  forwarding once.
- `FrameStates` (frame_state.dfy) models the class `FrameState`. It has a
  world handle, a control state and a sorted event queue, and each method is
  proved against the `Replay` functions.
- `Coordinator` (coordinator.dfy) models the class `HandleMultyplayerIO`,
  with two frame states:
  - `currState` predicts;
  - `sureState` holds only confirmed input.

  The invariant `Coherent` states the rollback protocol. While `sure` is not
  ahead, forwarding `sure` to the current frame gives `current` exactly.
  After a heartbeat runs `sure` ahead, `current` ticked forward gives `sure`.
  `stepLocal` and `gotRemoteDiff` are proved to keep this invariant.
- `Rooms` (rooms.dfy) models the registry in server/wsshare/room.go:
  - prefix validation;
  - random room names;
  - hosting a room, which never overwrites one;
  - joining a room, which fills only the client slot.
- `BasePath` (base_path.dfy) models the path value of server/df_basepath.py:
  `join`, `parent`, `relpath`, `convert`, `parents` and `__str__`. It also
  proves the round trips of '/'-join and '/'-split.
- `Sftp` (sftp.dfy) models server/df_sftp.py, with the SFTP session as a
  `stat` oracle:
  - the parser `_toparts`;
  - the cached mode behind `isfile`/`isdir`;
  - `sftp_makedirs`;
  - `sftp_walk` over a remote tree given as a value.

Two points about `sure` running ahead of `current`:

- The comment at src/handleMultiplayerIO.ts:119 expects `sure` never to be
  ahead of `current`. A heartbeat (`gotRemoteDiff` without a diff,
  src/handleMultiplayerIO.ts:138) does forward `sure` past the current
  frame. The model follows the code, and `Coherent` covers both cases.
- The out-of-sync guard in `stepLocal` is written so that it never fires.
  This is listed under Findings.

## Model

| member | source | states |
|---|---|---|
| `ControlStates.ApplyDiff` | src/handleMultiplayerIO.ts:20-23 | Assigning every entry of the diff in a loop gives the map union in which the diff's values win (`Patch`). |
| `ControlStates.Patch` | src/handleMultiplayerIO.ts:20-23 | The patched state has exactly the keys of both maps, the diff's values on the diff's keys and the old values elsewhere. |
| `ControlStates.Get` | src/handleMultiplayerIO.ts:31 | `oldData[k] ?? 0`: the stored value of a present key, 0 for an absent one. |
| `ControlStates.DiffData` | src/handleMultiplayerIO.ts:25-37 | None exactly when every entry of the new state equals the old one (absent reads as 0). Otherwise it holds exactly the changed keys, with their new values. |
| `ControlStates.DiffDataIsDiff` | src/handleMultiplayerIO.ts:25-37 | Whatever satisfies DiffData's contract is the value `Diff`, so the result is fully determined. |
| `ControlStates.DiffOfSelfIsNone` | src/handleMultiplayerIO.ts:30-36 | A state diffed against itself yields no diff. |
| `ControlStates.PatchDiffRoundTrip` | src/handleMultiplayerIO.ts:20-37 | Applying diffData(old, new) onto old agrees with new on every key of new and changes no other key. |
| `WorldHandle.WorldHandler.constructor` | src/wolrdHandler.ts:14 | A new handler owns the given world at the given frame, 0 by default. |
| `WorldHandle.WorldHandler.Clone` | src/wolrdHandler.ts:16-23 | The clone is a fresh live handler with the same world and frame, and the original is unchanged. |
| `WorldHandle.WorldHandler.Free` | src/wolrdHandler.ts:25-28 | After free the handler is no longer live; nothing else changes. |
| `WorldHandle.WorldHandler.GetFrame` | src/wolrdHandler.ts:30 | Returns the frame counter. |
| `WorldHandle.WorldHandler.Step` | src/wolrdHandler.ts:32-38 | The stepper sees the pre-step frame and the input, so the history gains exactly (old frame, input), and the frame goes up by one. |
| `WorldHandle.StepWorld` | src/wolrdHandler.ts:32-38 | One tick adds exactly the pair (frame, input) to the world's history. |
| `WorldHandle.StepTo` | src/wolrdHandler.ts:32-38 | Ticking to a frame not after the start leaves the world as it was (`StepToHistory` gives the ticks otherwise). |
| `WorldHandle.StepToHistory` | src/wolrdHandler.ts:32-38 | Ticking from frame f to t with one input adds one tick per frame f, …, t-1, in order. |
| `WorldHandle.StepToSplit` | src/wolrdHandler.ts:32-38 | Ticking up to m and then on to t is ticking up to t. |
| `WorldHandle.StepToOneMore` | src/wolrdHandler.ts:32-38 | Ticking to t+1 is ticking to t followed by one tick at frame t. |
| `Structures.BinSearch` | src/helpers/structures.ts:3-19 | On an ascending array the result is an insertion point in [0, n]. It points at an element with key `el` exactly when one exists. When none exists, the keys before it are smaller and the keys from it on are larger. The loop terminates (`b - a` decreases). |
| `Structures.Spliced` | src/helpers/structures.ts:23 | `splice(pos, 0, el)` gives a sequence one longer, with `el` at pos, the elements before pos kept and the rest shifted by one. |
| `Structures.SplicedMultiset` | src/helpers/structures.ts:23 | Splicing adds exactly the new element: the result is a permutation of the old array plus `el`. |
| `Structures.DropFirst` | src/handleMultiplayerIO.ts:90 | `splice(0, k)` leaves the elements from index k on, in order. |
| `Structures.SplicedAscending` | src/helpers/structures.ts:21-25 | Inserting at an insertion point keeps the array ascending. |
| `Structures.DropFirstAscending` | src/handleMultiplayerIO.ts:90 | Removing a prefix keeps the queue ascending. |
| `Structures.SortedInsert` | src/helpers/structures.ts:21-25 | Returns an insertion point for the element's key and the array with the element spliced in there. The result stays ascending. |
| `Structures.SortedArr.constructor` | src/helpers/structures.ts:28 | Holds the given ascending array and key function. |
| `Structures.SortedArr.Insert` | src/helpers/structures.ts:29-31 | The array becomes the old one with the element spliced in at an insertion point, and stays ascending. |
| `Structures.SortedArr.Search` | src/helpers/structures.ts:32-34 | Returns an insertion point that holds the key exactly when the key is present. |
| `Replay.TickTo` | src/handleMultiplayerIO.ts:72-77 | noEventStepTo: the counter ends at or after the target and never moves back; the persisted state is unchanged. |
| `Replay.ApplyAt` | src/handleMultiplayerIO.ts:86-88 | One loop round: the counter reaches the later of its frame and the event's, and the state is patched with the event's diff. |
| `Replay.PrefixLen` | src/handleMultiplayerIO.ts:81-85 | Where forward's loop breaks, an index within the queue. |
| `Replay.PrefixFrom` | src/handleMultiplayerIO.ts:81-85 | The loop run from index i breaks at an index between i and the queue length. |
| `Replay.PrefixLenBounds` | src/handleMultiplayerIO.ts:81-85 | Every event before the break lies at or before the target; the event at the break lies after it. |
| `Replay.PrefixLenIs` | src/handleMultiplayerIO.ts:81-85 | An index that meets the loop's exit test is where the loop breaks. |
| `Replay.PrefixFromBounds` | src/handleMultiplayerIO.ts:81-85 | Run from an index before which every event is due, the loop breaks after a run of due events, at an event after the target or at the end. |
| `Replay.PrefixFromIs` | src/handleMultiplayerIO.ts:81-85 | Run from index i, the loop breaks exactly at the first index n from which the events stop being due. |
| `Replay.SortedRestAfter` | src/handleMultiplayerIO.ts:81-85 | On a sorted queue every event from the break on lies after the target. |
| `Replay.DropFirstSorted` | src/handleMultiplayerIO.ts:90 | Removing the handled prefix keeps the queue sorted by frame. |
| `Replay.PlaySnoc` | src/handleMultiplayerIO.ts:81-89 | Handling one more event is one more loop round. |
| `Replay.PlayPrefixStep` | src/handleMultiplayerIO.ts:81-89 | Handling the events up to index i inclusive is handling those before i, then event i. |
| `Replay.PlayAppend` | src/handleMultiplayerIO.ts:81-89 | Handling a+b is handling a, then b. |
| `Replay.PlayState` | src/handleMultiplayerIO.ts:64-66 | The control state after handling events is the old one patched with their diffs, in order. |
| `Replay.PlayFrame` | src/handleMultiplayerIO.ts:72-77 | Handling events no later than t moves the frame forward, never past t. |
| `Replay.TickOnce` | src/handleMultiplayerIO.ts:68-70 | Ticking one frame ahead is one world step with the control state. |
| `Replay.TickToTwice` | src/handleMultiplayerIO.ts:72-77 | Stepping to t1 and then to a later t2 is stepping to t2. |
| `Replay.ForwardResult` | src/handleMultiplayerIO.ts:79-92 | From a frame at or before t, forward ends exactly at t. It removes exactly the leading events at or before t and folds their diffs into the state in order. It keeps the rest, all after t, still sorted. |
| `Replay.PrefixLenGrows` | src/handleMultiplayerIO.ts:81-85 | The events handled for a later target extend those handled for an earlier one. |
| `Replay.PlayAfterTick` | src/handleMultiplayerIO.ts:72-89 | Ticking ahead to t1 before events later than t1 changes nothing. |
| `Replay.ForwardTwice` | src/handleMultiplayerIO.ts:79-92 | Forwarding to t1 and then to t2 ≥ t1 gives the same frame state as forwarding to t2 at once. |
| `Replay.DropFirstTwice` | src/handleMultiplayerIO.ts:90 | Two removals from the front are one. |
| `Replay.TakeSplit` | src/handleMultiplayerIO.ts:81-90 | The first a+b events are the first a and then the first b of the rest. |
| `Replay.ForwardEmpty` | src/handleMultiplayerIO.ts:91 | With nothing queued, forward only ticks. |
| `FrameStates.InsertionPointIsSlot` | src/handleMultiplayerIO.ts:40 | An insertion point under the frame key is a position that keeps the queue sorted by frame. |
| `FrameStates.FrameState.ValidIsWellFormed` | src/handleMultiplayerIO.ts:40 | The queue held under the frame key is sorted by frame. |
| `FrameStates.FrameState.constructor` | src/handleMultiplayerIO.ts:40-42 | A new frame state holds the given handle and state and an empty queue. |
| `FrameStates.FrameState.Clone` | src/handleMultiplayerIO.ts:44-48 | The clone is fresh, separate from the original, and has the same world, frame, state and queue. |
| `FrameStates.FrameState.MakeCopyFrom` | src/handleMultiplayerIO.ts:50-55 | The old handle, if any, is freed. This state becomes equal in value to `other`, with a fresh handle. |
| `FrameStates.FrameState.GetFrame` | src/handleMultiplayerIO.ts:57 | Returns the frame of the handle. |
| `FrameStates.FrameState.AddEvent` | src/handleMultiplayerIO.ts:59-62 | Requires an event not in the past. The event is spliced into the queue at a place that keeps it sorted by frame, and nothing else changes. |
| `FrameStates.FrameState.ApplyEvent` | src/handleMultiplayerIO.ts:64-66 | Only the control state changes: it becomes the old one patched with the event's diff. |
| `FrameStates.FrameState.Step` | src/handleMultiplayerIO.ts:68-70 | One world step with the control state; the frame goes up by one. |
| `FrameStates.FrameState.NoEventStepTo` | src/handleMultiplayerIO.ts:72-77 | Ticks with the unchanged state until the frame equals the target; a target in the past is excluded by the assertion. |
| `FrameStates.FrameState.HandleEvent` | src/handleMultiplayerIO.ts:87-88 | One loop round: tick to the event's frame, then patch the state. |
| `FrameStates.FrameState.HandleDue` | src/handleMultiplayerIO.ts:80-89 | The loop stops at PrefixLen. By then the state is the replay (`Play`) of exactly those events, and the frame has not passed the target. |
| `FrameStates.FrameState.Forward` | src/handleMultiplayerIO.ts:79-92 | The new frame state is `Replay.Forward` of the old one, and the queue still has nothing in the past. |
| `Coordinator.ForwardAllBefore` | src/handleMultiplayerIO.ts:79-92 | Forwarding past every queued event empties the queue. |
| `Coordinator.SplicedFrames` | src/handleMultiplayerIO.ts:59-62 | Queuing an event below a bound keeps every queued frame below it. |
| `Coordinator.QueuedAtBack` | src/handleMultiplayerIO.ts:59-62 | An event later than every queued one is queued last. |
| `Coordinator.ForwardLocalEvent` | src/handleMultiplayerIO.ts:124-127 | Queuing a local event on `sure` and replaying one frame further gives what `current` computed directly: apply, then one step. |
| `Coordinator.ForwardKeepsTail` | src/handleMultiplayerIO.ts:90 | What forwarding leaves queued is a tail of the old queue. |
| `Coordinator.HeartbeatKeepsCoherent` | src/handleMultiplayerIO.ts:138-143 | A heartbeat that forwards `sure` keeps the rollback invariant, whether `sure` stays behind or runs ahead. |
| `Coordinator.HeartbeatAhead` | src/handleMultiplayerIO.ts:138-143 | A heartbeat past the current frame empties the sure queue. `sure` is then `current` ticked forward. |
| `Coordinator.QueuedWellFormed` | src/handleMultiplayerIO.ts:135 | Queuing an event not in the past keeps the sure queue sorted and free of past events. |
| `Coordinator.SplicedInOrder` | src/handleMultiplayerIO.ts:135 | Splicing at a sorted slot keeps the queue sorted by frame. |
| `Coordinator.RemoteDiffKeepsCoherent` | src/handleMultiplayerIO.ts:131-152 | After a remote diff, `sure` sits at the diff's frame and the two timelines are coherent again. `current` is the queue replayed up to the later of the old current frame and the diff's frame. |
| `Coordinator.RemoteDiffBehind` | src/handleMultiplayerIO.ts:146-151 | Case of a diff older than the current frame: `current` is rebuilt from `sure` and replayed up to its old frame. |
| `Coordinator.RemoteDiffAhead` | src/handleMultiplayerIO.ts:146-151 | Case of a diff at or after the current frame: `current` becomes `sure`. |
| `Coordinator.RebuildBehind` | src/handleMultiplayerIO.ts:146-151 | Forwarding the copy to the old current frame consumes every queued event and equals forwarding at once. |
| `Coordinator.RebuildAhead` | src/handleMultiplayerIO.ts:146-151 | A copy of `sure` taken at the diff's frame is coherent with `sure`. |
| `Coordinator.LocalEventKeepsCoherent` | src/handleMultiplayerIO.ts:124-127 | Applying a local event to `current`, queuing it on `sure` and ticking `current` keeps the invariant. |
| `Coordinator.CatchUpKeepsCoherent` | src/handleMultiplayerIO.ts:116-122 | Forwarding `current` to a sure frame that ran ahead makes the two timelines equal and keeps the invariant. |
| `Coordinator.TickKeepsCoherent` | src/handleMultiplayerIO.ts:127 | Ticking `current` without an input change keeps the invariant. |
| `Coordinator.HandleMultyplayerIO.constructor` | src/handleMultiplayerIO.ts:99-102 | Both timelines start from the handler's world, with an all-zero state and no events. They are coherent. |
| `Coordinator.HandleMultyplayerIO.GetCurrWorld` | src/handleMultiplayerIO.ts:104 | Returns the current timeline's world. |
| `Coordinator.HandleMultyplayerIO.GetSureWorld` | src/handleMultiplayerIO.ts:105 | Returns the sure timeline's world. |
| `Coordinator.HandleMultyplayerIO.GetCurrFrame` | src/handleMultiplayerIO.ts:106 | Returns the current frame. |
| `Coordinator.HandleMultyplayerIO.GetSureFrame` | src/handleMultiplayerIO.ts:107 | Returns the sure frame. |
| `Coordinator.HandleMultyplayerIO.CatchUp` | src/handleMultiplayerIO.ts:113-122 | The corrected guard: the event frame is the later of the two frames, and `current` is forwarded there. When `sure` was ahead, `current` then equals `sure`. |
| `Coordinator.HandleMultyplayerIO.Tick` | src/handleMultiplayerIO.ts:127 | `current` ticks one frame with its state; `sure` is unchanged; the invariant holds. |
| `Coordinator.HandleMultyplayerIO.QueueLocal` | src/handleMultiplayerIO.ts:124-127 | The event is queued in order on `sure` and applied then ticked on `current`. The invariant holds. |
| `Coordinator.HandleMultyplayerIO.PredictLocal` | src/handleMultiplayerIO.ts:124-127 | `current` applies the event and ticks one frame; `sure` is untouched. |
| `Coordinator.HandleMultyplayerIO.StepLocal` | src/handleMultiplayerIO.ts:109-129 | Corrected stepLocal. It returns None exactly when the input did not change. Otherwise it returns the diff as an event at the later of the two frames, queued in order on `sure`, and `current` is the replay of it. The invariant is kept either way. |
| `Coordinator.HandleMultyplayerIO.StepWithDiff` | src/handleMultiplayerIO.ts:112-128 | stepLocal's two branches once the diff is known. |
| `Coordinator.HandleMultyplayerIO.StepChanged` | src/handleMultiplayerIO.ts:112-126 | A changed input: catch up, then apply and queue the event at the caught-up frame. |
| `Coordinator.HandleMultyplayerIO.StepLocalAsWritten` | src/handleMultiplayerIO.ts:109-129 | stepLocal as written succeeds exactly when the input did not change or `sure` is not ahead. On success it does what the corrected stepLocal does: an unchanged input only ticks `current`; a changed one becomes an event at the current frame, queued in order on `sure` and applied then ticked on `current`. When it fails, `sure` is unchanged and the diff has already been applied to `current`. |
| `Coordinator.HandleMultyplayerIO.StepWithDiffAsWritten` | src/handleMultiplayerIO.ts:112-128 | stepLocal as written once the diff is known: the same outcome as StepLocalAsWritten, stated for that diff. |
| `Coordinator.HandleMultyplayerIO.StepChangedAsWritten` | src/handleMultiplayerIO.ts:113-126 | A changed input as written: the event takes the current frame. It fails exactly when `sure` is ahead, leaving the diff applied to `current`. Otherwise it is queued in order on `sure` and `current` applies it and ticks. |
| `Coordinator.AsWrittenAfterHeartbeat` | src/handleMultiplayerIO.ts:109-152 | From frame 0, a heartbeat for frame 5 and then a changed input make stepLocal as written fail. |
| `Coordinator.CorrectedAfterHeartbeat` | src/handleMultiplayerIO.ts:109-152 | The same input with the corrected stepLocal yields an event at frame 5. |
| `Coordinator.HandleMultyplayerIO.Rebuild` | src/handleMultiplayerIO.ts:146-151 | `current` becomes a copy of `sure`, forwarded to the old current frame when that was later. |
| `Coordinator.HandleMultyplayerIO.Heartbeat` | src/handleMultiplayerIO.ts:138-143 | `sure` is forwarded to the frame and `current` is untouched. The invariant holds. |
| `Coordinator.HandleMultyplayerIO.RemoteDiff` | src/handleMultiplayerIO.ts:134-151 | The diff is queued in order and `sure` is forwarded to its frame. `current` is the same queue replayed up to the later frame, and the invariant holds. |
| `Coordinator.HandleMultyplayerIO.QueueRemote` | src/handleMultiplayerIO.ts:134-138 | `sure` queues the event in order and is forwarded to its frame; `current` is untouched. |
| `Coordinator.HandleMultyplayerIO.GotRemoteDiff` | src/handleMultiplayerIO.ts:131-152 | Succeeds exactly when the frame is not before the sure frame; otherwise nothing changes. On success `sure` is at the frame. A heartbeat leaves `current` alone. A diff rebuilds `current` as the replay up to the later frame. The invariant is kept. |
| `Rooms.LowerIsRange` | server/wsshare/room.go:17 | The first row of the table is exactly 'a'..'z'. |
| `Rooms.UpperIsRange` | server/wsshare/room.go:18 | The second row is exactly 'A'..'Z'. |
| `Rooms.DigitsIsRange` | server/wsshare/room.go:19 | The third row is exactly '0'..'9'. |
| `Rooms.ValidCharsAreAlnum` | server/wsshare/room.go:17-19 | validChars holds exactly the ASCII letters and digits. |
| `Rooms.RoomKey` | server/wsshare/room.go:36-38 | The key is the prefix, '_', then the room. |
| `Rooms.RoomKeyInjective` | server/wsshare/room.go:36-38 | Under valid prefixes, a key determines both its prefix and its room. |
| `Rooms.ValidRune` | server/wsshare/room.go:70-77 | True exactly for ASCII letters and digits. |
| `Rooms.ValidatePrefix` | server/wsshare/room.go:79-89 | True exactly when the prefix has at most 30 runes, all letters or digits. The empty prefix is accepted. |
| `Rooms.RandomRoom` | server/wsshare/room.go:21-27 | Exactly 10 characters, each from validChars. |
| `Rooms.Hosted` | server/wsshare/room.go:62-65 | The new entry has the host and no client; every other entry is kept. |
| `Rooms.Joined` | server/wsshare/room.go:91-104 | Fails exactly when the room is missing or already has a client. Otherwise only the client slot of that room changes. |
| `Rooms.JoinAfterHost` | server/wsshare/room.go:61-104 | A freshly hosted room admits one client, keeps its host, and refuses a second client. |
| `Rooms.Registry.constructor` | server/wsshare/room.go:34 | The registry starts empty. |
| `Rooms.Registry.HostRoom` | server/wsshare/room.go:40-68 | "" leaves the map unchanged. Success means the key was absent and now maps to host=conn, client=none. A wanted room fails exactly when it is taken. With no wanted room, at most 10 names are drawn, and failure means all 10 were taken. |
| `Rooms.Registry.JoinRoom` | server/wsshare/room.go:91-104 | Returns "" and changes nothing when the room is missing or full. Otherwise it sets only the client slot and returns the room. |
| `BasePath.Make` | server/df_basepath.py:8-17 | None gives no parts; another path lends its parts; parts are kept as given. |
| `BasePath.Take` | server/df_basepath.py:41 | Python's `s[:n]`: the first n elements, or the whole sequence when it is shorter. |
| `BasePath.SlashSplit` | server/df_sftp.py:9-23 | `str.split('/')` gives at least one piece, and no piece holds a slash. |
| `BasePath.JoinSplit` | server/df_basepath.py:64 | '/'-joining what was '/'-split gives the string back. |
| `BasePath.SlashJoin` | server/df_basepath.py:42 | `'/'.join(parts)` has at least one character per separator; `SplitJoin` and `JoinSplit` show it is the inverse of `SlashSplit`. |
| `BasePath.SplitAfterPiece` | server/df_sftp.py:23 | A slash-free head fuses with the first piece that follows it. |
| `BasePath.SplitJoin` | server/df_basepath.py:64 | '/'-splitting the '/'-join of slash-free parts gives the parts back. |
| `BasePath.Join` | server/df_basepath.py:37-38 | Appends exactly one part, so the old path is a prefix of the new one. |
| `BasePath.Parent` | server/df_basepath.py:51-52 | Drops exactly the last part, and a path with no parts is its own parent. The parent is a prefix of the path. |
| `BasePath.ParentOfJoin` | server/df_basepath.py:37-52 | The parent of `join(p, n)` is p. |
| `BasePath.JoinOfParent` | server/df_basepath.py:37-52 | A path with parts is its parent joined with its last part. |
| `BasePath.Relpath` | server/df_basepath.py:40-44 | None exactly when the base is not a prefix; otherwise the '/'-joined remainder. |
| `BasePath.RelpathSelf` | server/df_basepath.py:40-44 | `relpath(p, p)` is the empty string. |
| `BasePath.RelpathJoin` | server/df_basepath.py:37-44 | `relpath(join(p, n), p)` is n. |
| `BasePath.Convert` | server/df_basepath.py:46-49 | None exactly when the source base is not a prefix. Otherwise the result is the target base's parts followed by the parts below the source base. |
| `BasePath.ConvertRoundTrip` | server/df_basepath.py:46-49 | Converting back with the bases swapped restores the original path. |
| `BasePath.ConvertKeepsRelpath` | server/df_basepath.py:40-49 | The converted path, relative to the target base, equals the original relative to the source base. |
| `BasePath.Ancestors` | server/df_basepath.py:55-59 | The generator's output from prefix length i down to 1, cut at the first prefix not under the root. |
| `BasePath.Parents` | server/df_basepath.py:54-59 | Without a root: exactly len-1 paths, of lengths len-1 down to 1, each the parent of the one before. With a root: all of them lie under it, and the walk stops at the first prefix that does not. |
| `BasePath.Str` | server/df_basepath.py:61-64 | The root's single empty part prints as '/', any other path as its '/'-joined parts. |
| `Sftp.CwdParts` | server/df_sftp.py:8-9 | Empty exactly when there is no working directory; otherwise its '/'-split, which joins back to it. |
| `Sftp.Absolute` | server/df_sftp.py:21 | `startswith('/')`: exactly the non-empty paths whose first '/'-piece is empty. |
| `Sftp.ToParts` | server/df_sftp.py:17-28 | The loop computes `Resolve`. It starts from the working directory only for a path not starting with '/'. '..' pops and every other piece is appended; a pop on an empty list fails. |
| `Sftp.ResolveNoDots` | server/df_sftp.py:23-27 | Without '..' every piece, '' and '.' included, is appended verbatim, in order. |
| `Sftp.ResolveNameThenUp` | server/df_sftp.py:23-27 | A '..' right after a name cancels it. |
| `Sftp.ParsePrintRoundTrip` | server/df_basepath.py:61-64 | Printing an absolute path whose parts hold no '/' or '..' and parsing it back gives the same parts. |
| `Sftp.RootPrintsAsParsedRoot` | server/df_basepath.py:61-64 | The root prefix ('',) prints as '/', like ('', ''), and '/' parses to ('', ''). |
| `Sftp.IsDirMode` | server/df_sftp.py:44 | `S_ISDIR`: the file-type nibble (bits 12-15) of the mode is 4. |
| `Sftp.FileDirExclusive` | server/df_sftp.py:38-44 | isfile and isdir are never both true, and both are false for a missing path. |
| `Sftp.RemotePath.constructor` | server/df_sftp.py:12-14 | A new remote path has not fetched its mode. |
| `Sftp.RemotePath.GetMode` | server/df_sftp.py:29-36 | The first call asks stat and caches the answer; later calls return the cache. |
| `Sftp.RemotePath.IsFile` | server/df_sftp.py:38-40 | True exactly when the cached mode exists and is not a directory. |
| `Sftp.RemotePath.IsDir` | server/df_sftp.py:42-44 | True exactly when the cached mode exists and is a directory. |
| `Sftp.Lineage` | server/df_sftp.py:56 | `path, *path.parents()`: starts at the path, each entry is the parent of the one before, and it ends at a prefix of at most one part. |
| `Sftp.CreatedChain` | server/df_sftp.py:54-63 | Creating the missing part of the lineage in reverse creates exactly the missing chain below the first existing ancestor. |
| `Sftp.Makedirs` | server/df_sftp.py:54-63 | Nothing is created when the path exists. Otherwise the path is created last, and every created directory was missing. Each is the parent of the next (shallowest first). The parent of the first exists unless the first is top-level. |
| `Sftp.DirNames` | server/df_sftp.py:76-81 | The subdirectory names are at most as many as the entries. |
| `Sftp.FileNames` | server/df_sftp.py:76-81 | Every entry is either a directory or a file. |
| `Sftp.WalkOf` | server/df_sftp.py:69-83 | A top-down walk yields one visit per directory in the tree. |
| `Sftp.WalkBelow` | server/df_sftp.py:69-83 | The walks below a directory visit each subdirectory in the tree once. |
| `Sftp.Pushes` | server/df_sftp.py:83 | One stack entry per subdirectory. |
| `Sftp.WalkStackAppend` | server/df_sftp.py:71-83 | Entries pushed later are walked first. |
| `Sftp.WalkStackPushes` | server/df_sftp.py:83 | Walking the pushed subdirectories is the walk below their parent. |
| `Sftp.PopAndPush` | server/df_sftp.py:72-83 | Popping a directory owes its visit, then its subdirectories' walks, then the rest of the stack. |
| `Sftp.Walk` | server/df_sftp.py:65-83 | Bottom-up is refused. Top-down, the explicit stack yields exactly the pre-order `WalkOf` of the tree, with the last subdirectory first. |

## Left out

- Physics and rendering (RAPIER, PIXI) are not part of this model. A world
  is the history of its ticks, and the stepper is folded into the world
  value. The model does not say what a tick computes, only which ticks
  happen, in which order, with which input.
- Frames are integers. JavaScript numbers are floats, but frames only count
  up from an integer.
- Control values are integers. Only their equality and the default 0
  matter. NaN is not modelled: with a NaN value, JavaScript's `!==` would
  make `diffData(s, s)` report a diff, and `DiffOfSelfIsNone` holds only
  for integer values.
- The loops of `applyDiff` and `diffData` take keys in an unspecified order,
  not JavaScript insertion order. The result does not depend on the order.
- A TypeScript `assert` inside `FrameState` becomes a precondition:
  `addEvent` requires an event not in the past, and `noEventStepTo` requires
  a target not in the past. At `gotRemoteDiff` a failing assertion is the
  result `false`, with nothing changed.
- `FrameStates.FrameState.MakeCopyFrom`: the source copies `events.arr` into
  a new array. The model assigns the sequence value, so there is no array
  aliasing to lose.
- Serialization of events, transport (WebRTC, WebSocket, main.go) and
  scheduling are not part of this model.
- `Coordinator.HandleMultyplayerIO.GetCurrWorld` and
  `Coordinator.HandleMultyplayerIO.GetSureWorld` return the world value, not
  a shared reference to the engine world.
- The registry functions in main.go are not part of this model: deleting a
  room on disconnect, clearing the client slot, and forwarding messages.
- `Rooms.RandomRoom`: the random draw is a nondeterministic choice. The
  model says nothing about the distribution.
- `Rooms.ValidatePrefix`: Go's `len(prefix)` counts bytes, and the model
  counts runes. The result is the same: a non-ASCII rune is rejected anyway,
  and an all-ASCII prefix has as many bytes as runes.
- `Rooms.Registry.HostRoom`: the host connection is a number and is never
  nil. The log lines are not modelled.
- OSPath (os.path, local files) is not part of this model.
- `readlines` (file I/O) is not part of this model.
- `BasePath.Make` takes parts, a path or nothing. Parsing a string is done by
  each kind of path; for remote paths that is `Sftp.ToParts`.
- `type(self)` and `type(base_to)` collapse to one Path type.
- `Sftp.RemotePath.GetMode`: stat errors other than FileNotFoundError are
  not modelled. stat is one fixed function for the lifetime of the object.
- `Sftp.Makedirs`: mkdir calls are the returned list of paths. mkdir errors
  are not modelled. As in the source, stat is not asked again after a mkdir.
- `Sftp.Walk`: the remote tree is a finite value that does not change
  during the walk. The generator's laziness is not modelled: the result is
  the whole list of visits, and a bottom-up request fails at the call.

## Findings

| source | as written | input that shows it | evidently intended | confidence | as-written member | corrected member |
|---|---|---|---|---|---|---|
| src/handleMultiplayerIO.ts:116-122 | Both `sureFrame` and `currFrame` are read from `sureState`, so `sureFrame > currFrame` never holds and `current` is never caught up. | A coordinator at frame 0 receives `gotRemoteDiff(5, undefined)`, which forwards `sure` to frame 5. Then `stepLocal` gets a changed input. The event is at frame 0: `applyEvent` changes `current`, then `addEvent`'s assertion (0 >= 5) throws. | Compare with `currState.getFrame()`. Forward `current` to the sure frame and queue the event there. | not executed | `Coordinator.AsWrittenAfterHeartbeat` | `Coordinator.CorrectedAfterHeartbeat` |
