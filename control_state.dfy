/**
 * Control states and their sparse diffs (applyDiff and diffData in
 * src/handleMultiplayerIO.ts). A control state maps control names to values;
 * a name that is absent reads as 0. Only equality of values is ever used, so
 * values are integers here.
 */
module ControlStates {
  import opened Wrappers

  type ControlState = map<string, int>

  /** `data[k] ?? 0`: the value of `k`, with an absent key reading as 0. */
  function Get(data: ControlState, k: string): (r: int)
    ensures k in data ==> r == data[k]
    ensures k !in data ==> r == 0
  {
    if k in data then data[k] else 0
  }

  /** The keys of `newData` whose value differs from the one in `oldData`. */
  ghost function ChangedKeys(oldData: ControlState, newData: ControlState): set<string>
  {
    set k | k in newData && Get(oldData, k) != newData[k]
  }

  /** The state that applying `diff` onto `data` in place leaves behind. */
  function Patch(data: ControlState, diff: ControlState): (r: ControlState)
    ensures r.Keys == data.Keys + diff.Keys
    ensures forall k :: k in diff ==> r[k] == diff[k]
    ensures forall k :: k in data && k !in diff ==> r[k] == data[k]
  {
    data + diff
  }

  /** applyDiff: assigns every entry of `diff` onto `data`, one key at a time. */
  method ApplyDiff(data: ControlState, diff: ControlState) returns (data': ControlState)
    ensures data' == Patch(data, diff)
  {
    data' := data;
    var todo := diff.Keys;
    while todo != {}
      invariant todo <= diff.Keys
      invariant data'.Keys == data.Keys + (diff.Keys - todo)
      invariant forall k :: k in diff && k !in todo ==> data'[k] == diff[k]
      invariant forall k :: k in data && (k !in diff || k in todo) ==> data'[k] == data[k]
      decreases todo
    {
      var k :| k in todo;
      data' := data'[k := diff[k]];
      todo := todo - {k};
    }
  }

  /**
   * diffData: the entries of `newData` that differ from `oldData` (absent
   * counting as 0), or None when there are none.
   */
  method DiffData(oldData: ControlState, newData: ControlState) returns (r: Option<ControlState>)
    ensures r.None? <==> forall k :: k in newData ==> Get(oldData, k) == newData[k]
    ensures r.Some? ==> r.value.Keys == ChangedKeys(oldData, newData)
    ensures r.Some? ==> forall k :: k in r.value ==> r.value[k] == newData[k]
  {
    var hasDiff := false;
    var res: ControlState := map[];
    var todo := newData.Keys;
    while todo != {}
      invariant todo <= newData.Keys
      invariant res.Keys == ChangedKeys(oldData, newData) - todo
      invariant forall k :: k in res ==> res[k] == newData[k]
      invariant hasDiff <==> res != map[]
      decreases todo
    {
      var k :| k in todo;
      var v := newData[k];
      if Get(oldData, k) != v {
        res := res[k := v];
        hasDiff := true;
      }
      todo := todo - {k};
    }
    if hasDiff {
      r := Some(res);
    } else {
      assert forall k :: k in newData ==> Get(oldData, k) == newData[k] by {
        forall k | k in newData ensures Get(oldData, k) == newData[k] {
          assert k !in res.Keys;
        }
      }
      r := None;
    }
  }

  /** The diff that diffData computes, as a value. */
  ghost function Diff(oldData: ControlState, newData: ControlState): (r: Option<ControlState>)
  {
    var d := map k | k in ChangedKeys(oldData, newData) :: newData[k];
    if d == map[] then None else Some(d)
  }

  /** What DiffData returns is exactly Diff: the method and the value agree. */
  lemma DiffDataIsDiff(oldData: ControlState, newData: ControlState, r: Option<ControlState>)
    requires r.None? <==> forall k :: k in newData ==> Get(oldData, k) == newData[k]
    requires r.Some? ==> r.value.Keys == ChangedKeys(oldData, newData)
    requires r.Some? ==> forall k :: k in r.value ==> r.value[k] == newData[k]
    ensures r == Diff(oldData, newData)
  {
    var d := map k | k in ChangedKeys(oldData, newData) :: newData[k];
    if r.Some? {
      var k :| k in newData && Get(oldData, k) != newData[k];
      assert k in d;
      assert r.value == d;
    } else {
      assert d.Keys == {};
    }
  }

  /** Diffing a state against itself yields no diff. */
  lemma DiffOfSelfIsNone(data: ControlState)
    ensures Diff(data, data).None?
  {
    assert ChangedKeys(data, data) == {};
  }

  /** Folding a diff in where there is none: a missing diff leaves the state as it is. */
  function PatchOpt(data: ControlState, diff: Option<ControlState>): ControlState
  {
    if diff.Some? then Patch(data, diff.value) else data
  }

  /**
   * Round trip: applying diffData(old, new) onto `old` agrees with `new` on
   * every key of `new` (absent counting as 0) and changes no other key.
   */
  lemma {:induction false} PatchDiffRoundTrip(oldData: ControlState, newData: ControlState)
    ensures forall k :: k in newData ==> Get(PatchOpt(oldData, Diff(oldData, newData)), k) == newData[k]
    ensures forall k :: k !in newData ==> Get(PatchOpt(oldData, Diff(oldData, newData)), k) == Get(oldData, k)
  {
    var d := map k | k in ChangedKeys(oldData, newData) :: newData[k];
    var p := PatchOpt(oldData, Diff(oldData, newData));
    assert p == oldData + d;
    forall k | k in newData ensures Get(p, k) == newData[k] {
      if k !in d {
        assert k !in ChangedKeys(oldData, newData);
      }
    }
  }
}
