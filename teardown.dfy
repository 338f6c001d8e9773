/**
 * What `mp_thread_deinit` does to the registry it walks: it asks the OS to
 * delete the task of every ready record of another task, and frees every
 * record of another task. The caller's own record is left alone.
 */
module Teardown {
  import opened ThreadRecords
  import opened GcRootWalk

  /** The positions, in list order, of the records deinit frees. */
  function FreedPositions(ts: seq<ThreadRecord>, current: TaskId): (ps: seq<nat>)
    ensures forall j :: 0 <= j < |ps| ==> ps[j] < |ts|
    ensures forall k :: 0 <= k < |ts| ==> (k in ps <==> ts[k].id != current)
    ensures forall i, j :: 0 <= i < j < |ps| ==> ps[i] < ps[j]
    decreases |ts|
  {
    if ts == [] then []
    else
      var n := |ts| - 1;
      var pre := FreedPositions(ts[..n], current);
      assert forall k :: 0 <= k < n ==> ts[..n][k] == ts[k];
      pre + (if ts[n].id != current then [n] else [])
  }

  /** The tasks deinit deletes, in the order it deletes them. */
  function DeletedTasks(ts: seq<ThreadRecord>, current: TaskId): (ids: seq<TaskId>)
    ensures forall j :: 0 <= j < |ids| ==> ids[j] != current
    decreases |ts|
  {
    if ts == [] then []
    else
      var n := |ts| - 1;
      DeletedTasks(ts[..n], current) + (if ts[n].id != current && ts[n].ready then [ts[n].id] else [])
  }

  /** The ids of the records at positions `ps`, in that order. */
  function IdsAt(ts: seq<ThreadRecord>, ps: seq<nat>): (ids: seq<TaskId>)
    requires forall j :: 0 <= j < |ps| ==> ps[j] < |ts|
    ensures |ids| == |ps|
  {
    seq(|ps|, j requires 0 <= j < |ps| => ts[ps[j]].id)
  }

  /**
   * Deinit deletes the tasks of exactly the records whose stacks the GC
   * walk of the same task scans, in list order.
   */
  lemma {:induction false} DeletedAreScanned(ts: seq<ThreadRecord>, current: TaskId)
    ensures DeletedTasks(ts, current) == IdsAt(ts, ScannedPositions(ts, current))
    decreases |ts|
  {
    if ts != [] {
      var n := |ts| - 1;
      var pre := ts[..n];
      DeletedAreScanned(pre, current);
      var ps := ScannedPositions(pre, current);
      assert IdsAt(pre, ps) == IdsAt(ts, ps);
      if StackScanned(ts[n], current) {
        assert IdsAt(ts, ps + [n]) == IdsAt(ts, ps) + [ts[n].id];
      } else {
        assert ps + [] == ps;
      }
    }
  }

  /** Every task deinit deletes also has its record freed. */
  lemma DeletedAreFreed(ts: seq<ThreadRecord>, current: TaskId, j: nat)
    requires j < |ScannedPositions(ts, current)|
    ensures ScannedPositions(ts, current)[j] in FreedPositions(ts, current)
  {
    var k := ScannedPositions(ts, current)[j];
    assert k in ScannedPositions(ts, current);
  }

  /** Deinit frees one record for every record that is not the caller's. */
  lemma {:induction false} FreedCount(ts: seq<ThreadRecord>, current: TaskId)
    ensures |FreedPositions(ts, current)| == |ts| - Occurrences(ts, current)
    decreases |ts|
  {
    if ts != [] {
      FreedCount(ts[..|ts| - 1], current);
    }
  }

  /**
   * With unique task handles, and the caller registered at position `k`,
   * deinit frees every record but that one.
   */
  lemma FreesAllButCaller(ts: seq<ThreadRecord>, k: nat)
    requires UniqueIds(ts) && k < |ts|
    ensures |FreedPositions(ts, ts[k].id)| == |ts| - 1
    ensures k !in FreedPositions(ts, ts[k].id)
  {
    FreedCount(ts, ts[k].id);
    UniqueOccurrence(ts, k);
  }
}
