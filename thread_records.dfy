/**
 * The `thread_t` record of the K210 FreeRTOS port and the search that
 * `mp_thread_start` and `mp_thread_finish` perform over the registry list.
 * A list is a sequence of records, head first.
 */
module ThreadRecords {
  import opened Wrappers

  /** An abstract FreeRTOS task handle; a NULL creation result is `None`, never a `TaskId`. */
  type TaskId = nat

  /** A machine address (`void *`); 0 is NULL. */
  type Addr = nat
  const Null: Addr := 0

  /** `size_t` is 64 bits wide on the K210. */
  const SizeLimit: int := 0x1_0000_0000_0000_0000
  type SizeT = x: int | 0 <= x < SizeLimit

  const Uint32Limit: int := 0x1_0000_0000
  type Uint32 = x: int | 0 <= x < Uint32Limit

  /**
   * One node of the registry: the task's handle, whether it has started
   * running user code, its argument (a GC root), and its stack base and
   * length in words. The `next` link is the position in the sequence.
   */
  datatype ThreadRecord = ThreadRecord(id: TaskId, ready: bool, arg: Addr, stack: Addr, stackLen: SizeT)

  /** The position of the first record, from the head, whose id is `id`. */
  function FirstIndex(ts: seq<ThreadRecord>, id: TaskId): (r: Option<nat>)
    ensures r.Some? ==> r.value < |ts| && ts[r.value].id == id
    ensures r.Some? ==> forall j :: 0 <= j < r.value ==> ts[j].id != id
    ensures r.None? <==> forall j :: 0 <= j < |ts| ==> ts[j].id != id
    decreases |ts|
  {
    if ts == [] then None
    else if ts[0].id == id then Some(0)
    else match FirstIndex(ts[1..], id)
      case None => None
      case Some(k) => Some(k + 1)
  }

  /**
   * The list after the first record whose id is `id` has had its `ready`
   * flag set to `flag`; the list is unchanged when no record matches.
   */
  function MarkReady(ts: seq<ThreadRecord>, id: TaskId, flag: bool): (r: seq<ThreadRecord>)
    ensures |r| == |ts|
    ensures forall j :: 0 <= j < |ts| ==> r[j] == ts[j].(ready := r[j].ready)
    ensures forall j :: 0 <= j < |ts| && FirstIndex(ts, id) != Some(j) ==> r[j] == ts[j]
    ensures FirstIndex(ts, id).Some? ==> r[FirstIndex(ts, id).value].ready == flag
    ensures FirstIndex(ts, id).None? ==> r == ts
  {
    match FirstIndex(ts, id)
    case None => ts
    case Some(k) => ts[k := ts[k].(ready := flag)]
  }

  /** The task handles of a list, in list order. */
  function Ids(ts: seq<ThreadRecord>): seq<TaskId>
  {
    seq(|ts|, j requires 0 <= j < |ts| => ts[j].id)
  }

  /** The first match depends on the ids alone. */
  lemma {:induction false} FirstIndexByIds(ts: seq<ThreadRecord>, us: seq<ThreadRecord>, id: TaskId)
    requires Ids(ts) == Ids(us)
    ensures FirstIndex(ts, id) == FirstIndex(us, id)
  {
    assert |ts| == |Ids(ts)| == |us|;
    forall j | 0 <= j < |ts| ensures ts[j].id == us[j].id {
      assert Ids(ts)[j] == Ids(us)[j];
    }
  }

  /** Marking never changes which record a later search for any id finds. */
  lemma {:induction false} MarkReadyKeepsSearch(ts: seq<ThreadRecord>, id: TaskId, flag: bool, other: TaskId)
    ensures Ids(MarkReady(ts, id, flag)) == Ids(ts)
    ensures FirstIndex(MarkReady(ts, id, flag), other) == FirstIndex(ts, other)
  {
    var r := MarkReady(ts, id, flag);
    assert Ids(r) == Ids(ts) by {
      forall j | 0 <= j < |ts| ensures Ids(r)[j] == Ids(ts)[j] {
        assert r[j].id == ts[j].id;
      }
    }
    FirstIndexByIds(r, ts, other);
  }

  /**
   * Two markings of the same task in a row leave the effect of the second
   * alone: starting then finishing a task is the same as finishing it, and
   * marking twice is marking once.
   */
  lemma {:induction false} MarkReadyLastWins(ts: seq<ThreadRecord>, id: TaskId, first: bool, second: bool)
    ensures MarkReady(MarkReady(ts, id, first), id, second) == MarkReady(ts, id, second)
  {
    var once := MarkReady(ts, id, first);
    MarkReadyKeepsSearch(ts, id, first, id);
    var lhs := MarkReady(once, id, second);
    var rhs := MarkReady(ts, id, second);
    assert |lhs| == |rhs|;
    forall j | 0 <= j < |ts| ensures lhs[j] == rhs[j] {
      if FirstIndex(ts, id) == Some(j) {
        assert lhs[j] == once[j].(ready := second);
      } else {
        assert lhs[j] == once[j] == ts[j];
      }
    }
  }

  /** No two records of the list carry the same task handle. */
  predicate UniqueIds(ts: seq<ThreadRecord>)
  {
    forall i, j :: 0 <= i < j < |ts| ==> ts[i].id != ts[j].id
  }

  /** The number of records whose id is `id`. */
  function Occurrences(ts: seq<ThreadRecord>, id: TaskId): (n: nat)
    ensures n <= |ts|
    ensures n == 0 <==> forall j :: 0 <= j < |ts| ==> ts[j].id != id
    decreases |ts|
  {
    if ts == [] then 0
    else Occurrences(ts[..|ts| - 1], id) + (if ts[|ts| - 1].id == id then 1 else 0)
  }

  /** With unique handles a task present in the list has exactly one record. */
  lemma {:induction false} UniqueOccurrence(ts: seq<ThreadRecord>, k: nat)
    requires UniqueIds(ts)
    requires k < |ts|
    ensures Occurrences(ts, ts[k].id) == 1
    decreases |ts|
  {
    var n := |ts| - 1;
    var pre := ts[..n];
    assert UniqueIds(pre);
    if k == n {
      assert forall j :: 0 <= j < |pre| ==> pre[j].id != ts[k].id;
    } else {
      UniqueOccurrence(pre, k);
      assert ts[n].id != ts[k].id;
    }
  }
}
