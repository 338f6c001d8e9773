/**
 * The registry of `mp_thread_*` in the K210 FreeRTOS port: every task the
 * runtime spawned, newest first, with the walks the collector and the
 * shutdown path make over it. Every operation runs with the registry lock
 * held; the current task handle, the result of task creation and the stack
 * base the OS reports are parameters.
 */
module ThreadRegistry {
  import opened Wrappers
  import opened ThreadRecords
  import opened StackSizing
  import opened ThreadNames
  import opened GcRootWalk
  import opened Teardown

  const ThreadPriority: int := 4
  /** Every task is created on processor 0. */
  const CreationProcessor: nat := 0
  const CreateFailedMessage: string := "can't create thread"

  /**
   * The arguments handed to `xTaskCreateAtProcessor`; the entry point is
   * always the trampoline, and the stack depth is counted in words.
   */
  datatype TaskRequest = TaskRequest(processor: nat, name: string, stackDepth: SizeT, arg: Addr, priority: int)

  /** How a creation call ends: it returns, or it raises `OSError`. */
  datatype Status = Returned | RaisedOSError(message: string)

  class Registry {
    /** The list headed by `thread`, head first. */
    var threads: seq<ThreadRecord>
    /** `thread_num`, the counter that numbers the names of created tasks. */
    var threadNum: Uint32

    /** The zero-initialised statics: an empty list and a zero counter. */
    constructor ()
      ensures threads == [] && threadNum == 0
    {
      threads := [];
      threadNum := 0;
    }

    /** `mp_thread_init`: the list becomes the single ready record of the calling task. */
    method Init(current: TaskId, stack: Addr, stackLen: Uint32)
      modifies this
      ensures threads == [ThreadRecord(current, true, Null, stack, stackLen)]
      ensures threadNum == old(threadNum)
    {
      threads := [ThreadRecord(current, true, Null, stack, stackLen)];
    }

    /** `mp_thread_gc_others`, seen as the roots it hands to the collector. */
    method GcOthers(current: TaskId) returns (roots: seq<Root>)
      ensures roots == GcRoots(threads, current)
      ensures RecordRootsOf(roots) == seq(|threads|, k => k)
      ensures ArgRootsOf(roots) == Args(threads)
      ensures StackRangesOf(roots) == RangesAt(threads, ScannedPositions(threads, current))
    {
      roots := [];
      for i := 0 to |threads|
        invariant roots == GcRoots(threads[..i], current)
      {
        assert threads[..i + 1][..i] == threads[..i];
        var th := threads[i];
        ghost var next := GcRoots(threads[..i + 1], current);
        assert next == roots + NodeRoots(i, th, current);
        roots := roots + [RecordRoot(i), ArgRoot(th.arg)];
        if th.id == current {
          assert roots == next;
          continue;
        }
        if !th.ready {
          assert roots == next;
          continue;
        }
        roots := roots + [StackRange(th.stack, th.stackLen)];
        assert roots == next;
      }
      assert threads[..|threads|] == threads;
      WalkViews(threads, current);
    }

    /** The shared loop of start and finish: set `ready` on the caller's first record. */
    method MarkCurrent(current: TaskId, flag: bool)
      modifies this
      ensures threads == MarkReady(old(threads), current, flag)
      ensures threadNum == old(threadNum)
    {
      var i := 0;
      while i < |threads|
        invariant 0 <= i <= |threads|
        invariant threads == old(threads)
        invariant forall j :: 0 <= j < i ==> threads[j].id != current
      {
        if threads[i].id == current {
          threads := threads[i := threads[i].(ready := flag)];
          break;
        }
        i := i + 1;
      }
    }

    /** `mp_thread_start`: the calling task's record becomes ready. */
    method Start(current: TaskId)
      modifies this
      ensures threads == MarkReady(old(threads), current, true)
      ensures threadNum == old(threadNum)
    {
      MarkCurrent(current, true);
    }

    /** `mp_thread_finish`: the calling task's record stops being ready. */
    method Finish(current: TaskId)
      modifies this
      ensures threads == MarkReady(old(threads), current, false)
      ensures threadNum == old(threadNum)
    {
      MarkCurrent(current, false);
    }

    /**
     * `mp_thread_create_ex`. `created` is the handle task creation yields
     * (`None` for NULL) and `stackBase` the stack base the OS then reports.
     * Besides the request made of the OS and how the call ends, it returns
     * the value left in the caller's `*stack_size`.
     */
    method CreateEx(arg: Addr, stackSize: SizeT, priority: int, name: string, created: Option<TaskId>, stackBase: Addr)
      returns (request: TaskRequest, status: Status, newStackSize: SizeT)
      modifies this
      ensures request == TaskRequest(CreationProcessor, name, WordsOf(NormaliseStackSize(stackSize)), arg, priority)
      ensures created.None? ==>
        status == RaisedOSError(CreateFailedMessage) && newStackSize == NormaliseStackSize(stackSize) &&
        threads == old(threads)
      ensures created.Some? ==>
        status == Returned && newStackSize == ReportedStackSize(stackSize) &&
        threads == [ThreadRecord(created.value, false, arg, stackBase, WordsOf(newStackSize))] + old(threads)
      ensures threadNum == old(threadNum)
    {
      var size := stackSize;
      if size == 0 {
        size := DefaultStackSize;
      } else if size < MinStackSize {
        size := MinStackSize;
      }
      request := TaskRequest(CreationProcessor, name, size / StackWordSize, arg, priority);
      if created.None? {
        status, newStackSize := RaisedOSError(CreateFailedMessage), size;
        return;
      }
      var stack := stackBase;
      size := size - StackMargin;
      threads := [ThreadRecord(created.value, false, arg, stack, size / StackWordSize)] + threads;
      status, newStackSize := Returned, size;
    }

    /** `mp_thread_create`: names the task after the counter, which counts successful creations. */
    method Create(arg: Addr, stackSize: SizeT, created: Option<TaskId>, stackBase: Addr)
      returns (request: TaskRequest, status: Status, newStackSize: SizeT)
      modifies this
      ensures request == TaskRequest(CreationProcessor, ThreadName(old(threadNum)),
                                     WordsOf(NormaliseStackSize(stackSize)), arg, ThreadPriority)
      ensures created.None? ==>
        status == RaisedOSError(CreateFailedMessage) && newStackSize == NormaliseStackSize(stackSize) &&
        threads == old(threads) && threadNum == old(threadNum)
      ensures created.Some? ==>
        status == Returned && newStackSize == ReportedStackSize(stackSize) &&
        threads == [ThreadRecord(created.value, false, arg, stackBase, WordsOf(newStackSize))] + old(threads) &&
        threadNum == NextThreadNum(old(threadNum))
    {
      var name := ThreadName(threadNum);
      request, status, newStackSize := CreateEx(arg, stackSize, ThreadPriority, name, created, stackBase);
      if status.RaisedOSError? {
        return;
      }
      threadNum := NextThreadNum(threadNum);
    }

    /**
     * `mp_thread_deinit`, seen as the tasks it deletes and the positions of
     * the records it frees. It relinks nothing, so the list is left as it was.
     */
    method Deinit(current: TaskId) returns (deleted: seq<TaskId>, freed: seq<nat>)
      ensures deleted == DeletedTasks(threads, current)
      ensures freed == FreedPositions(threads, current)
      ensures forall k :: 0 <= k < |threads| ==> (k in freed <==> threads[k].id != current)
      ensures deleted == IdsAt(threads, ScannedPositions(threads, current))
    {
      deleted, freed := [], [];
      for i := 0 to |threads|
        invariant deleted == DeletedTasks(threads[..i], current)
        invariant freed == FreedPositions(threads[..i], current)
      {
        assert threads[..i + 1][..i] == threads[..i];
        var th := threads[i];
        assert DeletedTasks(threads[..i + 1], current) ==
          deleted + (if th.id != current && th.ready then [th.id] else []);
        assert FreedPositions(threads[..i + 1], current) == freed + (if th.id != current then [i] else []);
        if th.id == current {
          continue;
        }
        if th.ready {
          deleted := deleted + [th.id];
        }
        freed := freed + [i];
      }
      assert threads[..|threads|] == threads;
      DeletedAreScanned(threads, current);
    }
  }
}
