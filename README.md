# MicroPython thread registry for the K210 FreeRTOS port

This project models the thread bookkeeping of MicroPython's K210 FreeRTOS
port (`ports/k210-freertos/mpy_support/mpthreadport.c`) in Dafny and proves
properties of the model.

The port keeps one `thread_t` record for every task it has spawned. Each
record holds the task handle, a `ready` flag, the thread's argument pointer,
its stack base, and its stack length in words. The records form a singly
linked list, and every new record is pushed at the head. The model keeps
that list as a sequence, head first, in the class `Registry`, together with
the `thread_num` counter that names new tasks.

The operations are modelled with the registry lock held:

- `Init` builds the one-record list for the bootstrap task.
- `CreateEx` normalises the requested stack size and computes the task
  request. If creation fails it raises `OSError` and leaves the list alone.
  If it succeeds it pushes a not-ready record.
- `Create` names the task `mp_thread<n>` and counts the successful creations.
- `Start` and `Finish` set or clear `ready` on the caller's first record.
- `GcOthers` returns the sequence of roots the GC walk emits.
- `Deinit` returns the tasks it deletes and the records it frees.

Inputs from FreeRTOS are parameters of the operations:

- the current task handle (`xTaskGetCurrentTaskHandle`);
- the handle task creation yields, `None` for NULL (`xTaskCreateAtProcessor`);
- the stack base the OS reports (`vTaskGetInfo`).

Task deletion (`vTaskDelete`) and record release (`m_del_obj`) are recorded
as outputs.

Modules:

- `Wrappers`: the `Option` type.
- `ThreadRecords`: the record type, the machine integer types, the search
  for the caller's record, and `MarkReady`.
- `StackSizing`: the constants and the stack-size arithmetic of
  `mp_thread_create_ex`.
- `ThreadNames`: the `%d` formatting of `thread_num`, its parser, and the
  wrap-around of the counter.
- `GcRootWalk`: the roots of the GC walk and views of them by kind.
- `Teardown`: what `mp_thread_deinit` deletes and frees.
- `ThreadRegistry`: the `Registry` class, whose methods hold the loops.

Two consequences of the code:

- Nothing stops `mp_thread_start` from setting `ready` again after
  `mp_thread_finish`, so `Start` after `Finish` sets it again.
- `mp_thread_deinit` frees records without relinking `thread` or `next`, so
  the model makes no claim about the list afterwards.

## Model

| member | source | states |
|---|---|---|
| `ThreadRecords.FirstIndex` | ports/k210-freertos/mpy_support/mpthreadport.c:99-104 | the record found is the first one, from the head, whose id is the caller's; `None` exactly when no record has that id |
| `ThreadRecords.MarkReady` | ports/k210-freertos/mpy_support/mpthreadport.c:97-106 | the length and every field except `ready` stay the same; only the first matching record can change, and its `ready` becomes the flag; with no match the list is unchanged |
| `ThreadRecords.MarkReadyKeepsSearch` | ports/k210-freertos/mpy_support/mpthreadport.c:191-201 | start and finish keep every id, so a later search for any task finds the same record |
| `ThreadRecords.MarkReadyLastWins` | ports/k210-freertos/mpy_support/mpthreadport.c:191-201 | marking the same task twice leaves only the second mark's effect: start then finish is the same as finish, and a repeated start is one start |
| `ThreadRecords.Occurrences` | ports/k210-freertos/mpy_support/mpthreadport.c:44-52 | counts the records of a task; zero exactly when no record has the id |
| `ThreadRecords.UniqueOccurrence` | ports/k210-freertos/mpy_support/mpthreadport.c:44-52 | when handles are unique, a registered task has exactly one record |
| `StackSizing.NormaliseStackSize` | ports/k210-freertos/mpy_support/mpthreadport.c:123-127 | the normalised size is never below the 4096-byte minimum, and a request at or above the minimum is kept |
| `StackSizing.ReportedStackSize` | ports/k210-freertos/mpy_support/mpthreadport.c:155 | the size reported after a successful creation is the normalised size less the 1024-byte margin, so it is at least 3072 |
| `StackSizing.WordsOf` | ports/k210-freertos/mpy_support/mpthreadport.c:164 | the word count is the number of whole 8-byte `StackType_t` words in the size |
| `StackSizing.NormalisedSizes` | ports/k210-freertos/mpy_support/mpthreadport.c:40-41 | a request of 0 becomes 5120 and reports 4096; a nonzero request below 4096 becomes 4096 and reports 3072; a larger request reports itself less 1024 |
| `StackSizing.RecordedWordsWithinTask` | ports/k210-freertos/mpy_support/mpthreadport.c:139-164 | the words recorded for scanning are exactly 128 fewer than the depth the task was created with, and at least 384 |
| `ThreadNames.AsInt32` | ports/k210-freertos/mpy_support/mpthreadport.c:173 | `%d` prints the signed 32-bit value with the same bits as the `uint32_t` counter |
| `ThreadNames.FormatInt` | ports/k210-freertos/mpy_support/mpthreadport.c:173 | the `%d` conversion: at least one character, a leading minus sign exactly for negative values, and decimal digits after it |
| `ThreadNames.ThreadName` | ports/k210-freertos/mpy_support/mpthreadport.c:173 | the name is `mp_thread` followed by text that reads back as the counter's signed 32-bit value |
| `ThreadNames.ParseFormatInt` | ports/k210-freertos/mpy_support/mpthreadport.c:173 | parsing the printed decimal gives back the number |
| `ThreadNames.ThreadNameInjective` | ports/k210-freertos/mpy_support/mpthreadport.c:172-174 | distinct counter values give distinct task names |
| `ThreadNames.ThreadNameFits` | ports/k210-freertos/mpy_support/mpthreadport.c:172-173 | every name and its terminating NUL fit the 30-byte buffer |
| `ThreadNames.NextThreadNum` | ports/k210-freertos/mpy_support/mpthreadport.c:175 | the increment wraps modulo 2^32 and is a plain +1 below the maximum |
| `GcRootWalk.StackScanned` | ports/k210-freertos/mpy_support/mpthreadport.c:78-83 | the walk skips the stack of the caller's own record and of every record that is not ready, and scans every other |
| `GcRootWalk.NodeRoots` | ports/k210-freertos/mpy_support/mpthreadport.c:76-84 | one iteration emits the record root and the `arg` root, then the stack range exactly when `StackScanned` holds: two or three roots |
| `GcRootWalk.GcRoots` | ports/k210-freertos/mpy_support/mpthreadport.c:75-85 | the walk's roots are each record's roots (record root, `arg` root, then the stack range when `StackScanned`), record by record from the head: between two and three per record |
| `GcRootWalk.ScannedPositions` | ports/k210-freertos/mpy_support/mpthreadport.c:78-84 | lists, in increasing order, exactly the positions of ready records of tasks other than the caller |
| `GcRootWalk.RecordRootsInListOrder` | ports/k210-freertos/mpy_support/mpthreadport.c:75-76 | the walk emits exactly one record root per record, in list order |
| `GcRootWalk.ArgRootsInListOrder` | ports/k210-freertos/mpy_support/mpthreadport.c:77 | the walk emits every record's `arg`, in list order |
| `GcRootWalk.StackRangesOfScanned` | ports/k210-freertos/mpy_support/mpthreadport.c:78-84 | the stack ranges emitted are exactly those of the ready records of other tasks, in list order |
| `GcRootWalk.GcRootsCount` | ports/k210-freertos/mpy_support/mpthreadport.c:73-87 | the walk emits two roots per record plus one per scanned stack |
| `GcRootWalk.StackRangeEmitted` | ports/k210-freertos/mpy_support/mpthreadport.c:78-84 | a stack range is emitted if and only if a ready record of another task has that range |
| `GcRootWalk.EveryRecordRooted` | ports/k210-freertos/mpy_support/mpthreadport.c:75-77 | every record and its `arg` are roots, whatever their state |
| `GcRootWalk.FinishedStackNotScanned` | ports/k210-freertos/mpy_support/mpthreadport.c:191-201 | after a task finishes, its stack is no longer scanned, but its record and `arg` are still roots |
| `GcRootWalk.CreatedThenStartedScanned` | ports/k210-freertos/mpy_support/mpthreadport.c:158-166 | a freshly pushed record is not scanned; after its task starts, the walks of other tasks scan its stack |
| `Teardown.FreedPositions` | ports/k210-freertos/mpy_support/mpthreadport.c:242-252 | lists, in increasing order, exactly the positions of records of tasks other than the caller |
| `Teardown.DeletedTasks` | ports/k210-freertos/mpy_support/mpthreadport.c:249-250 | the caller's own task is never deleted |
| `Teardown.DeletedAreScanned` | ports/k210-freertos/mpy_support/mpthreadport.c:240-253 | the tasks deleted, in order, are exactly the tasks whose stacks the caller's GC walk scans |
| `Teardown.DeletedAreFreed` | ports/k210-freertos/mpy_support/mpthreadport.c:249-251 | every record whose task is deleted is also freed |
| `Teardown.FreedCount` | ports/k210-freertos/mpy_support/mpthreadport.c:242-251 | the number of freed records is the list length less the caller's records |
| `Teardown.FreesAllButCaller` | ports/k210-freertos/mpy_support/mpthreadport.c:243-247 | with unique handles, every record except the caller's is freed, and the caller's is not |
| `ThreadRegistry.Registry.constructor` | ports/k210-freertos/mpy_support/mpthreadport.c:55-58 | the statics start as an empty list and a zero counter |
| `ThreadRegistry.Registry.Init` | ports/k210-freertos/mpy_support/mpthreadport.c:59-69 | the list is one ready record: the current task, NULL `arg`, and the given stack and length |
| `ThreadRegistry.Registry.GcOthers` | ports/k210-freertos/mpy_support/mpthreadport.c:73-87 | the loop emits the walk's roots: record roots and `arg` roots in list order, and the stack ranges of exactly the scanned records |
| `ThreadRegistry.Registry.MarkCurrent` | ports/k210-freertos/mpy_support/mpthreadport.c:99-104 | the loop sets `ready` on the first record of the caller, and changes nothing else |
| `ThreadRegistry.Registry.Start` | ports/k210-freertos/mpy_support/mpthreadport.c:97-106 | the caller's first record becomes ready; nothing else changes; no-op without a match |
| `ThreadRegistry.Registry.Finish` | ports/k210-freertos/mpy_support/mpthreadport.c:191-201 | the caller's first record stops being ready; nothing else changes; no-op without a match |
| `ThreadRegistry.Registry.CreateEx` | ports/k210-freertos/mpy_support/mpthreadport.c:119-169 | the task request uses the normalised size in words. On a NULL handle it raises OSError, keeps the list, and leaves the size normalised without the margin. On success it pushes one not-ready record ahead of the unchanged old list, and reports the margin-reduced size |
| `ThreadRegistry.Registry.Create` | ports/k210-freertos/mpy_support/mpthreadport.c:171-176 | it creates with priority 4 and the name `mp_thread` plus the current counter; the counter advances, with wrap-around, only when creation does not raise |
| `ThreadRegistry.Registry.Deinit` | ports/k210-freertos/mpy_support/mpthreadport.c:240-256 | it deletes the tasks of exactly the ready records of other tasks, in list order, and frees exactly the records of other tasks |

## Left out

- The registry mutex (`mp_thread_mutex_init`, `_lock`, `_unlock`) and all concurrency: every operation is modelled as running alone with the lock held, so the non-blocking lock attempt and its failure are not modelled.
- The FreeRTOS calls themselves: task creation, task info, task deletion, the current-task query, and the `vTaskDelay(2)` at the end of deinit. Their results are parameters and their effects are outputs.
- The thread-local state accessors `mp_thread_get_state` and `mp_thread_set_state`, including the call in `mp_thread_init`. Each is one foreign call with no logic.
- The trampoline `func_entry` and the shared `ext_thread_entry` pointer that `mp_thread_create_ex` stores the entry into. These are execution and concurrency concerns. The entry function is not part of the model's task request.
- The collector behind `gc_collect_root`: the walk is modelled only as the sequence of roots it emits. The record root stands for the address of the loop variable taken at line 76, abstracted as the record's position.
- Failure of `m_new_obj` to allocate the record. That error is raised by the allocator before the lock is taken and before the list changes.
- Registry.Deinit: does not model the list after deinit. The source frees records without relinking `thread` or `next`, and it reads `next` from a freed record. So the model leaves the sequence as it was and makes no claim about later walks. If the caller is not the bootstrap task, the freed records include the static bootstrap record; the model does not tell that record apart.
- The `next` pointers and record identity: records are values in a sequence, so aliasing of records and in-place pointer updates are not modelled. A record's position stands for its address.
- `ready` was an `int` in C. The model uses a boolean, because the code only ever writes 0 or 1 and only tests it against zero.
- The task stack depth passed to FreeRTOS and the name length FreeRTOS keeps. Any narrowing inside FreeRTOS code is not part of this model.
- The commented-out `mp_thread_delete` and `mp_thread_clear`, which are dead code.
- The camera bus driver `omv/cambus.c`. It is excluded: it is a thin wrapper over bus calls that are not part of this model.
