# Round-robin scheduler core, modelled and verified in Dafny

This project models the task scheduler in `scheduler/src/scheduler_algorithm.c` and proves properties of the model.

The C file keeps three globals:

- `PCBlist`: a fixed array of `MAX_PCBS` (128) slots. Each slot holds a PCB handle and a `next` and a `last` link.
- `active`: the slot of the running task.
- `next`: the high-water mark. It is null while no task other than idle has been admitted.

The occupied slots form a circular, doubly-linked run queue rooted at slot 0, which holds the idle task. Nine operations work on this state:

- `setup_idle` installs the idle task.
- `sched_new` admits a task. It reuses holes first, then grows at the high-water mark, and splices the new slot in after the running one.
- `sched_find` looks a task up by PID.
- `sched_remove` unlinks a task and wakes the tasks that wait for it.
- `sched_getPID`, `sched_getPCB` and `sched_getPIDinactive` read the running task.
- `sched_next` is the round-robin hand-over. It skips blocked tasks.
- `sched_block` blocks the running task on another one, after a bounded deadlock check of the wait chain.

The project has three modules, one per file:

- `Ring` (`ring.dfy`) describes the slot pool as values. A ring is the sequence of its slots in `next` order. `Linked` says that two link tables make that sequence a closed doubly-linked circle. The module also holds the splice and unlink steps on link tables, the walk functions `Follow`/`FollowBack`, and the slot choice of an admission (`FirstFree`, `Placement`, `RaisedMark`).
- `RunQueue` (`run_queue.dfy`) describes the run queue as values. An `Entry` is the four PCB fields the scheduler uses (PID, status, ticks, wait), listed in ring order from slot 0. On these values the module defines:
  - `FindPos`: lookup by PID.
  - `Scan` and `Advance`: the round-robin step.
  - `Wake`: waking the waiters of a removed task.
  - `Hop`, `Hops` and `WaitWalk`: the deadlock check.
  - `BlockAt`: the effect of a block.
- `SchedulerAlgorithm` (`scheduler_algorithm.dfy`) is the imperative model.
  - `Pcb` is a class, because the caller sees every write the scheduler makes into a PCB.
  - `Scheduler` is a class whose fields are the globals: the arrays `slot`, `nxt`, `lst`, the slot index `active`, and the high-water mark `hw`. The ghost field `ring` lists the slots met from slot 0 along `next`.
  - Links are slot indices. A never-written link is `NIL` (-1).
  - `hw` is the index `next` points at, and 0 while `next` is null.
  - The invariant is `Valid`. It requires that the ring is closed through both links and holds exactly the occupied slots, that slot 0 holds the idle task (PID 0, runnable), and that `active` is on the ring and runnable.
  - `Entries()` reads the run queue off the heap. Each method's contract ties the new state and its result to the `RunQueue` and `Ring` functions.

`Word` models `unsigned long` as a 32-bit word. The width is inferred from the `0xFFFFFFFF` sentinels, which the code uses as "all bits set". Every value the source stores or compares (PIDs, the status `0xFFFFFFFF`, ticks) is a `Word`, and no operation does arithmetic on them.

Three behaviours of the code that a reader might not expect are kept as written:

- The hop bound of the deadlock check is `MAX_PCBS + 1` hops, not `MAX_PCBS`. The counter is tested with `max_check-- == 0` after each hop.
- A runnable target is accepted without any chain check. This holds even when the target is the running task itself.
- A blocked task whose wait target has vanished keeps the walk in place until the counter runs out.

## Model

| member | source | states |
|---|---|---|
| SchedulerAlgorithm.Pcb.constructor | scheduler/src/scheduler_algorithm.c:28-34 | a PCB with the given PID and status, and ticks and wait 0 |
| SchedulerAlgorithm.Scheduler.constructor | scheduler/src/scheduler_algorithm.c:40-47 | the zero-initialised globals: no PCB in any slot, `active` at slot 0, `next` null (mark 0), and a ring of slot 0 alone |
| SchedulerAlgorithm.Scheduler.RingVisitsOccupied | scheduler/src/scheduler_algorithm.c:148-158 | in a valid pool the walk along `next` from slot 0 returns to slot 0 after exactly as many steps as there are tasks and not before, the walk along `last` does too, and the slots the walk meets are exactly the occupied ones |
| Ring.RingClosed | scheduler/src/scheduler_algorithm.c:148-158 | from any slot of a linked ring, `|ring|` steps forward or backward lead back to it, and `j` steps forward from the root reach the `j`-th slot |
| Ring.RingCovers | scheduler/src/scheduler_algorithm.c:148-158 | the forward walk from the root meets exactly the slots of the ring, in both directions of the set equality |
| Ring.NextOf | scheduler/src/scheduler_algorithm.c:157 | in a linked ring, `next` of position `k` is position `k+1` (wrapping to the root) and `last` of that is position `k` |
| SchedulerAlgorithm.Scheduler.SetupIdle | scheduler/src/scheduler_algorithm.c:56-75 | the PID is forced to 0 and 0 is returned, the handle is stored in slot 0, and the other PCB fields are untouched; when `next` is null slot 0 becomes a self-loop, otherwise no link changes; the pool is valid afterwards and the other tasks are as before |
| SchedulerAlgorithm.Scheduler.IdleInstalled | scheduler/src/scheduler_algorithm.c:63-73 | the writes of `setup_idle` leave a valid pool whose run queue starts with the idle PCB and otherwise keeps the old entries |
| Ring.Placement | scheduler/src/scheduler_algorithm.c:83-125 | the slot an admission takes is at least 1 and inside the pool, and a slot below the mark is taken only when it is free; there is none exactly when the mark is at the end of the pool and slots 1 up to it are all used |
| Ring.FirstFree | scheduler/src/scheduler_algorithm.c:97-116 | the hole scan: the lowest unused index in `[lo, hi)`, or `hi`; every index before it is used |
| Ring.RaisedMark | scheduler/src/scheduler_algorithm.c:92-134 | the mark never falls; the first admission sets it to 2 (`&PCBlist[2]`); later it becomes the least value at or above the old mark and above the slot taken, so growth adds one and reuse leaves it alone |
| Ring.PlacementIsLowestFree | scheduler/src/scheduler_algorithm.c:83-135 | an admission takes exactly the lowest free slot other than 0; it fails exactly when slots 1 to 127 are all taken; the mark ends one past the highest slot ever used (2 after the first admission) |
| SchedulerAlgorithm.Scheduler.Place | scheduler/src/scheduler_algorithm.c:83-125 | the slot `sched_new` writes: slot 1 on the first admission, else the first empty slot below the mark, else the slot at the mark, else none (`NIL`), which is `Placement` of the used slots |
| Ring.SpliceAfter | scheduler/src/scheduler_algorithm.c:104-108 | the four link writes of the splice turn a linked ring into the ring with the new slot right after position `k` |
| SchedulerAlgorithm.Scheduler.Splice | scheduler/src/scheduler_algorithm.c:102-108 | the writes of the splice: slot `s` gets the PCB, `s.next` is the old successor of `active`, `s.last` is `active`, `active.next` is `s`, the old successor's `last` is `s`; the ring gains `s` after `active` |
| SchedulerAlgorithm.Scheduler.Admitted | scheduler/src/scheduler_algorithm.c:97-135 | after the splice into the chosen slot and the mark update, the pool is valid and the run queue has the new entry right after the running one |
| SchedulerAlgorithm.Scheduler.EntriesInserted | scheduler/src/scheduler_algorithm.c:102-108 | the run queue after the splice is the old one with the new PCB's entry inserted after the running position |
| SchedulerAlgorithm.Scheduler.New | scheduler/src/scheduler_algorithm.c:80-136 | on a full pool: returns `0xFFFFFFFF` and changes nothing; otherwise: returns the PCB's PID, takes the `Placement` slot, raises the mark as `RaisedMark` says (2 on the first admission, +1 when growing, unchanged on reuse), inserts the slot into the ring after `active` with exactly the four link writes, and keeps the pool valid |
| RunQueue.FindPos | scheduler/src/scheduler_algorithm.c:148-158 | the first position whose PID matches, or none exactly when no PID matches |
| RunQueue.FindPosPids | scheduler/src/scheduler_algorithm.c:271-282 | lookup depends on the PIDs alone, so a change of status, wait or ticks does not change where a PID is found |
| SchedulerAlgorithm.Scheduler.Lookup | scheduler/src/scheduler_algorithm.c:148-161 | the do-while walk from slot 0 along `next` stops at the slot of the first task with the PID, or yields `NIL` after coming back to slot 0 |
| SchedulerAlgorithm.Scheduler.Find | scheduler/src/scheduler_algorithm.c:145-162 | returns the PCB of the first task in ring order with the PID, or null when there is none; changes nothing |
| Ring.Unlink | scheduler/src/scheduler_algorithm.c:179-180 | patching `prev.next` and `succ.last` turns a linked ring into the ring without position `k` |
| SchedulerAlgorithm.Scheduler.Detach | scheduler/src/scheduler_algorithm.c:179-182 | the writes of the unlink: `last.next := next`, `next.last := last`, slot emptied; the ring loses the position |
| SchedulerAlgorithm.Scheduler.Unlinked | scheduler/src/scheduler_algorithm.c:179-182 | a valid pool stays valid when a task other than idle and the running one is unlinked, and its run queue loses exactly that entry |
| SchedulerAlgorithm.Scheduler.UnheldAfter | scheduler/src/scheduler_algorithm.c:181-182 | the removed PCB is no longer in any slot, and the pool holds no PCB it did not hold before |
| SchedulerAlgorithm.Scheduler.Unhook | scheduler/src/scheduler_algorithm.c:179-183 | the unlink of `sched_remove`: the pool stays valid; the run queue loses the entry; the slot is emptied; both neighbours are patched; the PCB, returned with its fields unchanged, is held by no slot any more |
| RunQueue.Wake | scheduler/src/scheduler_algorithm.c:185-195 | every task blocked on the PID becomes status 0 and no task is left blocked on it; PID, ticks and wait are kept; every other task is untouched |
| RunQueue.WakeOne | scheduler/src/scheduler_algorithm.c:188-191 | a task blocked on the removed PID becomes runnable; every other task keeps its status; PID, wait and ticks are never touched |
| SchedulerAlgorithm.Scheduler.WakeTask | scheduler/src/scheduler_algorithm.c:188-191 | one test-and-wake: the PCB's entry becomes `WakeOne` of its old entry |
| SchedulerAlgorithm.Scheduler.WakeWalk | scheduler/src/scheduler_algorithm.c:185-195 | the walk from slot 0 once round the ring wakes each task of the ring as `WakeOne` says and changes no slot or link |
| SchedulerAlgorithm.Scheduler.Woken | scheduler/src/scheduler_algorithm.c:185-195 | waking keeps the pool valid and its run queue is `Wake` of the old one |
| SchedulerAlgorithm.Scheduler.WakeWaiters | scheduler/src/scheduler_algorithm.c:184-195 | the wake-up walk: the run queue becomes `Wake(old, pid)`; ring, slots and links are unchanged; the pool stays valid |
| SchedulerAlgorithm.Scheduler.RemoveAt | scheduler/src/scheduler_algorithm.c:178-198 | the found branch: the task is unlinked, its waiters are woken, its PCB is returned; the run queue becomes `Wake(Delete(q, k), pid)` |
| SchedulerAlgorithm.Scheduler.Remove | scheduler/src/scheduler_algorithm.c:167-207 | when the PID is found and is not the running task: the first task with it is unlinked (ring minus that position, slot emptied, both neighbours patched), its waiters are woken, and its PCB is returned; when the PID is absent or is the running task's: null, nothing changes |
| SchedulerAlgorithm.Scheduler.GetPidInactive | scheduler/src/scheduler_algorithm.c:212-216 | returns the running task's PID after writing status 0 into it; no other entry changes |
| SchedulerAlgorithm.Scheduler.GetPid | scheduler/src/scheduler_algorithm.c:221-224 | the running task's PID (0 while idle runs); changes nothing |
| SchedulerAlgorithm.Scheduler.GetPcb | scheduler/src/scheduler_algorithm.c:229-232 | the running task's PCB, which is runnable; changes nothing |
| SchedulerAlgorithm.Scheduler.StoreTicks | scheduler/src/scheduler_algorithm.c:239-240 | the outgoing task's ticks become `exec_time`; nothing else changes |
| RunQueue.Scan | scheduler/src/scheduler_algorithm.c:245-249 | the first runnable position at or after `j`, wrapping to the idle position; every position passed over is blocked |
| RunQueue.Advance | scheduler/src/scheduler_algorithm.c:242-249 | the hand-over from position `k` lands on a position of the run queue whose task is runnable |
| RunQueue.AdvanceIsNextRunnable | scheduler/src/scheduler_algorithm.c:242-249 | the hand-over moves at least one step and at most once round the ring; it stops at the first runnable task; every task passed over is blocked |
| RunQueue.AdvanceFallsBackToIdle | scheduler/src/scheduler_algorithm.c:245-249 | when every task but idle is blocked, the hand-over lands on slot 0 |
| RunQueue.AdvanceStays | scheduler/src/scheduler_algorithm.c:242-249 | the hand-over keeps the same task exactly when it is idle and every other task is blocked |
| SchedulerAlgorithm.Scheduler.NextRunnable | scheduler/src/scheduler_algorithm.c:243-249 | the skip loop ends at the slot of position `Advance(q, a)` |
| SchedulerAlgorithm.Scheduler.Next | scheduler/src/scheduler_algorithm.c:237-253 | stores the ticks into the outgoing task; `active` becomes the slot of `Advance` of the updated run queue; returns its PCB; the pool is valid afterwards (the new task is runnable) even when the outgoing task was blocked |
| RunQueue.Hop | scheduler/src/scheduler_algorithm.c:271-282 | one hop of the chain walk: the first task holding the PID waited for, or the same position when no task holds it |
| RunQueue.WaitWalk | scheduler/src/scheduler_algorithm.c:269-298 | a runnable start is Clear; a blocked start whose first hop reaches the blocking task is Cycle; TooLong only after the counter was tested at a blocked task that did not lead to the blocking task |
| RunQueue.ClearIff | scheduler/src/scheduler_algorithm.c:269-298 | the block goes ahead exactly when the wait chain reaches a runnable task within the budget, through blocked tasks, without passing the blocking task |
| RunQueue.CycleIff | scheduler/src/scheduler_algorithm.c:269-290 | the block is refused as a deadlock exactly when the wait chain reaches the blocking task within budget+1 hops, through blocked tasks only |
| RunQueue.VanishedTargetRefused | scheduler/src/scheduler_algorithm.c:271-297 | a blocked task whose target is gone stays put, burns the counter and is refused |
| RunQueue.RunnableTargetAccepted | scheduler/src/scheduler_algorithm.c:269 | a runnable target skips the check and is accepted, even when it is the blocking task |
| RunQueue.DirectCycleRefused | scheduler/src/scheduler_algorithm.c:286-290 | a target blocked on the blocking task is refused as a cycle |
| RunQueue.ThreeCycleRefused | scheduler/src/scheduler_algorithm.c:269-290 | A blocked on B and B blocked on C: C asking to wait for A is refused as a cycle |
| RunQueue.BlockKeepsChainOpen | scheduler/src/scheduler_algorithm.c:264-303 | after an accepted block on another task, the blocking task's own wait chain reaches a runnable task without coming back to it |
| RunQueue.BlockAt | scheduler/src/scheduler_algorithm.c:301-302 | the blocking task becomes blocked waiting for the PID, with the ticks that `sched_next` then stores (line 240) and its PID kept; every other task is unchanged |
| RunQueue.BlockAtInSteps | scheduler/src/scheduler_algorithm.c:240-303 | marking the task blocked on the PID and then storing its ticks is `BlockAt` |
| RunQueue.WaitsResolveKept | scheduler/src/scheduler_algorithm.c:284 | every blocked task waits for a PID some task has, and this is kept by any change that keeps the PIDs and only unblocks tasks or leaves their status and wait alone (storing ticks, `sched_getPIDinactive`, waking) |
| RunQueue.WaitsResolveInsert | scheduler/src/scheduler_algorithm.c:284 | admitting a runnable task keeps every blocked task's wait resolvable |
| RunQueue.WaitsResolveRemove | scheduler/src/scheduler_algorithm.c:184-195 | removing the first task with a PID and waking its waiters (the run queue `Remove` leaves) keeps every blocked task's wait resolvable |
| RunQueue.WaitsResolveBlock | scheduler/src/scheduler_algorithm.c:262-303 | blocking on a PID that is in the run queue, the only block `sched_block` lets through, keeps every blocked task's wait resolvable |
| SchedulerAlgorithm.Scheduler.Chain | scheduler/src/scheduler_algorithm.c:264-298 | the chain loop with its inner PID search answers yes exactly when `WaitWalk` from the target with budget `MAX_PCBS` says Clear |
| SchedulerAlgorithm.Scheduler.ChainHop | scheduler/src/scheduler_algorithm.c:270-282 | the inner do-while of the chain loop ends at the slot of `Hop`: the first task holding the PID waited for, or the same slot when none does |
| SchedulerAlgorithm.Scheduler.MarkBlocked | scheduler/src/scheduler_algorithm.c:301-302 | the running task gets status `0xFFFFFFFF` and waits for the PID; nothing else changes |
| SchedulerAlgorithm.Scheduler.BlockActive | scheduler/src/scheduler_algorithm.c:301-303 | the accepting end: the run queue becomes `BlockAt(q, a, pid, ticks)`, `active` becomes the slot of `Advance` of it, and the new PCB is returned |
| SchedulerAlgorithm.Scheduler.Block | scheduler/src/scheduler_algorithm.c:258-312 | null with nothing changed when the PID is absent or the chain check refuses; otherwise the running task is blocked on the PID and `sched_next` runs with the ticks, as in `BlockActive` |

## Left out

- Context save and restore, timer interrupts and interrupt masking live outside this file. Each call is modelled as one atomic step.
- The demo programs and the pthread wrappers contain no scheduler logic.
- PCB fields other than PID, status, ticks and wait, and PCB allocation, belong to the caller.
- The `MAX_PCBS < 2` branch of `setup_idle` is dead for the constant 128 and is not modelled.
- The final `return 0xFFFFFFFF` of `sched_new` (line 139) is unreachable and is not modelled.
- Pointers into `PCBlist` are slot indices, and a null link is `NIL`. Pointer arithmetic and aliasing between the slot array and other memory are not modelled.
- SchedulerAlgorithm.Scheduler.New: requires that the PCB is in no slot yet. The C code does not check this. The links it writes depend only on slot indices, so a second admission of the same PCB still leaves a closed ring. That PCB then sits in two slots: it runs twice per round, and every write to it shows through both slots. The model's invariant requires that different slots hold different PCBs. That conjunct is what lets each write to one task be framed as leaving every other task unchanged.
- SchedulerAlgorithm.Scheduler.SetupIdle: requires that the idle PCB is not blocked. The C code does not check this, but the comment in `sched_next` (line 247) assumes an unblocked idle task, and the skip loop relies on it to stop.
- SchedulerAlgorithm.Scheduler.SetupIdle: requires that the idle PCB is not already held by a task slot. The C code does not check this. Installing such a PCB would overwrite that task's PID with 0.
- SchedulerAlgorithm.Scheduler.Remove: requires `pid != 0`. The C code does not guard removal of the idle task.
- SchedulerAlgorithm.Scheduler.Block: requires that the running task is not the idle task. If idle blocked, `sched_next` could spin forever.
- RunQueue.WaitsResolve: the claim that every blocked task waits for a PID on the ring is proved to be preserved by each run-queue transition separately, not carried as a conjunct of `Valid`. Its admission lemma needs the new task to be runnable, which `sched_new` leaves to the caller. `SetupIdle` keeps the claim: slot 0's PID is already 0 in a valid pool, and an empty slot 0 means the ring holds no other task, so `WaitsResolveKept` applies.
- Every operation other than `SetupIdle` requires that `setup_idle` has run. Most read the idle PCB in slot 0. `sched_new` does not, and in C an admission made before `setup_idle` ends in the same state: links 0 and 1 joined to each other, and mark 2. The model still requires `setup_idle` to run first, because its invariant ties an empty slot 0 to mark 0.
- SchedulerAlgorithm.Scheduler.New: on the first admission the model writes the links through the same splice as later admissions. Since `setup_idle` made slot 0 a self-loop, the resulting links are the ones the C code writes directly.
- The do-while ring walks are written as `while` loops that break when the walk returns to slot 0.
