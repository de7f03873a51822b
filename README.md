# Cooperative task scheduler — Dafny model

This project models the core of a user-space cooperative scheduler
("green threads"): a fixed table of task records, the per-task state machine
(`inactive` — i.e. Ready — `waiting`, `sleeping`, `blocked`, `done`), the
round-robin selection loop `task_swap`, and the operations that suspend the
running task (`task_create`, `task_wait`, `task_sleep`, `task_readchar` and the
implicit `task_exit`).

Two modules:

- `Tasks` (tasks.dfy) — the table as values. `TaskInfo` is one slot
  (`process`, `wakeuptime`, `pre`, `input`); `Slot(c, n, k)` is the slot the
  scan started by task `c` examines at step `k`; `Passes` is the per-state
  readiness test; `Swept` is the outcome of a scan of at most `fuel` steps
  (selected slot, new table, new `current_task`). The lemmas state which slot
  a scan may select, what the selected slot becomes, and that nothing else
  changes.
- `Scheduler` (scheduler.dfy) — class `TaskTable` holding the globals
  `tasks[MAX_TASKS]` (an `array<TaskInfo>`), `currentTask` and `numTasks`.
  `Swap` runs the scan step by step with a `while` loop and is proved to
  produce exactly `Swept`. `Exit`, `Wait`, `Sleep` and `ReadChar` record the
  caller's new state and then swap. On the path that swaps, each is proved
  equal to `Swept` applied to the table with the caller's slot updated
  (`ReadChar` returns without swapping when the first poll gives a
  character).

Modelling decisions:

- Transferring control (`swapcontext`) is the swap returning `Some(i)` for
  the selected slot `i`.
- The two external calls are parameters. `clock(k)` is what `time_ms()`
  returns and `keys(k)` what `getch()` returns (`ERR` = -1) if the test at
  scan step `k` calls them. Each step calls at most one of them, once, so
  every possible behaviour of the clock and the input can be expressed.
  The `time_ms()` read on entry to `task_sleep` and the first `getch()` of
  `task_readchar` are plain parameters (`now`, `poll`).
- The `while(true)` loop of `task_swap` never ends unless it selects a slot.
  The model runs at most `fuel` steps and returns `None` if it is still
  spinning. `SweptResume` proves that a new scan started from the state a
  spinning scan leaves behind continues exactly the same loop. This holds
  because `current_task` is written for every skipped slot, so the next
  slot is always the one after `current_task`.
- `wakeuptime = time_ms() + ms` is computed in `size_t`, so it wraps modulo
  2^64.

The model keeps these behaviours of the code:

- A sleeping task wakes only when `wakeuptime < time_ms()`, a strict
  comparison: at the deadline itself it is still asleep.
- `current_task` is overwritten with every slot the scan skips, not only
  with the selected slot. So during a scan it names tasks that are not
  running.
- `task_create` has no capacity check, so `Create` requires a free slot.
- `task_wait` does not validate its handle, so `Wait` requires a created
  handle other than the caller's own.
- On the fast path of `task_readchar` the caller stays marked `blocked`
  while it keeps running.

## Model

| member | source | states |
|---|---|---|
| `Scheduler.TaskTable.constructor` | scheduler.c:59-61 | Initially only the main task exists (`numTasks` = 1) and it runs (`currentTask` = 0). Every slot is the zero record, which is Ready. |
| `Scheduler.TaskTable.Create` | scheduler.c:100-135 | The handle is the old `numTasks`, and `numTasks` grows by exactly one. The new slot becomes `Inactive` (Ready), with its other fields kept. No other slot changes, and `currentTask` is unchanged. |
| `Scheduler.TaskTable.Swap` | scheduler.c:144-194 | The step-by-step scan produces exactly `Swept`: the same selected slot, the same table and the same `currentTask`. The loop invariants keep the index equal to `Slot(c, n, step)` and `currentTask` equal to the previously examined slot. They also keep the table untouched and record that every earlier step failed its test. |
| `Scheduler.TaskTable.Exit` | scheduler.c:88-91 | The caller's slot becomes `done`, then the swap outcome is `Swept` of that table. The caller is a running task, so not `done`; every task that was `done` stays `done`. |
| `Scheduler.TaskTable.Wait` | scheduler.c:196-199 | The caller's slot becomes `waiting` with `pre = handle`, then the swap outcome is `Swept` of that table. `handle` must be a created task other than the caller. The caller is a running task, so not `done`; every task that was `done` stays `done`. |
| `Scheduler.TaskTable.Sleep` | scheduler.c:234-239 | The caller's slot gets `wakeuptime = (now + ms) mod 2^64` and becomes `sleeping`, then the swap outcome is `Swept` of that table. The caller is a running task, so not `done`; every task that was `done` stays `done`. |
| `Scheduler.TaskTable.ReadChar` | scheduler.c:254-260 | The caller's slot is marked `blocked` first. If the first poll returns a character, that character is returned with no switch, and the slot stays `blocked`. Otherwise the swap outcome is `Swept` of the table with the caller blocked. The caller is a running task, so not `done`; every task that was `done` stays `done`. |
| `Scheduler.TaskTable.ReadCharResume` | scheduler.c:261 | Once control is back through a swap that found the caller `blocked`, the result is the `input` recorded in its slot, and it is a character (not `ERR`) that the poll at the step which examined the caller returned. |
| `Tasks.Slot` | scheduler.c:145 | The examined index always lies in `[0, num_tasks)`. |
| `Tasks.SlotAfter` | scheduler.c:160-162 | Stepping `(index + 1) % num_tasks` from the slot reached at step `m` is the rotation `(c+1)%n, (c+2)%n, …`, continued. |
| `Tasks.CallerLast` | scheduler.c:145 | The caller's own slot is examined last in each sweep: at steps n-1, 2n-1, … |
| `Tasks.RotationDistinct` | scheduler.c:145 | Within one sweep of n steps, no slot is examined twice. |
| `Tasks.StepOf` | scheduler.c:145 | Every slot is reached within one sweep, and the caller's slot is reached exactly at the sweep's last step. |
| `Tasks.FirstReadyIsFirst` | scheduler.c:148-193 | The scan's choice is a step in range whose slot passes its test, and every earlier step fails. It chooses nothing only if every step fails. |
| `Tasks.Admit` | scheduler.c:149-183 | The selected slot becomes `inactive` and keeps `wakeuptime` and `pre`. If it was `blocked`, its `input` becomes the polled character; otherwise `input` is kept. |
| `Tasks.Swept` | scheduler.c:144-194 | Only the selected slot's record changes, and the table stays well formed. When a slot is selected, `current` names it and it is `inactive`. When none is, `current` is the last slot examined. |
| `Tasks.SweptSelectsAt` | scheduler.c:149-183 | If every step before `k` fails and step `k` passes, the scan selects slot `Slot(c, n, k)`, admits it, and makes it current. |
| `Tasks.SweptSpins` | scheduler.c:160-192 | If every step fails, the table is unchanged, nothing is selected, and `current` is the last slot examined. |
| `Tasks.SweptSelectsFirstReady` | scheduler.c:149-182 | A slot is selected only if it is the first in rotation order to pass, and only if one of these holds: it is `inactive`; it is `waiting` and `tasks[pre]` is `done`; it is `sleeping` and `wakeuptime < now`; or it is `blocked` and the poll gave a character, which it now holds. If nothing is selected, every step failed. |
| `Tasks.WaitEndsOnlyAfterTargetDone` | scheduler.c:154-159 | A waiting task is selected only when the task it waits for is `done`. |
| `Tasks.BlockedReaderGetsPolledChar` | scheduler.c:176-183 | A blocked task is selected only at a step whose poll returned a character other than `ERR`. Its `input` is then exactly that character. |
| `Tasks.DoneIsTerminal` | scheduler.c:189-191 | A `done` slot is never selected, and its record is unchanged. |
| `Tasks.KeepsDone` | scheduler.c:148-193 | A scan never takes a created task out of `done`. |
| `Tasks.YieldRunsOthersFirst` | scheduler.c:144-194 | If another slot is `inactive`, a scan of at least one full sweep selects a slot, and that slot is not the caller's. |
| `Tasks.AllReadyRoundRobin` | scheduler.c:145-152 | With more than one task, when every task other than the caller is `inactive` (the caller's own slot in any state), the scan selects `(c+1) % n` and leaves the table unchanged. |
| `Tasks.RoundStep` | scheduler.c:144-183 | After the caller records its suspension, if every slot can pass its test at once, the swap selects the slot after the caller, and afterwards every slot other than the new current one can still pass. |
| `Tasks.RoundRobinOrder` | scheduler.c:144-183 | In m successive rounds, each recording the running task's suspension and then swapping, the k-th round selects `(c+1+k) % n`, provided the other tasks can run and each suspension leaves its task able to run. With `RotationDistinct` and `StepOf`, each slot is selected exactly once in every n consecutive rounds. |
| `Tasks.MutualWaitNeverResolves` | scheduler.c:154-163 | Two tasks waiting on each other are never selected and keep their records, for any number of steps and any clock or input. |
| `Tasks.SleepNotEarly` | scheduler.c:165-170 | A task that slept `ms` from clock reading `start`, with no wrap-around, is selected only at a step where strictly more than `ms` has elapsed. |
| `Tasks.SweptResume` | scheduler.c:148-193 | A scan of `f1 + f2` steps equals a scan of `f1` steps that selected nothing, followed by a scan of `f2` steps. The second scan starts from the `current` the first left behind, with the clock and input answers that follow. |

## Left out

- Execution contexts and stacks (`getcontext`, `makecontext`, `swapcontext`, `uc_link`, the `malloc`'d stacks): a transfer of control is the selected slot returned by the swap. Stack overflow is not modelled.
- `time_ms()` and `getch()` themselves (a system clock and a curses call): they are supplied as the parameters `now`, `poll`, `clock` and `keys`.
- The value `task_swap` returns (always 0, and ignored by its callers) is not modelled.
- The unbounded spin when no task is ready is cut at `fuel` steps. `SweptResume` shows that repeated swaps continue it.
- What a task does between being resumed and its next suspension (the task bodies) is arbitrary client code. The model states each operation separately rather than as a whole-program trace.
- `scheduler_init` has an empty body (its statements are commented out), so it is not modelled. The constructor models the zero-initialised globals instead.
- tron.c is not part of this model. It is a terminal game that uses threads and locks, and its calls into the scheduler are commented out.
- Tasks.RoundRobinOrder: every round sees the same clock and input answers (`clock(0)`, `keys(0)`), and all suspensions follow one rule `suspend`. A `waiting` caller is not covered, because whether it can run depends on another slot.
- SleepNotEarly: requires `start + ms < 2^64`. The deadline is computed in `size_t` and wraps, so a sleep of nearly 2^64 ms can end immediately.
- Scheduler.TaskTable.Create: requires `numTasks < MAX_TASKS`, because the source does no capacity check and would write past the table.
- Scheduler.TaskTable.Wait: requires a created handle other than the caller's own, because the source does not validate it.
