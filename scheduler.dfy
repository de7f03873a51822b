/** The scheduler's global state as an object: the fixed task table, the
    handle of the running task and the number of tasks created so far, with
    the task-creation, swap and suspension operations that update them in
    place. Transferring control to a task is abstracted to the swap returning
    the selected slot; the execution contexts and stacks are not modelled. */
module Scheduler {
  import opened Tasks

  /** What `ReadChar` does: return a character polled at once, without a
      switch, or suspend the caller and transfer control (`selected`, or
      None while the scan is still spinning). */
  datatype ReadOutcome = Polled(ch: int) | Switched(selected: Option<int>)

  class TaskTable {
    /** tasks[MAX_TASKS] */
    var tasks: array<TaskInfo>
    /** current_task: the handle of the task holding control */
    var currentTask: int
    /** num_tasks: slot 0 is the main task, so this starts at 1 */
    var numTasks: int

    ghost predicate Valid()
      reads this, tasks
    {
      tasks.Length == MAX_TASKS && WellFormed(tasks[..], numTasks) && 0 <= currentTask < numTasks
    }

    /** The zero-initialised globals: only the main task exists and runs. */
    constructor ()
      ensures Valid() && fresh(tasks)
      ensures currentTask == 0 && numTasks == 1
      ensures forall i :: 0 <= i < tasks.Length ==> tasks[i] == Blank
    {
      tasks := new TaskInfo[MAX_TASKS](_ => Blank);
      currentTask := 0;
      numTasks := 1;
    }

    /** task_create: claims the next slot, whose handle is the old task
        count, and makes it Ready; no other slot changes and the caller keeps
        running. The table has no capacity check, so there must be room. */
    method Create() returns (handle: int)
      requires Valid() && numTasks < MAX_TASKS
      modifies this`numTasks, tasks
      ensures Valid()
      ensures handle == old(numTasks) && numTasks == old(numTasks) + 1
      ensures tasks[handle].process == Inactive
      ensures forall j :: 0 <= j < tasks.Length && j != handle ==> tasks[j] == old(tasks[j])
      ensures tasks[..] == old(tasks[..])[handle := old(tasks[handle]).(process := Inactive)]
    {
      var index := numTasks;
      numTasks := numTasks + 1;
      handle := index;
      tasks[index] := tasks[index].(process := Inactive);
    }

    /** task_swap: examines the slots after the caller's in rotation order,
        at most `fuel` of them; `clock(k)` and `keys(k)` are what time_ms()
        and getch() return if the test at step k calls them. The first slot
        that passes its test is made Ready and control is transferred to it;
        every slot examined is recorded in `currentTask`. */
    method Swap(fuel: nat, clock: nat -> Ms, keys: nat -> int) returns (selected: Option<int>)
      requires Valid()
      modifies this`currentTask, tasks
      ensures Valid()
      ensures Outcome(selected, tasks[..], currentTask)
           == Swept(old(tasks[..]), numTasks, old(currentTask), fuel, clock, keys)
    {
      ghost var c := currentTask;
      ghost var ts := tasks[..];
      var index := (currentTask + 1) % numTasks;
      var step: nat := 0;
      while step < fuel
        invariant step <= fuel
        invariant index == Slot(c, numTasks, step)
        invariant currentTask == if step == 0 then c else Slot(c, numTasks, step - 1)
        invariant tasks[..] == ts
        invariant forall j :: 0 <= j < step ==> !PassesAt(ts, numTasks, c, j, clock, keys)
      {
        var t := tasks[index];
        if t.process == Inactive {
          SweptSelectsAt(ts, numTasks, c, fuel, clock, keys, step);
          assert ts[index := Admit(t, keys(step))] == ts;
          currentTask := index;
          return Some(index);
        } else if t.process == Waiting {
          if tasks[t.pre].process == Done {
            SweptSelectsAt(ts, numTasks, c, fuel, clock, keys, step);
            tasks[index] := t.(process := Inactive);
            currentTask := index;
            return Some(index);
          }
        } else if t.process == Sleeping {
          if t.wakeuptime < clock(step) {
            SweptSelectsAt(ts, numTasks, c, fuel, clock, keys, step);
            tasks[index] := t.(process := Inactive);
            currentTask := index;
            return Some(index);
          }
        } else if t.process == Blocked {
          var ch := keys(step);
          if ch != ERR {
            SweptSelectsAt(ts, numTasks, c, fuel, clock, keys, step);
            tasks[index] := t.(process := Inactive);
            currentTask := index;
            tasks[index] := tasks[index].(input := ch);
            return Some(index);
          }
        }
        // Not ready (a done slot never is): the slot is still recorded as
        // current before the scan moves on.
        currentTask := index;
        SlotAfter(c, numTasks, step, 0);
        index := (index + 1) % numTasks;
        step := step + 1;
      }
      SweptSpins(ts, numTasks, c, fuel, clock, keys);
      selected := None;
    }

    /** task_exit, reached when a task's function returns: the caller
        becomes Done and control moves on. */
    method Exit(fuel: nat, clock: nat -> Ms, keys: nat -> int) returns (selected: Option<int>)
      requires Valid()
      requires tasks[currentTask].process != Done
      modifies this`currentTask, tasks
      ensures Valid()
      ensures forall j :: 0 <= j < numTasks && old(tasks[j]).process == Done ==> tasks[j].process == Done
      ensures Outcome(selected, tasks[..], currentTask)
           == Swept(old(tasks[..])[old(currentTask) := old(tasks[currentTask]).(process := Done)],
                    numTasks, old(currentTask), fuel, clock, keys)
    {
      tasks[currentTask] := tasks[currentTask].(process := Done);
      ghost var suspended := tasks[..];
      selected := Swap(fuel, clock, keys);
      KeepsDone(suspended, numTasks, old(currentTask), fuel, clock, keys);
    }

    /** task_wait: the caller records that it waits for `handle` and yields.
        The handle is not validated, so it must name another created task. */
    method Wait(handle: int, fuel: nat, clock: nat -> Ms, keys: nat -> int) returns (selected: Option<int>)
      requires Valid() && 0 <= handle < numTasks && handle != currentTask
      requires tasks[currentTask].process != Done
      modifies this`currentTask, tasks
      ensures Valid()
      ensures forall j :: 0 <= j < numTasks && old(tasks[j]).process == Done ==> tasks[j].process == Done
      ensures Outcome(selected, tasks[..], currentTask)
           == Swept(old(tasks[..])[old(currentTask) := old(tasks[currentTask]).(process := Waiting, pre := handle)],
                    numTasks, old(currentTask), fuel, clock, keys)
    {
      tasks[currentTask] := tasks[currentTask].(process := Waiting, pre := handle);
      ghost var suspended := tasks[..];
      selected := Swap(fuel, clock, keys);
      KeepsDone(suspended, numTasks, old(currentTask), fuel, clock, keys);
    }

    /** task_sleep: the caller records the deadline `now + ms`, computed in
        size_t arithmetic, becomes Sleeping and yields; `now` is what
        time_ms() returns on entry. */
    method Sleep(ms: Ms, now: Ms, fuel: nat, clock: nat -> Ms, keys: nat -> int) returns (selected: Option<int>)
      requires Valid()
      requires tasks[currentTask].process != Done
      modifies this`currentTask, tasks
      ensures Valid()
      ensures forall j :: 0 <= j < numTasks && old(tasks[j]).process == Done ==> tasks[j].process == Done
      ensures Outcome(selected, tasks[..], currentTask)
           == Swept(old(tasks[..])[old(currentTask) := old(tasks[currentTask]).(wakeuptime := (now + ms) % SIZE_MOD, process := Sleeping)],
                    numTasks, old(currentTask), fuel, clock, keys)
    {
      var wakeupTime := (now + ms) % SIZE_MOD;
      tasks[currentTask] := tasks[currentTask].(wakeuptime := wakeupTime, process := Sleeping);
      ghost var suspended := tasks[..];
      selected := Swap(fuel, clock, keys);
      KeepsDone(suspended, numTasks, old(currentTask), fuel, clock, keys);
    }

    /** task_readchar up to its switch: the caller is marked Blocked, then
        `poll` (what the first getch() returns) is checked. A character is
        returned at once, and the caller stays marked Blocked; otherwise the
        caller yields. */
    method ReadChar(poll: int, fuel: nat, clock: nat -> Ms, keys: nat -> int) returns (r: ReadOutcome)
      requires Valid()
      requires tasks[currentTask].process != Done
      modifies this`currentTask, tasks
      ensures Valid()
      ensures forall j :: 0 <= j < numTasks && old(tasks[j]).process == Done ==> tasks[j].process == Done
      ensures poll != ERR ==>
        r == Polled(poll) && currentTask == old(currentTask) &&
        tasks[..] == old(tasks[..])[old(currentTask) := old(tasks[currentTask]).(process := Blocked)]
      ensures poll == ERR ==>
        r.Switched? &&
        Outcome(r.selected, tasks[..], currentTask)
          == Swept(old(tasks[..])[old(currentTask) := old(tasks[currentTask]).(process := Blocked)],
                   numTasks, old(currentTask), fuel, clock, keys)
    {
      tasks[currentTask] := tasks[currentTask].(process := Blocked);
      if poll != ERR {
        return Polled(poll);
      }
      ghost var suspended := tasks[..];
      var selected := Swap(fuel, clock, keys);
      KeepsDone(suspended, numTasks, old(currentTask), fuel, clock, keys);
      r := Switched(selected);
    }

    /** The end of task_readchar once control is back in the caller: the
        character the scan recorded in the caller's slot. When the swap that
        resumed the caller (`Swept` from table `ts` and caller `c`) found it
        blocked, that is the character returned by the poll that woke it. */
    method ReadCharResume(ghost ts: seq<TaskInfo>, ghost c: int, ghost fuel: nat,
                          ghost clock: nat -> Ms, ghost keys: nat -> int) returns (ch: int)
      requires Valid() && WellFormed(ts, numTasks) && 0 <= c < numTasks
      requires Swept(ts, numTasks, c, fuel, clock, keys) == Outcome(Some(currentTask), tasks[..], currentTask)
      requires ts[currentTask].process == Blocked
      ensures ch == tasks[currentTask].input
      ensures ch != ERR && exists k :: 0 <= k < fuel && Slot(c, numTasks, k) == currentTask && ch == keys(k)
    {
      ch := tasks[currentTask].input;
      BlockedReaderGetsPolledChar(ts, numTasks, c, fuel, clock, keys, currentTask);
    }
  }
}
