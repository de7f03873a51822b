/** The task table of the cooperative scheduler as values: the per-task record,
    the round-robin rotation, the readiness test the scan applies to each slot,
    and the outcome of one bounded scan (`Swept`), with the lemmas that state
    what a scan may select and what it leaves alone. The class in module
    `Scheduler` runs the same scan step by step over an array and is proved to
    produce exactly `Swept`. */
module Tasks {

  datatype Option<T> = None | Some(value: T)

  /** Capacity of the task table (MAX_TASKS). */
  const MAX_TASKS: int := 128

  /** What the non-blocking input poll returns when no character is ready
      (the curses constant ERR). */
  const ERR: int := -1

  /** 2^64: arithmetic on `size_t` values wraps modulo this. */
  const SIZE_MOD: int := 0x1_0000_0000_0000_0000

  /** A `size_t` value: clock readings and wake-up deadlines in milliseconds. */
  type Ms = x: int | 0 <= x < 0x1_0000_0000_0000_0000

  /** The per-task state. `Inactive` is the state in which a task may be
      selected to run (Ready). `Done` is terminal. */
  datatype Code = Inactive | Waiting | Sleeping | Blocked | Done

  /** One slot of the task table, without its two execution contexts.
      `wakeuptime` matters while Sleeping, `pre` (the awaited handle) while
      Waiting, and `input` holds the character handed to a blocked reader. */
  datatype TaskInfo = TaskInfo(process: Code, wakeuptime: Ms, pre: int, input: int)

  /** A slot of the zero-initialised static table. */
  const Blank: TaskInfo := TaskInfo(Inactive, 0, 0, 0)

  /** The first `n` slots are the tasks created so far (slot 0 is the main
      task), and every waiting task among them awaits one of them. */
  ghost predicate WellFormed(ts: seq<TaskInfo>, n: int)
  {
    1 <= n <= |ts| &&
    forall i :: 0 <= i < n && ts[i].process == Waiting ==> 0 <= ts[i].pre < n
  }

  // ---------------------------------------------------------------------
  // Rotation order

  /** The slot a scan started by the task in slot `c` examines at step `k`:
      (c+1)%n, (c+2)%n, ... The result is always a valid slot index. */
  function Slot(c: int, n: int, k: nat): (i: int)
    requires 0 <= c < n
    ensures 0 <= i < n
  {
    (c + 1 + k) % n
  }

  lemma MulGrows(d: int, n: int)
    requires n > 0 && d >= 1
    ensures d * n >= n
  {
    assert d * n == (d - 1) * n + n;
  }

  lemma MulSign(d: int, n: int)
    requires n > 0 && -n < d * n < n
    ensures d == 0
  {
    if d >= 1 { MulGrows(d, n); } else if d <= -1 { MulGrows(-d, n); }
  }

  lemma ModUnique(x: int, n: int, q: int, r: int)
    requires n > 0 && 0 <= r < n && x == q * n + r
    ensures x % n == r
  {
    var d := q - x / n;
    assert d * n == x % n - r;
    MulSign(d, n);
  }

  /** Continuing a rotation from the slot reached at step `m` is the same
      rotation, `m + 1` steps further on. */
  lemma SlotAfter(c: int, n: int, m: nat, k: nat)
    requires 0 <= c < n
    ensures Slot(Slot(c, n, m), n, k) == Slot(c, n, m + 1 + k)
  {
    var x, y := c + 1 + m, 1 + k;
    var z := x % n + y;
    ModUnique(x + y, n, x / n + z / n, z % n);
  }

  /** The caller's own slot is examined last in each sweep: at step n - 1,
      and again every n steps. */
  lemma CallerLast(c: int, n: int, k: nat)
    requires 0 <= c < n
    ensures Slot(c, n, k * n + n - 1) == c
  {
    ModUnique(c + 1 + k * n + n - 1, n, k + 1, c);
  }

  /** Within one sweep no slot is examined twice. */
  lemma RotationDistinct(c: int, n: int, j: nat, k: nat)
    requires 0 <= c < n && j < k < n
    ensures Slot(c, n, j) != Slot(c, n, k)
  {
    var s, d := Slot(c, n, j), k - j;
    SlotAfter(c, n, j, d - 1);
    ModUnique(s, n, 0, s);
    if s + d < n {
      ModUnique(s + d, n, 0, s + d);
    } else {
      ModUnique(s + d, n, 1, s + d - n);
    }
  }

  /** The step at which a scan started by slot `c` examines slot `i`: every
      slot is reached within one sweep, and the caller's own slot exactly at
      its end. */
  function StepOf(c: int, n: int, i: int): (k: nat)
    requires 0 <= c < n && 0 <= i < n
    ensures k < n && Slot(c, n, k) == i
    ensures k == n - 1 <==> i == c
  {
    if i > c then
      ModUnique(i, n, 0, i);
      i - c - 1
    else
      ModUnique(i + n, n, 1, i);
      i + n - c - 1
  }

  // ---------------------------------------------------------------------
  // Readiness and the scan

  /** The readiness test the scan applies to slot `i`: `now` is what the
      clock reads and `key` what the input poll returns if the test consults
      them. A done task is never ready. */
  predicate Passes(ts: seq<TaskInfo>, n: int, i: int, now: Ms, key: int)
    requires WellFormed(ts, n) && 0 <= i < n
  {
    match ts[i].process
    case Inactive => true
    case Waiting => ts[ts[i].pre].process == Done
    case Sleeping => ts[i].wakeuptime < now
    case Blocked => key != ERR
    case Done => false
  }

  /** The test at step `k` of a scan started by slot `c`; the clock and the
      input poll are consulted at most once per step, so their answers are
      given per step. */
  predicate PassesAt(ts: seq<TaskInfo>, n: int, c: int, k: nat, clock: nat -> Ms, keys: nat -> int)
    requires WellFormed(ts, n) && 0 <= c < n
  {
    Passes(ts, n, Slot(c, n, k), clock(k), keys(k))
  }

  /** The scan's choice among steps [from, fuel): the first step whose slot
      passes its test (see FirstReadyIsFirst). */
  function FirstReady(ts: seq<TaskInfo>, n: int, c: int, from: nat, fuel: nat,
                      clock: nat -> Ms, keys: nat -> int): Option<nat>
    requires WellFormed(ts, n) && 0 <= c < n
    decreases fuel - from
  {
    if fuel <= from then None
    else if PassesAt(ts, n, c, from, clock, keys) then Some(from)
    else FirstReady(ts, n, c, from + 1, fuel, clock, keys)
  }

  /** FirstReady finds a step in range whose slot passes, with every earlier
      step failing; it finds none only if every step fails. */
  lemma {:induction false} FirstReadyIsFirst(ts: seq<TaskInfo>, n: int, c: int, from: nat, fuel: nat,
                                             clock: nat -> Ms, keys: nat -> int)
    requires WellFormed(ts, n) && 0 <= c < n
    ensures var r := FirstReady(ts, n, c, from, fuel, clock, keys);
      (r.Some? ==> from <= r.value < fuel && PassesAt(ts, n, c, r.value, clock, keys)) &&
      (r.Some? ==> forall j :: from <= j < r.value ==> !PassesAt(ts, n, c, j, clock, keys)) &&
      (r.None? ==> forall j :: from <= j < fuel ==> !PassesAt(ts, n, c, j, clock, keys))
    decreases fuel - from
  {
    if from < fuel && !PassesAt(ts, n, c, from, clock, keys) {
      FirstReadyIsFirst(ts, n, c, from + 1, fuel, clock, keys);
    }
  }

  /** The record of a slot the scan selects: Ready again, and a slot that was
      blocked on input now holds the character whose poll woke it. */
  function Admit(t: TaskInfo, key: int): (r: TaskInfo)
    ensures r.process == Inactive && r.wakeuptime == t.wakeuptime && r.pre == t.pre
    ensures t.process == Blocked ==> r.input == key
    ensures t.process != Blocked ==> r.input == t.input
  {
    if t.process == Blocked then t.(process := Inactive, input := key)
    else t.(process := Inactive)
  }

  /** What a scan leaves behind: the slot it transferred control to (None
      while it is still spinning), the table, and `current_task`. */
  datatype Outcome = Outcome(selected: Option<int>, tasks: seq<TaskInfo>, current: int)

  /** A scan of at most `fuel` examinations started by the task in slot `c`.
      Only the selected slot's record changes; `current` names the selected
      slot, or the last slot examined while no slot was ready. */
  function Swept(ts: seq<TaskInfo>, n: int, c: int, fuel: nat,
                 clock: nat -> Ms, keys: nat -> int): (o: Outcome)
    requires WellFormed(ts, n) && 0 <= c < n
    ensures WellFormed(o.tasks, n) && |o.tasks| == |ts| && 0 <= o.current < n
    ensures o.selected.Some? ==> o.selected.value == o.current && o.tasks[o.current].process == Inactive
    ensures forall j :: 0 <= j < |ts| && o.selected != Some(j) ==> o.tasks[j] == ts[j]
    ensures o.selected.None? ==> o.current == if fuel == 0 then c else Slot(c, n, fuel - 1)
  {
    match FirstReady(ts, n, c, 0, fuel, clock, keys)
    case None => Outcome(None, ts, if fuel == 0 then c else Slot(c, n, fuel - 1))
    case Some(k) =>
      var i := Slot(c, n, k);
      Outcome(Some(i), ts[i := Admit(ts[i], keys(k))], i)
  }

  /** Once the steps before `k` have failed, a slot passing at step `k` is
      the one the scan selects. */
  lemma SweptSelectsAt(ts: seq<TaskInfo>, n: int, c: int, fuel: nat,
                       clock: nat -> Ms, keys: nat -> int, k: nat)
    requires WellFormed(ts, n) && 0 <= c < n && k < fuel
    requires forall j :: 0 <= j < k ==> !PassesAt(ts, n, c, j, clock, keys)
    requires PassesAt(ts, n, c, k, clock, keys)
    ensures var i := Slot(c, n, k);
      Swept(ts, n, c, fuel, clock, keys) == Outcome(Some(i), ts[i := Admit(ts[i], keys(k))], i)
  {
    FirstReadySkip(ts, n, c, 0, k, fuel, clock, keys);
  }

  /** A scan whose every step fails selects nothing and leaves `current` at
      the last slot examined. */
  lemma SweptSpins(ts: seq<TaskInfo>, n: int, c: int, fuel: nat,
                   clock: nat -> Ms, keys: nat -> int)
    requires WellFormed(ts, n) && 0 <= c < n
    requires forall j :: 0 <= j < fuel ==> !PassesAt(ts, n, c, j, clock, keys)
    ensures Swept(ts, n, c, fuel, clock, keys)
         == Outcome(None, ts, if fuel == 0 then c else Slot(c, n, fuel - 1))
  {
    FirstReadySkip(ts, n, c, 0, fuel, fuel, clock, keys);
  }

  // ---------------------------------------------------------------------
  // What a scan selects

  /** A slot is selected only if it is the first in rotation order to pass its
      test, and it passes only if it is ready, waits for a task that is done,
      sleeps past a deadline the clock has strictly exceeded, or is blocked on
      input and the poll returned a character, which it now holds. */
  lemma {:induction false} SweptSelectsFirstReady(ts: seq<TaskInfo>, n: int, c: int, fuel: nat,
                                                  clock: nat -> Ms, keys: nat -> int)
    requires WellFormed(ts, n) && 0 <= c < n
    ensures var o := Swept(ts, n, c, fuel, clock, keys);
      o.selected.Some? ==>
        exists k :: 0 <= k < fuel && Slot(c, n, k) == o.current &&
          (forall j :: 0 <= j < k ==> !PassesAt(ts, n, c, j, clock, keys)) &&
          (ts[o.current].process == Inactive ||
           (ts[o.current].process == Waiting && ts[ts[o.current].pre].process == Done) ||
           (ts[o.current].process == Sleeping && ts[o.current].wakeuptime < clock(k)) ||
           (ts[o.current].process == Blocked && keys(k) != ERR && o.tasks[o.current].input == keys(k)))
    ensures Swept(ts, n, c, fuel, clock, keys).selected.None? ==>
      forall k :: 0 <= k < fuel ==> !PassesAt(ts, n, c, k, clock, keys)
  {
    var o := Swept(ts, n, c, fuel, clock, keys);
    FirstReadyIsFirst(ts, n, c, 0, fuel, clock, keys);
    match FirstReady(ts, n, c, 0, fuel, clock, keys)
    case None =>
    case Some(k) =>
      assert Slot(c, n, k) == o.current;
  }

  /** A task waiting for `h` gets control back only once `h` is done. */
  lemma WaitEndsOnlyAfterTargetDone(ts: seq<TaskInfo>, n: int, c: int, fuel: nat,
                                    clock: nat -> Ms, keys: nat -> int, i: int)
    requires WellFormed(ts, n) && 0 <= c < n && 0 <= i < n && ts[i].process == Waiting
    ensures Swept(ts, n, c, fuel, clock, keys).selected == Some(i) ==> ts[ts[i].pre].process == Done
  {
    SweptSelectsFirstReady(ts, n, c, fuel, clock, keys);
  }

  /** A task blocked on input gets control back only at a step whose poll
      returned a character, and that character is what its slot now holds. */
  lemma BlockedReaderGetsPolledChar(ts: seq<TaskInfo>, n: int, c: int, fuel: nat,
                                    clock: nat -> Ms, keys: nat -> int, i: int)
    requires WellFormed(ts, n) && 0 <= c < n && 0 <= i < n && ts[i].process == Blocked
    ensures var o := Swept(ts, n, c, fuel, clock, keys);
      o.selected == Some(i) ==>
        exists k :: 0 <= k < fuel && Slot(c, n, k) == i && keys(k) != ERR && o.tasks[i].input == keys(k)
  {
    SweptSelectsFirstReady(ts, n, c, fuel, clock, keys);
  }

  /** A done task is never selected and never leaves Done. */
  lemma DoneIsTerminal(ts: seq<TaskInfo>, n: int, c: int, fuel: nat,
                       clock: nat -> Ms, keys: nat -> int, i: int)
    requires WellFormed(ts, n) && 0 <= c < n && 0 <= i < |ts| && ts[i].process == Done
    ensures Swept(ts, n, c, fuel, clock, keys).selected != Some(i)
    ensures Swept(ts, n, c, fuel, clock, keys).tasks[i] == ts[i]
  {
    var o := Swept(ts, n, c, fuel, clock, keys);
    if o.selected == Some(i) {
      SweptSelectsFirstReady(ts, n, c, fuel, clock, keys);
    }
  }

  /** Scanning from a table never takes a created task out of Done. */
  lemma KeepsDone(ts: seq<TaskInfo>, n: int, c: int, fuel: nat, clock: nat -> Ms, keys: nat -> int)
    requires WellFormed(ts, n) && 0 <= c < n
    ensures forall j :: 0 <= j < n && ts[j].process == Done ==>
      Swept(ts, n, c, fuel, clock, keys).tasks[j].process == Done
  {
    forall j | 0 <= j < n && ts[j].process == Done
      ensures Swept(ts, n, c, fuel, clock, keys).tasks[j].process == Done
    {
      DoneIsTerminal(ts, n, c, fuel, clock, keys, j);
    }
  }

  /** A yielding task does not get control back while another task is ready:
      if some other slot is Inactive, a scan of a full sweep selects a slot
      other than the caller's. */
  lemma YieldRunsOthersFirst(ts: seq<TaskInfo>, n: int, c: int, fuel: nat,
                             clock: nat -> Ms, keys: nat -> int, j: int)
    requires WellFormed(ts, n) && 0 <= c < n && fuel >= n
    requires 0 <= j < n && j != c && ts[j].process == Inactive
    ensures Swept(ts, n, c, fuel, clock, keys).selected.Some?
    ensures Swept(ts, n, c, fuel, clock, keys).selected != Some(c)
  {
    var kj := StepOf(c, n, j);
    assert PassesAt(ts, n, c, kj, clock, keys);
    FirstReadyIsFirst(ts, n, c, 0, fuel, clock, keys);
    var r := FirstReady(ts, n, c, 0, fuel, clock, keys);
    assert r.Some? && r.value <= kj < n - 1;
    RotationDistinct(c, n, r.value, n - 1);
    CallerLast(c, n, 0);
    assert Slot(c, n, n - 1) == c;
    assert Swept(ts, n, c, fuel, clock, keys).selected == Some(Slot(c, n, r.value));
  }

  /** When every task other than the caller is Ready, the scan selects the
      slot right after the caller and changes nothing: strict round robin.
      The caller's own slot may be in any state, as it is after a suspension
      operation recorded it. */
  lemma AllReadyRoundRobin(ts: seq<TaskInfo>, n: int, c: int, fuel: nat,
                           clock: nat -> Ms, keys: nat -> int)
    requires WellFormed(ts, n) && 0 <= c < n && n > 1 && fuel > 0
    requires forall i :: 0 <= i < n && i != c ==> ts[i].process == Inactive
    ensures Swept(ts, n, c, fuel, clock, keys) == Outcome(Some((c + 1) % n), ts, (c + 1) % n)
  {
    var i := Slot(c, n, 0);
    CallerLast(c, n, 0);
    RotationDistinct(c, n, 0, n - 1);
    assert i != c;
    SweptSelectsAt(ts, n, c, fuel, clock, keys, 0);
    assert ts[i := Admit(ts[i], keys(0))] == ts;
  }

  /** A record whose readiness test passes without consulting the rest of the
      table: Ready, asleep past its deadline, or blocked with input at hand. */
  predicate Runnable(t: TaskInfo, now: Ms, key: int)
  {
    t.process == Inactive ||
    (t.process == Sleeping && t.wakeuptime < now) ||
    (t.process == Blocked && key != ERR)
  }

  /** The slots selected by `m` successive rounds. In each round the running
      task first records its suspension (`suspend` gives its new record, as
      task_sleep or task_readchar do), then swaps; the next round is run by
      the task selected. Every round sees the same clock and input answers. */
  ghost function Rounds(ts: seq<TaskInfo>, n: int, c: int, m: nat, fuel: nat,
                        clock: nat -> Ms, keys: nat -> int,
                        suspend: TaskInfo -> TaskInfo): seq<Option<int>>
    requires WellFormed(ts, n) && 0 <= c < n
    decreases m
  {
    if m == 0 then []
    else
      var suspended := ts[c := suspend(ts[c])];
      if !WellFormed(suspended, n) then []
      else
        var o := Swept(suspended, n, c, fuel, clock, keys);
        [o.selected] + Rounds(o.tasks, n, o.current, m - 1, fuel, clock, keys, suspend)
  }

  /** One round of `Rounds` under the hypotheses of RoundRobinOrder: the
      slot after the caller is selected, and afterwards every task other than
      the new caller can still run. */
  lemma RoundStep(ts: seq<TaskInfo>, n: int, c: int, fuel: nat,
                  clock: nat -> Ms, keys: nat -> int, suspend: TaskInfo -> TaskInfo)
    requires WellFormed(ts, n) && 0 <= c < n && fuel > 0
    requires forall i :: 0 <= i < n && i != c ==> Runnable(ts[i], clock(0), keys(0))
    requires forall t :: Runnable(suspend(t), clock(0), keys(0))
    ensures WellFormed(ts[c := suspend(ts[c])], n)
    ensures var o := Swept(ts[c := suspend(ts[c])], n, c, fuel, clock, keys);
      o.selected == Some(Slot(c, n, 0)) && o.current == Slot(c, n, 0) && WellFormed(o.tasks, n) &&
      forall j :: 0 <= j < n && j != o.current ==> Runnable(o.tasks[j], clock(0), keys(0))
  {
    var suspended := ts[c := suspend(ts[c])];
    assert Runnable(suspend(ts[c]), clock(0), keys(0));
    assert forall i :: 0 <= i < n ==> Runnable(suspended[i], clock(0), keys(0));
    assert WellFormed(suspended, n);
    var i := Slot(c, n, 0);
    assert PassesAt(suspended, n, c, 0, clock, keys);
    SweptSelectsAt(suspended, n, c, fuel, clock, keys, 0);
  }

  /** When every other task can run and each task's suspension leaves it
      able to run again (it sleeps past a deadline already reached, or waits
      for input that is there), successive swaps select the slots in strict
      round-robin order from the one after the first caller, so each slot is
      selected exactly once in every n consecutive rounds. */
  lemma {:induction false} RoundRobinOrder(ts: seq<TaskInfo>, n: int, c: int, m: nat, fuel: nat,
                                           clock: nat -> Ms, keys: nat -> int,
                                           suspend: TaskInfo -> TaskInfo)
    requires WellFormed(ts, n) && 0 <= c < n && fuel > 0
    requires forall i :: 0 <= i < n && i != c ==> Runnable(ts[i], clock(0), keys(0))
    requires forall t :: Runnable(suspend(t), clock(0), keys(0))
    ensures |Rounds(ts, n, c, m, fuel, clock, keys, suspend)| == m
    ensures forall k :: 0 <= k < m ==> Rounds(ts, n, c, m, fuel, clock, keys, suspend)[k] == Some(Slot(c, n, k))
    decreases m
  {
    if m > 0 {
      RoundStep(ts, n, c, fuel, clock, keys, suspend);
      var o := Swept(ts[c := suspend(ts[c])], n, c, fuel, clock, keys);
      RoundRobinOrder(o.tasks, n, o.current, m - 1, fuel, clock, keys, suspend);
      RotationFrom(c, n, m, Rounds(o.tasks, n, o.current, m - 1, fuel, clock, keys, suspend));
    }
  }

  /** A rotation from the slot after `c` is the rotation from `c`, one step on. */
  lemma RotationFrom(c: int, n: int, m: nat, rest: seq<Option<int>>)
    requires 0 <= c < n && m > 0 && |rest| == m - 1
    requires forall k :: 0 <= k < m - 1 ==> rest[k] == Some(Slot(Slot(c, n, 0), n, k))
    ensures forall k :: 0 <= k < m ==> ([Some(Slot(c, n, 0))] + rest)[k] == Some(Slot(c, n, k))
  {
    forall k | 0 < k < m
      ensures ([Some(Slot(c, n, 0))] + rest)[k] == Some(Slot(c, n, k))
    {
      SlotAfter(c, n, 0, k - 1);
    }
  }

  /** Two tasks waiting for each other are never selected and keep their
      records, however long the scan runs and whatever the clock and the
      input do. */
  lemma MutualWaitNeverResolves(ts: seq<TaskInfo>, n: int, c: int, fuel: nat,
                                clock: nat -> Ms, keys: nat -> int, a: int, b: int)
    requires WellFormed(ts, n) && 0 <= c < n && 0 <= a < n && 0 <= b < n
    requires ts[a].process == Waiting && ts[a].pre == b
    requires ts[b].process == Waiting && ts[b].pre == a
    ensures var o := Swept(ts, n, c, fuel, clock, keys);
      o.selected != Some(a) && o.selected != Some(b) && o.tasks[a] == ts[a] && o.tasks[b] == ts[b]
  {
    SweptSelectsFirstReady(ts, n, c, fuel, clock, keys);
  }

  /** A task that went to sleep at clock reading `start` for `ms`
      milliseconds, with no wrap-around of the deadline, is selected only at a
      step where the clock reads more than `start + ms`. */
  lemma SleepNotEarly(ts: seq<TaskInfo>, n: int, c: int, fuel: nat,
                      clock: nat -> Ms, keys: nat -> int, i: int, start: Ms, ms: Ms)
    requires WellFormed(ts, n) && 0 <= c < n && 0 <= i < n
    requires start + ms < SIZE_MOD
    requires ts[i].process == Sleeping && ts[i].wakeuptime == (start + ms) % SIZE_MOD
    ensures Swept(ts, n, c, fuel, clock, keys).selected == Some(i) ==>
      exists k :: 0 <= k < fuel && Slot(c, n, k) == i && clock(k) - start > ms
  {
    SweptSelectsFirstReady(ts, n, c, fuel, clock, keys);
  }

  // ---------------------------------------------------------------------
  // The unbounded loop as a sequence of bounded scans

  /** Steps whose slots fail their tests can be skipped. */
  lemma {:induction false} FirstReadySkip(ts: seq<TaskInfo>, n: int, c: int, from: nat, mid: nat, fuel: nat,
                                          clock: nat -> Ms, keys: nat -> int)
    requires WellFormed(ts, n) && 0 <= c < n && from <= mid <= fuel
    requires forall j :: from <= j < mid ==> !PassesAt(ts, n, c, j, clock, keys)
    ensures FirstReady(ts, n, c, from, fuel, clock, keys) == FirstReady(ts, n, c, mid, fuel, clock, keys)
    decreases mid - from
  {
    if from < mid {
      FirstReadySkip(ts, n, c, from + 1, mid, fuel, clock, keys);
    }
  }

  /** A scan started from the slot reached at step `m`, with the clock and
      input answers shifted accordingly, selects at step k exactly when the
      original scan selects at step m + 1 + k. */
  lemma {:induction false} FirstReadyShift(ts: seq<TaskInfo>, n: int, c: int, m: nat, from: nat, fuel: nat,
                                           clock: nat -> Ms, keys: nat -> int,
                                           clock2: nat -> Ms, keys2: nat -> int)
    requires WellFormed(ts, n) && 0 <= c < n
    requires forall k: nat :: clock2(k) == clock(m + 1 + k)
    requires forall k: nat :: keys2(k) == keys(m + 1 + k)
    ensures var r := FirstReady(ts, n, c, m + 1 + from, m + 1 + fuel, clock, keys);
      var r2 := FirstReady(ts, n, Slot(c, n, m), from, fuel, clock2, keys2);
      (r.None? && r2.None?) || (r.Some? && r2.Some? && r.value == m + 1 + r2.value)
    decreases fuel - from
  {
    if from < fuel {
      SlotAfter(c, n, m, from);
      assert PassesAt(ts, n, Slot(c, n, m), from, clock2, keys2) == PassesAt(ts, n, c, m + 1 + from, clock, keys);
      FirstReadyShift(ts, n, c, m, from + 1, fuel, clock, keys, clock2, keys2);
    }
  }

  /** The scan loop never stops on its own; a scan that ran out of fuel
      without selecting anything is continued exactly by a new scan started
      from the `current` it left behind, with the clock and input answers
      that follow. (`current` is written for every skipped slot, so the next
      slot to examine is always the one after it.) */
  lemma SweptResume(ts: seq<TaskInfo>, n: int, c: int, f1: nat, f2: nat,
                    clock: nat -> Ms, keys: nat -> int, clock2: nat -> Ms, keys2: nat -> int)
    requires WellFormed(ts, n) && 0 <= c < n && f1 > 0
    requires Swept(ts, n, c, f1, clock, keys).selected.None?
    requires forall k: nat :: clock2(k) == clock(f1 + k)
    requires forall k: nat :: keys2(k) == keys(f1 + k)
    ensures Swept(ts, n, c, f1 + f2, clock, keys)
         == Swept(ts, n, Swept(ts, n, c, f1, clock, keys).current, f2, clock2, keys2)
  {
    var m := f1 - 1;
    var c2 := Slot(c, n, m);
    assert Swept(ts, n, c, f1, clock, keys).current == c2;
    SweptSelectsFirstReady(ts, n, c, f1, clock, keys);
    FirstReadySkip(ts, n, c, 0, f1, f1 + f2, clock, keys);
    FirstReadyShift(ts, n, c, m, 0, f2, clock, keys, clock2, keys2);
    var r := FirstReady(ts, n, c, 0, f1 + f2, clock, keys);
    var r2 := FirstReady(ts, n, c2, 0, f2, clock2, keys2);
    if r2.Some? {
      var k2 := r2.value;
      assert r == Some(f1 + k2);
      SlotAfter(c, n, m, k2);
      var i := Slot(c, n, f1 + k2);
      assert Slot(c2, n, k2) == i;
      assert keys2(k2) == keys(f1 + k2);
      assert Swept(ts, n, c2, f2, clock2, keys2) == Outcome(Some(i), ts[i := Admit(ts[i], keys(f1 + k2))], i);
      assert Swept(ts, n, c, f1 + f2, clock, keys) == Outcome(Some(i), ts[i := Admit(ts[i], keys(f1 + k2))], i);
    } else {
      assert r.None?;
      if f2 > 0 {
        SlotAfter(c, n, m, f2 - 1);
      }
      assert Swept(ts, n, c2, f2, clock2, keys2) == Outcome(None, ts, Slot(c, n, f1 + f2 - 1));
      assert Swept(ts, n, c, f1 + f2, clock, keys) == Outcome(None, ts, Slot(c, n, f1 + f2 - 1));
    }
  }
}
