/** schedule() and the timer tick: which task runs, and how long a runnable task can be kept waiting. */
module Scheduler {

  const NR_TASKS := 64

  /** A slot of the task table; an empty slot is not present. */
  datatype Task = Task(present: bool, runnable: bool, counter: nat, priority: nat)

  datatype Sched = Sched(tasks: seq<Task>, current: nat)

  predicate Ready(t: Task) {
    t.present && t.runnable
  }

  /** Task 0 is always there; every task that is refilled has a positive priority. */
  ghost predicate Sane(s: Sched) {
    |s.tasks| == NR_TASKS && s.current < NR_TASKS && s.tasks[0].present && s.tasks[s.current].present &&
    forall i :: 0 < i < NR_TASKS && s.tasks[i].present ==> s.tasks[i].priority > 0
  }

  /** The scan of schedule() over slots `i` down to 1, with the best counter and slot so far. */
  function Scan(tasks: seq<Task>, i: nat, c: int, next: nat): (r: (int, nat))
    requires i < |tasks|
  {
    if i == 0 then (c, next)
    else if Ready(tasks[i]) && tasks[i].counter > c then Scan(tasks, i - 1, tasks[i].counter, i)
    else Scan(tasks, i - 1, c, next)
  }

  function Best(tasks: seq<Task>): (r: (int, nat))
    requires |tasks| == NR_TASKS
  {
    Scan(tasks, NR_TASKS - 1, -1, 0)
  }

  /** `next` is the ready task of slots `lo` and up with the largest counter `c`, the highest slot among equals. */
  ghost predicate Picked(tasks: seq<Task>, lo: nat, c: int, next: nat) {
    if c == -1 then next == 0 && forall i :: lo <= i < |tasks| ==> !Ready(tasks[i])
    else
      lo <= next < |tasks| && Ready(tasks[next]) && tasks[next].counter == c &&
      forall i :: lo <= i < |tasks| && Ready(tasks[i]) ==> tasks[i].counter <= c && (i > next ==> tasks[i].counter < c)
  }

  lemma {:induction false} ScanPicks(tasks: seq<Task>, i: nat, c: int, next: nat)
    requires i < |tasks| && Picked(tasks, i + 1, c, next)
    ensures Picked(tasks, 1, Scan(tasks, i, c, next).0, Scan(tasks, i, c, next).1)
  {
    if i > 0 {
      if Ready(tasks[i]) && tasks[i].counter > c {
        ScanPicks(tasks, i - 1, tasks[i].counter, i);
      } else {
        ScanPicks(tasks, i - 1, c, next);
      }
    }
  }

  /** The refill of one slot; slot 0 is left out. */
  function Refilled(t: Task, i: nat): Task {
    if i > 0 && t.present then t.(counter := t.counter / 2 + t.priority) else t
  }

  function Refill(tasks: seq<Task>): (r: seq<Task>)
    ensures |r| == |tasks| && forall i :: 0 <= i < |r| ==> r[i] == Refilled(tasks[i], i)
  {
    seq(|tasks|, i requires 0 <= i < |tasks| => Refilled(tasks[i], i))
  }

  /** schedule() */
  function Schedule(s: Sched): Sched
    requires |s.tasks| == NR_TASKS
  {
    var (c, next) := Best(s.tasks);
    if c != 0 then s.(current := next) else Sched(Refill(s.tasks), Best(Refill(s.tasks)).1)
  }

  /** Once is enough: after a refill some ready task has a positive counter. */
  lemma RefillSuffices(s: Sched)
    requires Sane(s) && Best(s.tasks).0 == 0
    ensures Best(Refill(s.tasks)).0 > 0
  {
    var ts := Refill(s.tasks);
    ScanPicks(s.tasks, NR_TASKS - 1, -1, 0);
    ScanPicks(ts, NR_TASKS - 1, -1, 0);
    var was := Best(s.tasks).1;
    assert Ready(ts[was]) && ts[was].counter > 0;
  }

  /** Main result about one call: schedule() refills exactly when some task is ready and every ready counter is 0; in
      either case it then runs a ready task with the largest counter, which is positive, or else the idle task when
      nobody is ready. */
  lemma SchedulePicks(s: Sched)
    requires Sane(s)
    ensures var s' := Schedule(s);
      Sane(s') && s'.tasks == (if Starved(s.tasks) then Refill(s.tasks) else s.tasks)
    ensures var s' := Schedule(s);
      if exists i :: 0 < i < NR_TASKS && Ready(s.tasks[i])
      then Picked(s'.tasks, 1, s'.tasks[s'.current].counter, s'.current) && s'.tasks[s'.current].counter > 0
      else s'.current == 0
  {
    ScanPicks(s.tasks, NR_TASKS - 1, -1, 0);
    ScanPicks(Refill(s.tasks), NR_TASKS - 1, -1, 0);
    if Best(s.tasks).0 == 0 {
      RefillSuffices(s);
    }
    assert forall i :: 0 < i < NR_TASKS && Ready(s.tasks[i]) ==> Ready(Refill(s.tasks)[i]);
  }

  /** Somebody is ready, and nobody ready has time left. */
  ghost predicate Starved(tasks: seq<Task>) {
    (exists i :: 0 < i < |tasks| && Ready(tasks[i])) &&
    forall i :: 0 < i < |tasks| && Ready(tasks[i]) ==> tasks[i].counter == 0
  }

  // ----- Events

  datatype Event =
    | UserTick                    // timer interrupt out of user mode
    | KernelTick                  // timer interrupt out of the kernel
    | Reschedule                  // schedule() with the caller still runnable
    | Block                       // the current task stops being runnable and calls schedule()
    | Wake(t: nat)
    | Reap(t: nat)                // a dead task's slot is emptied
    | Nice(increment: int)
    | Fork(slot: nat)

  predicate Enabled(s: Sched, e: Event) {
    match e
    case Wake(t) => t < |s.tasks| && s.tasks[t].present
    case Reap(t) => 0 < t < |s.tasks| && t != s.current && s.tasks[t].present && !s.tasks[t].runnable
    case Fork(slot) => 0 < slot < |s.tasks| && !s.tasks[slot].present
    case _ => true
  }

  function SetTask(s: Sched, i: nat, t: Task): Sched
    requires i < |s.tasks|
  {
    s.(tasks := s.tasks[i := t])
  }

  /** do_timer, as far as it concerns the scheduler. */
  function Tick(s: Sched, user: bool): Sched
    requires |s.tasks| == NR_TASKS && s.current < NR_TASKS
  {
    var t := s.tasks[s.current];
    if t.counter > 1 then SetTask(s, s.current, t.(counter := t.counter - 1))
    else
      var s' := SetTask(s, s.current, t.(counter := 0));
      if user then Schedule(s') else s'
  }

  function Apply(s: Sched, e: Event): Sched
    requires |s.tasks| == NR_TASKS && s.current < NR_TASKS && Enabled(s, e)
  {
    match e
    case UserTick => Tick(s, true)
    case KernelTick => Tick(s, false)
    case Reschedule => Schedule(s)
    case Block => Schedule(SetTask(s, s.current, s.tasks[s.current].(runnable := false)))
    case Wake(t) => SetTask(s, t, s.tasks[t].(runnable := true))
    case Reap(t) => SetTask(s, t, s.tasks[t].(present := false))
    case Nice(increment) =>
      var t := s.tasks[s.current];
      if t.priority - increment > 0 then SetTask(s, s.current, t.(priority := t.priority - increment)) else s
    case Fork(slot) =>
      var t := s.tasks[s.current];
      SetTask(s, slot, Task(true, true, t.priority, t.priority))
  }

  /** sys_fork copies its caller's priority, so the idle task's own must be positive too. */
  ghost predicate Inv(s: Sched) {
    Sane(s) && s.tasks[0].priority > 0
  }

  /** sched_init: only task 0 is there, with the counter and priority of INIT_TASK. */
  const INIT_TASK := Task(true, true, 15, 15)
  const NO_TASK := Task(false, false, 0, 0)

  lemma FirstTaskInv(s: Sched)
    requires |s.tasks| == NR_TASKS && s.current == 0 && s.tasks[0] == INIT_TASK
    requires forall i :: 0 < i < NR_TASKS ==> s.tasks[i] == NO_TASK
    ensures Inv(s) && Modest(s)
  {
  }

  lemma StepKeepsInv(s: Sched, e: Event)
    requires Inv(s) && Enabled(s, e)
    ensures Inv(Apply(s, e))
  {
    match e
    case UserTick =>
      SchedulePicks(SetTask(s, s.current, s.tasks[s.current].(counter := 0)));
    case Reschedule => SchedulePicks(s);
    case Block => SchedulePicks(SetTask(s, s.current, s.tasks[s.current].(runnable := false)));
    case _ =>
  }

  // ----- Bounded waiting

  function Left(t: Task): nat {
    if t.present then t.counter else 0
  }

  /** The counters of slots below `n` other than `skip`, added up. */
  function Total(tasks: seq<Task>, skip: nat, n: nat): nat
    requires n <= |tasks|
  {
    if n == 0 then 0
    else Total(tasks, skip, n - 1) + (if n - 1 == skip then 0 else Left(tasks[n - 1]))
  }

  lemma {:induction false} TotalGrows(ts: seq<Task>, us: seq<Task>, skip: nat, n: nat)
    requires n <= |ts| == |us| && forall i :: 0 <= i < n && i != skip ==> Left(ts[i]) <= Left(us[i])
    ensures Total(ts, skip, n) <= Total(us, skip, n)
  {
    if n > 0 {
      TotalGrows(ts, us, skip, n - 1);
    }
  }

  lemma {:induction false} TotalGrowsMore(ts: seq<Task>, us: seq<Task>, skip: nat, n: nat, j: nat)
    requires n <= |ts| == |us| && forall i :: 0 <= i < n && i != skip ==> Left(ts[i]) <= Left(us[i])
    requires j < n && j != skip && Left(ts[j]) < Left(us[j])
    ensures Total(ts, skip, n) < Total(us, skip, n)
  {
    if n - 1 == j {
      TotalGrows(ts, us, skip, n - 1);
    } else {
      TotalGrowsMore(ts, us, skip, n - 1, j);
    }
  }

  function Spent(s: Sched): nat
    requires s.current < |s.tasks|
  {
    if s.tasks[s.current].counter == 0 then 1 else 0
  }

  /** How many user ticks task `t` may still have to wait: what the others have left, one more when the current task
      has used up its time, and what one refill gives the others when `t` itself has nothing left. */
  function Wait(s: Sched, t: nat): nat
    requires |s.tasks| == NR_TASKS && s.current < NR_TASKS && t < NR_TASKS
  {
    Total(s.tasks, t, NR_TASKS) + Spent(s) +
    (if s.tasks[t].counter == 0 then Total(Refill(s.tasks), t, NR_TASKS) else 0)
  }

  /** Task `t` is runnable but another one runs. */
  predicate Waiting(s: Sched, t: nat) {
    0 < t < |s.tasks| && Ready(s.tasks[t]) && s.current != t
  }

  /** A call of schedule() that passes `t` over shortens its wait by what was still owed for a spent current task. */
  lemma ScheduleShortensWait(s: Sched, t: nat)
    requires Sane(s) && 0 < t < NR_TASKS && Ready(s.tasks[t]) && Schedule(s).current != t
    ensures Sane(Schedule(s)) && Wait(Schedule(s), t) + Spent(s) <= Wait(s, t)
  {
    SchedulePicks(s);
  }

  /** Counters that fall, tasks that go: the wait does not grow. */
  lemma WaitFalls(s: Sched, s': Sched, t: nat)
    requires Sane(s) && |s'.tasks| == NR_TASKS && s'.current == s.current && t < NR_TASKS && s'.tasks[t] == s.tasks[t]
    requires forall i :: 0 <= i < NR_TASKS ==>
      s'.tasks[i].priority == s.tasks[i].priority && s'.tasks[i].counter <= s.tasks[i].counter &&
      (s'.tasks[i].present ==> s.tasks[i].present)
    ensures Wait(s', t) + Spent(s) <= Wait(s, t) + Spent(s')
  {
    TotalGrows(s'.tasks, s.tasks, t, NR_TASKS);
    TotalGrows(Refill(s'.tasks), Refill(s.tasks), t, NR_TASKS);
  }

  lemma TickShortensWait(s: Sched, t: nat, user: bool)
    requires Sane(s) && Waiting(s, t) && Tick(s, user).current != t
    ensures Sane(Tick(s, user)) && Wait(Tick(s, user), t) + (if user then 1 else 0) <= Wait(s, t)
  {
    var cur := s.tasks[s.current];
    var mid := SetTask(s, s.current, cur.(counter := if cur.counter > 1 then cur.counter - 1 else 0));
    if cur.counter > 0 {
      TotalGrowsMore(mid.tasks, s.tasks, t, NR_TASKS, s.current);
      TotalGrows(Refill(mid.tasks), Refill(s.tasks), t, NR_TASKS);
    } else {
      assert mid == s;
    }
    if user && cur.counter <= 1 {
      ScheduleShortensWait(mid, t);
    }
  }

  /** No event lengthens a waiting task's wait, and every user tick shortens it. */
  lemma StepShortensWait(s: Sched, e: Event, t: nat)
    requires Inv(s) && Enabled(s, e) && !e.Nice? && !e.Fork?
    requires Waiting(s, t) && Apply(s, e).current != t
    ensures Inv(Apply(s, e)) && Wait(Apply(s, e), t) + (if e.UserTick? then 1 else 0) <= Wait(s, t)
  {
    StepKeepsInv(s, e);
    match e
    case UserTick => TickShortensWait(s, t, true);
    case KernelTick => TickShortensWait(s, t, false);
    case Reschedule => ScheduleShortensWait(s, t);
    case Block =>
      var mid := SetTask(s, s.current, s.tasks[s.current].(runnable := false));
      WaitFalls(s, mid, t);
      ScheduleShortensWait(mid, t);
    case Wake(u) =>
      var s' := Apply(s, e);
      TotalGrows(s'.tasks, s.tasks, t, NR_TASKS);
      TotalGrows(Refill(s'.tasks), Refill(s.tasks), t, NR_TASKS);
    case Reap(u) => WaitFalls(s, Apply(s, e), t);
  }

  ghost predicate History(states: seq<Sched>, events: seq<Event>) {
    |states| == |events| + 1 &&
    forall i :: 0 <= i < |events| ==> Step(states[i], events[i], states[i + 1])
  }

  ghost predicate Step(s: Sched, e: Event, s': Sched) {
    |s.tasks| == NR_TASKS && s.current < NR_TASKS && Enabled(s, e) && s' == Apply(s, e)
  }

  lemma {:induction false} HistoryKeepsInv(states: seq<Sched>, events: seq<Event>, n: nat)
    requires History(states, events) && Inv(states[0]) && n <= |events|
    ensures Inv(states[n])
  {
    if n > 0 {
      HistoryKeepsInv(states, events, n - 1);
      assert Step(states[n - 1], events[n - 1], states[n - 1 + 1]);
      StepKeepsInv(states[n - 1], events[n - 1]);
    }
  }

  function UserTicks(events: seq<Event>, n: nat): nat
    requires n <= |events|
  {
    if n == 0 then 0 else UserTicks(events, n - 1) + (if events[n - 1].UserTick? then 1 else 0)
  }

  /** Main result: while a task stays runnable without being selected, no more user ticks go by than its wait at the
      start -- whatever blocks, wakes, dies or is rescheduled meanwhile. */
  lemma {:induction false} BoundedWaiting(states: seq<Sched>, events: seq<Event>, t: nat, n: nat)
    requires History(states, events) && Inv(states[0]) && n <= |events| && t < NR_TASKS
    requires forall k :: 0 <= k < n ==> !events[k].Nice? && !events[k].Fork?
    requires forall k :: 0 <= k <= n ==> Waiting(states[k], t)
    ensures Inv(states[n]) && UserTicks(events, n) + Wait(states[n], t) <= Wait(states[0], t)
  {
    if n > 0 {
      BoundedWaiting(states, events, t, n - 1);
      assert Step(states[n - 1], events[n - 1], states[n - 1 + 1]);
      assert Waiting(states[n - 1], t) && Waiting(states[n], t);
      StepShortensWait(states[n - 1], events[n - 1], t);
    }
  }

  // ----- Counters never exceed twice the priority

  ghost predicate Modest(s: Sched) {
    forall i :: 0 <= i < |s.tasks| && s.tasks[i].present ==> s.tasks[i].counter <= 2 * s.tasks[i].priority
  }

  lemma {:induction false} HistoryStaysModest(states: seq<Sched>, events: seq<Event>, n: nat)
    requires History(states, events) && Inv(states[0]) && Modest(states[0]) && n <= |events|
    requires forall k :: 0 <= k < n ==> !events[k].Nice?
    ensures Modest(states[n])
  {
    if n > 0 {
      HistoryStaysModest(states, events, n - 1);
      HistoryKeepsInv(states, events, n - 1);
      assert Step(states[n - 1], events[n - 1], states[n - 1 + 1]);
    }
  }

  function Priorities(tasks: seq<Task>, skip: nat, n: nat): nat
    requires n <= |tasks|
  {
    if n == 0 then 0
    else Priorities(tasks, skip, n - 1) + (if n - 1 == skip || !tasks[n - 1].present then 0 else tasks[n - 1].priority)
  }

  lemma {:induction false} TotalModest(tasks: seq<Task>, skip: nat, n: nat)
    requires n <= |tasks| && forall i :: 0 <= i < n && tasks[i].present ==> tasks[i].counter <= 2 * tasks[i].priority
    ensures Total(tasks, skip, n) <= 2 * Priorities(tasks, skip, n)
    ensures Total(Refill(tasks), skip, n) <= 2 * Priorities(tasks, skip, n)
  {
    if n > 0 {
      TotalModest(tasks, skip, n - 1);
    }
  }

  /** So a wait is never longer than four times the other tasks' priorities and one tick. */
  lemma WaitIsModest(s: Sched, t: nat)
    requires Inv(s) && Modest(s) && t < NR_TASKS
    ensures Wait(s, t) <= 4 * Priorities(s.tasks, t, NR_TASKS) + 1
  {
    TotalModest(s.tasks, t, NR_TASKS);
  }

  // ----- The code

  class Kernel {
    const task: array<Task>
    var current: nat

    ghost predicate Valid()
      reads this, task
    {
      task.Length == NR_TASKS && Inv(View())
    }

    ghost function View(): Sched
      reads this, task
    {
      Sched(task[..], current)
    }

    /** sched_init */
    constructor ()
      ensures Valid() && Modest(View()) && current == 0 && task[0] == INIT_TASK
      ensures forall i :: 0 < i < NR_TASKS ==> task[i] == NO_TASK
    {
      task := new Task[NR_TASKS](i => if i == 0 then INIT_TASK else NO_TASK);
      current := 0;
    }

    /** The inner loop of schedule(). */
    method FindBest() returns (c: int, next: nat)
      requires task.Length == NR_TASKS
      ensures (c, next) == Best(task[..])
    {
      c, next := -1, 0;
      var i := NR_TASKS - 1;
      while i > 0
        invariant 0 <= i < NR_TASKS
        invariant Scan(task[..], i, c, next) == Best(task[..])
      {
        if task[i].present && task[i].runnable && task[i].counter > c {
          c, next := task[i].counter, i;
        }
        i := i - 1;
      }
    }

    /** The refill loop of schedule(). */
    method RefillAll()
      requires task.Length == NR_TASKS
      modifies task
      ensures task[..] == Refill(old(task[..]))
    {
      var i := NR_TASKS - 1;
      while i > 0
        invariant 0 <= i < NR_TASKS
        invariant forall k :: 0 <= k <= i ==> task[k] == old(task[k])
        invariant forall k :: i < k < NR_TASKS ==> task[k] == Refilled(old(task[k]), k)
      {
        if task[i].present {
          task[i] := task[i].(counter := task[i].counter / 2 + task[i].priority);
        }
        i := i - 1;
      }
    }

    /** schedule(): the loop goes round at most twice. */
    method Run()
      requires Valid()
      modifies this, task
      ensures Valid() && View() == Schedule(old(View()))
    {
      ghost var s := View();
      SchedulePicks(s);
      var c, next := FindBest();
      while c == 0
        invariant c == Best(task[..]).0 && next == Best(task[..]).1
        invariant task[..] == s.tasks || (Best(s.tasks).0 == 0 && task[..] == Refill(s.tasks) && c > 0)
        decreases if c == 0 then 1 else 0
      {
        RefillSuffices(s);
        RefillAll();
        c, next := FindBest();
      }
      current := next;
    }

    /** do_timer: the time slice of the current task. */
    method DoTimer(cpl: nat)
      requires Valid()
      modifies this, task
      ensures Valid() && View() == Tick(old(View()), cpl != 0)
    {
      ghost var s := View();
      StepKeepsInv(s, if cpl != 0 then UserTick else KernelTick);
      if task[current].counter > 1 {
        task[current] := task[current].(counter := task[current].counter - 1);
      } else {
        task[current] := task[current].(counter := 0);
        assert task[..] == s.tasks[s.current := s.tasks[s.current].(counter := 0)];
        if cpl != 0 {
          Run();
        }
      }
    }
  }
}
