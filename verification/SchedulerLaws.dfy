/** What each event does to the tasks, and for how long a task runs or stays off the processor. */
module SchedulerLaws {
  import opened Scheduler

  /** A refill halves what is left, rounded down, and adds the priority; slot 0 and empty slots are left alone. */
  lemma RefillKeepsHalf(s: Sched, i: nat)
    requires Sane(s) && Starved(s.tasks) && i < NR_TASKS
    ensures var t, t' := s.tasks[i], Schedule(s).tasks[i];
      t'.present == t.present && t'.runnable == t.runnable && t'.priority == t.priority &&
      (if i > 0 && t.present then 2 * (t'.counter - t.priority) <= t.counter <= 2 * (t'.counter - t.priority) + 1
       else t' == t)
  {
    SchedulePicks(s);
  }

  /** A call of schedule() with somebody ready who has time left changes no task. */
  lemma NoRefill(s: Sched)
    requires Sane(s) && !Starved(s.tasks)
    ensures Schedule(s).tasks == s.tasks
  {
    SchedulePicks(s);
  }

  function Ticked(s: Sched, n: nat): Sched
    requires |s.tasks| == NR_TASKS && s.current < NR_TASKS && n < s.tasks[s.current].counter
  {
    s.(tasks := s.tasks[s.current := s.tasks[s.current].(counter := s.tasks[s.current].counter - n)])
  }

  /** A task picked with `n` ticks runs through the first `n - 1` of them, out of user mode or not, and only its own
      counter falls, one at a time. */
  lemma SliceLasts(s: Sched, n: nat, user: bool)
    requires |s.tasks| == NR_TASKS && s.current < NR_TASKS && n + 1 < s.tasks[s.current].counter
    ensures Apply(Ticked(s, n), if user then UserTick else KernelTick) == Ticked(s, n + 1)
  {
  }

  /** The last tick takes its time away; out of user mode another choice is made at once, otherwise it runs on. */
  lemma SliceEnds(s: Sched)
    requires |s.tasks| == NR_TASKS && s.current < NR_TASKS && s.tasks[s.current].counter <= 1
    ensures var spent := s.(tasks := s.tasks[s.current := s.tasks[s.current].(counter := 0)]);
      Apply(s, UserTick) == Schedule(spent) && Apply(s, KernelTick) == spent
  {
  }

  /** A task that blocks is not run until it is woken: not by its own call of schedule(), nor by any event after it. */
  lemma BlockedIsOff(s: Sched)
    requires Inv(s) && s.current > 0
    ensures var s' := Apply(s, Block); !s'.tasks[s.current].runnable && s'.current != s.current
  {
    SchedulePicks(SetTask(s, s.current, s.tasks[s.current].(runnable := false)));
  }

  lemma {:induction false} StaysOff(states: seq<Sched>, events: seq<Event>, n: nat, t: nat)
    requires History(states, events) && Inv(states[0]) && n <= |events| && 0 < t < NR_TASKS
    requires !states[0].tasks[t].runnable && states[0].current != t
    requires forall k :: 0 <= k < n ==> events[k] != Wake(t) && events[k] != Fork(t)
    ensures Inv(states[n]) && !states[n].tasks[t].runnable && states[n].current != t
  {
    HistoryKeepsInv(states, events, n);
    if n > 0 {
      StaysOff(states, events, n - 1, t);
      assert Step(states[n - 1], events[n - 1], states[n - 1 + 1]);
      StepStaysOff(states[n - 1], events[n - 1], t);
    }
  }

  lemma StepStaysOff(s: Sched, e: Event, t: nat)
    requires Inv(s) && Enabled(s, e) && 0 < t < NR_TASKS && !s.tasks[t].runnable && s.current != t
    requires e != Wake(t) && e != Fork(t)
    ensures Inv(Apply(s, e)) && !Apply(s, e).tasks[t].runnable && Apply(s, e).current != t
  {
    StepKeepsInv(s, e);
    match e
    case UserTick => SchedulePicks(SetTask(s, s.current, s.tasks[s.current].(counter := 0)));
    case Reschedule => SchedulePicks(s);
    case Block => SchedulePicks(SetTask(s, s.current, s.tasks[s.current].(runnable := false)));
    case _ =>
  }

  /** Waking makes that task runnable, and changes nothing else. */
  lemma Woken(s: Sched, t: nat)
    requires |s.tasks| == NR_TASKS && s.current < NR_TASKS && Enabled(s, Wake(t))
    ensures Apply(s, Wake(t)) == s.(tasks := s.tasks[t := s.tasks[t].(runnable := true)])
  {
  }

  /** A child starts with its parent's priority, and with a full slice of it, whatever its parent has left. */
  lemma Forked(s: Sched, slot: nat)
    requires |s.tasks| == NR_TASKS && s.current < NR_TASKS && Enabled(s, Fork(slot))
    ensures var p := s.tasks[s.current].priority;
      Apply(s, Fork(slot)) == s.(tasks := s.tasks[slot := Task(true, true, p, p)])
  {
  }

  /** nice takes its increment off the priority, unless nothing would be left of it. */
  lemma Niced(s: Sched, n: int)
    requires |s.tasks| == NR_TASKS && s.current < NR_TASKS
    ensures var t, t' := s.tasks[s.current], Apply(s, Nice(n)).tasks[s.current];
      Apply(s, Nice(n)) == s.(tasks := s.tasks[s.current := t']) &&
      t' == t.(priority := t'.priority) && t'.priority == if n < t.priority then t.priority - n else t.priority
  {
  }

  /** A task that slept through refills has more time than one of its priority that used all its own up. */
  lemma SleepersGainTime(s: Sched, t: nat, u: nat)
    requires Sane(s) && Starved(s.tasks) && 0 < t < NR_TASKS && 0 < u < NR_TASKS
    requires s.tasks[t].present && s.tasks[u].present && s.tasks[t].priority == s.tasks[u].priority
    requires s.tasks[t].counter >= 2 && s.tasks[u].counter == 0
    ensures Schedule(s).tasks[t].counter > Schedule(s).tasks[u].counter
  {
    SchedulePicks(s);
  }
}
