/** sleep_on and wake_up: the waiting tasks of a queue form a chain through the variables saved on their stacks. */
module WaitQueue {
  import opened Links

  /** A task is outside sleep_on, or inside it with its saved `tmp`; `asleep` is TASK_UNINTERRUPTIBLE.
      `since` numbers the calls of sleep_on. */
  datatype Task = Outside | Inside(tmp: int, asleep: bool, since: nat)

  datatype Waits = Waits(tasks: seq<Task>, queues: seq<int>, now: nat)

  datatype Event =
    | Sleep(t: nat, p: nat)   // task t calls sleep_on for queue p, up to schedule()
    | Resume(t: nat)          // schedule() returns in task t, which leaves sleep_on
    | WakeUp(p: nat)          // wake_up for queue p

  predicate IsInside(w: Waits, t: int) {
    0 <= t < |w.tasks| && w.tasks[t].Inside?
  }

  predicate Asleep(w: Waits, t: int) {
    IsInside(w, t) && w.tasks[t].asleep
  }

  /** Woken, but not run yet. */
  predicate Woken(w: Waits, t: int) {
    IsInside(w, t) && !w.tasks[t].asleep
  }

  /** Task 0 must not sleep. */
  predicate Enabled(w: Waits, e: Event) {
    match e
    case Sleep(t, p) => 0 < t < |w.tasks| && w.tasks[t].Outside? && p < |w.queues|
    case Resume(t) => Woken(w, t)
    case WakeUp(p) => p < |w.queues|
  }

  /** `t->state = 0`, when there is a task. */
  function MakeRunning(tasks: seq<Task>, t: int): (r: seq<Task>)
    ensures |r| == |tasks|
  {
    if 0 <= t < |tasks| && tasks[t].Inside? then tasks[t := tasks[t].(asleep := false)] else tasks
  }

  function Apply(w: Waits, e: Event): Waits
    requires Enabled(w, e)
  {
    match e
    case Sleep(t, p) =>
      Waits(w.tasks[t := Inside(w.queues[p], true, w.now)], w.queues[p := t], w.now + 1)
    case Resume(t) =>
      w.(tasks := MakeRunning(w.tasks, w.tasks[t].tmp)[t := Outside])
    case WakeUp(p) =>
      w.(tasks := MakeRunning(w.tasks, w.queues[p]), queues := w.queues[p := NULL])
  }

  // ----- Who refers to a sleeping task

  datatype Ref = Head(p: nat) | Saved(t: nat)

  /** The queue's head, or the `tmp` saved by a task that is still inside sleep_on. */
  predicate RefersTo(w: Waits, r: Ref, t: int) {
    match r
    case Head(p) => p < |w.queues| && w.queues[p] == t
    case Saved(u) => IsInside(w, u) && w.tasks[u].tmp == t
  }

  /** Whoever is referred to is asleep. */
  ghost predicate OnlySleepers(w: Waits) {
    forall r: Ref, t: int :: RefersTo(w, r, t) && t != NULL ==> Asleep(w, t)
  }

  ghost predicate AtMostOnce(w: Waits) {
    forall r: Ref, s: Ref, t: int :: RefersTo(w, r, t) && RefersTo(w, s, t) && t != NULL ==> r == s
  }

  ghost predicate Kept(w: Waits, t: int) {
    exists r: Ref :: RefersTo(w, r, t)
  }

  ghost predicate AtLeastOnce(w: Waits) {
    forall t: int :: Asleep(w, t) ==> Kept(w, t)
  }

  /** A saved `tmp` fell asleep before the task that saved it. */
  predicate Earlier(w: Waits, t: int)
    requires IsInside(w, t)
  {
    w.tasks[t].since < w.now && (IsInside(w, w.tasks[t].tmp) ==> w.tasks[w.tasks[t].tmp].since < w.tasks[t].since)
  }

  ghost predicate Ordered(w: Waits) {
    forall t: int :: IsInside(w, t) ==> Earlier(w, t)
  }

  /** No orphaned sleeper: each sleeping task is the head of one queue, or the saved `tmp` of one task still inside
      sleep_on, and nothing else is. */
  ghost predicate Inv(w: Waits) {
    OnlySleepers(w) && AtMostOnce(w) && AtLeastOnce(w) && Ordered(w)
  }

  lemma SleepKeepsInv(w: Waits, t: nat, p: nat)
    requires Inv(w) && Enabled(w, Sleep(t, p))
    ensures Inv(Apply(w, Sleep(t, p)))
  {
    var w' := Apply(w, Sleep(t, p));
    var was := w.queues[p];
    assert RefersTo(w, Head(p), was);
    assert forall r: Ref, u: int :: RefersTo(w', r, u) ==>
      if r == Head(p) then u == t else if r == Saved(t) then u == was else RefersTo(w, r, u);
    forall u: int | Asleep(w', u) ensures Kept(w', u) {
      if u == t {
        assert RefersTo(w', Head(p), u);
      } else {
        assert Asleep(w, u) && Kept(w, u);
        var r :| RefersTo(w, r, u);
        assert RefersTo(w', if r == Head(p) then Saved(t) else r, u);
      }
    }
    forall u: int | IsInside(w', u) ensures Earlier(w', u) {
      if u != t {
        assert Earlier(w, u);
        assert RefersTo(w, Saved(u), w.tasks[u].tmp);
      } else if was != NULL {
        assert Earlier(w, was);
      }
    }
  }

  lemma ResumeKeepsInv(w: Waits, t: nat)
    requires Inv(w) && Enabled(w, Resume(t))
    ensures Inv(Apply(w, Resume(t)))
  {
    var w', next := Apply(w, Resume(t)), w.tasks[t].tmp;
    assert RefersTo(w, Saved(t), next);
    assert forall r: Ref, u: int :: RefersTo(w', r, u) ==> r != Saved(t) && RefersTo(w, r, u);
    forall u: int | Asleep(w', u) ensures Kept(w', u) {
      assert Asleep(w, u) && Kept(w, u);
      var r :| RefersTo(w, r, u);
      assert RefersTo(w', r, u);
    }
    forall u: int | IsInside(w', u) ensures Earlier(w', u) {
      assert Earlier(w, u);
    }
  }

  lemma WakeUpKeepsInv(w: Waits, p: nat)
    requires Inv(w) && Enabled(w, WakeUp(p))
    ensures Inv(Apply(w, WakeUp(p)))
  {
    var w', head := Apply(w, WakeUp(p)), w.queues[p];
    assert RefersTo(w, Head(p), head);
    assert forall r: Ref, u: int :: RefersTo(w', r, u) && u != NULL ==> r != Head(p) && RefersTo(w, r, u);
    forall u: int | Asleep(w', u) ensures Kept(w', u) {
      assert Asleep(w, u) && Kept(w, u);
      var r :| RefersTo(w, r, u);
      assert RefersTo(w', r, u);
    }
    forall u: int | IsInside(w', u) ensures Earlier(w', u) {
      assert Earlier(w, u);
    }
  }

  /** Nobody sleeps yet. */
  lemma NobodyInv(w: Waits)
    requires (forall t :: 0 <= t < |w.tasks| ==> w.tasks[t].Outside?)
    requires forall p :: 0 <= p < |w.queues| ==> w.queues[p] == NULL
    ensures Inv(w)
  {
  }

  lemma StepKeepsInv(w: Waits, e: Event)
    requires Inv(w) && Enabled(w, e)
    ensures Inv(Apply(w, e))
  {
    match e
    case Sleep(t, p) => SleepKeepsInv(w, t, p);
    case Resume(t) => ResumeKeepsInv(w, t);
    case WakeUp(p) => WakeUpKeepsInv(w, p);
  }

  // ----- The chain of tasks behind a queue's head

  /** Task `t` and those it will wake in turn. */
  function Chain(w: Waits, t: int): seq<int>
    decreases if IsInside(w, t) then w.tasks[t].since + 1 else 0
  {
    if !IsInside(w, t) then []
    else
      var next := w.tasks[t].tmp;
      if IsInside(w, next) && w.tasks[next].since < w.tasks[t].since then [t] + Chain(w, next) else [t]
  }

  /** Task `t` waits on queue `p`. */
  predicate WaitsOn(w: Waits, p: nat, t: int) {
    p < |w.queues| && t in Chain(w, w.queues[p])
  }

  lemma {:induction false} ChainSleeps(w: Waits, h: int, t: int)
    requires Inv(w) && t in Chain(w, h)
    ensures IsInside(w, t) && (t != h || Asleep(w, h) ==> Asleep(w, t))
    decreases if IsInside(w, h) then w.tasks[h].since + 1 else 0
  {
    if t != h {
      var next := w.tasks[h].tmp;
      assert RefersTo(w, Saved(h), next);
      ChainSleeps(w, next, t);
    }
  }

  /** The chain depends only on what its own members saved. */
  lemma {:induction false} ChainFrame(w: Waits, w': Waits, h: int)
    requires Inv(w) && |w'.tasks| == |w.tasks|
    requires forall t: int :: t in Chain(w, h) ==> IsInside(w, t) && SameSleep(w, w', t)
    requires h == NULL || IsInside(w, h)
    ensures Chain(w', h) == Chain(w, h)
    decreases if IsInside(w, h) then w.tasks[h].since + 1 else 0
  {
    if h != NULL {
      var next := w.tasks[h].tmp;
      assert RefersTo(w, Saved(h), next) && Earlier(w, h);
      if next != NULL {
        assert next in Chain(w, next);
      }
      ChainFrame(w, w', next);
    }
  }

  /** Task `t` is in the same call of sleep_on. */
  predicate SameSleep(w: Waits, w': Waits, t: int)
    requires IsInside(w, t)
  {
    IsInside(w', t) && w'.tasks[t].tmp == w.tasks[t].tmp && w'.tasks[t].since == w.tasks[t].since
  }

  /** Queue `p`'s chain stays as it is when its head and its members do. */
  lemma QueueFrame(w: Waits, w': Waits, p: nat)
    requires Inv(w) && |w'.tasks| == |w.tasks| && p < |w.queues| == |w'.queues| && w'.queues[p] == w.queues[p]
    requires forall t: int :: Asleep(w, t) ==> SameSleep(w, w', t)
    ensures Chain(w', w'.queues[p]) == Chain(w, w.queues[p])
  {
    var h := w.queues[p];
    assert RefersTo(w, Head(p), h);
    forall t | t in Chain(w, h) ensures IsInside(w, t) && SameSleep(w, w', t) {
      ChainSleeps(w, h, t);
    }
    ChainFrame(w, w', h);
  }

  /** What an event does to the queues: sleep_on puts its caller in front of one, wake_up empties one. */
  lemma StepChains(w: Waits, e: Event, q: nat)
    requires Inv(w) && Enabled(w, e) && q < |w.queues|
    ensures |Apply(w, e).queues| == |w.queues|
    ensures Chain(Apply(w, e), Apply(w, e).queues[q]) ==
      if e.Sleep? && e.p == q then [e.t as int] + Chain(w, w.queues[q])
      else if e == WakeUp(q) then [] else Chain(w, w.queues[q])
  {
    var w' := Apply(w, e);
    if e.Sleep? && e.p == q {
      var h := w.queues[q];
      assert RefersTo(w, Head(q), h);
      forall t | t in Chain(w, h) ensures IsInside(w, t) && SameSleep(w, w', t) {
        ChainSleeps(w, h, t);
      }
      ChainFrame(w, w', h);
      assert h != NULL ==> Earlier(w, h);
    } else if e != WakeUp(q) {
      QueueFrame(w, w', q);
    }
  }

  /** The one before `t` in a chain is the one that refers to it. */
  lemma {:induction false} Predecessor(w: Waits, h: int, t: int) returns (u: int)
    requires Inv(w) && t in Chain(w, h) && t != h
    ensures u in Chain(w, h) && IsInside(w, u) && RefersTo(w, Saved(u), t)
    decreases if IsInside(w, h) then w.tasks[h].since + 1 else 0
  {
    var next := w.tasks[h].tmp;
    assert RefersTo(w, Saved(h), next);
    if t == next {
      u := h;
    } else {
      u := Predecessor(w, next, t);
    }
  }

  /** A queue's head is behind nobody. */
  lemma HeadsFollowNobody(w: Waits, p: nat, h: int)
    requires Inv(w) && p < |w.queues| && w.queues[p] in Chain(w, h)
    ensures h == w.queues[p]
  {
    var g := w.queues[p];
    assert RefersTo(w, Head(p), g);
    ChainSleeps(w, h, g);
    if g != h {
      var u := Predecessor(w, h, g);
    }
  }

  /** A task waits on one queue only. */
  lemma {:induction false} OneQueue(w: Waits, p: nat, q: nat, t: int)
    requires Inv(w) && WaitsOn(w, p, t) && WaitsOn(w, q, t)
    ensures p == q
    decreases w.now - (if IsInside(w, t) then w.tasks[t].since else w.now)
  {
    var g, h := w.queues[p], w.queues[q];
    assert RefersTo(w, Head(p), g) && RefersTo(w, Head(q), h);
    ChainSleeps(w, g, t);
    if t == g {
      HeadsFollowNobody(w, p, h);
    } else if t == h {
      HeadsFollowNobody(w, q, g);
    } else {
      var u := Predecessor(w, g, t);
      var v := Predecessor(w, h, t);
      assert Saved(u) == Saved(v);
      assert Earlier(w, u);
      OneQueue(w, p, q, u);
    }
  }

  /** Every sleeper is behind a queue's head or behind a woken task. */
  lemma {:induction false} EverySleeperHasALeader(w: Waits, t: int)
    requires Inv(w) && Asleep(w, t)
    ensures (exists p: nat :: WaitsOn(w, p, t)) || (exists r: int :: Woken(w, r) && t in Chain(w, r))
    decreases w.now - w.tasks[t].since
  {
    assert Kept(w, t) && Earlier(w, t);
    var r :| RefersTo(w, r, t);
    match r
    case Head(p) => assert WaitsOn(w, p, t);
    case Saved(u) =>
      assert Earlier(w, u) && t in Chain(w, t);
      assert t in Chain(w, u);
      if Asleep(w, u) {
        EverySleeperHasALeader(w, u);
        if p: nat :| WaitsOn(w, p, u) {
          ChainGoesOn(w, w.queues[p], u, t);
          assert WaitsOn(w, p, t);
        } else {
          var v: int :| Woken(w, v) && u in Chain(w, v);
          ChainGoesOn(w, v, u, t);
        }
      }
  }

  lemma {:induction false} ChainGoesOn(w: Waits, h: int, u: int, t: int)
    requires Inv(w) && u in Chain(w, h) && IsInside(w, u) && w.tasks[u].tmp == t && IsInside(w, t)
    ensures t in Chain(w, h)
    decreases if IsInside(w, h) then w.tasks[h].since + 1 else 0
  {
    assert Earlier(w, u);
    if u == h {
      assert t in Chain(w, t);
    } else {
      ChainGoesOn(w, w.tasks[h].tmp, u, t);
    }
  }

  // ----- Whole runs

  ghost predicate History(states: seq<Waits>, events: seq<Event>) {
    |states| == |events| + 1 &&
    forall i :: 0 <= i < |events| ==> Enabled(states[i], events[i]) && states[i + 1] == Apply(states[i], events[i])
  }

  lemma {:induction false} HistoryKeepsInv(states: seq<Waits>, events: seq<Event>, n: nat)
    requires History(states, events) && Inv(states[0]) && n <= |events|
    ensures Inv(states[n])
  {
    if n > 0 {
      HistoryKeepsInv(states, events, n - 1);
      assert states[n - 1 + 1] == Apply(states[n - 1], events[n - 1]);
      StepKeepsInv(states[n - 1], events[n - 1]);
    }
  }

  /** In no other way than by wake_up of its own queue does a task stop waiting there: no spurious wakeups. */
  lemma {:induction false} SleepsUntilWoken(states: seq<Waits>, events: seq<Event>, i: nat, n: nat, p: nat, t: int)
    requires History(states, events) && Inv(states[0]) && i <= n <= |events|
    requires WaitsOn(states[i], p, t) && forall j :: i <= j < n ==> events[j] != WakeUp(p)
    ensures WaitsOn(states[n], p, t) && Asleep(states[n], t)
    decreases n - i
  {
    HistoryKeepsInv(states, events, n);
    if i < n {
      SleepsUntilWoken(states, events, i, n - 1, p, t);
      HistoryKeepsInv(states, events, n - 1);
      assert states[n - 1 + 1] == Apply(states[n - 1], events[n - 1]);
      StepChains(states[n - 1], events[n - 1], p);
    }
    assert RefersTo(states[n], Head(p), states[n].queues[p]);
    ChainSleeps(states[n], states[n].queues[p], t);
  }

  /** Task `t` is in the call of sleep_on number `s`, and waits on no queue any more. */
  ghost predicate Detached(w: Waits, t: int, s: nat) {
    forall p: nat :: IsInside(w, t) && w.tasks[t].since == s ==> !WaitsOn(w, p, t)
  }

  lemma WakeUpDetaches(w: Waits, p: nat, t: int)
    requires Inv(w) && WaitsOn(w, p, t)
    ensures IsInside(w, t) && Detached(Apply(w, WakeUp(p)), t, w.tasks[t].since)
  {
    ChainSleeps(w, w.queues[p], t);
    forall q: nat ensures !WaitsOn(Apply(w, WakeUp(p)), q, t) {
      if q < |w.queues| {
        StepChains(w, WakeUp(p), q);
        if q != p && WaitsOn(w, q, t) {
          OneQueue(w, p, q, t);
        }
      }
    }
  }

  lemma DetachedStays(w: Waits, e: Event, t: int, s: nat)
    requires Inv(w) && Enabled(w, e) && s < w.now && Detached(w, t, s)
    ensures Detached(Apply(w, e), t, s)
  {
    var w' := Apply(w, e);
    forall p: nat | IsInside(w', t) && w'.tasks[t].since == s ensures !WaitsOn(w', p, t) {
      assert IsInside(w, t) && w.tasks[t].since == s;
      if p < |w.queues| {
        assert !WaitsOn(w, p, t);
        StepChains(w, e, p);
      }
    }
  }

  lemma {:induction false} DetachedForGood(states: seq<Waits>, events: seq<Event>, i: nat, n: nat, t: int, s: nat)
    requires History(states, events) && Inv(states[0]) && i <= n <= |events|
    requires s < states[i].now && Detached(states[i], t, s)
    ensures s < states[n].now && Detached(states[n], t, s)
    decreases n - i
  {
    if i < n {
      DetachedForGood(states, events, i, n - 1, t, s);
      HistoryKeepsInv(states, events, n - 1);
      assert states[n - 1 + 1] == Apply(states[n - 1], events[n - 1]);
      DetachedStays(states[n - 1], events[n - 1], t, s);
    }
  }

  /** Main result: after wake_up of queue `p`, whatever else sleeps and wakes in between, as soon as every woken task
      has had its turn, everyone who was waiting on `p` at that moment has left that call of sleep_on. */
  lemma WakeUpReachesEveryone(states: seq<Waits>, events: seq<Event>, i: nat, n: nat, p: nat, t: int)
    requires History(states, events) && Inv(states[0]) && i < n <= |events|
    requires events[i] == WakeUp(p) && WaitsOn(states[i], p, t)
    requires forall u: int :: !Woken(states[n], u)
    ensures IsInside(states[i], t)
    ensures !(IsInside(states[n], t) && states[n].tasks[t].since == states[i].tasks[t].since)
  {
    var w, w' := states[i], states[n];
    HistoryKeepsInv(states, events, i);
    HistoryKeepsInv(states, events, n);
    assert states[i + 1] == Apply(w, events[i]);
    WakeUpDetaches(w, p, t);
    assert Earlier(w, t);
    DetachedForGood(states, events, i + 1, n, t, w.tasks[t].since);
    assert !Woken(w', t);
    if IsInside(w', t) && w'.tasks[t].since == w.tasks[t].since {
      EverySleeperHasALeader(w', t);
    }
  }

  // ----- One wake_up followed by its woken tasks, each in turn

  lemma ResumeKeepsOrdered(w: Waits, t: nat)
    requires Ordered(w) && Enabled(w, Resume(t))
    ensures Ordered(Apply(w, Resume(t)))
  {
    forall u: int | IsInside(Apply(w, Resume(t)), u) ensures Earlier(Apply(w, Resume(t)), u) {
      assert Earlier(w, u);
    }
  }

  /** Run task `t`, then the one it wakes, and so on. */
  function Drain(w: Waits, t: int): Waits
    requires Ordered(w)
    decreases if IsInside(w, t) then w.tasks[t].since + 1 else 0
  {
    if !Woken(w, t) then w
    else
      assert Earlier(w, t);
      ResumeKeepsOrdered(w, t);
      Drain(Apply(w, Resume(t)), w.tasks[t].tmp)
  }

  /** Running a woken task and those behind it lets all of them out and touches nobody else. */
  lemma {:induction false} DrainFreesTheChain(w: Waits, t: int)
    requires Inv(w) && (t == NULL || Woken(w, t))
    ensures var w' := Drain(w, t);
      Inv(w') && w'.queues == w.queues && |w'.tasks| == |w.tasks| &&
      forall u: nat :: u < |w.tasks| ==> w'.tasks[u] == if u in Chain(w, t) then Outside else w.tasks[u]
    decreases if IsInside(w, t) then w.tasks[t].since + 1 else 0
  {
    if t != NULL {
      var w1, next := Apply(w, Resume(t)), w.tasks[t].tmp;
      assert Earlier(w, t) && RefersTo(w, Saved(t), next);
      ResumeKeepsInv(w, t);
      DrainFreesTheChain(w1, next);
      RestOfChain(w, t);
    }
  }

  /** The rest of a woken task's chain is not disturbed by its leaving. */
  lemma RestOfChain(w: Waits, t: int)
    requires Inv(w) && Woken(w, t)
    ensures var next := w.tasks[t].tmp;
      Chain(w, t) == [t] + Chain(w, next) && Chain(Apply(w, Resume(t)), next) == Chain(w, next) && t !in Chain(w, next)
  {
    var w1, next := Apply(w, Resume(t)), w.tasks[t].tmp;
    assert Earlier(w, t) && RefersTo(w, Saved(t), next);
    forall u | u in Chain(w, next) ensures Asleep(w, u) && SameSleep(w, w1, u) {
      ChainSleeps(w, next, u);
    }
    ChainFrame(w, w1, next);
  }

  /** wake_up, and then each woken task once: exactly those who waited on the queue are out of sleep_on. */
  lemma WakeUpThenDrain(w: Waits, p: nat)
    requires Inv(w) && p < |w.queues|
    ensures Inv(Apply(w, WakeUp(p)))
    ensures var w' := Drain(Apply(w, WakeUp(p)), w.queues[p]);
      w'.queues == w.queues[p := NULL] && |w'.tasks| == |w.tasks| &&
      forall u: nat :: u < |w.tasks| ==> w'.tasks[u] == if WaitsOn(w, p, u) then Outside else w.tasks[u]
  {
    var w1, h := Apply(w, WakeUp(p)), w.queues[p];
    WakeUpKeepsInv(w, p);
    assert RefersTo(w, Head(p), h);
    forall u | u in Chain(w, h) ensures IsInside(w, u) && SameSleep(w, w1, u) {
      ChainSleeps(w, h, u);
    }
    ChainFrame(w, w1, h);
    DrainFreesTheChain(w1, h);
    assert h != NULL ==> h in Chain(w, h);
  }

  // ----- The code

  const RUNNING := 0
  const UNINTERRUPTIBLE := 2

  /** Tasks' states, and the variables sleep_on keeps on their kernel stacks. */
  class Kernel {
    const state: array<int>
    const saved: array<int>          // tmp, while the task is inside sleep_on
    const queues: array<int>
    ghost var calls: seq<int>        // since, or -1 outside sleep_on
    ghost var now: nat

    ghost predicate Valid()
      reads this, state, saved, queues
    {
      state.Length == saved.Length == |calls| && state != saved && state != queues && saved != queues &&
      (forall p :: 0 <= p < queues.Length ==> -1 <= queues[p] < state.Length) &&
      (forall t :: 0 <= t < state.Length && calls[t] >= 0 ==> -1 <= saved[t] < state.Length)
    }

    ghost function TaskOf(t: nat): Task
      requires t < state.Length == saved.Length == |calls|
      reads this, state, saved
    {
      if calls[t] < 0 then Outside else Inside(saved[t], state[t] != RUNNING, calls[t])
    }

    ghost function View(): Waits
      requires Valid()
      reads this, state, saved, queues
    {
      Waits(seq(state.Length, t requires 0 <= t < state.Length == saved.Length == |calls|
                                reads this, state, saved => TaskOf(t)), queues[..], now)
    }

    /** No task is inside sleep_on, and all queues are empty. */
    constructor (tasks: nat, n: nat)
      ensures Valid() && Inv(View()) && |View().tasks| == tasks && View().queues == seq(n, _ => NULL)
    {
      state := new int[tasks](_ => RUNNING);
      saved := new int[tasks](_ => NULL);
      queues := new int[n](_ => NULL);
      calls, now := seq(tasks, _ => -1), 0;
      new;
      NobodyInv(View());
    }

    /** sleep_on up to schedule(): `current` is the caller. */
    method SleepOn(current: nat, p: nat)
      requires Valid() && current < state.Length && p < queues.Length && Enabled(View(), Sleep(current, p))
      modifies this`now, this`calls, state, saved, queues
      ensures Valid() && View() == Apply(old(View()), Sleep(current, p))
    {
      var tmp := queues[p];
      saved[current] := tmp;
      queues[p] := current;
      state[current] := UNINTERRUPTIBLE;
      calls := calls[current := now];
      now := now + 1;
    }

    /** sleep_on after schedule() has returned. */
    method SleptOn(current: nat)
      requires Valid() && current < state.Length && Inv(View()) && Enabled(View(), Resume(current))
      modifies this`calls, state
      ensures Valid() && View() == Apply(old(View()), Resume(current))
    {
      ghost var w := View();
      assert RefersTo(w, Saved(current), w.tasks[current].tmp);
      var tmp := saved[current];
      if tmp != NULL {
        state[tmp] := RUNNING;
      }
      calls := calls[current := -1];
    }

    /** wake_up */
    method WakeUpQueue(p: nat)
      requires Valid() && p < queues.Length && Inv(View())
      modifies state, queues
      ensures Valid() && View() == Apply(old(View()), WakeUp(p))
    {
      assert RefersTo(View(), Head(p), queues[p]);
      if queues[p] != NULL {
        state[queues[p]] := RUNNING;
        queues[p] := NULL;
      }
    }
  }
}
