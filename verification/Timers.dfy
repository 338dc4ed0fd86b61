/** The kernel's timer list: each entry counts from the one before it. */
module Timers {

  const TIME_REQUESTS := 64

  /** `due` is the tick the caller asked for. */
  datatype Timer = Timer(delta: int, fn: nat, due: int)

  datatype Clock = Clock(list: seq<Timer>, now: int)

  /** Where add_timer's exchange loop leaves a timer of `j` ticks. */
  function Insert(list: seq<Timer>, t: Timer): (r: seq<Timer>)
    ensures |r| == |list| + 1
  {
    if list == [] || list[0].delta >= t.delta then [t] + list
    else [list[0]] + Insert(list[1..], t.(delta := t.delta - list[0].delta))
  }

  function Place(list: seq<Timer>, j: int): (k: nat)
    ensures k <= |list|
  {
    if list == [] || list[0].delta >= j then 0 else 1 + Place(list[1..], j - list[0].delta)
  }

  /** The deltas of the first `n` entries, added up. */
  function Until(list: seq<Timer>, n: nat): int
    requires n <= |list|
  {
    if n == 0 then 0 else Until(list, n - 1) + list[n - 1].delta
  }

  /** How many ticks are left for entry `i`. */
  function Remaining(list: seq<Timer>, i: nat): int
    requires i < |list|
  {
    Until(list, i + 1)
  }

  ghost predicate Positive(list: seq<Timer>) {
    forall i :: 0 <= i < |list| ==> list[i].delta > 0
  }

  lemma {:induction false} UntilTail(list: seq<Timer>, n: nat)
    requires 0 < n <= |list|
    ensures Until(list, n) == list[0].delta + Until(list[1..], n - 1)
  {
    if n > 1 {
      UntilTail(list, n - 1);
      assert list[1..][n - 2] == list[n - 1];
    }
  }

  lemma {:induction false} UntilPrefix(a: seq<Timer>, b: seq<Timer>, n: nat)
    requires n <= |a| && n <= |b| && a[..n] == b[..n]
    ensures Until(a, n) == Until(b, n)
  {
    if n > 0 {
      assert a[n - 1] == a[..n][n - 1] && b[n - 1] == b[..n][n - 1];
      assert a[..n - 1] == a[..n][..n - 1] && b[..n - 1] == b[..n][..n - 1];
      UntilPrefix(a, b, n - 1);
    }
  }

  /** The new timer goes in at its place, and counts what is left after those before it. */
  lemma {:induction false} InsertAtPlace(list: seq<Timer>, t: Timer)
    ensures var k := Place(list, t.delta);
      Insert(list, t) == list[..k] + [t.(delta := t.delta - Until(list, k))] + list[k..] &&
      (t.delta > 0 ==> t.delta - Until(list, k) > 0)
  {
    var k := Place(list, t.delta);
    if k > 0 {
      InsertAtPlace(list[1..], t.(delta := t.delta - list[0].delta));
      UntilTail(list, k);
    }
  }

  /** Entries behind the new one count from it, and nobody shortens what they count. */
  lemma {:induction false} UntilShifted(list: seq<Timer>, k: nat, x: Timer, n: nat)
    requires k <= n <= |list|
    ensures Until(list[..k] + [x] + list[k..], n + 1) == Until(list, n) + x.delta
    decreases n
  {
    var r := list[..k] + [x] + list[k..];
    if n == k {
      UntilPrefix(r, list, k);
    } else {
      UntilShifted(list, k, x, n - 1);
    }
  }

  /** Putting `x` in at `k`: entries before it keep their time, those behind it are put off by what it counts. */
  lemma SpliceRemaining(list: seq<Timer>, k: nat, x: Timer)
    requires k <= |list|
    ensures var r := list[..k] + [x] + list[k..];
      Remaining(r, k) == Until(list, k) + x.delta &&
      (forall i: nat :: i < k ==> Remaining(r, i) == Remaining(list, i)) &&
      (forall i: nat :: k <= i < |list| ==> Remaining(r, i + 1) == Remaining(list, i) + x.delta)
  {
    var r := list[..k] + [x] + list[k..];
    UntilShifted(list, k, x, k);
    forall i: nat | i < k ensures Remaining(r, i) == Remaining(list, i) {
      UntilPrefix(r, list, i + 1);
    }
    forall i: nat | k <= i < |list| ensures Remaining(r, i + 1) == Remaining(list, i) + x.delta {
      UntilShifted(list, k, x, i + 1);
    }
  }

  /** The new timer gets exactly the ticks it asked for; those before it keep theirs; those behind it are put off by
      what the new one still counts. */
  lemma InsertRemaining(list: seq<Timer>, t: Timer)
    ensures var k, r := Place(list, t.delta), Insert(list, t);
      Remaining(r, k) == t.delta &&
      (forall i: nat :: i < k ==> Remaining(r, i) == Remaining(list, i)) &&
      (forall i: nat :: k <= i < |list| ==> Remaining(r, i + 1) == Remaining(list, i) + t.delta - Until(list, k))
  {
    var k := Place(list, t.delta);
    InsertAtPlace(list, t);
    SpliceRemaining(list, k, t.(delta := t.delta - Until(list, k)));
  }

  datatype Event = Add(j: int, fn: nat) | Tick

  predicate Enabled(c: Clock, e: Event) {
    e.Add? && e.j > 0 ==> |c.list| < TIME_REQUESTS
  }

  /** do_timer's loop: fire from the front while nothing is left to count. */
  function Pop(list: seq<Timer>): (r: seq<Timer>)
    ensures |r| <= |list|
  {
    if list != [] && list[0].delta <= 0 then Pop(list[1..]) else list
  }

  function CountDown(list: seq<Timer>): seq<Timer> {
    if list == [] then [] else list[0 := list[0].(delta := list[0].delta - 1)]
  }

  /** A timer of no ticks is called at once and never listed. */
  function Apply(c: Clock, e: Event): Clock {
    match e
    case Add(j, fn) => if j <= 0 then c else c.(list := Insert(c.list, Timer(j, fn, c.now + j)))
    case Tick => Clock(Pop(CountDown(c.list)), c.now + 1)
  }

  /** What an event fires, in order. */
  function Fired(c: Clock, e: Event): seq<Timer> {
    match e
    case Add(j, fn) => if j <= 0 then [Timer(j, fn, c.now + j)] else []
    case Tick => var l := CountDown(c.list); l[..|l| - |Pop(l)|]
  }

  /** By how much an entry will be late. */
  function Lateness(c: Clock, i: nat): int
    requires i < |c.list|
  {
    c.now + Remaining(c.list, i) - c.list[i].due
  }

  /** All deltas are positive, and nobody will be early. */
  ghost predicate Inv(c: Clock) {
    Positive(c.list) && forall i: nat :: i < |c.list| ==> Lateness(c, i) >= 0
  }

  /** No timers yet. */
  lemma EmptyListInv(now: int)
    ensures Inv(Clock([], now))
  {
  }

  /** The new entry calls the function given, at the tick asked for; every other entry calls what it did, when it was
      to. A timer of no ticks is not listed, but called at once. */
  lemma Added(c: Clock, j: int, fn: nat)
    ensures var c', k := Apply(c, Add(j, fn)), Place(c.list, j);
      if j <= 0 then c' == c && Fired(c, Add(j, fn)) == [Timer(j, fn, c.now + j)]
      else
        Fired(c, Add(j, fn)) == [] && c'.now == c.now && |c'.list| == |c.list| + 1 &&
        c'.list[k].fn == fn && c'.list[k].due == c.now + j &&
        (forall i :: 0 <= i < k ==> c'.list[i] == c.list[i]) &&
        (forall i :: k < i < |c'.list| ==> c'.list[i] == c.list[i - 1])
  {
    InsertAtPlace(c.list, Timer(j, fn, c.now + j));
  }

  /** The place is the first whose entry has at least as many ticks left, so that nobody has to wait for a later one. */
  lemma {:induction false} PlacedInOrder(list: seq<Timer>, j: int)
    requires Positive(list)
    ensures forall i: nat :: i < Place(list, j) ==> Remaining(list, i) < j
    ensures forall i: nat :: Place(list, j) <= i < |list| ==> j <= Remaining(list, i)
    decreases |list|
  {
    var k := Place(list, j);
    if list != [] && list[0].delta < j {
      PlacedInOrder(list[1..], j - list[0].delta);
      forall i: nat | 0 < i < |list| ensures Remaining(list, i) == list[0].delta + Remaining(list[1..], i - 1) {
        UntilTail(list, i + 1);
      }
      assert Remaining(list, 0) == Until(list, 0) + list[0].delta;
    } else {
      forall i: nat | i < |list| ensures j <= Remaining(list, i) {
        UntilTail(list, i + 1);
        UntilPositive(list[1..], i);
      }
    }
  }

  lemma AddKeepsInv(c: Clock, j: int, fn: nat)
    requires Inv(c)
    ensures Inv(Apply(c, Add(j, fn)))
    ensures j > 0 ==>
      var c', k := Apply(c, Add(j, fn)), Place(c.list, j);
      Lateness(c', k) == 0 &&
      (forall i: nat :: i < k ==> Lateness(c', i) == Lateness(c, i)) &&
      (forall i: nat :: k <= i < |c.list| ==> Lateness(c', i + 1) == Lateness(c, i) + c'.list[k].delta)
  {
    if j > 0 {
      var t, c', k := Timer(j, fn, c.now + j), Apply(c, Add(j, fn)), Place(c.list, j);
      InsertAtPlace(c.list, t);
      InsertRemaining(c.list, t);
      forall i: nat | i < |c'.list| ensures Lateness(c', i) >= 0 {
        if i > k {
          assert Lateness(c', i - 1 + 1) == Lateness(c, i - 1) + c'.list[k].delta;
        } else if i < k {
          assert Lateness(c', i) == Lateness(c, i);
        }
      }
    }
  }

  /** A tick brings every entry one tick nearer, and fires the first one when its count is up -- never two. */
  lemma TickKeepsInv(c: Clock)
    requires Inv(c)
    ensures Inv(Apply(c, Tick))
    ensures var c' := Apply(c, Tick);
      if c.list == [] || c.list[0].delta > 1 then
        |c'.list| == |c.list| && Fired(c, Tick) == [] &&
        forall i: nat :: i < |c.list| ==> c'.list[i].fn == c.list[i].fn && Lateness(c', i) == Lateness(c, i)
      else
        c'.list == c.list[1..] && Fired(c, Tick) == [c.list[0].(delta := 0)] &&
        c'.now == c.list[0].due + Lateness(c, 0) &&
        forall i: nat :: i < |c'.list| ==> Lateness(c', i) == Lateness(c, i + 1)
  {
    var c' := Apply(c, Tick);
    if c.list != [] {
      var down := CountDown(c.list);
      if c.list[0].delta == 1 {
        assert down[1..] == c.list[1..];
        assert Pop(down) == Pop(down[1..]);
        assert c.list[1..] != [] ==> c.list[1..][0] == c.list[1];
        forall i: nat | i < |c'.list| ensures Lateness(c', i) == Lateness(c, i + 1) {
          UntilTail(c.list, i + 2);
        }
        assert down[..1] == [c.list[0].(delta := 0)];
        assert Until(c.list, 1) == c.list[0].delta;
      } else {
        forall i: nat | i < |c.list| ensures Lateness(c', i) == Lateness(c, i) {
          UntilTail(c.list, i + 1);
          UntilTail(down, i + 1);
          assert down[1..] == c.list[1..];
        }
      }
    }
  }

  lemma StepKeepsInv(c: Clock, e: Event)
    requires Inv(c)
    ensures Inv(Apply(c, e))
  {
    match e
    case Add(j, fn) => AddKeepsInv(c, j, fn);
    case Tick => TickKeepsInv(c);
  }

  ghost predicate History(states: seq<Clock>, events: seq<Event>) {
    |states| == |events| + 1 &&
    forall i :: 0 <= i < |events| ==> Enabled(states[i], events[i]) && states[i + 1] == Apply(states[i], events[i])
  }

  lemma {:induction false} HistoryKeepsInv(states: seq<Clock>, events: seq<Event>, n: nat)
    requires History(states, events) && Inv(states[0]) && n <= |events|
    ensures Inv(states[n])
  {
    if n > 0 {
      HistoryKeepsInv(states, events, n - 1);
      assert states[n - 1 + 1] == Apply(states[n - 1], events[n - 1]);
      StepKeepsInv(states[n - 1], events[n - 1]);
    }
  }

  /** Main result: over any run of ticks and add_timer calls, no timer is ever called before it is due. */
  lemma NeverEarly(states: seq<Clock>, events: seq<Event>, n: nat, i: nat)
    requires History(states, events) && Inv(states[0]) && n < |events|
    requires i < |Fired(states[n], events[n])|
    ensures states[n + 1].now >= Fired(states[n], events[n])[i].due
  {
    HistoryKeepsInv(states, events, n);
    assert states[n + 1] == Apply(states[n], events[n]);
    if events[n].Tick? {
      TickKeepsInv(states[n]);
      if states[n].list != [] {
        assert Lateness(states[n], 0) >= 0;
      }
    }
  }

  function Ticks(c: Clock, n: nat): Clock
    decreases n
  {
    if n == 0 then c else Ticks(Apply(c, Tick), n - 1)
  }

  /** Left alone, entry `i` fires with the last of the ticks it has left: not one tick sooner or later. */
  lemma {:induction false} FiresOnTime(c: Clock, i: nat)
    requires Inv(c) && i < |c.list|
    ensures Remaining(c.list, i) > 0
    ensures Ticks(c, Remaining(c.list, i)) == Clock(c.list[i + 1..], c.now + Remaining(c.list, i))
    ensures var c' := Ticks(c, Remaining(c.list, i) - 1); c'.list != [] && c'.list[0] == c.list[i].(delta := 1)
    decreases Until(c.list, i + 1)
  {
    UntilPositive(c.list, i + 1);
    UntilTail(c.list, i + 1);
    TickKeepsInv(c);
    var c1 := Apply(c, Tick);
    if c.list[0].delta > 1 {
      assert c1.list == CountDown(c.list) && c1.list[1..] == c.list[1..] && c1.list[i + 1..] == c.list[i + 1..];
      UntilTail(c1.list, i + 1);
      FiresOnTime(c1, i);
      UntilPositive(c.list[1..], i);
    } else if i > 0 {
      assert c1.list[i..] == c.list[i + 1..];
      FiresOnTime(c1, i - 1);
    }
  }

  lemma {:induction false} UntilPositive(list: seq<Timer>, n: nat)
    requires Positive(list) && n <= |list|
    ensures Until(list, n) >= n
  {
    if n > 0 {
      UntilPositive(list, n - 1);
    }
  }

  /** A later, longer timer is put off by a shorter one: 10 ticks become 15 when 5 are added in between. */
  lemma ShorterTimersDelayLongerOnes(now: int, a: nat, b: nat)
    ensures var c := Apply(Apply(Clock([], now), Add(10, a)), Add(5, b)); |c.list| == 2 && Lateness(c, 1) == 5
  {
    var one := Timer(10, a, now + 10);
    var c := Apply(Clock([], now), Add(10, a));
    assert c.list == [one];
    var two := Timer(5, b, now + 5);
    assert Apply(c, Add(5, b)).list == [two, one];
    assert Until([two, one], 2) == Until([two, one], 1) + 10;
    assert Until([two, one], 1) == Until([two, one], 0) + 5;
  }

  // ----- The code

  /** add_timer's exchange loop has carried the new timer `t` to index `p`. */
  ghost predicate Carried(was: seq<Timer>, t: Timer, list: seq<Timer>, p: nat) {
    p < |list| == |was| + 1 && list == was[..p] + [list[p]] + was[p..] &&
    Insert(was, t) == was[..p] + Insert(was[p..], list[p])
  }

  lemma CarryStart(was: seq<Timer>, t: Timer)
    ensures Carried(was, t, [t] + was, 0)
  {
    assert was[..0] == [] && was[0..] == was;
  }

  /** One exchange: the next timer moves forward, and the new one counts from it. */
  function Exchange(list: seq<Timer>, p: nat): seq<Timer>
    requires p + 1 < |list|
  {
    list[p := list[p + 1]][p + 1 := list[p].(delta := list[p].delta - list[p + 1].delta)]
  }

  lemma CarryOn(was: seq<Timer>, t: Timer, list: seq<Timer>, p: nat)
    requires Carried(was, t, list, p) && p + 1 < |list|
    requires list[p + 1].delta < list[p].delta
    ensures Carried(was, t, Exchange(list, p), p + 1)
  {
    var mine := list[p].(delta := list[p].delta - list[p + 1].delta);
    var rest := was[p..];
    assert rest[0] == list[p + 1] == was[p] && rest[1..] == was[p + 1..];
    assert Insert(rest, list[p]) == [rest[0]] + Insert(rest[1..], mine);
    assert was[..p + 1] == was[..p] + [was[p]];
  }

  lemma CarriedHome(was: seq<Timer>, t: Timer, list: seq<Timer>, p: nat)
    requires Carried(was, t, list, p)
    requires p + 1 == |list| || list[p + 1].delta >= list[p].delta
    ensures list == Insert(was, t)
  {
    assert was[p..] != [] ==> was[p..][0] == list[p + 1];
  }

  class Queue {
    var list: seq<Timer>       // next_timer and those linked behind it
    var now: int               // jiffies

    ghost function View(): Clock
      reads this
    {
      Clock(list, now)
    }

    constructor ()
      ensures View() == Clock([], 0) && Inv(View())
    {
      list, now := [], 0;
    }

    /** add_timer: put the timer in front, then exchange it with the next one while that one is sooner. */
    method AddTimer(j: int, fn: nat) returns (called: bool)
      requires Enabled(View(), Add(j, fn))
      modifies this
      ensures View() == Apply(old(View()), Add(j, fn))
      ensures called <==> j <= 0
    {
      called := j <= 0;
      if j > 0 {
        ghost var was, t := list, Timer(j, fn, now + j);
        CarryStart(was, t);
        list := [Timer(j, fn, now + j)] + list;
        var p := 0;
        while p + 1 < |list| && list[p + 1].delta < list[p].delta
          invariant 0 <= p && Carried(was, t, list, p) && now == old(now)
          decreases |list| - p
        {
          CarryOn(was, t, list, p);
          var mine := list[p].(delta := list[p].delta - list[p + 1].delta);
          list := list[p := list[p + 1]][p + 1 := mine];
          p := p + 1;
        }
        CarriedHome(was, t, list, p);
      }
    }

    /** The timer part of do_timer. */
    method DoTimer() returns (fired: seq<Timer>)
      modifies this
      ensures View() == Apply(old(View()), Tick)
      ensures fired + list == CountDown(old(list))
    {
      fired := [];
      now := now + 1;
      if list != [] {
        list := list[0 := list[0].(delta := list[0].delta - 1)];
        while list != [] && list[0].delta <= 0
          invariant Pop(list) == Pop(CountDown(old(list)))
          invariant fired + list == CountDown(old(list)) && now == old(now) + 1
          decreases |list|
        {
          fired := fired + [list[0]];
          list := list[1..];
        }
      }
    }
  }
}
