/** Pipes: a ring of one page between blocking readers and writers. */
module Pipe {
  import opened Links
  import W = WaitQueue

  const PAGE_SIZE := 4096

  /** The page and its two indices. */
  datatype Ring = Ring(page: seq<nat>, head: nat, tail: nat)

  ghost predicate RingOk(r: Ring) {
    |r.page| == PAGE_SIZE && r.head < PAGE_SIZE && r.tail < PAGE_SIZE
  }

  /** PIPE_SIZE */
  function Size(r: Ring): (n: nat)
    ensures n < PAGE_SIZE
    ensures RingOk(r) ==> n == if r.head >= r.tail then r.head - r.tail else r.head + PAGE_SIZE - r.tail
  {
    (r.head - r.tail) % PAGE_SIZE
  }

  /** The place of the `i`-th byte held. */
  function Place(r: Ring, i: nat): nat {
    if r.tail + i < PAGE_SIZE then r.tail + i else r.tail + i - PAGE_SIZE
  }

  /** The bytes held, oldest first. */
  function Content(r: Ring): (s: seq<nat>)
    requires RingOk(r)
    ensures |s| == Size(r)
    ensures forall i :: 0 <= i < |s| ==> s[i] == r.page[Place(r, i)]
  {
    seq(Size(r), i requires 0 <= i < PAGE_SIZE => r.page[Place(r, i)])
  }

  /** How much one turn of read_pipe takes: no more than is wanted, is held, or lies before the end of the page. */
  function ReadChars(r: Ring, count: nat): (n: nat)
    requires RingOk(r)
    ensures n == PAGE_SIZE - r.tail || n == count || n == Size(r)
    ensures n <= count && n <= Size(r) && r.tail + n <= PAGE_SIZE
    ensures count > 0 && Size(r) > 0 ==> n > 0
  {
    Min(Min(PAGE_SIZE - r.tail, count), Size(r))
  }

  /** How much one turn of write_pipe puts in; one byte of the page always stays free. */
  function WriteChars(r: Ring, count: nat): (n: nat)
    requires RingOk(r)
    ensures n == PAGE_SIZE - r.head || n == count || n == PAGE_SIZE - 1 - Size(r)
    ensures n <= count && n + Size(r) <= PAGE_SIZE - 1 && r.head + n <= PAGE_SIZE
    ensures count > 0 && Size(r) < PAGE_SIZE - 1 ==> n > 0
  {
    Min(Min(PAGE_SIZE - r.head, count), PAGE_SIZE - 1 - Size(r))
  }

  /** One turn of read_pipe takes bytes from the page and moves the tail on. */
  function Taken(r: Ring, count: nat): seq<nat>
    requires RingOk(r)
  {
    r.page[r.tail..r.tail + ReadChars(r, count)]
  }

  function AfterRead(r: Ring, count: nat): (r': Ring)
    requires RingOk(r)
    ensures RingOk(r')
  {
    r.(tail := (r.tail + ReadChars(r, count)) % PAGE_SIZE)
  }

  /** One turn of write_pipe puts the first bytes of `data` in and moves the head on. */
  function AfterWrite(r: Ring, data: seq<nat>): (r': Ring)
    requires RingOk(r)
    ensures RingOk(r')
  {
    var n := WriteChars(r, |data|);
    r.(page := r.page[..r.head] + data[..n] + r.page[r.head + n..], head := (r.head + n) % PAGE_SIZE)
  }

  /** What a reader takes is the oldest of what is held. */
  lemma ReadIsOldest(r: Ring, count: nat)
    requires RingOk(r)
    ensures Content(r) == Taken(r, count) + Content(AfterRead(r, count))
  {
    var r', n := AfterRead(r, count), ReadChars(r, count);
    assert Size(r') == Size(r) - n;
    var both := Taken(r, count) + Content(r');
    forall i | 0 <= i < Size(r) ensures both[i] == Content(r)[i] {
      if i >= n {
        assert Place(r', i - n) == Place(r, i);
      }
    }
  }

  /** What a writer puts in comes after all that is held. */
  lemma WriteIsNewest(r: Ring, data: seq<nat>)
    requires RingOk(r)
    ensures Content(AfterWrite(r, data)) == Content(r) + data[..WriteChars(r, |data|)]
  {
    var r', n := AfterWrite(r, data), WriteChars(r, |data|);
    assert Size(r') == Size(r) + n;
    var both := Content(r) + data[..n];
    forall i | 0 <= i < Size(r') ensures Content(r')[i] == both[i] {
      if i < Size(r) {
        assert Place(r, i) < r.head || Place(r, i) >= r.head + n;
      } else {
        assert Place(r, i) == r.head + (i - Size(r));
      }
    }
  }

  // ----- Readers and writers

  /** A task outside a pipe call, or inside read_pipe or write_pipe. */
  datatype Call =
    | Outside
    | Reading(left: nat, got: seq<nat>)
    | Writing(data: seq<nat>, written: nat)

  /** The one queue of the inode, i_wait: both sides sleep on it. */
  const I_WAIT := 0

  /** `sent` and `received` are all bytes accepted and delivered, in order; `count` is the inode's i_count, 2 while both
      ends are open; `waits` says who sleeps, and behind whom. */
  datatype State = State(ring: Ring, count: nat, calls: seq<Call>, waits: W.Waits, sent: seq<nat>, received: seq<nat>)

  datatype Event =
    | StartRead(t: nat, n: nat)
    | StartWrite(t: nat, data: seq<nat>)
    | Turn(t: nat)                 // one turn of a loop, up to the next sleep or return
    | Resume(t: nat)               // a woken task runs again, and wakes the one behind it
    | Close                        // iput of one end

  /** Task `t` is inside a pipe call, and not inside sleep_on. */
  predicate Running(s: State, t: nat) {
    t < |s.calls| && !s.calls[t].Outside? && t < |s.waits.tasks| && s.waits.tasks[t].Outside?
  }

  predicate Enabled(s: State, e: Event) {
    match e
    case StartRead(t, n) => 0 < t < |s.calls| && s.calls[t].Outside?
    case StartWrite(t, data) => 0 < t < |s.calls| && s.calls[t].Outside?
    case Turn(t) => Running(s, t)
    case Resume(t) => W.Enabled(s.waits, W.Resume(t))
    case Close => s.count > 0
  }

  function SetCall(s: State, t: nat, x: Call): State
    requires t < |s.calls|
  {
    s.(calls := s.calls[t := x])
  }

  /** wake_up: the task that slept last is woken; it will wake the others. */
  function WakeUp(s: State): State
    requires |s.waits.queues| == 1
  {
    s.(waits := W.Apply(s.waits, W.WakeUp(I_WAIT)))
  }

  function Leave(s: State, t: nat): State
    requires |s.waits.queues| == 1 && t < |s.calls|
  {
    SetCall(WakeUp(s), t, Outside)
  }

  function FallAsleep(s: State, t: nat): State
    requires |s.waits.queues| == 1 && Running(s, t) && t > 0
  {
    var s1 := WakeUp(s);
    s1.(waits := W.Apply(s1.waits, W.Sleep(t, I_WAIT)))
  }

  function ReadTurn(s: State, t: nat): State
    requires RingOk(s.ring) && |s.waits.queues| == 1 && Running(s, t) && t > 0 && s.calls[t].Reading?
  {
    var x := s.calls[t];
    if x.left == 0 then Leave(s, t)
    else if Size(s.ring) == 0 then (if s.count != 2 then Leave(s, t) else FallAsleep(s, t))
    else
      var out := Taken(s.ring, x.left);
      SetCall(s, t, x.(left := x.left - |out|, got := x.got + out))
        .(ring := AfterRead(s.ring, x.left), received := s.received + out)
  }

  function WriteTurn(s: State, t: nat): State
    requires RingOk(s.ring) && |s.waits.queues| == 1 && Running(s, t) && t > 0 && s.calls[t].Writing?
  {
    var x := s.calls[t];
    if x.data == [] then Leave(s, t)
    else if Size(s.ring) == PAGE_SIZE - 1 then (if s.count != 2 then Leave(s, t) else FallAsleep(s, t))
    else
      var n := WriteChars(s.ring, |x.data|);
      SetCall(s, t, x.(data := x.data[n..], written := x.written + n))
        .(ring := AfterWrite(s.ring, x.data), sent := s.sent + x.data[..n])
  }

  function Apply(s: State, e: Event): State
    requires Shape(s) && Enabled(s, e)
  {
    match e
    case StartRead(t, n) => SetCall(s, t, Reading(n, []))
    case StartWrite(t, data) => SetCall(s, t, Writing(data, 0))
    case Turn(t) => if s.calls[t].Reading? then ReadTurn(s, t) else WriteTurn(s, t)
    case Resume(t) => s.(waits := W.Apply(s.waits, W.Resume(t)))
    case Close => WakeUp(s).(count := s.count - 1)
  }

  /** Task 0 does not use pipes; only tasks in a pipe call sleep here. */
  ghost predicate Shape(s: State) {
    RingOk(s.ring) && |s.calls| == |s.waits.tasks| > 0 && |s.waits.queues| == 1 && s.calls[0].Outside? &&
    forall t: nat :: t < |s.calls| && s.waits.tasks[t].Inside? ==> !s.calls[t].Outside?
  }

  /** What has come out, followed by what is held, is what went in. */
  ghost predicate Fifo(s: State) {
    RingOk(s.ring) && s.received + Content(s.ring) == s.sent
  }

  /** Somebody is inside the pipe and not asleep: running, or woken and about to run. */
  ghost predicate SomeoneBusy(s: State) {
    exists t: nat :: t < |s.calls| && !s.calls[t].Outside? && !W.Asleep(s.waits, t)
  }

  /** Task `t` has reason to sleep: both ends are open, and there is nothing to read or no room to write. */
  predicate Stuck(s: State, t: nat)
    requires t < |s.calls|
  {
    s.count == 2 &&
    match s.calls[t]
    case Outside => false
    case Reading(_, _) => Size(s.ring) == 0
    case Writing(_, _) => Size(s.ring) == PAGE_SIZE - 1
  }

  /** No lost wakeup: a task asleep without reason has somebody awake who will still call wake_up, or wake it in
      turn. */
  ghost predicate NoLostWakeup(s: State) {
    forall t: nat :: t < |s.calls| && W.Asleep(s.waits, t) ==> Stuck(s, t) || SomeoneBusy(s)
  }

  ghost predicate Inv(s: State) {
    Shape(s) && W.Inv(s.waits) && Fifo(s) && NoLostWakeup(s)
  }

  lemma Busy(s: State, t: nat)
    requires t < |s.calls| && !s.calls[t].Outside? && !W.Asleep(s.waits, t)
    ensures SomeoneBusy(s)
  {
  }

  /** After wake_up nobody is left on the queue: whoever sleeps is behind a woken task. */
  lemma WokenLeads(s: State, t: nat)
    requires Shape(s) && W.Inv(s.waits) && t < |s.calls| && W.Asleep(WakeUp(s).waits, t)
    ensures SomeoneBusy(WakeUp(s)) && exists u: nat :: u < |s.calls| && W.Woken(WakeUp(s).waits, u)
  {
    var w := WakeUp(s).waits;
    W.StepKeepsInv(s.waits, W.WakeUp(I_WAIT));
    W.EverySleeperHasALeader(w, t);
    assert w.queues[I_WAIT] == NULL;
    assert forall p: nat :: !W.WaitsOn(w, p, t);
    var u: int :| W.Woken(w, u) && t in W.Chain(w, u);
    Busy(WakeUp(s), u);
  }

  lemma WakeUpKeepsShape(s: State)
    requires Shape(s) && W.Inv(s.waits)
    ensures Shape(WakeUp(s)) && W.Inv(WakeUp(s).waits)
    ensures forall t: nat :: t < |s.calls| ==>
      (WakeUp(s).waits.tasks[t].Inside? <==> s.waits.tasks[t].Inside?) &&
        (W.Asleep(WakeUp(s).waits, t) ==> W.Asleep(s.waits, t))
  {
    W.StepKeepsInv(s.waits, W.WakeUp(I_WAIT));
  }

  lemma LeaveKeepsInv(s: State, t: nat)
    requires Inv(s) && Running(s, t)
    ensures Inv(Leave(s, t))
  {
    var s' := Leave(s, t);
    WakeUpKeepsShape(s);
    forall u: nat | u < |s'.calls| && W.Asleep(s'.waits, u) ensures SomeoneBusy(s') {
      WokenLeads(s, u);
      var v: nat :| v < |s.calls| && W.Woken(WakeUp(s).waits, v);
      assert v != t;
      Busy(s', v);
    }
  }

  lemma FallAsleepKeepsInv(s: State, t: nat)
    requires Inv(s) && Running(s, t) && Stuck(s, t)
    ensures t > 0 && Inv(FallAsleep(s, t))
  {
    var s1, s' := WakeUp(s), FallAsleep(s, t);
    WakeUpKeepsShape(s);
    W.StepKeepsInv(s1.waits, W.Sleep(t, I_WAIT));
    forall u: nat | u < |s'.calls| && W.Asleep(s'.waits, u) ensures Stuck(s', u) || SomeoneBusy(s') {
      if u != t {
        WokenLeads(s, u);
        var v: nat :| v < |s.calls| && W.Woken(s1.waits, v);
        assert v != t && s'.waits.tasks[v] == s1.waits.tasks[v];
        Busy(s', v);
      }
    }
  }

  lemma ReadTurnKeepsInv(s: State, t: nat)
    requires Inv(s) && Running(s, t) && s.calls[t].Reading?
    ensures t > 0 && Inv(ReadTurn(s, t))
  {
    var x := s.calls[t];
    if x.left > 0 && Size(s.ring) > 0 {
      ReadIsOldest(s.ring, x.left);
      Busy(ReadTurn(s, t), t);
    } else if x.left > 0 && s.count == 2 {
      FallAsleepKeepsInv(s, t);
    } else {
      LeaveKeepsInv(s, t);
    }
  }

  lemma WriteTurnKeepsInv(s: State, t: nat)
    requires Inv(s) && Running(s, t) && s.calls[t].Writing?
    ensures t > 0 && Inv(WriteTurn(s, t))
  {
    var x := s.calls[t];
    if x.data != [] && Size(s.ring) < PAGE_SIZE - 1 {
      WriteIsNewest(s.ring, x.data);
      Busy(WriteTurn(s, t), t);
    } else if x.data != [] && s.count == 2 {
      FallAsleepKeepsInv(s, t);
    } else {
      LeaveKeepsInv(s, t);
    }
  }

  /** A woken task runs: it is busy, so nobody is forgotten. */
  lemma ResumeKeepsInv(s: State, t: nat)
    requires Inv(s) && W.Enabled(s.waits, W.Resume(t))
    ensures Inv(Apply(s, Resume(t)))
  {
    W.StepKeepsInv(s.waits, W.Resume(t));
    Busy(Apply(s, Resume(t)), t);
  }

  lemma CloseKeepsInv(s: State)
    requires Inv(s) && s.count > 0
    ensures Inv(Apply(s, Close))
  {
    var s' := Apply(s, Close);
    WakeUpKeepsShape(s);
    forall u: nat | u < |s'.calls| && W.Asleep(s'.waits, u) ensures SomeoneBusy(s') {
      WokenLeads(s, u);
      var v: nat :| v < |s.calls| && W.Woken(WakeUp(s).waits, v);
      Busy(s', v);
    }
  }

  lemma StepKeepsInv(s: State, e: Event)
    requires Inv(s) && Enabled(s, e)
    ensures Inv(Apply(s, e))
  {
    match e
    case StartRead(t, n) => Busy(Apply(s, e), t);
    case StartWrite(t, data) => Busy(Apply(s, e), t);
    case Turn(t) =>
      if s.calls[t].Reading? { ReadTurnKeepsInv(s, t); } else { WriteTurnKeepsInv(s, t); }
    case Resume(t) => ResumeKeepsInv(s, t);
    case Close => CloseKeepsInv(s);
  }

  ghost predicate History(states: seq<State>, events: seq<Event>) {
    |states| == |events| + 1 &&
    forall i :: 0 <= i < |events| ==>
      Shape(states[i]) && Enabled(states[i], events[i]) && states[i + 1] == Apply(states[i], events[i])
  }

  /** Main result: over every interleaving of readers and writers, the bytes delivered followed by the bytes held are
      the bytes accepted, at most 4095 are held, and nobody sleeps on with work to do and no one to wake him. */
  lemma {:induction false} HistoryKeepsInv(states: seq<State>, events: seq<Event>, n: nat)
    requires History(states, events) && Inv(states[0]) && n <= |events|
    ensures Inv(states[n])
    ensures states[n].received <= states[n].sent && |states[n].sent| - |states[n].received| <= PAGE_SIZE - 1
  {
    if n > 0 {
      HistoryKeepsInv(states, events, n - 1);
      assert states[n - 1 + 1] == Apply(states[n - 1], events[n - 1]);
      StepKeepsInv(states[n - 1], events[n - 1]);
    }
  }

  /** sys_pipe: an empty ring, both ends open, and nobody in it. */
  lemma FreshPipeInv(s: State)
    requires RingOk(s.ring) && s.ring.head == s.ring.tail && s.count == 2 && s.sent == [] == s.received
    requires |s.calls| == |s.waits.tasks| > 0 && s.waits.queues == [NULL]
    requires forall t: nat :: t < |s.calls| ==> s.calls[t].Outside? && s.waits.tasks[t].Outside?
    ensures Inv(s)
  {
  }

  /** When nobody inside the pipe is awake, those asleep are all readers of an empty pipe, or all writers to a full one;
      never both. */
  lemma OnlyOneSideWaits(s: State, t: nat, u: nat)
    requires Inv(s) && !SomeoneBusy(s) && t < |s.calls| && u < |s.calls| && !s.calls[t].Outside? && !s.calls[u].Outside?
    ensures s.calls[t].Reading? <==> s.calls[u].Reading?
    ensures if s.calls[t].Reading? then s.received == s.sent else |s.sent| - |s.received| == PAGE_SIZE - 1
  {
    assert W.Asleep(s.waits, t) && W.Asleep(s.waits, u);
    assert Stuck(s, t) && Stuck(s, u);
  }

  /** What a reader has got so far, and what it still wants, is what it asked for; likewise what a writer has
      written. */
  ghost predicate Accounted(s: State, t: nat, asked: nat) {
    t < |s.calls| &&
    match s.calls[t]
    case Outside => false
    case Reading(left, got) => |got| + left == asked
    case Writing(data, written) => written + |data| == asked
  }

  /** A call stays accounted for until it returns, and it returns short only when the other end is closed. */
  lemma TurnAccounts(s: State, e: Event, t: nat, asked: nat)
    requires Inv(s) && Enabled(s, e) && Accounted(s, t, asked)
    ensures Accounted(Apply(s, e), t, asked) ||
      (e == Turn(t) && Apply(s, e).calls[t].Outside? &&
       (s.count != 2 || (if s.calls[t].Reading? then |s.calls[t].got| == asked else s.calls[t].written == asked)))
  {
  }

  // ----- The code

  class Page {
    const data: array<nat>
    var head: nat
    var tail: nat

    ghost predicate Valid()
      reads this, data
    {
      RingOk(View())
    }

    ghost function View(): Ring
      reads this, data
    {
      Ring(data[..], head, tail)
    }

    /** get_pipe_inode: a page from get_free_page, and nothing in it. */
    constructor (page: array<nat>)
      requires page.Length == PAGE_SIZE
      ensures Valid() && data == page && Content(View()) == []
    {
      data, head, tail := page, 0, 0;
    }

    /** One turn of read_pipe's loop, when the pipe is not empty. */
    method ReadSome(count: nat) returns (buf: seq<nat>)
      requires Valid() && Size(View()) > 0
      modifies this`tail
      ensures Valid() && View() == AfterRead(old(View()), count) && buf == Taken(old(View()), count)
    {
      var size := (head - tail) % PAGE_SIZE;
      var chars := PAGE_SIZE - tail;
      if chars > count {
        chars := count;
      }
      if chars > size {
        chars := size;
      }
      size := tail;
      tail := (tail + chars) % PAGE_SIZE;
      buf := [];
      ghost var n := chars;
      while chars > 0
        invariant 0 <= chars <= n && size + chars <= PAGE_SIZE && size == old(tail) + (n - chars)
        invariant buf == data[old(tail)..size] && tail == (old(tail) + n) % PAGE_SIZE
      {
        buf := buf + [data[size]];
        size, chars := size + 1, chars - 1;
      }
    }

    /** One turn of write_pipe's loop, when the pipe is not full. */
    method WriteSome(buf: seq<nat>) returns (chars: nat)
      requires Valid() && Size(View()) < PAGE_SIZE - 1
      modifies this`head, data
      ensures Valid() && View() == AfterWrite(old(View()), buf) && chars == WriteChars(old(View()), |buf|)
    {
      var size := PAGE_SIZE - 1 - (head - tail) % PAGE_SIZE;
      chars := PAGE_SIZE - head;
      if chars > |buf| {
        chars := |buf|;
      }
      if chars > size {
        chars := size;
      }
      assert chars == WriteChars(View(), |buf|);
      CopyIn(buf, head, chars);
      head := (head + chars) % PAGE_SIZE;
    }

    /** The loop that copies bytes from the writer. */
    method CopyIn(buf: seq<nat>, start: nat, n: nat)
      requires start + n <= data.Length && n <= |buf|
      modifies data
      ensures data[..] == old(data[..])[..start] + buf[..n] + old(data[..])[start + n..]
    {
      ghost var was := data[..];
      var size, i := start, 0;
      while i < n
        invariant 0 <= i <= n && size == start + i
        invariant data[..] == was[..start] + buf[..i] + was[start + i..]
      {
        OneMoreByte(was, data[..], buf, start, i);
        data[size] := buf[i];
        size, i := size + 1, i + 1;
      }
    }
  }

  lemma OneMoreByte(was: seq<nat>, now: seq<nat>, buf: seq<nat>, start: nat, i: nat)
    requires start + i < |was| && i < |buf| && now == was[..start] + buf[..i] + was[start + i..]
    ensures now[start + i := buf[i]] == was[..start] + buf[..i + 1] + was[start + i + 1..]
  {
  }
}
