/** What one turn of a reader or a writer does, in bytes and tasks. */
module PipeLaws {
  import opened Links
  import W = WaitQueue
  import opened Pipe

  /** Only task `t`'s own call, and what passes through the pipe, is different. */
  ghost predicate OthersStay(s: State, s': State, t: nat) {
    |s'.calls| == |s.calls| && s'.count == s.count && forall u: nat :: u < |s.calls| && u != t ==>
      s'.calls[u] == s.calls[u]
  }

  /** The task that slept last, if any, is awake, and the queue is empty; the others sleep or not as before. */
  ghost predicate HeadWoken(s: State, s': State) {
    s'.waits.queues == [NULL] && |s'.waits.tasks| == |s.waits.tasks| &&
    forall u: nat :: u < |s.waits.tasks| ==>
      (W.Asleep(s'.waits, u) <==> W.Asleep(s.waits, u) && s.waits.queues != [u as int])
  }

  /** A call begins with nothing got or written, and all that was asked for still to do. */
  lemma Begins(s: State, t: nat, n: nat, data: seq<nat>)
    requires Inv(s) && 0 < t < |s.calls| && s.calls[t].Outside?
    ensures Accounted(Apply(s, StartRead(t, n)), t, n) && Accounted(Apply(s, StartWrite(t, data)), t, |data|)
    ensures Apply(s, StartRead(t, n)) == s.(calls := s.calls[t := Reading(n, [])])
    ensures Apply(s, StartWrite(t, data)) == s.(calls := s.calls[t := Writing(data, 0)])
  {
  }

  /** A turn of a reader with something to read: it gets the oldest bytes, as many as it wants, as there are, or as
      stand before the end of the page, whichever is least. */
  lemma ReaderMoves(s: State, t: nat) returns (n: nat)
    requires Inv(s) && Enabled(s, Turn(t)) && s.calls[t].Reading? && s.calls[t].left > 0 && Content(s.ring) != []
    ensures n == Min(s.calls[t].left, Min(|Content(s.ring)|, 4096 - s.ring.tail)) && n > 0
    ensures var x, s' := s.calls[t], Apply(s, Turn(t));
      RingOk(s'.ring) && OthersStay(s, s', t) && s'.waits == s.waits && s'.sent == s.sent &&
      s'.calls[t] == Reading(x.left - n, x.got + Content(s.ring)[..n]) &&
      s'.received == s.received + Content(s.ring)[..n] && Content(s'.ring) == Content(s.ring)[n..]
  {
    var x := s.calls[t];
    n := |Taken(s.ring, x.left)|;
    ReadIsOldest(s.ring, x.left);
    assert Content(s.ring)[..n] == Taken(s.ring, x.left);
  }

  /** A turn of a writer with room: its first bytes go behind all that is held, as many as it has, as there is room for,
      or as fit before the end of the page, whichever is least. */
  lemma WriterMoves(s: State, t: nat) returns (n: nat)
    requires Inv(s) && Enabled(s, Turn(t)) && s.calls[t].Writing? && s.calls[t].data != [] && |Content(s.ring)| < 4095
    ensures n == Min(|s.calls[t].data|, Min(4095 - |Content(s.ring)|, 4096 - s.ring.head)) && n > 0
    ensures var x, s' := s.calls[t], Apply(s, Turn(t));
      RingOk(s'.ring) && OthersStay(s, s', t) && s'.waits == s.waits && s'.received == s.received &&
      s'.calls[t] == Writing(x.data[n..], x.written + n) &&
      s'.sent == s.sent + x.data[..n] && Content(s'.ring) == Content(s.ring) + x.data[..n]
  {
    var x := s.calls[t];
    n := WriteChars(s.ring, |x.data|);
    WriteIsNewest(s.ring, x.data);
  }

  /** With both ends open a reader of an empty pipe, and a writer to one with 4095 bytes, wakes who slept last and goes
      to sleep itself. */
  lemma WaitsForTheOther(s: State, t: nat)
    requires Inv(s) && Enabled(s, Turn(t)) && s.count == 2
    requires if s.calls[t].Reading? then s.calls[t].left > 0 && Content(s.ring) == []
             else s.calls[t].data != [] && |Content(s.ring)| == 4095
    ensures var s' := Apply(s, Turn(t));
      s'.calls == s.calls && s'.ring == s.ring && s'.count == 2 && s'.sent == s.sent && s'.received == s.received &&
      s'.waits.queues == [t as int] && W.Asleep(s'.waits, t) &&
      forall u: nat :: u < |s.calls| && u != t ==>
        (W.Asleep(s'.waits, u) <==> W.Asleep(s.waits, u) && s.waits.queues != [u as int])
  {
    assert s.waits.queues == [s.waits.queues[0]];
  }

  /** A call that is over, or has lost its other end: it returns, and wakes who slept last. */
  lemma Returns(s: State, t: nat)
    requires Inv(s) && Enabled(s, Turn(t))
    requires if s.calls[t].Reading? then s.calls[t].left == 0 || (Content(s.ring) == [] && s.count != 2)
             else s.calls[t].data == [] || (|Content(s.ring)| == 4095 && s.count != 2)
    ensures var s' := Apply(s, Turn(t));
      s'.calls[t] == Outside && OthersStay(s, s', t) && HeadWoken(s, s') &&
      s'.ring == s.ring && s'.sent == s.sent && s'.received == s.received
  {
    assert s.waits.queues == [s.waits.queues[0]];
  }

  /** Closing an end: one fewer is open, and who slept last is woken, to find that out. */
  lemma Closes(s: State)
    requires Inv(s) && s.count > 0
    ensures var s' := Apply(s, Close);
      s'.count == s.count - 1 && s'.calls == s.calls && s'.ring == s.ring && HeadWoken(s, s') &&
      s'.sent == s.sent && s'.received == s.received
  {
    assert s.waits.queues == [s.waits.queues[0]];
  }

  /** A reader sleeps on an empty pipe, alone; writer `w` is about to write what fits before the end of the page. */
  ghost predicate Expected(s: State, r: nat, w: nat, want: nat, data: seq<nat>) {
    Inv(s) && s.count == 2 && Content(s.ring) == [] && r < |s.calls| && s.calls[r] == Reading(want, []) &&
    W.Asleep(s.waits, r) && s.waits.queues == [r as int] &&
    0 < w < |s.calls| && s.calls[w].Outside? && 0 < |data| <= Min(want, 4095) && s.ring.head + |data| <= 4096
  }

  /** The first half: the bytes are in the pipe, and the reader is awake. */
  lemma BytesWritten(s: State, r: nat, w: nat, want: nat, data: seq<nat>) returns (s1: State, s2: State, s3: State)
    requires Expected(s, r, w, want, data)
    ensures Inv(s1) && Inv(s2) && Inv(s3) && Enabled(s, StartWrite(w, data)) && Enabled(s1, Turn(w)) &&
      Enabled(s2, Turn(w))
    ensures s1 == Apply(s, StartWrite(w, data)) && s2 == Apply(s1, Turn(w)) && s3 == Apply(s2, Turn(w))
    ensures |s3.calls| == |s.calls| && s3.calls[r] == Reading(want, []) && s3.calls[w].Outside?
    ensures Content(s3.ring) == data && s3.ring.tail == s.ring.tail && s3.received == s.received
    ensures W.Woken(s3.waits, r)
  {
    s1 := Apply(s, StartWrite(w, data));
    StepKeepsInv(s, StartWrite(w, data));
    s2 := Apply(s1, Turn(w));
    StepKeepsInv(s1, Turn(w));
    var n := WriterMoves(s1, w);
    assert data[..n] == data && data[n..] == [];
    assert s2.ring.tail == s.ring.tail;
    s3 := Apply(s2, Turn(w));
    StepKeepsInv(s2, Turn(w));
    Returns(s2, w);
  }

  /** A whole write and read: after five steps the reader that slept has the bytes. */
  lemma BytesArrive(s: State, r: nat, w: nat, want: nat, data: seq<nat>) returns (states: seq<State>)
    requires Expected(s, r, w, want, data)
    ensures History(states, Delivery(r, w, data)) && |states| == 6 && states[0] == s && |states[5].calls| == |s.calls|
    ensures states[5].calls[r] == Reading(want - |data|, data) && states[5].calls[w].Outside?
    ensures states[5].received == s.received + data
  {
    var s1, s2, s3 := BytesWritten(s, r, w, want, data);
    var s4 := Apply(s3, Resume(r));
    StepKeepsInv(s3, Resume(r));
    assert Enabled(s3, Resume(r)) && Enabled(s4, Turn(r));
    var n := ReaderMoves(s4, r);
    assert data[..n] == data;
    states := [s, s1, s2, s3, s4, Apply(s4, Turn(r))];
    hide Apply, Enabled, Expected;
    FiveSteps(states, Delivery(r, w, data));
  }

  lemma FiveSteps(states: seq<State>, events: seq<Event>)
    requires |states| == 6 && |events| == 5
    requires Inv(states[0]) && Inv(states[1]) && Inv(states[2]) && Inv(states[3]) && Inv(states[4])
    requires Enabled(states[0], events[0]) && states[1] == Apply(states[0], events[0])
    requires Enabled(states[1], events[1]) && states[2] == Apply(states[1], events[1])
    requires Enabled(states[2], events[2]) && states[3] == Apply(states[2], events[2])
    requires Enabled(states[3], events[3]) && states[4] == Apply(states[3], events[3])
    requires Enabled(states[4], events[4]) && states[5] == Apply(states[4], events[4])
    ensures History(states, events)
  {
    hide Apply, Enabled;
  }

  /** The writer's call, the reader's waking, and its turn. */
  function Delivery(r: nat, w: nat, data: seq<nat>): seq<Event> {
    [StartWrite(w, data), Turn(w), Turn(w), Resume(r), Turn(r)]
  }
}
