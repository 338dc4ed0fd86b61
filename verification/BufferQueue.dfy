/** The request queue under the buffer cache: the locks on buffers keep its keys apart, and so its two sweeps. */
module BufferQueue {
  import opened Elevator
  import opened BufferCache
  import opened BufferRuns

  /** No queued request is for the block of a buffer that is about to join the queue. */
  lemma NoTwinQueued(c: Cache, b: nat, i: nat)
    requires Inv(c) && b in c.pending && i < |c.queue|
    ensures PendingOk(c, b) && !SameKey(c.queue[i], RequestFor(c, b, c.pending[b]))
  {
    var r := c.queue[i];
    assert PendingOk(c, b) && Matches(c, r);
    assert r.buf != b;
    assert c.bufs[r.buf].key != c.bufs[b].key;
  }

  /** Nor are two queued requests for the same block. */
  lemma QueuedKeysDiffer(c: Cache, i: nat, j: nat)
    requires Inv(c) && i < j < |c.queue|
    ensures !SameKey(c.queue[i], c.queue[j])
  {
    var q, r := c.queue[i], c.queue[j];
    assert Matches(c, q) && Matches(c, r);
    assert c.bufs[q.buf].key != c.bufs[r.buf].key;
  }

  lemma IssueKeepsTwoSweeps(c: Cache, b: nat)
    requires Inv(c) && b in c.pending && b < |c.bufs| && TwoSweeps(c.queue)
    ensures TwoSweeps(Insert(c.queue, RequestFor(c, b, c.pending[b])))
  {
    hide Inv, TwoSweeps;
    var r := RequestFor(c, b, c.pending[b]);
    forall j | 0 <= j < |c.queue| ensures !SameKey(c.queue[j], r) {
      NoTwinQueued(c, b, j);
    }
    InsertKeepsTwoSweeps(c.queue, r);
  }

  lemma StepKeepsTwoSweeps(c: Cache, s: Event, c': Cache)
    requires Inv(c) && Next(c, s, c') && TwoSweeps(c.queue)
    ensures TwoSweeps(c'.queue)
  {
    hide Inv, TwoSweeps;
    match s
    case Issue(b) => IssueKeepsTwoSweeps(c, b);
    case Finish(_) => CompleteKeepsTwoSweeps(c.queue);
    case _ => assert c'.queue == c.queue;
  }

  /** Over every run of the cache the queue is at most two ascending sweeps. */
  lemma {:induction false} HistoryKeepsTwoSweeps(states: seq<Cache>, events: seq<Event>, n: nat)
    requires History(states, events) && Inv(states[0]) && TwoSweeps(states[0].queue) && n <= |events|
    ensures TwoSweeps(states[n].queue)
  {
    hide Inv, TwoSweeps, Next;
    if n > 0 {
      HistoryKeepsTwoSweeps(states, events, n - 1);
      HistoryKeepsInv(states, events, n - 1);
      assert Next(states[n - 1], events[n - 1], states[n - 1 + 1]);
      StepKeepsTwoSweeps(states[n - 1], events[n - 1], states[n]);
    }
  }
}
