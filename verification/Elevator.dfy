/** The block-device request queue: where `add_request` splices a request in, and what order that keeps. */
module Elevator {

  const READ := 0
  const WRITE := 1

  /** The fields of a queued request that the elevator and the device look at. */
  datatype Request = Request(cmd: int, dev: int, sector: int, buf: nat)

  /** IN_ORDER: reads before writes, then by device, then by sector. */
  predicate InOrder(a: Request, b: Request) {
    a.cmd < b.cmd ||
    (a.cmd == b.cmd && (a.dev < b.dev || (a.dev == b.dev && a.sector < b.sector)))
  }

  predicate SameKey(a: Request, b: Request) {
    a.cmd == b.cmd && a.dev == b.dev && a.sector == b.sector
  }

  /** The index after which the scan of `add_request` stops, scanning from `i`. */
  function SplicePoint(q: seq<Request>, r: Request, i: nat): (k: nat)
    requires i < |q|
    ensures i <= k < |q|
    decreases |q| - i
  {
    if i + 1 == |q| then i
    else if (InOrder(q[i], r) || !InOrder(q[i], q[i + 1])) && InOrder(r, q[i + 1]) then i
    else SplicePoint(q, r, i + 1)
  }

  /** The queue after `add_request`. */
  function Insert(q: seq<Request>, r: Request): (q': seq<Request>)
    ensures multiset(q') == multiset(q) + multiset{r}
    ensures q != [] ==> q'[0] == q[0]
  {
    if q == [] then [r]
    else
      var k := SplicePoint(q, r, 0);
      assert q == q[..k + 1] + q[k + 1..];
      q[..k + 1] + [r] + q[k + 1..]
  }

  /** Every later request is strictly in order after every earlier one. */
  ghost predicate Ascending(q: seq<Request>) {
    forall i, j :: 0 <= i < j < |q| ==> InOrder(q[i], q[j])
  }

  /** The length of the longest ascending prefix, found from the left; `i` elements are already known to ascend. */
  function RunEnd(q: seq<Request>, i: nat): (k: nat)
    requires i < |q|
    ensures i < k <= |q|
    ensures forall j :: i <= j < k - 1 ==> InOrder(q[j], q[j + 1])
    ensures k < |q| ==> !InOrder(q[k - 1], q[k])
    decreases |q| - i
  {
    if i + 1 == |q| || !InOrder(q[i], q[i + 1]) then i + 1 else RunEnd(q, i + 1)
  }

  function FirstRun(q: seq<Request>): (k: nat)
    ensures k <= |q|
  {
    if q == [] then 0 else RunEnd(q, 0)
  }

  /** The queue is one upward sweep followed by at most one more. */
  ghost predicate TwoSweeps(q: seq<Request>) {
    Ascending(q[FirstRun(q)..])
  }

  /** `r` falls strictly between two neighbours of the current sweep. */
  ghost predicate FitsCurrentSweep(q: seq<Request>, r: Request) {
    exists i :: 0 <= i && i + 1 < FirstRun(q) && InOrder(q[i], r) && InOrder(r, q[i + 1])
  }

  /** The next sweep already holds a request for the same command, device and sector. */
  ghost predicate InNextSweep(q: seq<Request>, r: Request) {
    exists j :: FirstRun(q) <= j < |q| && SameKey(q[j], r)
  }

  lemma {:induction false} StepwiseAscending(q: seq<Request>)
    requires forall i :: 0 <= i < |q| - 1 ==> InOrder(q[i], q[i + 1])
    ensures Ascending(q)
  {
    forall i, j | 0 <= i < j < |q| ensures InOrder(q[i], q[j]) {
      Stepwise(q, i, j);
    }
  }

  lemma {:induction false} Stepwise(q: seq<Request>, i: nat, j: nat)
    requires forall k :: 0 <= k < |q| - 1 ==> InOrder(q[k], q[k + 1])
    requires i < j < |q|
    ensures InOrder(q[i], q[j])
    decreases j
  {
    if i + 1 < j {
      Stepwise(q, i, j - 1);
      assert InOrder(q[j - 1], q[j - 1 + 1]);
    }
  }

  /** The boundary between the sweeps is the only place where two neighbours are out of order. */
  lemma {:induction false} SweepBoundary(q: seq<Request>, k: nat)
    requires 0 < k <= |q|
    requires forall j :: 0 <= j < k - 1 ==> InOrder(q[j], q[j + 1])
    requires k < |q| ==> !InOrder(q[k - 1], q[k])
    ensures FirstRun(q) == k
  {
    RunEndIs(q, 0, k);
  }

  lemma {:induction false} RunEndIs(q: seq<Request>, i: nat, k: nat)
    requires i < k <= |q|
    requires forall j :: i <= j < k - 1 ==> InOrder(q[j], q[j + 1])
    requires k < |q| ==> !InOrder(q[k - 1], q[k])
    ensures RunEnd(q, i) == k
    decreases k - i
  {
    if i + 1 < k {
      RunEndIs(q, i + 1, k);
    }
  }

  /** What stopped the scan: either the tail of the queue, or a gap that takes `r`. */
  lemma {:induction false} SpliceStops(q: seq<Request>, r: Request, i: nat)
    requires i < |q|
    ensures var k := SplicePoint(q, r, i);
            (k + 1 < |q| ==> (InOrder(q[k], r) || !InOrder(q[k], q[k + 1])) && InOrder(r, q[k + 1])) &&
            forall j :: i <= j < k ==> !((InOrder(q[j], r) || !InOrder(q[j], q[j + 1])) && InOrder(r, q[j + 1]))
    decreases |q| - i
  {
    if i + 1 < |q| && !((InOrder(q[i], r) || !InOrder(q[i], q[i + 1])) && InOrder(r, q[i + 1])) {
      SpliceStops(q, r, i + 1);
    }
  }

  /** Neighbours in the queue after insertion. */
  lemma InsertNeighbours(q: seq<Request>, r: Request)
    requires q != []
    ensures var k := SplicePoint(q, r, 0); var q' := Insert(q, r);
            |q'| == |q| + 1 && q'[k + 1] == r &&
            (forall j :: 0 <= j <= k ==> q'[j] == q[j]) &&
            (forall j :: k + 1 <= j < |q| ==> q'[j + 1] == q[j])
  {
  }

  /** Taking the request keeps two sweeps exactly when its key is not already in the
      next sweep, or it still fits inside the current one. */
  lemma {:induction false} InsertKeepsTwoSweeps(q: seq<Request>, r: Request)
    requires TwoSweeps(q)
    ensures TwoSweeps(Insert(q, r)) <==> (!InNextSweep(q, r) || FitsCurrentSweep(q, r))
  {
    if q == [] {
      assert Insert(q, r) == [r];
    } else {
      var n := FirstRun(q);
      assert forall j :: n <= j < |q| - 1 ==> InOrder(q[j], q[j + 1]) by {
        forall j | n <= j < |q| - 1 ensures InOrder(q[j], q[j + 1]) {
          var t := q[n..];
          assert t[j - n] == q[j] && t[j - n + 1] == q[j + 1];
        }
      }
      StepwiseAscending(q[..n]);
      SpliceStops(q, r, 0);
      InsertNeighbours(q, r);
      if FitsCurrentSweep(q, r) {
        JoinsCurrent(q, r, n);
      } else if InNextSweep(q, r) {
        ThirdSweep(q, r, n);
      } else {
        JoinsNext(q, r, n);
      }
    }
  }

  /** Inside the current sweep, a request that fits between two neighbours leaves every pair in order. */
  lemma CurrentSweepStep(q: seq<Request>, r: Request, n: nat, k: nat, j: nat)
    requires k + 1 < n <= |q| && j < n && InOrder(q[k], r) && InOrder(r, q[k + 1])
    requires forall i :: 0 <= i < n - 1 ==> InOrder(q[i], q[i + 1])
    ensures var q' := q[..k + 1] + [r] + q[k + 1..]; InOrder(q'[j], q'[j + 1])
  {
    if j > k + 1 {
      assert InOrder(q[j - 1], q[j - 1 + 1]);
    }
  }

  /** Where the scan stops when the request fits inside the current sweep. */
  lemma StopsInside(q: seq<Request>, r: Request) returns (k: nat)
    requires q != [] && FitsCurrentSweep(q, r)
    ensures k == SplicePoint(q, r, 0) && k + 1 < FirstRun(q) && InOrder(q[k], r) && InOrder(r, q[k + 1])
  {
    var i :| 0 <= i && i + 1 < FirstRun(q) && InOrder(q[i], r) && InOrder(r, q[i + 1]);
    k := SplicePoint(q, r, 0);
    SpliceStops(q, r, 0);
    assert k <= i;
    assert InOrder(q[k], q[k + 1]);
  }

  lemma JoinsCurrent(q: seq<Request>, r: Request, n: nat)
    requires q != [] && n == FirstRun(q) && TwoSweeps(q) && FitsCurrentSweep(q, r)
    ensures TwoSweeps(Insert(q, r))
  {
    var k := StopsInside(q, r);
    LongerSweep(q, r, n, k, Insert(q, r));
  }

  lemma LongerSweep(q: seq<Request>, r: Request, n: nat, k: nat, q': seq<Request>)
    requires q != [] && n == FirstRun(q) && TwoSweeps(q)
    requires k + 1 < n && InOrder(q[k], r) && InOrder(r, q[k + 1]) && q' == q[..k + 1] + [r] + q[k + 1..]
    ensures TwoSweeps(q')
  {
    forall j | 0 <= j < n ensures InOrder(q'[j], q'[j + 1]) {
      CurrentSweepStep(q, r, n, k, j);
    }
    hide InOrder;
    if n < |q| {
      assert q'[n] == q[n - 1] && q'[n + 1] == q[n];
    }
    SweepBoundary(q', n + 1);
    assert q'[n + 1..] == q[n..];
  }

  lemma ThirdSweep(q: seq<Request>, r: Request, n: nat)
    requires q != [] && n == FirstRun(q) && TwoSweeps(q) && InNextSweep(q, r) && !FitsCurrentSweep(q, r)
    ensures !TwoSweeps(Insert(q, r))
  {
    var j :| n <= j < |q| && SameKey(q[j], r);
    var t := q[n..];
    var k := SplicePoint(q, r, 0);
    SpliceStops(q, r, 0);
    InsertNeighbours(q, r);
    assert t[j - n] == q[j];
    if k + 1 < |q| {
      NoGapForTwin(q, r, n, j, k);
    }
    assert Insert(q, r) == q + [r];
    TwinBehind(q, r, n, j);
  }

  /** `r` at the end of a sweep that has its twin is the start of another. */
  lemma TwinBehind(q: seq<Request>, r: Request, n: nat, j: nat)
    requires q != [] && n == FirstRun(q) && n <= j < |q| && SameKey(q[j], r)
    ensures !TwoSweeps(q + [r])
  {
    var q' := q + [r];
    forall i | 0 <= i < n - 1 ensures InOrder(q'[i], q'[i + 1]) {
      assert q'[i] == q[i] && q'[i + 1] == q[i + 1];
    }
    SweepBoundary(q', n);
    var t' := q'[n..];
    assert t'[j - n] == q[j] && t'[|q| - n] == r;
  }

  /** With a twin of `r` in the next sweep there is no gap past the current sweep that takes `r`. */
  lemma NoGapForTwin(q: seq<Request>, r: Request, n: nat, j: nat, k: nat)
    requires q != [] && n == FirstRun(q) && TwoSweeps(q) && !FitsCurrentSweep(q, r)
    requires n <= j < |q| && SameKey(q[j], r)
    requires k + 1 < |q|
    ensures !((InOrder(q[k], r) || !InOrder(q[k], q[k + 1])) && InOrder(r, q[k + 1]))
  {
    var t := q[n..];
    assert t[j - n] == q[j];
    if k + 1 < n {
      assert InOrder(q[k], q[k + 1]);
    } else {
      assert t[k + 1 - n] == q[k + 1];
      if k + 1 < j {
        assert InOrder(t[k + 1 - n], t[j - n]);
      } else if n <= k {
        assert t[k - n] == q[k] && InOrder(t[k - n], t[k + 1 - n]);
        if j < k {
          assert InOrder(t[j - n], t[k - n]);
        }
      }
    }
  }

  lemma JoinsNext(q: seq<Request>, r: Request, n: nat)
    requires q != [] && n == FirstRun(q) && TwoSweeps(q) && !InNextSweep(q, r) && !FitsCurrentSweep(q, r)
    ensures TwoSweeps(Insert(q, r))
  {
    var t := q[n..];
    var k := SplicePoint(q, r, 0);
    SpliceStops(q, r, 0);
    InsertNeighbours(q, r);
    var q' := Insert(q, r);
    assert k + 1 >= n;
    if k + 1 == |q| && n == |q| && InOrder(q[k], r) {
      SweepBoundary(q', n + 1);
    } else {
      assert k + 1 == n && n < |q| ==> InOrder(r, t[0]);
      SweepBoundary(q', n);
      var t' := q'[n..];
      forall j | 0 <= j < |t'| - 1 ensures InOrder(t'[j], t'[j + 1]) {
        NextSweepStep(q, r, n, j);
      }
      StepwiseAscending(t');
    }
  }

  lemma NextSweepStep(q: seq<Request>, r: Request, n: nat, j: nat)
    requires q != [] && n == FirstRun(q) && TwoSweeps(q) && !InNextSweep(q, r) && !FitsCurrentSweep(q, r)
    requires n + j + 1 < |q| + 1
    requires SplicePoint(q, r, 0) + 1 >= n
    ensures InOrder(Insert(q, r)[n + j], Insert(q, r)[n + j + 1])
  {
    var t := q[n..];
    var k := SplicePoint(q, r, 0);
    SpliceStops(q, r, 0);
    InsertNeighbours(q, r);
    if n + j < k {
      assert InOrder(t[j], t[j + 1]);
    } else if n + j == k {
      assert !SameKey(q[k], r);
      if k + 1 < |q| {
        assert InOrder(t[j], t[j + 1]);
      } else if InOrder(r, q[k]) {
        NoRoomBefore(q, r, n, k);
      }
    } else if n + j > k + 1 {
      assert InOrder(t[j - 1], t[j]);
    }
  }

  /** If the scan ran past the boundary, the request is in order after everything it passed in the next sweep. */
  lemma {:induction false} NoRoomBefore(q: seq<Request>, r: Request, n: nat, k: nat)
    requires q != [] && n == FirstRun(q) && TwoSweeps(q) && !InNextSweep(q, r)
    requires n <= k <= SplicePoint(q, r, 0)
    ensures InOrder(q[k], r)
    decreases k
  {
    SpliceStops(q, r, 0);
    assert !SameKey(q[k], r);
    if n < k {
      NoRoomBefore(q, r, n, k - 1);
    }
    assert !((InOrder(q[k - 1], r) || !InOrder(q[k - 1], q[k - 1 + 1])) && InOrder(r, q[k - 1 + 1]));
  }

  /** Completing the head request keeps two sweeps. */
  lemma {:induction false} CompleteKeepsTwoSweeps(q: seq<Request>)
    requires q != [] && TwoSweeps(q)
    ensures TwoSweeps(q[1..])
  {
    var n := FirstRun(q);
    var t := q[1..];
    if 1 < n {
      forall j | 0 <= j < n - 2 ensures InOrder(t[j], t[j + 1]) {
        assert t[j] == q[j + 1] && t[j + 1] == q[j + 1 + 1];
      }
      SweepBoundary(t, n - 1);
      assert t[n - 1..] == q[n..];
    } else if |t| > 0 {
      assert t == q[n..];
      SweepBoundary(t, |t|);
    }
  }

  datatype Step = Add(r: Request) | Complete

  /** One device step: `add_request`, or `end_request` on the head of a queue that has one. */
  function Apply(q: seq<Request>, s: Step): seq<Request> {
    match s
    case Add(r) => Insert(q, r)
    case Complete => if q == [] then q else q[1..]
  }

  function Run(q: seq<Request>, steps: seq<Step>): seq<Request>
    decreases |steps|
  {
    if steps == [] then q else Run(Apply(q, steps[0]), steps[1..])
  }

  /** The requests handed to `add_request` during a run. */
  function Added(steps: seq<Step>): multiset<Request> {
    if steps == [] then multiset{}
    else (if steps[0].Add? then multiset{steps[0].r} else multiset{}) + Added(steps[1..])
  }

  /** The requests the device finished during a run, in the order it finished them. */
  function Completed(q: seq<Request>, steps: seq<Step>): seq<Request>
    decreases |steps|
  {
    if steps == [] then []
    else (if steps[0].Complete? && q != [] then [q[0]] else []) + Completed(Apply(q, steps[0]), steps[1..])
  }

  /** Every request is added while no queued request has the same key: what locking each buffer gives. */
  ghost predicate DistinctKeys(q: seq<Request>, steps: seq<Step>)
    decreases |steps|
  {
    steps == [] ||
    ((steps[0].Add? ==> forall j :: 0 <= j < |q| ==> !SameKey(q[j], steps[0].r)) &&
     DistinctKeys(Apply(q, steps[0]), steps[1..]))
  }

  /** Over every run with distinct keys the queue stays at most two upward sweeps. */
  lemma {:induction false} RunKeepsTwoSweeps(q: seq<Request>, steps: seq<Step>)
    requires TwoSweeps(q) && DistinctKeys(q, steps)
    ensures TwoSweeps(Run(q, steps))
    decreases |steps|
  {
    if steps != [] {
      match steps[0] {
        case Add(r) => InsertKeepsTwoSweeps(q, r);
        case Complete => if q != [] { CompleteKeepsTwoSweeps(q); }
      }
      RunKeepsTwoSweeps(Apply(q, steps[0]), steps[1..]);
    }
  }

  /** No request is lost or duplicated: what is queued and what was completed is what was there and what was added. */
  lemma {:induction false} RunConservesRequests(q: seq<Request>, steps: seq<Step>)
    ensures multiset(Run(q, steps)) + multiset(Completed(q, steps)) == multiset(q) + Added(steps)
    decreases |steps|
  {
    if steps != [] {
      var q' := Apply(q, steps[0]);
      RunConservesRequests(q', steps[1..]);
      StepConserves(q, steps[0]);
      var done := if steps[0].Complete? && q != [] then [q[0]] else [];
      var later := Completed(q', steps[1..]);
      assert Completed(q, steps) == done + later;
      assert multiset(done + later) == multiset(done) + multiset(later);
      var added := if steps[0].Add? then multiset{steps[0].r} else multiset{};
      Rebalance(multiset(Run(q, steps)), multiset(later), multiset(q'), Added(steps[1..]), multiset(done),
        multiset(q), added);
    }
  }

  lemma Rebalance(run: multiset<Request>, later: multiset<Request>, mid: multiset<Request>, rest: multiset<Request>,
                  done: multiset<Request>, start: multiset<Request>, added: multiset<Request>)
    requires run + later == mid + rest
    requires mid + done == start + added
    ensures run + (done + later) == start + (added + rest)
  {
    calc {
      run + (done + later);
      (run + later) + done;
      (mid + done) + rest;
      start + (added + rest);
    }
  }

  lemma StepConserves(q: seq<Request>, s: Step)
    ensures multiset(Apply(q, s)) + multiset(if s.Complete? && q != [] then [q[0]] else [])
            == multiset(q) + if s.Add? then multiset{s.r} else multiset{}
  {
    if s.Complete? && q != [] {
      assert q == [q[0]] + q[1..];
    }
  }

  const SWAP_DEV := 0x304   // a partition of the first hard disk, should one be configured for swapping

  /** A request of make_request: the buffer's block, in sectors. */
  function BlockRead(dev: nat, block: nat, buf: nat): Request { Request(READ, dev, 2 * block, buf) }

  /** A request of ll_rw_page: a page of the swap device, in sectors. */
  function PageRead(dev: nat, page: nat, buf: nat): Request { Request(READ, dev, 8 * page, buf) }

  /** The queue after bread of blocks 9 and 8 of the swap device, the first under way. */
  function TwoReads(): (q: seq<Request>)
    ensures q == [BlockRead(SWAP_DEV, 9, 0), BlockRead(SWAP_DEV, 8, 1)]
  {
    Insert(Insert([], BlockRead(SWAP_DEV, 9, 0)), BlockRead(SWAP_DEV, 8, 1))
  }

  /** With repeated keys two sweeps can be lost: swap_in of page 2, which starts at the same sector as block 8, leaves
      three. */
  lemma RepeatedKeysBreakTwoSweeps()
    ensures TwoSweeps(TwoReads()) && SameKey(BlockRead(SWAP_DEV, 8, 1), PageRead(SWAP_DEV, 2, 2))
    ensures !TwoSweeps(Insert(TwoReads(), PageRead(SWAP_DEV, 2, 2)))
  {
    var q, c := TwoReads(), PageRead(SWAP_DEV, 2, 2);
    SweepBoundary(q, 1);
    InsertAtEnd(q, c);
    assert q + [c] == [q[0], q[1], c];
    LostSweep(q[0], q[1], c);
  }

  lemma LostSweep(a: Request, b: Request, c: Request)
    requires !InOrder(a, b) && !InOrder(b, c)
    ensures !TwoSweeps([a, b, c])
  {
    var q := [a, b, c];
    SweepBoundary(q, 1);
    assert q[1..][0] == b && q[1..][1] == c;
  }

  lemma InsertAtEnd(q: seq<Request>, r: Request)
    requires q != []
    requires forall j :: 0 <= j < |q| - 1 ==> !((InOrder(q[j], r) || !InOrder(q[j], q[j + 1])) && InOrder(r, q[j + 1]))
    ensures Insert(q, r) == q + [r]
  {
    SpliceStops(q, r, 0);
    assert SplicePoint(q, r, 0) == |q| - 1;
  }
}
