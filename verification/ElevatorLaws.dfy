/** What the request queue's order means, in the fields of the requests. */
module ElevatorLaws {
  import opened Elevator

  /** `a` may stand before `b` in one sweep: no read behind a write, devices in order, sectors strictly upward. */
  ghost predicate Upward(a: Request, b: Request) {
    a.cmd <= b.cmd && (a.cmd == b.cmd ==> a.dev <= b.dev && (a.dev == b.dev ==> a.sector < b.sector))
  }

  /** Every pair of queue entries from `lo` up to `hi` is upward. */
  ghost predicate OneSweep(q: seq<Request>, lo: nat, hi: nat)
    requires hi <= |q|
  {
    forall i, j :: lo <= i < j < hi ==> Upward(q[i], q[j])
  }

  /** A queue of two sweeps, cut where the first ends: both run upward, and the second starts lower than the first
      ended. */
  lemma SweepOrder(q: seq<Request>) returns (n: nat)
    requires TwoSweeps(q)
    ensures n == FirstRun(q) && n <= |q| && OneSweep(q, 0, n) && OneSweep(q, n, |q|)
    ensures 0 < n < |q| ==> !Upward(q[n - 1], q[n])
    ensures q != [] ==> n > 0
  {
    n := FirstRun(q);
    StepwiseAscending(q[..n]);
    var a, b := q[..n], q[n..];
    forall i, j | 0 <= i < j < n ensures Upward(q[i], q[j]) {
      assert InOrder(a[i], a[j]);
    }
    forall i, j | n <= i < j < |q| ensures Upward(q[i], q[j]) {
      assert q[i] == b[i - n] && q[j] == b[j - n];
    }
  }

  /** A request that fits between two neighbours of the current sweep stands between them. */
  lemma PlacedInCurrentSweep(q: seq<Request>, r: Request, n: nat, i: nat)
    requires n <= |q| && OneSweep(q, 0, n) && i + 1 < n && Upward(q[i], r) && Upward(r, q[i + 1])
    ensures Insert(q, r) == q[..i + 1] + [r] + q[i + 1..]
  {
    SpliceStops(q, r, 0);
    forall j | 0 < j <= i ensures !InOrder(r, q[j]) {
      assert j < i ==> Upward(q[j], q[i]);
    }
    assert Upward(q[i], q[i + 1]);
  }

  /** With reads and writes waiting, a read of a higher sector than the last read of the sweep goes before the writes,
      however many there are. */
  lemma ReadOvertakesWrites(q: seq<Request>, r: Request, n: nat, i: nat)
    requires n <= |q| && OneSweep(q, 0, n) && i + 1 < n
    requires r.cmd == READ && q[i].cmd == READ && q[i + 1].cmd == WRITE
    requires q[i].dev < r.dev || (q[i].dev == r.dev && q[i].sector < r.sector)
    ensures Insert(q, r) == q[..i + 1] + [r] + q[i + 1..]
    ensures forall j :: i + 1 < j < n + 1 ==> Insert(q, r)[j].cmd != READ
  {
    PlacedInCurrentSweep(q, r, n, i);
    forall j | i + 1 < j < n + 1 ensures Insert(q, r)[j].cmd != READ {
      assert j - 1 > i + 1 ==> Upward(q[i + 1], q[j - 1]);
    }
  }

  /** Any other request waits for the next sweep, and stands there in order. */
  lemma PlacedInNextSweep(q: seq<Request>, r: Request) returns (k: nat)
    requires q != [] && TwoSweeps(q) && !FitsCurrentSweep(q, r) && !InNextSweep(q, r)
    ensures FirstRun(q) <= k <= |q| && Insert(q, r) == q[..k] + [r] + q[k..]
    ensures forall i :: FirstRun(q) <= i < k ==> Upward(q[i], r)
    ensures forall i :: k <= i < |q| ==> Upward(r, q[i])
  {
    var n := FirstRun(q);
    var m := SplicePoint(q, r, 0);
    k := m + 1;
    SpliceStops(q, r, 0);
    var n' := SweepOrder(q);
    StepwiseAscending(q[..n]);
    forall i | n <= i < k ensures Upward(q[i], r) {
      NoRoomBefore(q, r, n, i);
    }
    forall i | k <= i < |q| ensures Upward(r, q[i]) {
      assert k < i ==> Upward(q[k], q[i]);
    }
  }

  /** The head is under way: a read behind it waits until after every write of this sweep. */
  lemma ReadBehindTheHeadWaits(q: seq<Request>, r: Request)
    requires q != [] && OneSweep(q, 0, |q|)
    requires r.cmd == READ && q[0].cmd == READ && r.dev == q[0].dev && r.sector < q[0].sector
    ensures Insert(q, r) == q + [r]
  {
    SpliceStops(q, r, 0);
    var k := SplicePoint(q, r, 0);
    assert k > 0 ==> Upward(q[0], q[k]);
    assert q[..|q|] == q && q[|q|..] == [];
  }
}
