/** What getblk comes to: each of its turns, field by field, and that it gets on. */
module Getblk {
  import opened Elevator
  import opened BufferCache
  import opened BufferRuns
  import opened BufferSteps

  ghost predicate Carried(c: Cache, k: Key) {
    exists b :: 0 <= b < |c.bufs| && c.bufs[b].key == k
  }

  /** Unused, and no unused buffer has a smaller 2 * dirt + lock. */
  ghost predicate LeastBad(bufs: seq<Buf>, b: nat) {
    b < |bufs| && bufs[b].count == 0 &&
    forall a :: 0 <= a < |bufs| && bufs[a].count == 0 ==>
      (if bufs[b].dirt then 2 else 0) + (if bufs[b].lock then 1 else 0) <=
      (if bufs[a].dirt then 2 else 0) + (if bufs[a].lock then 1 else 0)
  }

  /** A task that looks for a block somebody carries counts itself in and waits for the buffer's lock. */
  lemma Hit(c: Cache, t: nat, c': Cache, b: nat)
    requires Inv(c) && Next(c, Lookup(t), c') && b < |c.bufs| && c.bufs[b].key == c.pcs[t].key
    ensures var k := c.pcs[t].key;
      c'.pcs == c.pcs[t := Claiming(k, b)] && c'.bufs == c.bufs[b := c.bufs[b].(count := c.bufs[b].count + 1)] &&
      c'.holds == c.holds + [Hold(t, b, k)] && c'.queue == c.queue && c'.pending == c.pending && c'.disk == c.disk
  {
    var k := c.pcs[t].key;
    assert Named(c, b, k) && PcOk(c, t, c.pcs[t]);
    var a: nat :| Named(c, a, k) && c' == CountIn(c, t, a, k);
    assert a == b;
  }

  /** If nobody carries it, the task sleeps when all buffers are in use, and only then; otherwise it settles on an
      unused one that is as little dirty and locked as any. */
  lemma Miss(c: Cache, t: nat, c': Cache)
    requires Next(c, Lookup(t), c') && !Carried(c, c.pcs[t].key)
    ensures c' == c.(pcs := c'.pcs) && t < |c'.pcs|
    ensures var k, p := c.pcs[t].key, c'.pcs[t];
      c'.pcs == c.pcs[t := p] &&
      if forall b :: 0 <= b < |c.bufs| ==> c.bufs[b].count > 0 then p == Asleep(k)
      else p.Chosen? && p.key == k && LeastBad(c.bufs, p.b)
  {
    var k := c.pcs[t].key;
    assert !Cached(c, k);
    if b: nat :| Victim(c.bufs, b) && c' == SetPc(c, t, Chosen(k, b)) {
      forall a | 0 <= a < |c.bufs| && c.bufs[a].count == 0 ensures Idle(c.bufs, a) {}
      assert Idle(c.bufs, b) && c.bufs[b].count == 0;
    } else {
      assert forall b: nat :: !Idle(c.bufs, b);
      forall b | 0 <= b < |c.bufs| ensures c.bufs[b].count > 0 { assert !Idle(c.bufs, b); }
    }
  }

  /** What becomes of the buffer that a task settled on, once it is unlocked. */
  lemma TakeOutcome(c: Cache, t: nat, c': Cache)
    requires Next(c, Take(t), c')
    ensures var k, b := c.pcs[t].key, c.pcs[t].b; var x := c.bufs[b];
      t < |c'.pcs| &&
      if x.count > 0 then c' == c.(pcs := c.pcs[t := Looking(k)])
      else if x.dirt then c' == c.(pcs := c.pcs[t := Syncing(k, b)])
      else if Carried(c, k) then c' == c.(pcs := c.pcs[t := Looking(k)])
      else c' == c.(pcs := c.pcs[t := Outside], bufs := c.bufs[b := Buf(k, false, false, 1, x.lock, x.data)],
                    holds := c.holds + [Hold(t, b, k)])
  {
    var k := c.pcs[t].key;
    assert Carried(c, k) <==> Cached(c, k) by {
      if Carried(c, k) {
        var b :| 0 <= b < |c.bufs| && c.bufs[b].key == k;
        assert Named(c, b, k);
      }
    }
  }

  /** A task that has just come out of getblk with buffer `b` for block `k`. */
  ghost predicate Gotten(c: Cache, t: nat, k: Key, b: nat) {
    t < |c.pcs| && c.pcs[t].Outside? && Hold(t, b, k) in c.holds && b < |c.bufs| && c.bufs[b].key == k &&
    c.bufs[b].count > 0 && !c.bufs[b].lock
  }

  ghost predicate Spare(x: Buf) {
    x.count == 0 && !x.dirt && !x.lock
  }

  /** Progress on a miss: while some buffer is unused, clean and unlocked, looking and taking is all it needs, whichever
      buffer the scan settles on. */
  lemma MissGetsOn(c: Cache, t: nat, a: nat)
    requires Inv(c) && t < |c.pcs| && c.pcs[t].Looking? && !Carried(c, c.pcs[t].key) && a < |c.bufs| && Spare(c.bufs[a])
    ensures exists c1 :: Next(c, Lookup(t), c1)
    ensures forall c1 :: Next(c, Lookup(t), c1) ==>
      Next(c1, Take(t), Taken(c1, t)) && c1.pcs[t].Chosen? && Gotten(Taken(c1, t), t, c.pcs[t].key, c1.pcs[t].b)
  {
    var k := c.pcs[t].key;
    var b := SomeVictim(c.bufs, a);
    assert !Cached(c, k);
    assert Next(c, Lookup(t), SetPc(c, t, Chosen(k, b)));
    forall c1 | Next(c, Lookup(t), c1)
      ensures Next(c1, Take(t), Taken(c1, t)) && c1.pcs[t].Chosen? && Gotten(Taken(c1, t), t, k, c1.pcs[t].b)
    {
      Miss(c, t, c1);
      var x := c.bufs[c1.pcs[t].b];
      assert Spare(x);
      TakeOutcome(c1, t, Taken(c1, t));
      assert Taken(c1, t).holds[|c.holds|] == Hold(t, c1.pcs[t].b, k);
    }
  }

  /** The state after a take, where one can be made. */
  ghost function Taken(c: Cache, t: nat): Cache {
    if Enabled(c, Take(t)) then TakeStep(c, t) else c
  }

  /** Of the unused buffers some is least bad. */
  lemma SomeVictim(bufs: seq<Buf>, a: nat) returns (b: nat)
    requires a < |bufs| && Spare(bufs[a])
    ensures Victim(bufs, b)
  {
    b := a;
    forall d: nat | Idle(bufs, d) ensures Badness(bufs[b]) <= Badness(bufs[d]) {}
  }

  /** Progress on a hit: if the buffer is unlocked, counting in and claiming it is all it needs. */
  lemma HitGetsOn(c: Cache, t: nat, b: nat)
    requires Inv(c) && t < |c.pcs| && c.pcs[t].Looking? && b < |c.bufs| && c.bufs[b].key == c.pcs[t].key &&
      !c.bufs[b].lock
    ensures exists c1 :: Next(c, Lookup(t), c1)
    ensures forall c1 :: Next(c, Lookup(t), c1) ==>
      t < |c1.pcs| && Next(c1, Claim(t), c1.(pcs := c1.pcs[t := Outside])) &&
      Gotten(c1.(pcs := c1.pcs[t := Outside]), t, c.pcs[t].key, b)
  {
    var k := c.pcs[t].key;
    assert Named(c, b, k);
    assert Next(c, Lookup(t), CountIn(c, t, b, k));
    forall c1 | Next(c, Lookup(t), c1)
      ensures t < |c1.pcs| && Next(c1, Claim(t), c1.(pcs := c1.pcs[t := Outside])) &&
        Gotten(c1.(pcs := c1.pcs[t := Outside]), t, k, b)
    {
      Hit(c, t, c1, b);
      assert c1.holds[|c.holds|] == Hold(t, b, k);
    }
  }

  // ----- Reading, writing and letting go

  /** bread's read, step by step: the lock is taken, the request queued, and once the device has done it the buffer has
      the block's data from the disk and is unlocked. */
  lemma ReadGetsOn(c: Cache, h: nat, torn: Data) returns (c1: Cache, c2: Cache, c3: Cache)
    requires Inv(c) && Holding(c, h) && c.queue == []
    requires !c.bufs[c.holds[h].b].lock && !c.bufs[c.holds[h].b].uptodate
    ensures Next(c, LockRead(h), c1) && Next(c1, Issue(c.holds[h].b), c2) && Next(c2, Finish(torn), c3)
    ensures var b := c.holds[h].b;
      c3 == c.(bufs := c.bufs[b := c.bufs[b].(uptodate := true, dirt := false, lock := false,
                                              data := c.disk[c.bufs[b].key])]) &&
      c1.bufs[b].lock && c2.queue == [Request(READ, c.bufs[b].key.dev, 2 * c.bufs[b].key.block, b)]
  {
    var b := c.holds[h].b;
    assert Named(c, b, c.holds[h].key) && BufferCoherent(c, b);
    assert b in c.pending ==> PendingOk(c, b);
    hide Inv, Named, BufferCoherent, PendingOk;
    c1 := Locked(c, b, READ);
    c2 := Issued(c1, b);
    assert c1.pending - {b} == c.pending;
    c3 := FinishStep(c2, torn);
  }

  /** Writing a dirty buffer back: in the end the disk has its data, and it is clean and unlocked. */
  lemma WriteGetsOn(c: Cache, b: nat, torn: Data) returns (c1: Cache, c2: Cache, c3: Cache)
    requires Inv(c) && b < |c.bufs| && c.bufs[b].key.dev != 0 && c.bufs[b].dirt && !c.bufs[b].lock && c.queue == []
    ensures Next(c, LockWrite(b), c1) && Next(c1, Issue(b), c2) && Next(c2, Finish(torn), c3)
    ensures c3 == c.(bufs := c.bufs[b := c.bufs[b].(dirt := false)], disk := c.disk[c.bufs[b].key := c.bufs[b].data])
  {
    assert BufferCoherent(c, b);
    assert b in c.pending ==> PendingOk(c, b);
    c1 := Locked(c, b, WRITE);
    c2 := Issued(c1, b);
    assert c1.pending - {b} == c.pending;
    c3 := FinishStep(c2, torn);
  }

  /** brelse: the buffer counts one user less, and nothing else happens to it or any other. */
  lemma Released(c: Cache, h: nat, c': Cache)
    requires Inv(c) && Next(c, Release(h), c')
    ensures var b := c.holds[h].b;
      c'.bufs == c.bufs[b := c.bufs[b].(count := c.bufs[b].count - 1)] &&
        c' == c.(bufs := c'.bufs, holds := c'.holds) &&
      |c'.holds| == |c.holds| - 1 && forall i :: 0 <= i < |c'.holds| ==>
        c'.holds[i] == c.holds[if i < h then i else i + 1]
  {
  }
}
