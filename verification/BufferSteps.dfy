/** Every step of the buffer cache keeps its invariant. */
module BufferSteps {
  import opened Elevator
  import opened BufferCache

  lemma {:induction false} HeldAppend(hs: seq<Hold>, h: Hold, b: nat)
    ensures Held(hs + [h], b) == Held(hs, b) + (if h.b == b then 1 else 0)
  {
    if hs == [] {
      assert (hs + [h])[1..] == [];
    } else {
      assert (hs + [h])[1..] == hs[1..] + [h];
      HeldAppend(hs[1..], h, b);
    }
  }

  lemma {:induction false} HeldRemove(hs: seq<Hold>, i: nat, b: nat)
    requires i < |hs|
    ensures Held(hs, b) == Held(hs[..i] + hs[i + 1..], b) + (if hs[i].b == b then 1 else 0)
  {
    if i == 0 {
      assert hs[..i] + hs[i + 1..] == hs[1..];
    } else {
      assert (hs[..i] + hs[i + 1..])[1..] == hs[1..][..i - 1] + hs[1..][i..];
      assert hs[1..][i - 1] == hs[i];
      HeldRemove(hs[1..], i - 1, b);
    }
  }

  /** A buffer with count 0 is held by nobody. */
  lemma {:induction false} HeldZero(hs: seq<Hold>, i: nat)
    requires i < |hs|
    ensures Held(hs, hs[i].b) > 0
  {
    if i > 0 {
      assert hs[1..][i - 1] == hs[i];
      HeldZero(hs[1..], i - 1);
    }
  }

  /** A step that moves one task's place in getblk and nothing else. */
  lemma PcKeepsInv(c: Cache, t: nat, p: Pc)
    requires Inv(c) && t < |c.pcs| && PcOk(c, t, p)
    ensures Inv(SetPc(c, t, p))
  {
    var c' := SetPc(c, t, p);
    forall u: nat | u < |c'.pcs| ensures PcOk(c', u, c'.pcs[u]) {
      assert PcOk(c, u, c'.pcs[u]);
    }
    RequestsFrame(c, c');
    CoherentFrame(c, c');
  }

  /** Requests look only at names, locks and marks. */
  lemma RequestsFrame(c: Cache, c': Cache)
    requires RequestsOk(c) && c'.queue == c.queue && c'.pending == c.pending && |c'.bufs| == |c.bufs|
    requires forall b: nat :: b < |c.bufs| ==> var x, x' := c.bufs[b], c'.bufs[b];
      x.lock ==> x'.lock && x'.key == x.key && x'.uptodate == x.uptodate && (x.dirt ==> x'.dirt)
    ensures RequestsOk(c')
  {
    forall i | 0 <= i < |c'.queue| ensures Matches(c', c'.queue[i]) {
      assert Matches(c, c.queue[i]);
    }
    forall b: nat | b in c'.pending ensures PendingOk(c', b) {
      assert PendingOk(c, b);
    }
  }

  lemma CoherentFrame(c: Cache, c': Cache)
    requires Coherent(c) && c'.queue == c.queue && c'.disk == c.disk && |c'.bufs| == |c.bufs|
    requires forall b: nat :: b < |c.bufs| ==> var x, x' := c.bufs[b], c'.bufs[b];
      x'.key == x.key && x'.uptodate == x.uptodate && x'.dirt == x.dirt && x'.data == x.data
    ensures Coherent(c')
  {
    forall b: nat | b < |c'.bufs| ensures BufferCoherent(c', b) {
      assert BufferCoherent(c, b);
    }
  }

  /** Names, counts, holds and places unchanged. */
  ghost predicate SameHolders(c: Cache, c': Cache) {
    |c'.bufs| == |c.bufs| && c'.holds == c.holds && c'.pcs == c.pcs &&
    forall b: nat :: b < |c.bufs| ==> c'.bufs[b].key == c.bufs[b].key && c'.bufs[b].count == c.bufs[b].count
  }

  lemma HoldersFrame(c: Cache, c': Cache)
    requires Inv(c) && SameHolders(c, c')
    ensures Unique(c') && CountsOk(c') && PcsOk(c')
  {
    forall h | 0 <= h < |c'.holds| ensures Named(c', c'.holds[h].b, c'.holds[h].key) && c'.holds[h].key.dev != 0 {
      assert Named(c, c.holds[h].b, c.holds[h].key);
    }
    forall t: nat | t < |c'.pcs| ensures PcOk(c', t, c'.pcs[t]) {
      assert PcOk(c, t, c.pcs[t]);
    }
  }

  lemma CountInKeepsInv(c: Cache, t: nat, b: nat, k: Key)
    requires Inv(c) && t < |c.pcs| && Named(c, b, k) && k.dev != 0
    ensures Inv(CountIn(c, t, b, k))
  {
    var c' := CountIn(c, t, b, k);
    RequestsFrame(c, c');
    CoherentFrame(c, c');
    MoreHeld(c, c', Hold(t, b, k));
    forall u: nat | u < |c'.pcs| ensures PcOk(c', u, c'.pcs[u]) {
      assert c'.holds[|c.holds|] == Hold(t, b, k);
      if u != t {
        assert PcOk(c, u, c.pcs[u]);
      }
    }
  }

  /** One more hold, counted. */
  lemma MoreHeld(c: Cache, c': Cache, h: Hold)
    requires CountsOk(c) && c'.holds == c.holds + [h] && |c'.bufs| == |c.bufs|
    requires Named(c', h.b, h.key) && h.key.dev != 0
    requires forall a: nat :: a < |c.bufs| ==>
      c'.bufs[a].count == c.bufs[a].count + (if a == h.b then 1 else 0) &&
      (c.bufs[a].count > 0 ==> c'.bufs[a].key == c.bufs[a].key)
    ensures CountsOk(c')
  {
    forall a: nat | a < |c'.bufs| ensures c'.bufs[a].count == Held(c'.holds, a) {
      HeldAppend(c.holds, h, a);
    }
    forall i | 0 <= i < |c'.holds| ensures Named(c', c'.holds[i].b, c'.holds[i].key) && c'.holds[i].key.dev != 0 {
      if i < |c.holds| {
        assert Named(c, c.holds[i].b, c.holds[i].key);
        HeldZero(c.holds, i);
      }
    }
  }

  lemma RenameKeepsInv(c: Cache, t: nat, b: nat, k: Key)
    requires Inv(c) && t < |c.pcs| && b < |c.bufs| && k.dev != 0
    requires c.bufs[b].count == 0 && !c.bufs[b].dirt && !c.bufs[b].lock && !Cached(c, k)
    ensures Inv(Rename(c, t, b, k))
  {
    var c' := Rename(c, t, b, k);
    RequestsFrame(c, c');
    MoreHeld(c, c', Hold(t, b, k));
    RenameKeepsUnique(c, t, b, k);
    forall a: nat | a < |c'.bufs| ensures BufferCoherent(c', a) {
      assert BufferCoherent(c, a);
    }
    forall u: nat | u < |c'.pcs| ensures PcOk(c', u, c'.pcs[u]) {
      assert PcOk(c, u, c.pcs[u]);
    }
  }

  lemma RenameKeepsUnique(c: Cache, t: nat, b: nat, k: Key)
    requires Unique(c) && t < |c.pcs| && b < |c.bufs| && !Cached(c, k)
    ensures Unique(Rename(c, t, b, k))
  {
    var c' := Rename(c, t, b, k);
    forall a: nat, d: nat | a < |c'.bufs| && d < |c'.bufs| && c'.bufs[a].key == c'.bufs[d].key &&
      c'.bufs[a].key.dev != 0
      ensures a == d
    {
      assert !Named(c, a, k) && !Named(c, d, k);
    }
  }

  lemma LockKeepsInv(c: Cache, b: nat, cmd: int)
    requires Inv(c) && b < |c.bufs| && !c.bufs[b].lock && c.bufs[b].key.dev != 0
    requires (cmd == READ && !c.bufs[b].uptodate) || (cmd == WRITE && c.bufs[b].dirt)
    ensures Inv(Locked(c, b, cmd))
  {
    var c' := Locked(c, b, cmd);
    HoldersFrame(c, c');
    CoherentFrame(c, c');
    forall i | 0 <= i < |c'.queue| ensures Matches(c', c'.queue[i]) {
      assert Matches(c, c.queue[i]);
    }
    forall a: nat | a in c'.pending ensures PendingOk(c', a) {
      if a == b {
        forall i | 0 <= i < |c.queue| ensures c.queue[i].buf != b { assert Matches(c, c.queue[i]); }
      } else {
        assert PendingOk(c, a);
      }
    }
  }

  /** Where add_request puts the request, seen as a set of requests. */
  lemma InsertIndex(q: seq<Request>, r: Request) returns (k: nat)
    ensures k <= |q| && Insert(q, r) == q[..k] + [r] + q[k..]
  {
    if q == [] {
      k := 0;
    } else {
      k := SplicePoint(q, r, 0) + 1;
    }
  }

  lemma IssueKeepsRequests(c: Cache, b: nat)
    requires Inv(c) && b in c.pending && b < |c.bufs|
    ensures RequestsOk(Issued(c, b))
  {
    assert PendingOk(c, b) && BufferCoherent(c, b);
    var c', r := Issued(c, b), RequestFor(c, b, c.pending[b]);
    var k := InsertIndex(c.queue, r);
    forall i | 0 <= i < |c'.queue| ensures Matches(c', c'.queue[i]) {
      if i != k {
        assert Matches(c, c.queue[if i < k then i else i - 1]);
      }
    }
    forall a: nat | a in c'.pending ensures PendingOk(c', a) {
      assert PendingOk(c, a);
      forall i | 0 <= i < |c'.queue| ensures c'.queue[i].buf != a {
        if i != k { assert c'.queue[i] == c.queue[if i < k then i else i - 1]; }
      }
    }
    OneMore(c.queue, r, k);
  }

  lemma OneMore(q: seq<Request>, r: Request, k: nat)
    requires OnePerBuffer(q) && k <= |q| && !InQueue(q, r.buf)
    ensures OnePerBuffer(q[..k] + [r] + q[k..])
  {
    var q' := q[..k] + [r] + q[k..];
    forall i, j | 0 <= i < |q'| && 0 <= j < |q'| && q'[i].buf == q'[j].buf ensures i == j {
      var i0, j0 := if i < k then i else i - 1, if j < k then j else j - 1;
      assert i != k ==> q'[i] == q[i0];
      assert j != k ==> q'[j] == q[j0];
    }
  }

  lemma IssueKeepsCoherent(c: Cache, b: nat)
    requires Inv(c) && b in c.pending && b < |c.bufs|
    ensures Coherent(Issued(c, b))
  {
    assert PendingOk(c, b) && BufferCoherent(c, b);
    var c', r := Issued(c, b), RequestFor(c, b, c.pending[b]);
    var k := InsertIndex(c.queue, r);
    assert c'.queue[k] == r;
    forall a: nat | a < |c'.bufs| ensures BufferCoherent(c', a) {
      assert BufferCoherent(c, a);
      StillIssued(c.queue, r, k, a);
    }
  }

  lemma StillIssued(q: seq<Request>, r: Request, k: nat, a: nat)
    requires k <= |q|
    ensures WriteIssued(q, a) ==> WriteIssued(q[..k] + [r] + q[k..], a)
  {
    var q' := q[..k] + [r] + q[k..];
    if WriteIssued(q, a) {
      var i :| 0 <= i < |q| && q[i].buf == a && q[i].cmd == WRITE;
      assert q'[if i < k then i else i + 1] == q[i];
    }
  }

  lemma IssueKeepsInv(c: Cache, b: nat)
    requires Inv(c) && b in c.pending && b < |c.bufs|
    ensures Inv(Issued(c, b))
  {
    HoldersFrame(c, Issued(c, b));
    IssueKeepsRequests(c, b);
    IssueKeepsCoherent(c, b);
  }

  /** After the head completes, the rest of the queue is for other buffers. */
  lemma FinishKeepsInv(c: Cache, torn: Data)
    requires Inv(c) && c.queue != []
    ensures c.queue[0].buf < |c.bufs| && KeyOf(c.queue[0]) == c.bufs[c.queue[0].buf].key && Inv(FinishStep(c, torn))
  {
    var r := c.queue[0];
    assert Matches(c, r);
    var c' := FinishStep(c, torn);
    HoldersFrame(c, c');
    assert forall i :: 0 <= i < |c'.queue| ==> c'.queue[i] == c.queue[i + 1];
    forall i | 0 <= i < |c'.queue| ensures Matches(c', c'.queue[i]) {
      assert Matches(c, c.queue[i + 1]);
    }
    forall a: nat | a in c'.pending ensures PendingOk(c', a) {
      assert PendingOk(c, a);
    }
    FinishKeepsCoherent(c, torn);
  }

  lemma FinishKeepsCoherent(c: Cache, torn: Data)
    requires Inv(c) && c.queue != [] && c.queue[0].buf < |c.bufs|
    ensures Coherent(FinishStep(c, torn))
  {
    var r := c.queue[0];
    assert Matches(c, r);
    var c' := FinishStep(c, torn);
    forall a: nat | a < |c'.bufs| ensures BufferCoherent(c', a) {
      assert BufferCoherent(c, a);
      if a != r.buf && WriteIssued(c.queue, a) {
        var i :| 0 <= i < |c.queue| && c.queue[i].buf == a && c.queue[i].cmd == WRITE;
        assert c'.queue[i - 1] == c.queue[i];
      }
    }
  }

  /** A store into a held buffer, or a whole-block fill, or a free_block. */
  lemma StoreKeepsInv(c: Cache, b: nat, x: Buf)
    requires Inv(c) && b < |c.bufs| && x.key == c.bufs[b].key && x.count == c.bufs[b].count && x.lock == c.bufs[b].lock
    requires if x.dirt then x.uptodate && (c.bufs[b].uptodate || !x.lock) else !x.uptodate && !x.lock
    ensures Inv(SetBuf(c, b, x))
  {
    var c' := SetBuf(c, b, x);
    HoldersFrame(c, c');
    assert BufferCoherent(c, b);
    RequestsFrame(c, c');
    forall a: nat | a < |c'.bufs| ensures BufferCoherent(c', a) {
      assert BufferCoherent(c, a);
    }
  }

  lemma ReleaseKeepsInv(c: Cache, h: nat)
    requires Inv(c) && Enabled(c, Release(h))
    ensures Inv(Released(c, h))
  {
    var c', b := Released(c, h), c.holds[h].b;
    RequestsFrame(c, c');
    CoherentFrame(c, c');
    forall a: nat | a < |c'.bufs| ensures c'.bufs[a].count == Held(c'.holds, a) {
      HeldRemove(c.holds, h, a);
    }
    forall i | 0 <= i < |c'.holds| ensures Named(c', c'.holds[i].b, c'.holds[i].key) && c'.holds[i].key.dev != 0 {
      var i0 := if i < h then i else i + 1;
      assert c'.holds[i] == c.holds[i0] && Named(c, c.holds[i0].b, c.holds[i0].key);
    }
    forall t: nat | t < |c'.pcs| ensures PcOk(c', t, c'.pcs[t]) {
      ReleaseKeepsPc(c, h, t);
    }
  }

  /** Somebody else's release leaves a task that is claiming a buffer its own hold. */
  lemma ReleaseKeepsPc(c: Cache, h: nat, t: nat)
    requires PcsOk(c) && Enabled(c, Release(h)) && t < |c.pcs|
    ensures PcOk(Released(c, h), t, c.pcs[t])
  {
    var c' := Released(c, h);
    assert PcOk(c, t, c.pcs[t]);
    if c.pcs[t].Claiming? {
      var i :| 0 <= i < |c.holds| && c.holds[i] == Hold(t, c.pcs[t].b, c.pcs[t].key);
      assert c'.holds[if i < h then i else i - 1] == c.holds[i];
    }
  }

  lemma TakeKeepsInv(c: Cache, t: nat)
    requires Inv(c) && Enabled(c, Take(t))
    ensures Inv(TakeStep(c, t))
  {
    var k, b := c.pcs[t].key, c.pcs[t].b;
    assert PcOk(c, t, c.pcs[t]);
    if c.bufs[b].count > 0 {
      PcKeepsInv(c, t, Looking(k));
    } else if c.bufs[b].dirt {
      PcKeepsInv(c, t, Syncing(k, b));
    } else if Cached(c, k) {
      PcKeepsInv(c, t, Looking(k));
    } else {
      RenameKeepsInv(c, t, b, k);
    }
  }

  lemma LookupKeepsInv(c: Cache, t: nat, c': Cache)
    requires Inv(c) && Next(c, Lookup(t), c')
    ensures Inv(c')
  {
    var k := c.pcs[t].key;
    assert PcOk(c, t, c.pcs[t]);
    if Cached(c, k) {
      var b: nat :| Named(c, b, k) && c' == CountIn(c, t, b, k);
      CountInKeepsInv(c, t, b, k);
    } else if b: nat :| Victim(c.bufs, b) && c' == SetPc(c, t, Chosen(k, b)) {
      PcKeepsInv(c, t, Chosen(k, b));
    } else {
      PcKeepsInv(c, t, Asleep(k));
    }
  }

  /** Whatever a step does, by whichever task or by the disk, the invariant is kept: no two buffers ever carry the
      same block, a held buffer keeps its name, and clean up-to-date buffers agree with the disk. */
  lemma StepKeepsInv(c: Cache, s: Event, c': Cache)
    requires Inv(c) && Next(c, s, c')
    ensures Inv(c')
  {
    match s
    case Begin(t, k) => PcKeepsInv(c, t, Looking(k));
    case Lookup(t) => LookupKeepsInv(c, t, c');
    case Rouse(t) => assert PcOk(c, t, c.pcs[t]); PcKeepsInv(c, t, Looking(c.pcs[t].key));
    case Claim(t) => PcKeepsInv(c, t, Outside);
    case Take(t) => TakeKeepsInv(c, t);
    case Synced(t) => assert PcOk(c, t, c.pcs[t]); PcKeepsInv(c, t, Chosen(c.pcs[t].key, c.pcs[t].b));
    case LockRead(h) => assert Named(c, c.holds[h].b, c.holds[h].key); LockKeepsInv(c, c.holds[h].b, READ);
    case LockWrite(b) => LockKeepsInv(c, b, WRITE);
    case Issue(b) => IssueKeepsInv(c, b);
    case Finish(torn) => FinishKeepsInv(c, torn);
    case Modify(h, v) => StoreKeepsInv(c, c.holds[h].b, c.bufs[c.holds[h].b].(data := v, dirt := true));
    case Fill(h, v) => StoreKeepsInv(c, c.holds[h].b, c.bufs[c.holds[h].b].(data := v, uptodate := true, dirt := true));
    case Forget(h) => StoreKeepsInv(c, c.holds[h].b, c.bufs[c.holds[h].b].(uptodate := false, dirt := false));
    case Release(h) => ReleaseKeepsInv(c, h);
  }
}
