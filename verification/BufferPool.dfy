/** The buffer heads themselves: getblk's pointer work, turn by turn between its sleeps. */
module BufferPool {
  import opened BufferCache
  import opened BufferLinks
  import opened Links

  const BLOCK_SIZE := 1024
  const HEAD_SIZE := 36           // sizeof(struct buffer_head)
  const HOLE_START := 0xA0000     // video memory and BIOS
  const HOLE_END := 0x100000

  /** The memory at `a` and at `b` does not overlap. */
  predicate BlocksApart(a: nat, b: nat) {
    a + BLOCK_SIZE <= b || b + BLOCK_SIZE <= a
  }

  /** Data blocks carved for buffers: apart from one another, from the heads, and from the hole. */
  ghost predicate Carved(data: seq<nat>, start: nat, end: nat) {
    (forall i, j :: 0 <= i < j < |data| ==> BlocksApart(data[i], data[j])) &&
    (forall i :: 0 <= i < |data| ==>
      start + HEAD_SIZE * |data| <= data[i] && data[i] + BLOCK_SIZE <= end &&
      (data[i] + BLOCK_SIZE <= HOLE_START || HOLE_END <= data[i]))
  }

  /** The loop of buffer_init: blocks from the top down, heads from the bottom up, until they meet. */
  method Carve(start: nat, end: nat) returns (data: seq<nat>)
    requires start + HEAD_SIZE + BLOCK_SIZE <= HOLE_START && HOLE_END <= end && end % BLOCK_SIZE == 0
    ensures data != [] && Carved(data, start, end)
  {
    var b: int := if end == HOLE_END then HOLE_START else end;
    data := [];
    b := b - BLOCK_SIZE;
    while b >= start + HEAD_SIZE * (|data| + 1)
      invariant b % BLOCK_SIZE == 0 && b + BLOCK_SIZE <= end
      invariant b + BLOCK_SIZE <= HOLE_START || HOLE_END <= b
      invariant forall i :: 0 <= i < |data| ==> b + BLOCK_SIZE <= data[i]
      invariant data == [] ==> b >= HOLE_START - BLOCK_SIZE
      invariant Carved(data, start, end)
      decreases b
    {
      data := data + [b];
      if b == HOLE_END {
        b := HOLE_START;
      }
      b := b - BLOCK_SIZE;
    }
  }

  function Up(n: nat): (s: seq<int>)
    ensures |s| == n && forall i :: 0 <= i < n ==> s[i] == i
  {
    seq(n, i => i)
  }

  lemma FreshRing(n: nat, nf: seq<int>, pf: seq<int>)
    requires 0 < n == |nf| == |pf|
    requires forall i :: 0 <= i < n ==>
      nf[i] == (if i + 1 < n then i + 1 else 0) && pf[i] == (if i > 0 then i - 1 else n - 1)
    ensures Ring(Up(n), nf, pf, 0)
  {
    forall i | 0 <= i < n ensures FreeLinks(Up(n), nf, pf, i) {}
    forall i: int, j: int ensures Apart(Up(n), i, j) {}
  }

  /** The scan has seen `i` buffers of the free list; `bh` is the first of the least bad unused ones, at place `k`. */
  ghost predicate BestSoFar(ring: seq<int>, bufs: seq<Buf>, i: nat, bh: int, k: nat)
    requires i <= |ring| && Within(ring, |bufs|)
  {
    if bh == NULL then forall j :: 0 <= j < i ==> bufs[ring[j]].count > 0
    else k < i && ring[k] == bh && FirstBest(ring, bufs, i, k)
  }

  ghost predicate FirstBest(ring: seq<int>, bufs: seq<Buf>, i: nat, k: nat)
    requires k < i <= |ring| && Within(ring, |bufs|)
  {
    bufs[ring[k]].count == 0 &&
    forall j :: 0 <= j < i && bufs[ring[j]].count == 0 ==>
      Badness(bufs[ring[k]]) <= Badness(bufs[ring[j]]) && (j < k ==> Badness(bufs[ring[k]]) < Badness(bufs[ring[j]]))
  }

  class Pool {
    const bufs: array<Buf>
    const next: array<int>
    const prev: array<int>
    const nextFree: array<int>
    const prevFree: array<int>
    const hashTable: array<int>
    var freeList: int
    ghost var ring: seq<int>
    ghost var chains: seq<seq<int>>

    ghost predicate Shape() {
      0 < bufs.Length == next.Length == prev.Length == nextFree.Length == prevFree.Length &&
        hashTable.Length == NR_HASH &&
      next != prev && next != nextFree && next != prevFree && next != hashTable && prev != nextFree &&
        prev != prevFree &&
      prev != hashTable && nextFree != prevFree && nextFree != hashTable && prevFree != hashTable
    }

    ghost predicate ChainsOk(out: int)
      reads this, bufs, next, prev, hashTable
    {
      Hashed(chains, bufs[..], next[..], prev[..], hashTable[..], out)
    }

    /** The free list is one ring through every buffer, except `out` (which a list of one cannot lose). */
    ghost predicate FreeOk(out: int)
      reads this, nextFree, prevFree
    {
      Ring(ring, nextFree[..], prevFree[..], freeList) &&
      (forall b: nat :: b < nextFree.Length && b != out ==> b in ring) &&
      (out == NULL || if nextFree.Length > 1 then out !in ring else ring == [out])
    }

    ghost predicate Valid()
      reads this, bufs, next, prev, nextFree, prevFree, hashTable
    {
      Shape() && ChainsOk(NULL) && FreeOk(NULL)
    }

    /** buffer_init for `n` buffers. */
    constructor (n: nat)
      requires n > 0
      ensures Valid() && fresh(bufs) && fresh(next) && fresh(prev) && fresh(nextFree) && fresh(prevFree)
      ensures fresh(hashTable)
      ensures ring == Up(n) && freeList == 0 && chains == seq(NR_HASH, _ => [])
      ensures bufs[..] == seq(n, _ => Buf(Key(0, 0), false, false, 0, false, []))
    {
      bufs := new Buf[n](_ => Buf(Key(0, 0), false, false, 0, false, []));
      next := new int[n](_ => NULL);
      prev := new int[n](_ => NULL);
      nextFree := new int[n](i => if i + 1 < n then i + 1 else 0);
      prevFree := new int[n](i => if i > 0 then i - 1 else n - 1);
      hashTable := new int[NR_HASH](_ => NULL);
      freeList := 0;
      ring := Up(n);
      chains := seq(NR_HASH, _ => []);
      new;
      FreshRing(n, nextFree[..], prevFree[..]);
      forall b: nat | b < n ensures b in ring { assert ring[b] == b; }
    }

    /** remove_from_queues, the hash queue. */
    method RemoveFromChain(b: nat)
      requires Shape() && ChainsOk(NULL) && b < bufs.Length
      modifies this`chains, next, prev, hashTable
      ensures ChainsOk(b)
      ensures bufs[b].key.dev == 0 ==> chains == old(chains)
    {
      ghost var key, bs, ns, ps, hs := bufs[b].key, bufs[..], next[..], prev[..], hashTable[..];
      ghost var was, k := chains, 0;
      var h := Hash(bufs[b].key);
      if bufs[b].key.dev != 0 {
        k :| 0 <= k < |chains[h]| && chains[h][k] == b;
        HashRemove(chains, bs, ns, ps, hs, b, k);
      } else {
        HashRemoveLoose(chains, bs, ns, ps, hs, b);
      }
      if next[b] != NULL {
        prev[next[b]] := prev[b];
      }
      if prev[b] != NULL {
        next[prev[b]] := next[b];
      }
      if hashTable[h] == b {
        hashTable[h] := next[b];
      }
      if key.dev != 0 {
        chains := chains[h := Drop(chains[h], k)];
      }
      assert next[..] == Relink(ns, ps[b], ns[b]);
      assert prev[..] == Relink(ps, ns[b], ps[b]);
      assert hashTable[..] == if hs[h] == b then hs[h := ns[b]] else hs;
    }

    /** remove_from_queues, the free list. */
    method RemoveFromRing(b: nat)
      requires Shape() && FreeOk(NULL) && b < bufs.Length
      modifies this`ring, this`freeList, nextFree, prevFree
      ensures FreeOk(b)
      ensures forall k :: 0 <= k < |old(ring)| && old(ring)[k] == b && bufs.Length > 1 ==> ring == Drop(old(ring), k)
      ensures bufs.Length == 1 ==> ring == old(ring) == [b]
    {
      ghost var nf, pf, head, was := nextFree[..], prevFree[..], freeList, ring;
      assert b in ring;
      ghost var k: nat :| k < |ring| && ring[k] == b;
      RingCounts(was, nf, pf, head, k);
      assert forall j :: Apart(was, k, j);
      nextFree[prevFree[b]] := nextFree[b];
      prevFree[nextFree[b]] := prevFree[b];
      if freeList == b {
        freeList := nextFree[b];
      }
      if bufs.Length > 1 {
        RingRemove(was, nf, pf, head, k);
        ring := Drop(was, k);
        assert nextFree[..] == nf[pf[b] := nf[b]];
        assert prevFree[..] == pf[nf[b] := pf[b]];
        DropKeepsTheRest(was, k);
      } else {
        assert nextFree[..] == nf && prevFree[..] == pf;
      }
    }

    /** remove_from_queues */
    method RemoveFromQueues(b: nat)
      requires Valid() && b < bufs.Length
      modifies this, next, prev, nextFree, prevFree, hashTable
      ensures Shape() && ChainsOk(b) && FreeOk(b)
      ensures forall k :: 0 <= k < |old(ring)| && old(ring)[k] == b && bufs.Length > 1 ==> ring == Drop(old(ring), k)
      ensures bufs.Length == 1 ==> ring == old(ring) == [b]
    {
      RemoveFromChain(b);
      RemoveFromRing(b);
    }

    /** insert_into_queues, the free list. */
    method InsertIntoRing(b: nat)
      requires Shape() && FreeOk(b) && b < bufs.Length
      modifies this`ring, nextFree, prevFree
      ensures FreeOk(NULL)
      ensures ring == if bufs.Length > 1 then old(ring) + [b] else old(ring)
    {
      ghost var nf, pf, head, was := nextFree[..], prevFree[..], freeList, ring;
      assert FreeLinks(was, nf, pf, 0) && FreeLinks(was, nf, pf, |was| - 1);
      nextFree[b] := freeList;
      prevFree[b] := prevFree[freeList];
      nextFree[prevFree[freeList]] := b;
      prevFree[freeList] := b;
      if bufs.Length > 1 {
        RingInsert(was, nf, pf, head, b);
        ring := was + [b];
        assert nextFree[..] == nf[b := head][pf[head] := b];
        assert prevFree[..] == pf[b := pf[head]][head := b];
        assert forall x :: x in was ==> x in ring;
        assert ring[|was|] == b;
      } else {
        assert nextFree[..] == nf && prevFree[..] == pf;
      }
    }

    /** insert_into_queues, the hash queue.  The first link of the old front is only written when there is one. */
    method InsertIntoChain(b: nat)
      requires Shape() && ChainsOk(b) && b < bufs.Length
      modifies this`chains, next, prev, hashTable
      ensures ChainsOk(NULL)
    {
      ghost var bs, ns, ps, hs := bufs[..], next[..], prev[..], hashTable[..];
      HashInsertLoose(chains, bs, ns, ps, hs, b);
      prev[b] := NULL;
      next[b] := NULL;
      assert next[..] == ns[b := NULL] && prev[..] == ps[b := NULL];
      if bufs[b].key.dev == 0 {
        return;
      }
      ghost var ns1, ps1 := next[..], prev[..];
      var h := Hash(bufs[b].key);
      HashInsert(chains, bs, ns1, ps1, hs, b);
      next[b] := hashTable[h];
      hashTable[h] := b;
      if next[b] != NULL {
        prev[next[b]] := b;
      }
      chains := chains[h := [b] + chains[h]];
      assert next[..] == ns1[b := hs[h]];
      assert prev[..] == Relink(ps1[b := NULL], hs[h], b);
      assert hashTable[..] == hs[h := b];
    }

    /** The last lines of getblk: the buffer gets its new name, goes to the end of the free list, and to the front of
        its hash chain. Nothing else about any buffer changes. */
    method Reassign(b: nat, k: Key)
      requires Valid() && b < bufs.Length
      modifies this, bufs, next, prev, nextFree, prevFree, hashTable
      ensures Valid()
      ensures bufs[..] == old(bufs[..])[b := Renamed(old(bufs[b]), k)]
      ensures ring[|ring| - 1] == b
      ensures forall i :: 0 <= i < |old(ring)| && old(ring)[i] == b ==> ring == Drop(old(ring), i) + [b]
    {
      ghost var bs := bufs[..];
      bufs[b] := bufs[b].(count := 1, dirt := false, uptodate := false);
      SameNameHashed(chains, bs, next[..], prev[..], hashTable[..], b, bufs[b]);
      assert bufs[..] == bs[b := bufs[b]];
      RemoveFromQueues(b);
      ghost var bs1 := bufs[..];
      bufs[b] := bufs[b].(key := k);
      RenameOut(chains, bs1, next[..], prev[..], hashTable[..], b, bufs[b]);
      assert bufs[..] == bs1[b := bufs[b]];
      InsertIntoRing(b);
      InsertIntoChain(b);
      assert Drop([b as int], 0) + [b] == [b];
    }

    /** find_buffer: the one buffer that carries a block, or none. */
    method FindBuffer(k: Key) returns (b: int)
      requires Shape() && ChainsOk(NULL)
      ensures -1 <= b < bufs.Length
      ensures b >= 0 ==> bufs[b].key == k && k.dev != 0
      ensures b == NULL && k.dev != 0 ==> forall a: nat :: a < bufs.Length ==> bufs[a].key != k
    {
      var h := Hash(k);
      ghost var o, i := chains[h], 0;
      assert TwoWay(o, next[..], prev[..], hashTable[h]);
      b := hashTable[h];
      while b != NULL && bufs[b].key != k
        invariant 0 <= i <= |o| && b == (if i < |o| then o[i] else NULL)
        invariant b == NULL || 0 <= b < bufs.Length
        invariant forall j :: 0 <= j < i ==> 0 <= o[j] < bufs.Length && bufs[o[j]].key != k
        decreases |o| - i
      {
        assert ChainLinks(o, next[..], prev[..], i);
        i := i + 1;
        b := next[b];
      }
      if b == NULL {
        assert forall a: nat :: a < bufs.Length && bufs[..][a].key == k && k.dev != 0 ==> a in o;
      } else {
        assert Belongs(o[i], bufs[..], h, NULL);
      }
    }

    /** getblk's scan of the free list: the first of the least bad unused buffers, counting from the head of the
        list. */
    method Scan() returns (bh: int)
      requires Valid()
      ensures bh == NULL ==> forall b: nat :: !Idle(bufs[..], b)
      ensures bh != NULL ==> 0 <= bh && Victim(bufs[..], bh)
      ensures Within(ring, bufs.Length)
      ensures bh != NULL ==> exists k: nat :: k < |ring| && ring[k] == bh && FirstBest(ring, bufs[..], |ring|, k)
    {
      RingWithin(ring, nextFree[..], prevFree[..], freeList);
      var tmp, done := freeList, false;
      ghost var i: nat, k: nat := 0, 0;
      bh := NULL;
      while !done
        invariant i <= |ring| && (done <==> i == |ring|) && (!done ==> tmp == ring[i])
        invariant bh == NULL || 0 <= bh < bufs.Length
        invariant BestSoFar(ring, bufs[..], i, bh, k)
        decreases |ring| - i
      {
        if bufs[tmp].count == 0 && (bh == NULL || Badness(bufs[tmp]) < Badness(bufs[bh])) {
          bh, k := tmp, i;
          if Badness(bufs[tmp]) == 0 {
            assert FirstBest(ring, bufs[..], |ring|, k);
            break;
          }
        }
        assert FreeLinks(ring, nextFree[..], prevFree[..], i);
        assert Apart(ring, 0, i + 1);
        tmp := nextFree[tmp];
        i := i + 1;
        done := tmp == freeList;
      }
      BestIsVictim(ring, bufs[..], bh, k);
    }

    /** One turn of getblk from `repeat:` to its first sleep: a step of the cache's state machine. */
    method LookUp(t: nat, k: Key, ghost c: Cache) returns (p: Pc, ghost c': Cache)
      requires Valid() && k.dev != 0
      requires c.bufs == bufs[..] && t < |c.pcs| && c.pcs[t] == Looking(k)
      modifies bufs
      ensures Valid()
      ensures Next(c, Lookup(t), c') && c'.bufs == bufs[..] && t < |c'.pcs| && c'.pcs[t] == p
      ensures Within(ring, bufs.Length)
      ensures p.Chosen? ==>
        exists i: nat :: i < |ring| && ring[i] == p.b && FirstBest(ring, bufs[..], |ring|, i)
    {
      RingWithin(ring, nextFree[..], prevFree[..], freeList);
      var b := FindBuffer(k);
      if b != NULL {
        bufs[b] := bufs[b].(count := bufs[b].count + 1);
        p, c' := Claiming(k, b), CountIn(c, t, b, k);
        assert bufs[..] == c'.bufs;
        SameNameHashed(chains, c.bufs, next[..], prev[..], hashTable[..], b, bufs[b]);
        assert Named(c, b, k);
      } else {
        assert forall a: nat :: !Named(c, a, k);
        b := Scan();
        p := if b == NULL then Asleep(k) else Chosen(k, b);
        c' := SetPc(c, t, p);
      }
    }

    /** getblk once its victim is unlocked: check it again, and take it: a step of the cache's state machine. */
    method TakeOver(t: nat, k: Key, b: nat, ghost c: Cache) returns (p: Pc, ghost c': Cache)
      requires Valid() && k.dev != 0 && b < bufs.Length && !bufs[b].lock
      requires c.bufs == bufs[..] && t < |c.pcs| && c.pcs[t] == Chosen(k, b)
      modifies this, bufs, next, prev, nextFree, prevFree, hashTable
      ensures Valid()
      ensures Next(c, Take(t), c') && c'.bufs == bufs[..] && t < |c'.pcs| && c'.pcs[t] == p
    {
      if bufs[b].count > 0 {
        p := Looking(k);
      } else if bufs[b].dirt {
        p := Syncing(k, b);
      } else {
        var found := FindBuffer(k);
        if found != NULL {
          assert Named(c, found, k);
          p := Looking(k);
        } else {
          assert forall a: nat :: !Named(c, a, k);
          Reassign(b, k);
          p := Outside;
        }
      }
      c' := TakeStep(c, t);
    }
  }

  lemma RingWithin(ring: seq<int>, nf: seq<int>, pf: seq<int>, head: int)
    requires Ring(ring, nf, pf, head)
    ensures Within(ring, |nf|)
  {
    forall i | 0 <= i < |ring| ensures 0 <= ring[i] < |nf| {
      assert FreeLinks(ring, nf, pf, i);
    }
  }

  lemma BestIsVictim(ring: seq<int>, bufs: seq<Buf>, bh: int, k: nat)
    requires Within(ring, |bufs|) && (forall b: nat :: b < |bufs| ==> b in ring)
    requires bh == NULL ==> forall j :: 0 <= j < |ring| ==> bufs[ring[j]].count > 0
    requires bh != NULL ==> k < |ring| && ring[k] == bh && FirstBest(ring, bufs, |ring|, k)
    ensures if bh == NULL then forall b: nat :: !Idle(bufs, b) else 0 <= bh && Victim(bufs, bh)
  {
    forall b: nat | Idle(bufs, b) ensures bh != NULL && Badness(bufs[bh]) <= Badness(bufs[b]) {
      assert b in ring;
    }
  }

  lemma DropKeepsTheRest(s: seq<int>, k: nat)
    requires k < |s| && Distinct(s)
    ensures s[k] !in Drop(s, k) && forall x :: x in s && x != s[k] ==> x in Drop(s, k)
  {
    DropDistinct(s, k);
    forall x | x in s && x != s[k] ensures x in Drop(s, k) {
      var i :| 0 <= i < |s| && s[i] == x;
      assert Drop(s, k)[if i < k then i else i - 1] == x;
    }
  }

  /** A ring through all of at least two buffers has at least two places; a ring on one buffer is that buffer. */
  lemma RingCounts(ring: seq<int>, nf: seq<int>, pf: seq<int>, head: int, k: nat)
    requires Ring(ring, nf, pf, head) && k < |ring| && forall b: nat :: b < |nf| ==> b in ring
    ensures 0 <= ring[k] < |nf| == |pf| && 0 <= nf[ring[k]] < |nf| && 0 <= pf[ring[k]] < |nf|
    ensures |nf| > 1 ==> |ring| > 1 && nf[ring[k]] != ring[k] && pf[ring[k]] != ring[k]
    ensures |nf| == 1 ==> ring == [0] && nf == [0] && pf == [0]
  {
    assert FreeLinks(ring, nf, pf, k);
    assert FreeLinks(ring, nf, pf, if k > 0 then k - 1 else |ring| - 1);
    assert FreeLinks(ring, nf, pf, if k + 1 < |ring| then k + 1 else 0);
    assert Apart(ring, k, if k > 0 then k - 1 else |ring| - 1);
    assert Apart(ring, k, if k + 1 < |ring| then k + 1 else 0);
    if |nf| > 1 {
      assert 0 in ring && 1 in ring;
    } else if |ring| > 1 {
      TwoPlaces(ring, nf, pf, head);
    }
  }

  lemma TwoPlaces(ring: seq<int>, nf: seq<int>, pf: seq<int>, head: int)
    requires Ring(ring, nf, pf, head) && |ring| > 1
    ensures |nf| > 1
  {
    assert FreeLinks(ring, nf, pf, 0) && FreeLinks(ring, nf, pf, 1) && Apart(ring, 0, 1);
  }
}
