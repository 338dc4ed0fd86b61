/** The two linked structures of the buffer cache, as sequences: the free list, a ring through every buffer, and the
    hash chains. */
module BufferLinks {
  import opened BufferCache
  import opened Links

  const NR_HASH := 307

  function Xor(a: nat, b: nat): nat {
    if a == 0 && b == 0 then 0 else 2 * Xor(a / 2, b / 2) + (a % 2 + b % 2) % 2
  }

  /** Bit `k` of a number. */
  function Bit(a: nat, k: nat): nat {
    if k == 0 then a % 2 else Bit(a / 2, k - 1)
  }

  /** Exclusive or, bit by bit. */
  lemma {:induction false} XorBits(a: nat, b: nat, k: nat)
    ensures Bit(Xor(a, b), k) == if Bit(a, k) == Bit(b, k) then 0 else 1
    decreases k
  {
    if a == 0 && b == 0 {
      ZeroBits(k);
    } else {
      assert Xor(a, b) % 2 == (a % 2 + b % 2) % 2 && Xor(a, b) / 2 == Xor(a / 2, b / 2);
      if k > 0 { XorBits(a / 2, b / 2, k - 1); }
    }
  }

  lemma {:induction false} ZeroBits(k: nat)
    ensures Bit(0, k) == 0
  {
    if k > 0 { ZeroBits(k - 1); }
  }

  /** _hashfn */
  function Hash(k: Key): (h: nat)
    ensures h < NR_HASH
  {
    Xor(k.dev, k.block) % NR_HASH
  }

  // ----- The free list

  function After(ring: seq<int>, i: int): int
    requires 0 <= i < |ring|
  {
    if i + 1 < |ring| then ring[i + 1] else ring[0]
  }

  function Before(ring: seq<int>, i: int): int
    requires 0 <= i < |ring|
  {
    if i > 0 then ring[i - 1] else ring[|ring| - 1]
  }

  ghost predicate Apart(s: seq<int>, i: int, j: int) {
    0 <= i < |s| && 0 <= j < |s| && s[i] == s[j] ==> i == j
  }

  ghost predicate Distinct(s: seq<int>) {
    forall i, j :: Apart(s, i, j)
  }

  ghost predicate Within(s: seq<int>, n: nat) {
    forall i :: 0 <= i < |s| ==> 0 <= s[i] < n
  }

  /** The free-list links of the `i`-th buffer. */
  ghost predicate FreeLinks(ring: seq<int>, nextFree: seq<int>, prevFree: seq<int>, i: int) {
    0 <= i < |ring| && 0 <= ring[i] < |nextFree| == |prevFree| &&
    nextFree[ring[i]] == After(ring, i) && prevFree[ring[i]] == Before(ring, i)
  }

  /** From `head`, the links run once through `ring` and back, both ways. */
  ghost predicate Ring(ring: seq<int>, nextFree: seq<int>, prevFree: seq<int>, head: int) {
    |nextFree| == |prevFree| && ring != [] && Distinct(ring) && head == ring[0] &&
    forall i :: 0 <= i < |ring| ==> FreeLinks(ring, nextFree, prevFree, i)
  }

  /** Where the `i`-th element of what is left came from. */
  function Was(k: nat, i: nat): nat {
    if i < k then i else i + 1
  }

  lemma DropDistinct(s: seq<int>, k: nat)
    requires k < |s| && Distinct(s)
    ensures Distinct(Drop(s, k)) && s[k] !in Drop(s, k)
  {
    var s' := Drop(s, k);
    forall i: int, j: int ensures Apart(s', i, j) {
      if 0 <= i < |s'| && 0 <= j < |s'| {
        assert Apart(s, Was(k, i), Was(k, j));
      }
    }
    forall i | 0 <= i < |s'| ensures s'[i] != s[k] {
      assert Apart(s, Was(k, i), k);
    }
  }

  /** Unlinking the `k`-th of at least two buffers. */
  lemma RingRemove(ring: seq<int>, nf: seq<int>, pf: seq<int>, head: int, k: nat)
    requires Ring(ring, nf, pf, head) && k < |ring| && |ring| > 1
    ensures 0 <= ring[k] < |nf| && 0 <= nf[ring[k]] < |nf| && 0 <= pf[ring[k]] < |nf|
    ensures var b := ring[k];
      Ring(Drop(ring, k), nf[pf[b] := nf[b]], pf[nf[b] := pf[b]], if head == b then nf[b] else head)
  {
    var b, r' := ring[k], Drop(ring, k);
    assert FreeLinks(ring, nf, pf, k);
    var before, after := if k > 0 then k - 1 else |ring| - 1, if k + 1 < |ring| then k + 1 else 0;
    assert FreeLinks(ring, nf, pf, before) && FreeLinks(ring, nf, pf, after);
    DropDistinct(ring, k);
    assert Apart(ring, 0, k);
    var nf', pf' := nf[pf[b] := nf[b]], pf[nf[b] := pf[b]];
    forall i | 0 <= i < |r'| ensures FreeLinks(r', nf', pf', i) {
      assert FreeLinks(ring, nf, pf, Was(k, i));
      assert Apart(ring, Was(k, i), before) && Apart(ring, Was(k, i), after);
    }
  }

  /** Linking `b` in before the head puts it last. */
  lemma RingInsert(ring: seq<int>, nf: seq<int>, pf: seq<int>, head: int, b: nat)
    requires Ring(ring, nf, pf, head) && b < |nf| && b !in ring
    ensures 0 <= head < |pf| && 0 <= pf[head] < |nf|
    ensures Ring(ring + [b], nf[b := head][pf[head] := b], pf[b := pf[head]][head := b], head)
  {
    var r', last := ring + [b], |ring| - 1;
    assert FreeLinks(ring, nf, pf, 0) && FreeLinks(ring, nf, pf, last);
    forall i: int, j: int ensures Apart(r', i, j) {
      assert Apart(ring, i, j);
    }
    var nf', pf' := nf[b := head][ring[last] := b], pf[b := ring[last]][head := b];
    forall i | 0 <= i < |r'| ensures FreeLinks(r', nf', pf', i) {
      if i < |ring| {
        assert FreeLinks(ring, nf, pf, i) && Apart(ring, i, 0) && Apart(ring, i, last);
      }
    }
  }

  // ----- The hash chains

  function Leader(o: seq<int>, i: int): int
    requires 0 <= i < |o|
  {
    if i > 0 then o[i - 1] else NULL
  }

  /** The chain links of the `i`-th buffer of a chain. */
  ghost predicate ChainLinks(o: seq<int>, next: seq<int>, prev: seq<int>, i: int) {
    0 <= i < |o| && 0 <= o[i] < |next| == |prev| && next[o[i]] == Follower(o, i) && prev[o[i]] == Leader(o, i)
  }

  /** The chain from `head` runs through `o`, doubly linked. */
  ghost predicate TwoWay(o: seq<int>, next: seq<int>, prev: seq<int>, head: int) {
    |next| == |prev| && Distinct(o) && head == (if o == [] then NULL else o[0]) &&
    forall i :: 0 <= i < |o| ==> ChainLinks(o, next, prev, i)
  }

  ghost function Relink(links: seq<int>, at: int, v: int): (r: seq<int>)
    requires at == NULL || 0 <= at < |links|
    ensures |r| == |links|
  {
    if at == NULL then links else links[at := v]
  }

  /** Taking the `k`-th buffer out of its chain. */
  lemma ChainRemove(o: seq<int>, next: seq<int>, prev: seq<int>, head: int, k: nat)
    requires TwoWay(o, next, prev, head) && k < |o|
    ensures 0 <= o[k] < |next| && -1 <= prev[o[k]] < |next| && -1 <= next[o[k]] < |next|
    ensures var b := o[k];
      TwoWay(Drop(o, k), Relink(next, prev[b], next[b]), Relink(prev, next[b], prev[b]),
        if head == b then next[b] else head)
  {
    var b, o' := o[k], Drop(o, k);
    assert ChainLinks(o, next, prev, k);
    assert k > 0 ==> ChainLinks(o, next, prev, k - 1);
    assert k + 1 < |o| ==> ChainLinks(o, next, prev, k + 1);
    DropDistinct(o, k);
    assert Apart(o, 0, k);
    var next', prev' := Relink(next, prev[b], next[b]), Relink(prev, next[b], prev[b]);
    forall i | 0 <= i < |o'| ensures ChainLinks(o', next', prev', i) {
      assert ChainLinks(o, next, prev, Was(k, i));
      assert Apart(o, Was(k, i), k - 1) && Apart(o, Was(k, i), k + 1);
    }
  }

  /** Putting `b` at the front of a chain; an empty bucket has no first buffer to link back. */
  lemma ChainInsert(o: seq<int>, next: seq<int>, prev: seq<int>, head: int, b: nat)
    requires TwoWay(o, next, prev, head) && b < |next| && b !in o
    ensures head == NULL || 0 <= head < |prev|
    ensures TwoWay([b] + o, next[b := head], Relink(prev[b := NULL], head, b), b)
  {
    var o' := [b] + o;
    assert o != [] ==> ChainLinks(o, next, prev, 0);
    forall i: int, j: int ensures Apart(o', i, j) {
      assert Apart(o, i - 1, j - 1);
    }
    var next', prev' := next[b := head], Relink(prev[b := NULL], head, b);
    forall i | 0 <= i < |o'| ensures ChainLinks(o', next', prev', i) {
      if i > 0 {
        assert ChainLinks(o, next, prev, i - 1) && Apart(o, i - 1, 0);
      }
    }
  }

  /** A chain does not notice changes to links outside it. */
  lemma ChainFrame(o: seq<int>, next: seq<int>, prev: seq<int>, next': seq<int>, prev': seq<int>, head: int)
    requires TwoWay(o, next, prev, head) && |next'| == |next| && |prev'| == |prev|
    requires forall b :: 0 <= b < |next| && b in o ==> next'[b] == next[b] && prev'[b] == prev[b]
    ensures TwoWay(o, next', prev', head)
  {
    forall i | 0 <= i < |o| ensures ChainLinks(o, next', prev', i) {
      assert ChainLinks(o, next, prev, i);
    }
  }

  // ----- Which buffers are chained where

  /** Each chain holds exactly the named buffers that hash to it, apart from buffer `out`. */
  ghost predicate Sorted(chains: seq<seq<int>>, bufs: seq<Buf>, out: int) {
    |chains| == NR_HASH &&
    (forall h: nat, i: nat :: h < NR_HASH && i < |chains[h]| ==> Belongs(chains[h][i], bufs, h, out)) &&
    (forall b: nat :: b < |bufs| && b != out && bufs[b].key.dev != 0 ==> b in chains[Hash(bufs[b].key)])
  }

  ghost predicate Belongs(b: int, bufs: seq<Buf>, h: nat, out: int) {
    0 <= b < |bufs| && b != out && bufs[b].key.dev != 0 && Hash(bufs[b].key) == h
  }

  ghost predicate Chained(chains: seq<seq<int>>, next: seq<int>, prev: seq<int>, heads: seq<int>) {
    |chains| == |heads| == NR_HASH && |next| == |prev| &&
    forall h: nat :: h < NR_HASH ==> TwoWay(chains[h], next, prev, heads[h])
  }

  /** A buffer without a device has no chain links. */
  ghost predicate LooseEnds(bufs: seq<Buf>, next: seq<int>, prev: seq<int>, out: int) {
    |bufs| == |next| == |prev| &&
    forall b: nat :: b < |bufs| && b != out && bufs[b].key.dev == 0 ==> next[b] == NULL && prev[b] == NULL
  }

  /** The hash chains are right, for all buffers but `out`. */
  ghost predicate Hashed(chains: seq<seq<int>>, bufs: seq<Buf>, next: seq<int>, prev: seq<int>, heads: seq<int>,
    out: int) {
    Sorted(chains, bufs, out) && Chained(chains, next, prev, heads) && LooseEnds(bufs, next, prev, out)
  }

  /** remove_from_queues, hash part. */
  lemma HashRemove(chains: seq<seq<int>>, bufs: seq<Buf>, next: seq<int>, prev: seq<int>, heads: seq<int>, b: nat,
    k: nat)
    requires Hashed(chains, bufs, next, prev, heads, NULL) && b < |bufs| && bufs[b].key.dev != 0
    requires k < |chains[Hash(bufs[b].key)]| && chains[Hash(bufs[b].key)][k] == b
    ensures -1 <= prev[b] < |next| && -1 <= next[b] < |next| && prev[b] != b && next[b] != b
    ensures var h := Hash(bufs[b].key);
      Hashed(chains[h := Drop(chains[h], k)], bufs, Relink(next, prev[b], next[b]), Relink(prev, next[b], prev[b]),
             if heads[h] == b then heads[h := next[b]] else heads, b)
  {
    var h := Hash(bufs[b].key);
    var o := chains[h];
    assert TwoWay(o, next, prev, heads[h]);
    assert ChainLinks(o, next, prev, k);
    ChainRemove(o, next, prev, heads[h], k);
    assert Apart(o, k, k - 1) && Apart(o, k, k + 1);
    RemoveSorted(chains, bufs, b, k);
    RemoveChained(chains, bufs, next, prev, heads, b, k);
    RemoveLoose(chains, bufs, next, prev, b, k);
  }

  lemma RemoveChained(chains: seq<seq<int>>, bufs: seq<Buf>, next: seq<int>, prev: seq<int>, heads: seq<int>, b: nat,
    k: nat)
    requires Sorted(chains, bufs, NULL) && Chained(chains, next, prev, heads) && b < |bufs| == |next|
    requires k < |chains[Hash(bufs[b].key)]| && chains[Hash(bufs[b].key)][k] == b
    requires -1 <= prev[b] < |next| && -1 <= next[b] < |next|
    ensures var h := Hash(bufs[b].key);
      Chained(chains[h := Drop(chains[h], k)], Relink(next, prev[b], next[b]), Relink(prev, next[b], prev[b]),
              if heads[h] == b then heads[h := next[b]] else heads)
  {
    var h := Hash(bufs[b].key);
    var o := chains[h];
    assert TwoWay(o, next, prev, heads[h]);
    assert ChainLinks(o, next, prev, k);
    ChainRemove(o, next, prev, heads[h], k);
    var next', prev' := Relink(next, prev[b], next[b]), Relink(prev, next[b], prev[b]);
    var heads' := if heads[h] == b then heads[h := next[b]] else heads;
    forall g: nat | g < NR_HASH ensures TwoWay(chains[h := Drop(o, k)][g], next', prev', heads'[g]) {
      if g != h {
        assert TwoWay(chains[g], next, prev, heads[g]);
        OtherChain(chains, bufs, g, h, NULL);
        ChainFrame(chains[g], next, prev, next', prev', heads[g]);
      }
    }
  }

  lemma RemoveLoose(chains: seq<seq<int>>, bufs: seq<Buf>, next: seq<int>, prev: seq<int>, b: nat, k: nat)
    requires LooseEnds(bufs, next, prev, NULL) && Sorted(chains, bufs, NULL) && b < |bufs|
    requires k < |chains[Hash(bufs[b].key)]| && chains[Hash(bufs[b].key)][k] == b
    requires ChainLinks(chains[Hash(bufs[b].key)], next, prev, k) && -1 <= prev[b] < |next| && -1 <= next[b] < |next|
    ensures LooseEnds(bufs, Relink(next, prev[b], next[b]), Relink(prev, next[b], prev[b]), b)
  {
    var h := Hash(bufs[b].key);
    assert k > 0 ==> Belongs(chains[h][k - 1], bufs, h, NULL);
    assert k + 1 < |chains[h]| ==> Belongs(chains[h][k + 1], bufs, h, NULL);
  }

  /** Buffers of different buckets are different. */
  lemma OtherChain(chains: seq<seq<int>>, bufs: seq<Buf>, g: nat, h: nat, out: int)
    requires Sorted(chains, bufs, out) && g < NR_HASH && h < NR_HASH && g != h
    ensures forall b :: b in chains[g] ==> b !in chains[h]
  {
    forall i: nat, j: nat | i < |chains[g]| && j < |chains[h]| ensures chains[g][i] != chains[h][j] {
      assert Belongs(chains[g][i], bufs, g, out) && Belongs(chains[h][j], bufs, h, out);
    }
  }

  lemma RemoveSorted(chains: seq<seq<int>>, bufs: seq<Buf>, b: nat, k: nat)
    requires Sorted(chains, bufs, NULL) && b < |bufs| && bufs[b].key.dev != 0
    requires k < |chains[Hash(bufs[b].key)]| && chains[Hash(bufs[b].key)][k] == b && Distinct(chains[Hash(bufs[b].key)])
    ensures var h := Hash(bufs[b].key); Sorted(chains[h := Drop(chains[h], k)], bufs, b)
  {
    var h := Hash(bufs[b].key);
    var o, o' := chains[h], Drop(chains[h], k);
    var chains' := chains[h := o'];
    DropDistinct(o, k);
    forall g: nat, i: nat | g < NR_HASH && i < |chains'[g]| ensures Belongs(chains'[g][i], bufs, g, b) {
      if g == h {
        assert o'[i] == o[if i < k then i else i + 1];
        assert Belongs(o[if i < k then i else i + 1], bufs, h, NULL);
      } else {
        assert Belongs(chains[g][i], bufs, g, NULL);
      }
    }
    forall a: nat | a < |bufs| && a != b && bufs[a].key.dev != 0 ensures a in chains'[Hash(bufs[a].key)] {
      var g := Hash(bufs[a].key);
      var i :| 0 <= i < |chains[g]| && chains[g][i] == a;
      if g == h {
        assert o'[if i < k then i else i - 1] == a;
      }
    }
  }

  /** A buffer without a device was in no chain. */
  lemma HashRemoveLoose(chains: seq<seq<int>>, bufs: seq<Buf>, next: seq<int>, prev: seq<int>, heads: seq<int>, b: nat)
    requires Hashed(chains, bufs, next, prev, heads, NULL) && b < |bufs| && bufs[b].key.dev == 0
    ensures next[b] == NULL && prev[b] == NULL && heads[Hash(bufs[b].key)] != b
    ensures Hashed(chains, bufs, next, prev, heads, b)
  {
    var h := Hash(bufs[b].key);
    assert TwoWay(chains[h], next, prev, heads[h]);
    forall g: nat, i: nat | g < NR_HASH && i < |chains[g]| ensures Belongs(chains[g][i], bufs, g, b) {
      assert Belongs(chains[g][i], bufs, g, NULL);
    }
    if chains[h] != [] {
      assert Belongs(chains[h][0], bufs, h, NULL);
    }
  }

  /** insert_into_queues, hash part: `b` has its new name `x.key`. */
  lemma HashInsert(chains: seq<seq<int>>, bufs: seq<Buf>, next: seq<int>, prev: seq<int>, heads: seq<int>, b: nat)
    requires Hashed(chains, bufs, next, prev, heads, b) && b < |bufs| && bufs[b].key.dev != 0
    ensures heads[Hash(bufs[b].key)] == NULL || 0 <= heads[Hash(bufs[b].key)] < |prev|
    ensures var h := Hash(bufs[b].key);
      Hashed(chains[h := [b] + chains[h]], bufs, next[b := heads[h]], Relink(prev[b := NULL], heads[h], b),
        heads[h := b], NULL)
  {
    var h := Hash(bufs[b].key);
    var o := chains[h];
    assert TwoWay(o, next, prev, heads[h]);
    forall g: nat, i: nat | g < NR_HASH && i < |chains[g]| ensures chains[g][i] != b {
      assert Belongs(chains[g][i], bufs, g, b);
    }
    ChainInsert(o, next, prev, heads[h], b);
    var next', prev', heads' := next[b := heads[h]], Relink(prev[b := NULL], heads[h], b), heads[h := b];
    forall g: nat | g < NR_HASH ensures TwoWay(chains[h := [b] + o][g], next', prev', heads'[g]) {
      if g != h {
        assert TwoWay(chains[g], next, prev, heads[g]);
        OtherChain(chains, bufs, g, h, b);
        ChainFrame(chains[g], next, prev, next', prev', heads[g]);
      }
    }
    InsertSorted(chains, bufs, b);
    assert o != [] ==> Belongs(o[0], bufs, h, b);
  }

  /** insert_into_queues of a buffer without a device. */
  lemma HashInsertLoose(chains: seq<seq<int>>, bufs: seq<Buf>, next: seq<int>, prev: seq<int>, heads: seq<int>, b: nat)
    requires Hashed(chains, bufs, next, prev, heads, b) && b < |bufs|
    ensures Hashed(chains, bufs, next[b := NULL], prev[b := NULL], heads, b)
    ensures bufs[b].key.dev == 0 ==> Hashed(chains, bufs, next[b := NULL], prev[b := NULL], heads, NULL)
  {
    var next', prev' := next[b := NULL], prev[b := NULL];
    forall g: nat, i: nat | g < NR_HASH && i < |chains[g]| ensures Belongs(chains[g][i], bufs, g, NULL) {
      assert Belongs(chains[g][i], bufs, g, b);
    }
    forall g: nat | g < NR_HASH ensures TwoWay(chains[g], next', prev', heads[g]) {
      assert TwoWay(chains[g], next, prev, heads[g]);
      forall i: nat | i < |chains[g]| ensures chains[g][i] != b { assert Belongs(chains[g][i], bufs, g, b); }
      ChainFrame(chains[g], next, prev, next', prev', heads[g]);
    }
  }

  lemma InsertSorted(chains: seq<seq<int>>, bufs: seq<Buf>, b: nat)
    requires Sorted(chains, bufs, b) && b < |bufs| && bufs[b].key.dev != 0
    ensures var h := Hash(bufs[b].key); Sorted(chains[h := [b] + chains[h]], bufs, NULL)
  {
    var h := Hash(bufs[b].key);
    var chains' := chains[h := [b] + chains[h]];
    forall g: nat, i: nat | g < NR_HASH && i < |chains'[g]| ensures Belongs(chains'[g][i], bufs, g, NULL) {
      if g != h {
        assert Belongs(chains[g][i], bufs, g, b);
      } else if i > 0 {
        assert Belongs(chains[h][i - 1], bufs, h, b);
      }
    }
    forall a: nat | a < |bufs| && bufs[a].key.dev != 0 ensures a in chains'[Hash(bufs[a].key)] {
      var g := Hash(bufs[a].key);
      if a == b {
        assert chains'[h][0] == b;
      } else {
        var i :| 0 <= i < |chains[g]| && chains[g][i] == a;
        if g == h { assert chains'[h][i + 1] == a; }
      }
    }
  }

  /** Renaming the buffer that is out of the chains disturbs none of them. */
  lemma RenameOut(chains: seq<seq<int>>, bufs: seq<Buf>, next: seq<int>, prev: seq<int>, heads: seq<int>, b: nat,
    x: Buf)
    requires Hashed(chains, bufs, next, prev, heads, b) && b < |bufs|
    ensures Hashed(chains, bufs[b := x], next, prev, heads, b)
  {
    forall g: nat, i: nat | g < NR_HASH && i < |chains[g]| ensures Belongs(chains[g][i], bufs[b := x], g, b) {
      assert Belongs(chains[g][i], bufs, g, b);
    }
  }

  /** Changing anything but a buffer's name disturbs no chain. */
  lemma SameNameHashed(chains: seq<seq<int>>, bufs: seq<Buf>, next: seq<int>, prev: seq<int>, heads: seq<int>, b: nat,
    x: Buf)
    requires Hashed(chains, bufs, next, prev, heads, NULL) && b < |bufs| && x.key == bufs[b].key
    ensures Hashed(chains, bufs[b := x], next, prev, heads, NULL)
  {
    forall g: nat, i: nat | g < NR_HASH && i < |chains[g]| ensures Belongs(chains[g][i], bufs[b := x], g, NULL) {
      assert Belongs(chains[g][i], bufs, g, NULL);
    }
  }

  /** Main result about the chains: looking along one bucket finds a block exactly when some buffer carries it. */
  lemma ChainHasEveryName(chains: seq<seq<int>>, bufs: seq<Buf>, k: Key)
    requires Sorted(chains, bufs, NULL) && k.dev != 0
    ensures (exists i :: 0 <= i < |chains[Hash(k)]| && CarriedBy(chains[Hash(k)][i], bufs, k)) <==>
            (exists b: nat :: b < |bufs| && bufs[b].key == k)
  {
    if b: nat :| b < |bufs| && bufs[b].key == k {
      var i :| 0 <= i < |chains[Hash(k)]| && chains[Hash(k)][i] == b;
      assert CarriedBy(chains[Hash(k)][i], bufs, k);
    }
  }

  ghost predicate CarriedBy(b: int, bufs: seq<Buf>, k: Key) {
    0 <= b < |bufs| && bufs[b].key == k
  }
}
