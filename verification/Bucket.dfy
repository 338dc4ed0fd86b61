/** The kernel allocator: pages cut into objects of one size each, with the free ones of each page in a list. */
module Bucket {

  const PAGE_SIZE := 4096
  const DESCS_PER_PAGE := 256       // PAGE_SIZE / sizeof(struct bucket_desc)
  const SIZES := [16, 32, 64, 128, 256, 512, 1024, 2048, 4096]

  /** A bucket: its page, and the objects on its free list in order. */
  datatype Page = Page(base: nat, free: seq<nat>)

  /** `chains` has the buckets of each size, first in chain first; `spare` counts the free descriptors. */
  datatype Heap = Heap(chains: seq<seq<Page>>, spare: nat, descPages: set<nat>, pool: set<nat>)

  function Capacity(k: nat): (n: nat)
    requires k < |SIZES|
    ensures n > 0 && n * SIZES[k] == PAGE_SIZE
  {
    PAGE_SIZE / SIZES[k]
  }

  /** The `j`-th object of a page. */
  function Slot(base: nat, k: nat, j: nat): nat
    requires k < |SIZES|
  {
    base + j * SIZES[k]
  }

  ghost predicate OnPage(base: nat, k: nat, a: nat)
    requires k < |SIZES|
  {
    exists j: nat :: j < Capacity(k) && Slot(base, k, j) == a
  }

  ghost predicate Distinct(s: seq<nat>) {
    forall i, j :: 0 <= i < j < |s| ==> s[i] != s[j]
  }

  /** Objects in use: what the descriptor keeps in `refcnt`. */
  function Refcnt(k: nat, p: Page): int
    requires k < |SIZES|
  {
    Capacity(k) - |p.free|
  }

  /** The free list holds different objects of this page. */
  ghost predicate PageFits(k: nat, p: Page)
    requires k < |SIZES|
  {
    p.base > 0 && p.base % PAGE_SIZE == 0 && Distinct(p.free) && Refcnt(k, p) >= 0 &&
    forall a :: a in p.free ==> OnPage(p.base, k, a)
  }

  /** Also, at least one object is in use. */
  ghost predicate PageOk(k: nat, p: Page)
    requires k < |SIZES|
  {
    PageFits(k, p) && Refcnt(k, p) > 0
  }

  /** The `i`-th bucket of chain `k` is on page `base`. */
  ghost predicate Bucketed(h: Heap, k: nat, i: nat, base: nat) {
    k < |h.chains| && i < |h.chains[k]| && h.chains[k][i].base == base
  }

  ghost predicate UsesPage(h: Heap, base: nat) {
    exists k: nat, i: nat :: Bucketed(h, k, i, base)
  }

  ghost predicate PagesOk(h: Heap) {
    |h.chains| == |SIZES| &&
    forall k: nat, i: nat :: k < |h.chains| && i < |h.chains[k]| ==> PageOk(k, h.chains[k][i])
  }

  /** No page is two buckets, and none is also free or holds descriptors. */
  ghost predicate PagesApart(h: Heap) {
    (forall k: nat, i: nat, l: nat, j: nat, b: nat :: Bucketed(h, k, i, b) && Bucketed(h, l, j, b) ==>
      k == l && i == j) &&
    (forall b: nat :: UsesPage(h, b) ==> b !in h.pool && b !in h.descPages) &&
    h.pool !! h.descPages
  }

  function Buckets(chains: seq<seq<Page>>): nat {
    if chains == [] then 0 else |chains[0]| + Buckets(chains[1..])
  }

  /** Descriptors in chains and spare ones are all there are. */
  ghost predicate DescsConserved(h: Heap) {
    h.spare + Buckets(h.chains) == DESCS_PER_PAGE * |h.descPages|
  }

  ghost predicate PoolOk(h: Heap) {
    forall b :: b in h.pool ==> b > 0 && b % PAGE_SIZE == 0
  }

  ghost predicate Inv(h: Heap) {
    PagesOk(h) && PagesApart(h) && DescsConserved(h) && PoolOk(h)
  }

  // ----- Objects in use

  /** Object `a` is in use, in the `i`-th bucket of chain `k`. */
  ghost predicate LiveIn(h: Heap, a: nat, k: nat, i: nat) {
    k < |h.chains| == |SIZES| && i < |h.chains[k]| && OnPage(h.chains[k][i].base, k, a) && a !in h.chains[k][i].free
  }

  /** Object `a` is in use, with room for `size` bytes. */
  ghost predicate Live(h: Heap, a: nat, size: nat) {
    exists k: nat, i: nat :: LiveIn(h, a, k, i) && SIZES[k] == size
  }

  lemma SizesAscend(k: nat, l: nat)
    requires k <= l < |SIZES|
    ensures 16 <= SIZES[k] <= SIZES[l] <= PAGE_SIZE && PAGE_SIZE % SIZES[k] == 0
  {
  }

  lemma Multiples(i: nat, j: nat, size: nat)
    requires i < j
    ensures i * size + size <= j * size
  {
    assert (j - i - 1) * size >= 0;
    assert j * size == i * size + size + (j - i - 1) * size;
  }

  /** An object lies inside its page, and its page is the one found by clearing the low bits of its address. */
  lemma InsidePage(base: nat, k: nat, a: nat)
    requires k < |SIZES| && OnPage(base, k, a) && base % PAGE_SIZE == 0
    ensures base <= a && a + SIZES[k] <= base + PAGE_SIZE && base == a - a % PAGE_SIZE
  {
    var j: nat :| j < Capacity(k) && Slot(base, k, j) == a;
    Multiples(j, Capacity(k), SIZES[k]);
    PageOf(base, a);
  }

  lemma PageOf(base: nat, a: nat)
    requires base % PAGE_SIZE == 0 && base <= a < base + PAGE_SIZE
    ensures base == a - a % PAGE_SIZE
  {
  }

  /** Two objects of the same page do not overlap. */
  lemma SlotsApart(base: nat, k: nat, a: nat, b: nat)
    requires k < |SIZES| && OnPage(base, k, a) && OnPage(base, k, b) && a != b
    ensures a + SIZES[k] <= b || b + SIZES[k] <= a
  {
    var i: nat :| i < Capacity(k) && Slot(base, k, i) == a;
    var j: nat :| j < Capacity(k) && Slot(base, k, j) == b;
    if i < j {
      Multiples(i, j, SIZES[k]);
    } else if j < i {
      Multiples(j, i, SIZES[k]);
    }
  }

  lemma SameBucket(h: Heap, k: nat, i: nat, l: nat, j: nat)
    requires PagesApart(h) && k < |h.chains| && i < |h.chains[k]| && l < |h.chains| && j < |h.chains[l]|
    requires h.chains[k][i].base == h.chains[l][j].base
    ensures k == l && i == j
  {
    assert Bucketed(h, k, i, h.chains[k][i].base) && Bucketed(h, l, j, h.chains[k][i].base);
  }

  /** An object in use is on a page that is neither free nor a descriptor page. */
  lemma LiveInPage(h: Heap, a: nat, k: nat, i: nat)
    requires Inv(h) && LiveIn(h, a, k, i)
    ensures var b := h.chains[k][i].base;
      b == a - a % PAGE_SIZE && b <= a && a + SIZES[k] <= b + PAGE_SIZE && b !in h.pool && b !in h.descPages
  {
    var p := h.chains[k][i];
    assert PageOk(k, p);
    InsidePage(p.base, k, a);
    assert Bucketed(h, k, i, p.base) && UsesPage(h, p.base);
  }

  lemma PagesAreApart(b: nat, c: nat)
    requires b % PAGE_SIZE == 0 && c % PAGE_SIZE == 0 && b != c
    ensures b + PAGE_SIZE <= c || c + PAGE_SIZE <= b
  {
  }

  lemma LiveInApart(h: Heap, a: nat, k: nat, i: nat, b: nat, l: nat, j: nat)
    requires Inv(h) && LiveIn(h, a, k, i) && LiveIn(h, b, l, j)
    ensures if a == b then k == l && i == j else a + SIZES[k] <= b || b + SIZES[l] <= a
  {
    var p, q := h.chains[k][i].base, h.chains[l][j].base;
    LiveInPage(h, a, k, i);
    LiveInPage(h, b, l, j);
    if p == q {
      SameBucket(h, k, i, l, j);
      if a != b { SlotsApart(p, k, a, b); }
    } else {
      PagesAreApart(p, q);
    }
  }

  /** Objects in use are pairwise disjoint, each inside its own page, which is neither free nor a descriptor page. */
  lemma LiveObjectsApart(h: Heap, a: nat, m: nat, b: nat, n: nat)
    requires Inv(h) && Live(h, a, m) && Live(h, b, n)
    ensures if a == b then m == n else a + m <= b || b + n <= a
    ensures a + m <= a - a % PAGE_SIZE + PAGE_SIZE
    ensures a - a % PAGE_SIZE !in h.pool && a - a % PAGE_SIZE !in h.descPages
  {
    var k: nat, i: nat :| LiveIn(h, a, k, i) && SIZES[k] == m;
    var l: nat, j: nat :| LiveIn(h, b, l, j) && SIZES[l] == n;
    LiveInPage(h, a, k, i);
    LiveInApart(h, a, k, i, b, l, j);
  }

  // ----- malloc

  /** The least size that fits, or |SIZES| when the request is impossibly large. */
  function Fit(len: nat, k: nat): (r: nat)
    requires k <= |SIZES|
    ensures k <= r <= |SIZES|
    ensures r < |SIZES| ==> SIZES[r] >= len
    ensures forall l :: k <= l < r ==> SIZES[l] < len
    decreases |SIZES| - k
  {
    if k == |SIZES| || SIZES[k] >= len then k else Fit(len, k + 1)
  }

  /** The first bucket of a chain with a free object. */
  function Room(chain: seq<Page>, i: nat): (r: nat)
    requires i <= |chain|
    ensures i <= r <= |chain|
    ensures r < |chain| ==> chain[r].free != []
    ensures forall j :: i <= j < r ==> chain[j].free == []
    decreases |chain| - i
  {
    if i == |chain| || chain[i].free != [] then i else Room(chain, i + 1)
  }

  /** The objects of a new page from the `j`-th on. */
  function Slots(base: nat, k: nat, j: nat): (s: seq<nat>)
    requires k < |SIZES| && j <= Capacity(k)
    ensures |s| == Capacity(k) - j
    ensures forall i :: 0 <= i < |s| ==> s[i] == Slot(base, k, j + i)
    decreases Capacity(k) - j
  {
    if j == Capacity(k) then [] else [Slot(base, k, j)] + Slots(base, k, j + 1)
  }

  lemma SlotsOk(base: nat, k: nat)
    requires k < |SIZES|
    ensures Distinct(Slots(base, k, 0)) && Slots(base, k, 0)[0] == base
    ensures forall a :: a in Slots(base, k, 0) <==> OnPage(base, k, a)
  {
    var s := Slots(base, k, 0);
    forall i: nat, j: nat | i < j < |s| ensures s[i] != s[j] {
      Multiples(i, j, SIZES[k]);
      assert s[i] == Slot(base, k, i) && s[j] == Slot(base, k, j);
    }
    forall a: nat | OnPage(base, k, a) ensures a in s {
      var j: nat :| j < Capacity(k) && Slot(base, k, j) == a;
      assert s[j] == Slot(base, k, 0 + j);
    }
    forall a | a in s ensures OnPage(base, k, a) {
      var j: nat :| j < |s| && s[j] == a;
      assert a == Slot(base, k, j);
    }
  }

  /** Take the first free object of the `i`-th bucket of chain `k`. */
  function TakeFrom(h: Heap, k: nat, i: nat): Heap
    requires k < |h.chains| && i < |h.chains[k]| && h.chains[k][i].free != []
  {
    var p := h.chains[k][i];
    h.(chains := h.chains[k := h.chains[k][i := p.(free := p.free[1..])]])
  }

  /** A page of descriptors, all spare. */
  function MoreDescs(h: Heap, page: nat): Heap {
    h.(spare := h.spare + DESCS_PER_PAGE, descPages := h.descPages + {page}, pool := h.pool - {page})
  }

  /** A new bucket in front of chain `k`, all its objects free. */
  function NewBucket(h: Heap, k: nat, page: nat): Heap
    requires k < |h.chains| && k < |SIZES| && h.spare > 0
  {
    h.(chains := h.chains[k := [Page(page, Slots(page, k, 0))] + h.chains[k]], spare := h.spare - 1,
      pool := h.pool - {page})
  }

  /** malloc panics on an impossibly large request, and when a page it needs is not there. */
  datatype Outcome = Panic | Got(a: nat, h: Heap)

  /** malloc; `d` and `p` are the pages get_free_page would return for descriptors and for the bucket, if asked. */
  function Malloc(h: Heap, len: nat, d: nat, p: nat): Outcome
    requires |h.chains| == |SIZES|
  {
    var k := Fit(len, 0);
    if k == |SIZES| then Panic
    else
      var i := Room(h.chains[k], 0);
      if i < |h.chains[k]| then Got(h.chains[k][i].free[0], TakeFrom(h, k, i))
      else if h.spare == 0 && d !in h.pool then Panic
      else
        var h1 := if h.spare == 0 then MoreDescs(h, d) else h;
        if p !in h1.pool then Panic
        else
          var h2 := NewBucket(h1, k, p);
          Got(h2.chains[k][0].free[0], TakeFrom(h2, k, 0))
  }

  // ----- free_s

  /** The first bucket on page `base` among the chains from `k` on whose size is not below `size`, searched in order. */
  function Find(h: Heap, base: nat, size: int, k: nat): (r: (nat, nat))
    requires k <= |h.chains| == |SIZES|
    ensures k <= r.0 <= |SIZES| && (r.0 < |SIZES| ==> Bucketed(h, r.0, r.1, base))
    decreases |SIZES| - k
  {
    if k == |SIZES| then (k, 0)
    else if SIZES[k] >= size && InChain(h.chains[k], base, 0) < |h.chains[k]| then (k, InChain(h.chains[k], base, 0))
    else Find(h, base, size, k + 1)
  }

  function InChain(chain: seq<Page>, base: nat, i: nat): (r: nat)
    requires i <= |chain|
    ensures i <= r <= |chain|
    ensures r < |chain| ==> chain[r].base == base
    ensures forall j :: i <= j < r ==> chain[j].base != base
    decreases |chain| - i
  {
    if i == |chain| || chain[i].base == base then i else InChain(chain, base, i + 1)
  }

  /** Put `a` back; the bucket goes when nothing on its page is in use. */
  function PutBack(h: Heap, k: nat, i: nat, a: nat): Heap
    requires k < |h.chains| && k < |SIZES| && i < |h.chains[k]|
  {
    var p := h.chains[k][i].(free := [a] + h.chains[k][i].free);
    if Refcnt(k, p) == 0 then
      Heap(h.chains[k := h.chains[k][..i] + h.chains[k][i + 1..]], h.spare + 1, h.descPages, h.pool + {p.base})
    else h.(chains := h.chains[k := h.chains[k][i := p]])
  }

  /** free_s; `size` is the caller's hint, 0 for none. */
  function Free(h: Heap, a: nat, size: int): Outcome
    requires |h.chains| == |SIZES|
  {
    var (k, i) := Find(h, a - a % PAGE_SIZE, size, 0);
    if k == |SIZES| then Panic else Got(a, PutBack(h, k, i, a))
  }
}
