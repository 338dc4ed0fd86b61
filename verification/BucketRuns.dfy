/** What every run of malloc and free_s keeps. */
module BucketRuns {
  import opened Bucket

  // ----- Counting

  lemma {:induction false} BucketsReplace(chains: seq<seq<Page>>, k: nat, c: seq<Page>)
    requires k < |chains|
    ensures Buckets(chains[k := c]) == Buckets(chains) - |chains[k]| + |c|
  {
    if k > 0 {
      assert chains[k := c][1..] == chains[1..][k - 1 := c];
      BucketsReplace(chains[1..], k - 1, c);
    } else {
      assert chains[k := c][1..] == chains[1..];
    }
  }

  function Elements(s: seq<nat>): set<nat> {
    set a | a in s
  }

  lemma {:induction false} DistinctCount(s: seq<nat>)
    requires Distinct(s)
    ensures |Elements(s)| == |s|
  {
    if s != [] {
      var t := s[1..];
      forall i: nat, j: nat | i < j < |t| ensures t[i] != t[j] {
        assert s[i + 1] != s[j + 1];
      }
      DistinctCount(t);
      assert s[0] !in t;
      assert Elements(s) == Elements(t) + {s[0]};
    }
  }

  lemma {:induction false} FullSubset(a: set<nat>, b: set<nat>)
    requires a <= b && |a| == |b|
    ensures a == b
  {
    if b - a != {} {
      var x :| x in b - a;
      Smaller(a, b - {x});
    }
    assert b - a == {};
  }

  lemma {:induction false} Smaller(a: set<nat>, b: set<nat>)
    requires a <= b
    ensures |a| <= |b|
  {
    if x :| x in a {
      Smaller(a - {x}, b - {x});
    }
  }

  /** With one object in use, every other object of the page is on the free list. */
  lemma LastObject(k: nat, p: Page, a: nat)
    requires k < |SIZES| && PageOk(k, p) && Refcnt(k, p) == 1 && OnPage(p.base, k, a) && a !in p.free
    ensures forall b :: OnPage(p.base, k, b) && b != a ==> b in p.free
  {
    var s := Slots(p.base, k, 0);
    SlotsOk(p.base, k);
    DistinctCount(s);
    DistinctCount(p.free);
    assert Elements(p.free) + {a} <= Elements(s);
    FullSubset(Elements(p.free) + {a}, Elements(s));
    forall b | OnPage(p.base, k, b) && b != a ensures b in p.free {
      assert b in Elements(s);
    }
  }

  /** Before the first malloc. */
  function Empty(pages: set<nat>): Heap {
    Heap([[], [], [], [], [], [], [], [], []], 0, {}, pages)
  }

  lemma EmptyInv(pages: set<nat>)
    requires forall b :: b in pages ==> 0 < b && b % PAGE_SIZE == 0
    ensures Inv(Empty(pages)) && forall b: nat :: !UsesPage(Empty(pages), b)
  {
    var h := Empty(pages);
    forall k: nat | k < 9 ensures h.chains[k] == [] {}
    assert forall k: nat, i: nat, b: nat :: !Bucketed(h, k, i, b);
    NoBuckets(h.chains);
  }

  lemma {:induction false} NoBuckets(chains: seq<seq<Page>>)
    requires forall k :: 0 <= k < |chains| ==> chains[k] == []
    ensures Buckets(chains) == 0
  {
    if chains != [] {
      NoBuckets(chains[1..]);
    }
  }

  // ----- One bucket changes its free list

  function Replace(h: Heap, k: nat, i: nat, p: Page): Heap
    requires k < |h.chains| && i < |h.chains[k]|
  {
    h.(chains := h.chains[k := h.chains[k][i := p]])
  }

  lemma ReplaceKeepsInv(h: Heap, k: nat, i: nat, p: Page)
    requires Inv(h) && k < |h.chains| && i < |h.chains[k]| && p.base == h.chains[k][i].base && PageOk(k, p)
    ensures Inv(Replace(h, k, i, p)) && forall b: nat :: UsesPage(Replace(h, k, i, p), b) <==> UsesPage(h, b)
  {
    var h' := Replace(h, k, i, p);
    assert forall l: nat, j: nat, b: nat :: Bucketed(h', l, j, b) <==> Bucketed(h, l, j, b);
    SameUses(h, h');
    BucketsReplace(h.chains, k, h.chains[k][i := p]);
    forall l: nat, j: nat | l < |h'.chains| && j < |h'.chains[l]| ensures PageOk(l, h'.chains[l][j]) {
      assert l != k || j != i ==> h'.chains[l][j] == h.chains[l][j];
    }
  }

  lemma SameUses(h: Heap, h': Heap)
    requires forall l: nat, j: nat, b: nat :: Bucketed(h', l, j, b) <==> Bucketed(h, l, j, b)
    ensures forall b: nat :: UsesPage(h', b) <==> UsesPage(h, b)
  {
    forall b: nat ensures UsesPage(h', b) <==> UsesPage(h, b) {
      if UsesPage(h', b) {
        var l: nat, j: nat :| Bucketed(h', l, j, b);
        assert Bucketed(h, l, j, b);
      }
      if UsesPage(h, b) {
        var l: nat, j: nat :| Bucketed(h, l, j, b);
        assert Bucketed(h', l, j, b);
      }
    }
  }

  /** `h'` has the objects of `h`, and also `a`. */
  ghost predicate OneMore(h: Heap, h': Heap, a: nat, size: nat) {
    (forall b: nat, n: nat :: Live(h', b, n) <==> Live(h, b, n) || (b == a && n == size)) &&
    forall n: nat :: !Live(h, a, n)
  }

  lemma TakeKeepsInv(h: Heap, k: nat, i: nat)
    requires Inv(h) && k < |h.chains| && i < |h.chains[k]| && h.chains[k][i].free != []
    ensures Inv(TakeFrom(h, k, i)) && OneMore(h, TakeFrom(h, k, i), h.chains[k][i].free[0], SIZES[k])
    ensures forall b: nat :: UsesPage(TakeFrom(h, k, i), b) <==> UsesPage(h, b)
  {
    var p := h.chains[k][i];
    var p', a := p.(free := p.free[1..]), p.free[0];
    assert PageOk(k, p);
    TailDistinct(p.free);
    ReplaceKeepsInv(h, k, i, p');
    var h' := TakeFrom(h, k, i);
    forall b: nat, l: nat, j: nat ensures LiveIn(h', b, l, j) <==> LiveIn(h, b, l, j) || (b == a && l == k && j == i) {
      if l == k && j == i {
        assert b in p.free <==> b == a || b in p'.free;
      } else {
        assert LiveIn(h', b, l, j) <==> LiveIn(h, b, l, j);
      }
    }
    NotLive(h, a, k, i);
    LiveMore(h, h', a, k, i);
  }

  lemma TailDistinct(s: seq<nat>)
    requires Distinct(s) && s != []
    ensures Distinct(s[1..]) && s[0] !in s[1..]
  {
    var t := s[1..];
    forall i: nat, j: nat | i < j < |t| ensures t[i] != t[j] {
      assert s[i + 1] != s[j + 1];
    }
  }

  /** An object on a free list is not in use anywhere. */
  lemma NotLive(h: Heap, a: nat, k: nat, i: nat)
    requires Inv(h) && k < |h.chains| && i < |h.chains[k]| && a in h.chains[k][i].free
    ensures forall n: nat :: !Live(h, a, n)
  {
    var p := h.chains[k][i];
    assert PageOk(k, p);
    InsidePage(p.base, k, a);
    forall l: nat, j: nat ensures !LiveIn(h, a, l, j) {
      if LiveIn(h, a, l, j) {
        LiveInPage(h, a, l, j);
        SameBucket(h, k, i, l, j);
      }
    }
  }

  lemma LiveMore(h: Heap, h': Heap, a: nat, k: nat, i: nat)
    requires k < |SIZES|
    requires forall b: nat, l: nat, j: nat :: LiveIn(h', b, l, j) <==>
      LiveIn(h, b, l, j) || (b == a && l == k && j == i)
    ensures forall b: nat, n: nat :: Live(h', b, n) <==> Live(h, b, n) || (b == a && n == SIZES[k])
  {
    forall b: nat, n: nat ensures Live(h', b, n) <==> Live(h, b, n) || (b == a && n == SIZES[k]) {
      if Live(h, b, n) {
        var l: nat, j: nat :| LiveIn(h, b, l, j) && SIZES[l] == n;
        assert LiveIn(h', b, l, j);
      }
      if b == a && n == SIZES[k] {
        assert LiveIn(h', a, k, i);
      }
      if Live(h', b, n) {
        var l: nat, j: nat :| LiveIn(h', b, l, j) && SIZES[l] == n;
        assert LiveIn(h, b, l, j) || (b == a && l == k);
      }
    }
  }

  // ----- A new bucket

  /** A new bucket whose first object is taken at once. */
  function Opened(h: Heap, k: nat, page: nat): Heap
    requires k < |h.chains| && k < |SIZES| && h.spare > 0
  {
    h.(chains := h.chains[k := [Page(page, Slots(page, k, 0)[1..])] + h.chains[k]], spare := h.spare - 1,
       pool := h.pool - {page})
  }

  lemma OpenedIsNewTaken(h: Heap, k: nat, page: nat)
    requires k < |h.chains| && k < |SIZES| && h.spare > 0
    ensures NewBucket(h, k, page).chains[k][0].free != [] && NewBucket(h, k, page).chains[k][0].free[0] == page
    ensures TakeFrom(NewBucket(h, k, page), k, 0) == Opened(h, k, page)
  {
    SlotsOk(page, k);
    var p := Page(page, Slots(page, k, 0));
    assert ([p] + h.chains[k])[0 := p.(free := p.free[1..])] == [p.(free := p.free[1..])] + h.chains[k];
  }

  lemma OpenedPageOk(k: nat, page: nat)
    requires k < |SIZES| && page > 0 && page % PAGE_SIZE == 0
    ensures PageOk(k, Page(page, Slots(page, k, 0)[1..])) && OnPage(page, k, page)
    ensures forall b :: OnPage(page, k, b) ==> (b in Slots(page, k, 0)[1..] <==> b != page)
  {
    var s := Slots(page, k, 0);
    SlotsOk(page, k);
    TailDistinct(s);
    assert page in s;
    assert forall b :: b in s <==> b == s[0] || b in s[1..];
  }

  lemma OpenedUses(h: Heap, k: nat, page: nat)
    requires k < |h.chains| && k < |SIZES| && h.spare > 0
    ensures forall b: nat :: UsesPage(Opened(h, k, page), b) <==> UsesPage(h, b) || b == page
  {
    var h' := Opened(h, k, page);
    forall l: nat, j: nat, b: nat ensures Bucketed(h', l, j, b) <==>
      if l != k then Bucketed(h, l, j, b) else if j == 0 then b == page else Bucketed(h, k, j - 1, b) {}
    forall b: nat ensures UsesPage(h', b) <==> UsesPage(h, b) || b == page {
      if UsesPage(h, b) {
        var l: nat, j: nat :| Bucketed(h, l, j, b);
        assert Bucketed(h', l, if l == k then j + 1 else j, b);
      }
      if b == page { assert Bucketed(h', k, 0, b); }
      if l: nat, j: nat :| Bucketed(h', l, j, b) && b != page {
        assert Bucketed(h, l, if l == k then j - 1 else j, b);
      }
    }
  }

  lemma OpenedKeepsInv(h: Heap, k: nat, page: nat)
    requires Inv(h) && k < |h.chains| && h.spare > 0 && page in h.pool
    ensures Inv(Opened(h, k, page))
    ensures forall b: nat :: UsesPage(Opened(h, k, page), b) <==> UsesPage(h, b) || b == page
  {
    var h' := Opened(h, k, page);
    OpenedPageOk(k, page);
    OpenedUses(h, k, page);
    OpenedApart(h, k, page);
    BucketsReplace(h.chains, k, h'.chains[k]);
    forall l: nat, j: nat | l < |h'.chains| && j < |h'.chains[l]| ensures PageOk(l, h'.chains[l][j]) {
      if l != k || j > 0 {
        assert h'.chains[l][j] == h.chains[l][if l == k then j - 1 else j];
      }
    }
  }

  lemma OpenedApart(h: Heap, k: nat, page: nat)
    requires PagesApart(h) && k < |h.chains| && k < |SIZES| && h.spare > 0 && page in h.pool
    ensures forall l: nat, j: nat, m: nat, n: nat, b: nat ::
      Bucketed(Opened(h, k, page), l, j, b) && Bucketed(Opened(h, k, page), m, n, b) ==> l == m && j == n
  {
    var h' := Opened(h, k, page);
    assert !UsesPage(h, page);
    forall l: nat, j: nat, m: nat, n: nat, b: nat | Bucketed(h', l, j, b) && Bucketed(h', m, n, b)
      ensures l == m && j == n
    {
      var j0, n0 := if l == k then j - 1 else j, if m == k then n - 1 else n;
      assert (l != k || j > 0) ==> Bucketed(h, l, j0, b);
      assert (m != k || n > 0) ==> Bucketed(h, m, n0, b);
    }
  }

  lemma OpenedLive(h: Heap, k: nat, page: nat)
    requires Inv(h) && k < |h.chains| && h.spare > 0 && page in h.pool
    ensures OneMore(h, Opened(h, k, page), page, SIZES[k])
  {
    var h' := Opened(h, k, page);
    OpenedPageOk(k, page);
    forall b: nat, n: nat ensures Live(h', b, n) <==> Live(h, b, n) || (b == page && n == SIZES[k]) {
      if Live(h, b, n) { StillLive(h, k, page, b, n); }
      if Live(h', b, n) { WasLive(h, k, page, b, n); }
      if b == page && n == SIZES[k] { assert LiveIn(h', b, k, 0); }
    }
    NotLiveInPool(h, page);
  }

  lemma NotLiveInPool(h: Heap, page: nat)
    requires Inv(h) && page in h.pool
    ensures forall n: nat :: !Live(h, page, n)
  {
    forall n: nat ensures !Live(h, page, n) {
      if Live(h, page, n) {
        var l: nat, j: nat :| LiveIn(h, page, l, j) && SIZES[l] == n;
        LiveInPage(h, page, l, j);
      }
    }
  }

  lemma StillLive(h: Heap, k: nat, page: nat, b: nat, n: nat)
    requires k < |h.chains| && k < |SIZES| && h.spare > 0 && Live(h, b, n)
    ensures Live(Opened(h, k, page), b, n)
  {
    var h' := Opened(h, k, page);
    var l: nat, j: nat :| LiveIn(h, b, l, j) && SIZES[l] == n;
    if l == k {
      assert h'.chains[k][j + 1] == h.chains[k][j];
      assert LiveIn(h', b, l, j + 1);
    } else {
      assert h'.chains[l] == h.chains[l];
      assert LiveIn(h', b, l, j);
    }
  }

  lemma WasLive(h: Heap, k: nat, page: nat, b: nat, n: nat)
    requires Inv(h) && k < |h.chains| && h.spare > 0 && page in h.pool && Live(Opened(h, k, page), b, n)
    ensures Live(h, b, n) || (b == page && n == SIZES[k])
  {
    var h' := Opened(h, k, page);
    var l: nat, j: nat :| LiveIn(h', b, l, j) && SIZES[l] == n;
    if l != k {
      assert h'.chains[l] == h.chains[l];
      assert LiveIn(h, b, l, j);
    } else if j > 0 {
      assert h'.chains[k][j] == h.chains[k][j - 1];
      assert LiveIn(h, b, l, j - 1);
    } else {
      OpenedPageOk(k, page);
    }
  }

  lemma MoreDescsKeepsInv(h: Heap, d: nat)
    requires Inv(h) && d in h.pool
    ensures Inv(MoreDescs(h, d))
    ensures forall b: nat, n: nat :: Live(MoreDescs(h, d), b, n) <==> Live(h, b, n)
    ensures forall b: nat :: UsesPage(MoreDescs(h, d), b) <==> UsesPage(h, b)
  {
    var h' := MoreDescs(h, d);
    assert forall l: nat, j: nat, b: nat :: Bucketed(h', l, j, b) <==> Bucketed(h, l, j, b);
    SameUses(h, h');
    assert forall b: nat, l: nat, j: nat :: LiveIn(h', b, l, j) <==> LiveIn(h, b, l, j);
    forall b: nat, n: nat ensures Live(h', b, n) <==> Live(h, b, n) {
      if Live(h, b, n) {
        var l: nat, j: nat :| LiveIn(h, b, l, j) && SIZES[l] == n;
        assert LiveIn(h', b, l, j);
      }
    }
  }

  // ----- malloc

  /** The page belongs to the allocator's world: free, full of descriptors, or a bucket. */
  ghost predicate Known(h: Heap, b: nat) {
    b in h.pool || b in h.descPages || UsesPage(h, b)
  }

  /** Main result about malloc: it returns an object that was not in use, of the least size that fits; every other
      object is as before; no page is lost or found. */
  lemma MallocKeepsInv(h: Heap, len: nat, d: nat, p: nat)
    requires Inv(h) && Malloc(h, len, d, p).Got?
    ensures var o := Malloc(h, len, d, p);
      Inv(o.h) && Fit(len, 0) < |SIZES| && OneMore(h, o.h, o.a, SIZES[Fit(len, 0)]) && len <= SIZES[Fit(len, 0)] &&
      forall b: nat :: Known(o.h, b) <==> Known(h, b)
  {
    var k := Fit(len, 0);
    var i := Room(h.chains[k], 0);
    if i < |h.chains[k]| {
      TakeKeepsInv(h, k, i);
    } else {
      var h1 := if h.spare == 0 then MoreDescs(h, d) else h;
      if h.spare == 0 { MoreDescsKeepsInv(h, d); }
      OpenedIsNewTaken(h1, k, p);
      OpenedKeepsInv(h1, k, p);
      OpenedLive(h1, k, p);
    }
  }

  /** malloc panics exactly when more than a page is asked for, or when there is no room in any bucket of that size and
      a page it then needs is not free. */
  lemma MallocPanics(h: Heap, len: nat, d: nat, p: nat)
    requires Inv(h)
    ensures Malloc(h, len, d, p).Panic? <==>
      len > PAGE_SIZE ||
      ((forall i :: 0 <= i < |h.chains[Fit(len, 0)]| ==> h.chains[Fit(len, 0)][i].free == []) &&
       ((h.spare == 0 && d !in h.pool) || p !in h.pool || (h.spare == 0 && p == d)))
  {
    var k := Fit(len, 0);
    SizesAscend(8, 8);
    if k == |SIZES| {
      assert SIZES[8] < len;
    } else {
      SizesAscend(k, 8);
      var chain := h.chains[k];
      var i := Room(chain, 0);
      if i < |chain| {
        assert len <= SIZES[k] && h.chains[Fit(len, 0)][i].free != [];
        assert Malloc(h, len, d, p).Got?;
      } else {
        assert forall j :: 0 <= j < |chain| ==> chain[j].free == [];
        var h1 := if h.spare == 0 then MoreDescs(h, d) else h;
        assert h1.pool == if h.spare == 0 then h.pool - {d} else h.pool;
      }
    }
  }

  // ----- free_s

  /** free_s finds the object's own bucket, whatever hint not above its size it is given. */
  lemma FindFindsIt(h: Heap, a: nat, k: nat, i: nat, size: int)
    requires Inv(h) && LiveIn(h, a, k, i) && size <= SIZES[k]
    ensures Find(h, a - a % PAGE_SIZE, size, 0) == (k, i)
  {
    LiveInPage(h, a, k, i);
    FindFrom(h, k, i, size, 0);
  }

  lemma {:induction false} FindFrom(h: Heap, k: nat, i: nat, size: int, l: nat)
    requires Inv(h) && l <= k < |SIZES| && i < |h.chains[k]| && size <= SIZES[k]
    ensures Find(h, h.chains[k][i].base, size, l) == (k, i)
    decreases k - l
  {
    var base := h.chains[k][i].base;
    var j := InChain(h.chains[l], base, 0);
    if j < |h.chains[l]| {
      SameBucket(h, k, i, l, j);
    } else if l < k {
      FindFrom(h, k, i, size, l + 1);
    }
  }

  /** A hint above the object's real size makes free_s panic. */
  lemma {:induction false} WrongHintPanics(h: Heap, a: nat, k: nat, i: nat, size: int, l: nat)
    requires Inv(h) && LiveIn(h, a, k, i) && size > SIZES[k] && l <= |SIZES|
    ensures Find(h, a - a % PAGE_SIZE, size, l).0 == |SIZES|
    decreases |SIZES| - l
  {
    LiveInPage(h, a, k, i);
    if l < |SIZES| {
      var j := InChain(h.chains[l], h.chains[k][i].base, 0);
      if j < |h.chains[l]| {
        SameBucket(h, k, i, l, j);
      }
      WrongHintPanics(h, a, k, i, size, l + 1);
    }
  }

  /** `h'` has the objects of `h`, apart from `a`. */
  ghost predicate OneLess(h: Heap, h': Heap, a: nat) {
    forall b: nat, n: nat :: Live(h', b, n) <==> Live(h, b, n) && b != a
  }

  lemma LiveLess(h: Heap, h': Heap, a: nat, at: nat -> nat -> nat, from: nat -> nat -> nat)
    requires forall b: nat, l: nat, j: nat :: LiveIn(h, b, l, j) && b != a ==> LiveIn(h', b, l, at(l)(j))
    requires forall b: nat, l: nat, j: nat :: LiveIn(h', b, l, j) ==> b != a && LiveIn(h, b, l, from(l)(j))
    ensures OneLess(h, h', a)
  {
    forall b: nat, n: nat ensures Live(h', b, n) <==> Live(h, b, n) && b != a {
      if Live(h, b, n) && b != a {
        var l: nat, j: nat :| LiveIn(h, b, l, j) && SIZES[l] == n;
        assert LiveIn(h', b, l, at(l)(j));
      }
      if Live(h', b, n) {
        var l: nat, j: nat :| LiveIn(h', b, l, j) && SIZES[l] == n;
        assert LiveIn(h, b, l, from(l)(j));
      }
    }
  }

  /** Some object of the page stays in use: only the free list changes. */
  lemma PutBackInPlace(h: Heap, k: nat, i: nat, a: nat)
    requires Inv(h) && LiveIn(h, a, k, i) && Refcnt(k, h.chains[k][i]) > 1
    ensures Inv(PutBack(h, k, i, a)) && OneLess(h, PutBack(h, k, i, a), a)
    ensures forall b: nat :: UsesPage(PutBack(h, k, i, a), b) <==> UsesPage(h, b)
  {
    var p := h.chains[k][i];
    assert PageOk(k, p);
    var p' := p.(free := [a] + p.free);
    ReplaceKeepsInv(h, k, i, p');
    var h' := PutBack(h, k, i, a);
    assert h' == Replace(h, k, i, p');
    forall b: nat, l: nat, j: nat ensures LiveIn(h', b, l, j) <==> LiveIn(h, b, l, j) && b != a {
      if l == k && j == i {
        assert b in p'.free <==> b == a || b in p.free;
      } else {
        assert LiveIn(h', b, l, j) <==> LiveIn(h, b, l, j);
        if LiveIn(h, b, l, j) { LiveInApart(h, a, k, i, b, l, j); }
      }
    }
    LiveLess(h, h', a, l => j => j, l => j => j);
  }

  function Without(h: Heap, k: nat, i: nat): Heap
    requires k < |h.chains| && i < |h.chains[k]|
  {
    Heap(h.chains[k := h.chains[k][..i] + h.chains[k][i + 1..]], h.spare + 1, h.descPages,
         h.pool + {h.chains[k][i].base})
  }

  /** Where a bucket of chain `k` comes from, and where it goes, when the `i`-th is taken out. */
  function From(k: nat, i: nat, l: nat, j: nat): nat { if l == k && j >= i then j + 1 else j }
  function To(k: nat, i: nat, l: nat, j: nat): nat { if l == k && j > i then j - 1 else j }

  lemma WithoutKeepsInv(h: Heap, k: nat, i: nat)
    requires Inv(h) && k < |h.chains| && i < |h.chains[k]|
    ensures Inv(Without(h, k, i))
    ensures forall b: nat :: UsesPage(Without(h, k, i), b) <==> UsesPage(h, b) && b != h.chains[k][i].base
  {
    var h', base := Without(h, k, i), h.chains[k][i].base;
    assert PageOk(k, h.chains[k][i]) && Bucketed(h, k, i, base) && UsesPage(h, base);
    WithoutBuckets(h, k, i);
    forall b: nat ensures UsesPage(h', b) <==> UsesPage(h, b) && b != base {
      if UsesPage(h, b) && b != base {
        var l: nat, j: nat :| Bucketed(h, l, j, b);
        assert Bucketed(h', l, To(k, i, l, j), b);
      }
      if l: nat, j: nat :| Bucketed(h', l, j, b) {
        assert Bucketed(h, l, From(k, i, l, j), b);
      }
    }
    forall l: nat, j: nat, m: nat, n: nat, b: nat | Bucketed(h', l, j, b) && Bucketed(h', m, n, b)
      ensures l == m && j == n
    {
      assert Bucketed(h, l, From(k, i, l, j), b) && Bucketed(h, m, From(k, i, m, n), b);
    }
    BucketsReplace(h.chains, k, h'.chains[k]);
    forall l: nat, j: nat | l < |h'.chains| && j < |h'.chains[l]| ensures PageOk(l, h'.chains[l][j]) {
      assert h'.chains[l][j] == h.chains[l][From(k, i, l, j)];
    }
  }

  lemma WithoutBuckets(h: Heap, k: nat, i: nat)
    requires PagesApart(h) && k < |h.chains| && i < |h.chains[k]|
    ensures forall l: nat, j: nat, b: nat :: Bucketed(Without(h, k, i), l, j, b) ==>
      b != h.chains[k][i].base && Bucketed(h, l, From(k, i, l, j), b)
    ensures forall l: nat, j: nat, b: nat :: Bucketed(h, l, j, b) && b != h.chains[k][i].base ==>
      Bucketed(Without(h, k, i), l, To(k, i, l, j), b)
  {
    var h', base := Without(h, k, i), h.chains[k][i].base;
    assert Bucketed(h, k, i, base);
    forall l: nat, j: nat, b: nat | Bucketed(h', l, j, b) ensures b != base && Bucketed(h, l, From(k, i, l, j), b) {
      assert h'.chains[l][j] == h.chains[l][From(k, i, l, j)];
      assert Bucketed(h, l, From(k, i, l, j), b);
    }
    forall l: nat, j: nat, b: nat | Bucketed(h, l, j, b) && b != base ensures Bucketed(h', l, To(k, i, l, j), b) {
      assert h'.chains[l][To(k, i, l, j)] == h.chains[l][j];
    }
  }

  /** The page's last object: the page goes back to the pool, the descriptor becomes spare. */
  lemma PutBackLast(h: Heap, k: nat, i: nat, a: nat)
    requires Inv(h) && LiveIn(h, a, k, i) && Refcnt(k, h.chains[k][i]) == 1
    ensures PutBack(h, k, i, a) == Without(h, k, i)
    ensures Inv(PutBack(h, k, i, a)) && OneLess(h, PutBack(h, k, i, a), a)
  {
    var p, h' := h.chains[k][i], Without(h, k, i);
    assert PageOk(k, p);
    WithoutKeepsInv(h, k, i);
    LastObject(k, p, a);
    forall b: nat, l: nat, j: nat | LiveIn(h, b, l, j) && b != a ensures LiveIn(h', b, l, To(k, i, l, j)) {
      assert l != k || j != i;
    }
    forall b: nat, l: nat, j: nat | LiveIn(h', b, l, j) ensures b != a && LiveIn(h, b, l, From(k, i, l, j)) {
      assert h'.chains[l][j] == h.chains[l][From(k, i, l, j)];
      assert LiveIn(h, b, l, From(k, i, l, j));
      LiveInApart(h, a, k, i, b, l, From(k, i, l, j));
    }
    LiveLess(h, h', a, l => j => To(k, i, l, j), l => j => From(k, i, l, j));
  }

  /** Main result about free_s: the object is no longer in use, every other one is as before, no page is lost; the page
      goes back to the pool exactly when the object was the last one in use on it. */
  lemma FreeKeepsInv(h: Heap, a: nat, n: nat, size: int)
    requires Inv(h) && Live(h, a, n)
    ensures Free(h, a, size).Panic? <==> size > n
    ensures size <= n ==>
      var h' := Free(h, a, size).h;
      Inv(h') && OneLess(h, h', a) &&
      (forall b: nat :: Known(h', b) <==> Known(h, b)) &&
      (a - a % PAGE_SIZE in h'.pool <==>
        forall b: nat, m: nat :: Live(h, b, m) && b - b % PAGE_SIZE == a - a % PAGE_SIZE ==> b == a)
  {
    var k: nat, i: nat :| LiveIn(h, a, k, i) && SIZES[k] == n;
    LiveInPage(h, a, k, i);
    if size > n {
      WrongHintPanics(h, a, k, i, size, 0);
    } else {
      FindFindsIt(h, a, k, i, size);
      assert PageOk(k, h.chains[k][i]) && Bucketed(h, k, i, h.chains[k][i].base);
      if Refcnt(k, h.chains[k][i]) == 1 {
        PutBackLast(h, k, i, a);
        WithoutKeepsInv(h, k, i);
        LastIsAlone(h, k, i, a);
      } else {
        PutBackInPlace(h, k, i, a);
        SharedPage(h, k, i, a);
      }
    }
  }

  lemma LastIsAlone(h: Heap, k: nat, i: nat, a: nat)
    requires Inv(h) && LiveIn(h, a, k, i) && Refcnt(k, h.chains[k][i]) == 1
    ensures forall b: nat, m: nat :: Live(h, b, m) && b - b % PAGE_SIZE == a - a % PAGE_SIZE ==> b == a
  {
    LiveInPage(h, a, k, i);
    assert PageOk(k, h.chains[k][i]);
    LastObject(k, h.chains[k][i], a);
    forall b: nat, m: nat | Live(h, b, m) && b - b % PAGE_SIZE == a - a % PAGE_SIZE ensures b == a {
      var l: nat, j: nat :| LiveIn(h, b, l, j) && SIZES[l] == m;
      LiveInPage(h, b, l, j);
      SameBucket(h, k, i, l, j);
    }
  }

  /** With two objects in use, the page has a second one besides `a`. */
  lemma SecondObject(k: nat, p: Page, a: nat) returns (b: nat)
    requires k < |SIZES| && PageOk(k, p) && Refcnt(k, p) > 1
    ensures OnPage(p.base, k, b) && b !in p.free && b != a
  {
    var s := Slots(p.base, k, 0);
    SlotsOk(p.base, k);
    DistinctCount(s);
    DistinctCount(p.free);
    if Elements(s) <= Elements(p.free) + {a} {
      Smaller(Elements(s), Elements(p.free) + {a});
    }
    b :| b in Elements(s) && b !in Elements(p.free) + {a};
  }

  lemma SharedPage(h: Heap, k: nat, i: nat, a: nat)
    requires Inv(h) && LiveIn(h, a, k, i) && Refcnt(k, h.chains[k][i]) > 1
    ensures exists b: nat, m: nat :: Live(h, b, m) && b - b % PAGE_SIZE == a - a % PAGE_SIZE && b != a
  {
    assert PageOk(k, h.chains[k][i]);
    var b := SecondObject(k, h.chains[k][i], a);
    assert LiveIn(h, b, k, i);
    LiveInPage(h, b, k, i);
    LiveInPage(h, a, k, i);
    assert Live(h, b, SIZES[k]);
  }

  // ----- Whole runs

  datatype Event = Alloc(len: nat, d: nat, p: nat) | Release(a: nat, size: int)

  /** Callers free objects that are in use, and give no hint above the object's size; no request panics. */
  ghost predicate Step(h: Heap, e: Event, h': Heap) {
    |h.chains| == |SIZES| &&
    match e
    case Alloc(len, d, p) => Malloc(h, len, d, p).Got? && h' == Malloc(h, len, d, p).h
    case Release(a, size) =>
      (exists n: nat :: Live(h, a, n) && size <= n) && Free(h, a, size).Got? && h' == Free(h, a, size).h
  }

  ghost predicate History(states: seq<Heap>, events: seq<Event>) {
    |states| == |events| + 1 && forall i :: 0 <= i < |events| ==> Step(states[i], events[i], states[i + 1])
  }

  lemma StepKeepsInv(h: Heap, e: Event, h': Heap)
    requires Inv(h) && Step(h, e, h')
    ensures Inv(h') && forall b: nat :: Known(h', b) <==> Known(h, b)
  {
    match e
    case Alloc(len, d, p) => MallocKeepsInv(h, len, d, p);
    case Release(a, size) =>
      var n: nat :| Live(h, a, n) && size <= n;
      FreeKeepsInv(h, a, n, size);
  }

  /** Main result over runs: the allocator's invariant is kept and its pages are conserved. */
  lemma {:induction false} HistoryKeepsInv(states: seq<Heap>, events: seq<Event>, n: nat)
    requires History(states, events) && Inv(states[0]) && n <= |events|
    ensures Inv(states[n]) && forall b: nat :: Known(states[n], b) <==> Known(states[0], b)
  {
    if n > 0 {
      HistoryKeepsInv(states, events, n - 1);
      assert Step(states[n - 1], events[n - 1], states[n - 1 + 1]);
      StepKeepsInv(states[n - 1], events[n - 1], states[n]);
    }
  }

  lemma LiveStays(h: Heap, e: Event, h': Heap, a: nat, size: nat)
    requires !(e.Release? && e.a == a)
    ensures Inv(h) && Step(h, e, h') && Live(h, a, size) ==> Live(h', a, size)
  {
    if Inv(h) && Step(h, e, h') && Live(h, a, size) {
      match e
      case Alloc(len, d, p) => MallocKeepsInv(h, len, d, p);
      case Release(b, hint) =>
        var m: nat :| Live(h, b, m) && hint <= m;
        FreeKeepsInv(h, b, m, hint);
    }
  }

  /** An object stays in use, with its size, until it is freed. */
  lemma {:induction false} ObjectsStayUntilFreed(states: seq<Heap>, events: seq<Event>, i: nat, n: nat, a: nat,
    size: nat)
    requires History(states, events) && Inv(states[0]) && i <= n <= |events| && Live(states[i], a, size)
    requires forall j :: i <= j < n ==> !(events[j].Release? && events[j].a == a)
    ensures Live(states[n], a, size)
    decreases n - i
  {
    if i < n {
      ObjectsStayUntilFreed(states, events, i, n - 1, a, size);
      HistoryKeepsInv(states, events, n - 1);
      assert Step(states[n - 1], events[n - 1], states[n - 1 + 1]);
      LiveStays(states[n - 1], events[n - 1], states[n], a, size);
    }
  }

  /** Once everything has been freed, every page is back in the pool, apart from those of descriptors, which are never
      released. */
  lemma AllFreedAllReturned(states: seq<Heap>, events: seq<Event>)
    requires History(states, events) && Inv(states[0])
    requires var h := states[|events|]; forall a: nat, n: nat :: !Live(h, a, n)
    ensures var h := states[|events|];
      (forall b: nat :: !UsesPage(h, b)) && (forall b: nat :: Known(states[0], b) ==> b in h.pool + h.descPages)
  {
    var h := states[|events|];
    HistoryKeepsInv(states, events, |events|);
    forall b: nat ensures !UsesPage(h, b) {
      if k: nat, i: nat :| Bucketed(h, k, i, b) {
        var a := SomeLive(h, k, i);
        assert Live(h, a, SIZES[k]);
      }
    }
  }

  /** Every bucket has an object in use. */
  lemma SomeLive(h: Heap, k: nat, i: nat) returns (a: nat)
    requires Inv(h) && k < |h.chains| && i < |h.chains[k]|
    ensures LiveIn(h, a, k, i)
  {
    var p := h.chains[k][i];
    assert PageOk(k, p);
    SlotsOk(p.base, k);
    DistinctCount(Slots(p.base, k, 0));
    DistinctCount(p.free);
    if Elements(Slots(p.base, k, 0)) <= Elements(p.free) {
      Smaller(Elements(Slots(p.base, k, 0)), Elements(p.free));
    }
    a :| a in Elements(Slots(p.base, k, 0)) && a !in Elements(p.free);
  }
}
