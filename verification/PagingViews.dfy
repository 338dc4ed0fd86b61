/** What eviction, mapping, faults and fork change of what tasks see, and the arithmetic of the swap scan. */
module PagingViews {
  import opened Paging
  import opened PagingOps
  import opened PagingRuns

  const VM_DIRS := PTRS - FIRST_DIR
  const VM_PAGES := VM_DIRS * PTRS

  /** A dirty page in a frame that is counted. */
  predicate IsDirty(e: Entry) { e.Present? && e.dirty && LOW <= e.frame < FRAMES }

  /** Two pages show the same frame, changed and written to nowhere else. */
  ghost predicate Twins(s: Mem, d: nat, e: nat, i: nat)
    requires Shape(s)
  {
    IsUser(d) && IsUser(e) && d != e && i < PTRS && IsDirty(At(s, d, i)) && At(s, d, i) == At(s, e, i)
  }

  /** Of two pages that share a dirty frame, neither is evicted. */
  ghost predicate TwinsStay(s: Mem, s': Mem)
    requires Shape(s) && Shape(s')
  {
    forall d: nat, e: nat, i: nat :: Twins(s, d, e, i) ==> At(s', d, i) == At(s, d, i)
  }

  /** The unchanged pages that show frame `f`: eviction just drops them. */
  ghost function CleanEntries(s: Mem, f: nat): (c: set<(nat, nat)>)
    requires Shape(s)
    ensures c <= Entries(s, f)
  {
    set p | p in Entries(s, f) && !At(s, p.0, p.1).dirty
  }

  /** Frame `f` would stay in use if all its unchanged pages went: a changed one goes only when the count is 1. */
  ghost predicate Anchored(s: Mem, f: nat)
    requires Shape(s)
  {
    f < LOW ||
    (f < FRAMES && CountAt(s, f) > |CleanEntries(s, f)| + if CleanEntries(s, f) == Entries(s, f) then 0 else 1)
  }

  ghost predicate NoneHigher(a: seq<nat>, b: seq<nat>) {
    |a| == |b| && forall k :: 0 <= k < |a| ==> b[k] <= a[k]
  }

  ghost predicate AnchorsHold(s: Mem, s': Mem)
    requires Shape(s) && Shape(s')
  {
    forall f: nat :: Anchored(s, f) ==> Anchored(s', f)
  }

  /** `s'` is `s` after some pages were evicted: what is still mapped is what it was. */
  ghost predicate Reclaimed(s: Mem, s': Mem) {
    Inv(s) && Inv(s') && s'.dir == s.dir && s'.high == s.high && s'.kernel == s.kernel && s'.page == s.page &&
    TwinsStay(s, s') && NoneHigher(s.cnt, s'.cnt) && AnchorsHold(s, s') &&
    (forall j: nat :: j < PTRS ==> At(s', 0, j) == At(s, 0, j)) &&
    forall d: nat, i: nat :: IsUser(d) && i < PTRS ==>
      At(s', d, i) == At(s, d, i) || (At(s, d, i).Present? && !At(s', d, i).Present? &&
        (!At(s, d, i).dirty ==> At(s', d, i) == Empty))
  }

  /** Every page but (d, i) shows what it showed before, or is no longer present. */
  ghost predicate SeenLessBut(s: Mem, s': Mem, d: nat, i: nat) {
    Shape(s) && Shape(s') &&
    forall x: nat, j: nat :: IsUser(x) && j < PTRS && (x, j) != (d, i) ==>
      SamePage(s, s', x, j) || ViewAt(s', x, j) == Absent
  }

  /** Evicting some pages and then taking a frame shows nothing new anywhere. */
  lemma TakenSeenLess(s: Mem, mid: Mem, f: nat, d: nat, i: nat)
    requires Reclaimed(s, mid) && f == FreeFrame(mid) && f != 0
    ensures Inv(Take(mid, f)) && SeenLessBut(s, Take(mid, f), d, i)
  {
    TakeKeepsInv(mid, f);
    TakeAt(mid, f);
    FreeFrameUnused(mid, f);
    var s' := Take(mid, f);
    forall x: nat, j: nat | IsUser(x) && j < PTRS ensures SamePage(s, s', x, j) || ViewAt(s', x, j) == Absent {
      assert !Maps(mid, x, j, f);
    }
  }

  lemma ReclaimedTrans(a: Mem, b: Mem, c: Mem)
    requires Reclaimed(a, b) && Reclaimed(b, c)
    ensures Reclaimed(a, c)
  {
    forall d: nat, e: nat, i: nat | Twins(a, d, e, i) ensures At(c, d, i) == At(a, d, i) {
      assert Twins(a, e, d, i);
      assert Twins(b, d, e, i);
    }
  }

  /** One page of frame `g` less, and one count less. */
  lemma AnchorsHoldOnEvict(s: Mem, s': Mem, d: nat, i: nat)
    requires Inv(s) && Shape(s') && IsUser(d) && i < PTRS && !Refuses(s, d, i) && !At(s', d, i).Present?
    requires CountAt(s, At(s, d, i).frame) > 0
    requires s'.cnt == s.cnt[At(s, d, i).frame - LOW := CountAt(s, At(s, d, i).frame) - 1]
    requires forall x: nat, j: nat :: IsUser(x) && j < PTRS && (x, j) != (d, i) ==> At(s', x, j) == At(s, x, j)
    ensures AnchorsHold(s, s')
  {
    var g := At(s, d, i).frame;
    forall f: nat | Anchored(s, f) ensures Anchored(s', f) {
      FewerEntries(s, s', d, i, f);
      if f == g && At(s, d, i).dirty {
        assert CountAt(s, f) == 1;
        assert (d, i) in Entries(s, f) && (d, i) !in CleanEntries(s, f);
      }
    }
  }

  lemma FewerEntries(s: Mem, s': Mem, d: nat, i: nat, f: nat)
    requires Shape(s) && Shape(s') && IsUser(d) && i < PTRS && At(s, d, i).Present? && !At(s', d, i).Present?
    requires forall x: nat, j: nat :: IsUser(x) && j < PTRS && (x, j) != (d, i) ==> At(s', x, j) == At(s, x, j)
    ensures Entries(s', f) == Entries(s, f) - {(d, i)} && CleanEntries(s', f) == CleanEntries(s, f) - {(d, i)}
    ensures (d, i) in Entries(s, f) <==> At(s, d, i).frame == f
    ensures (d, i) in CleanEntries(s, f) <==> At(s, d, i).frame == f && !At(s, d, i).dirty
  {
    assert forall x: nat, j: nat :: Maps(s', x, j, f) <==> Maps(s, x, j, f) && (x, j) != (d, i);
  }

  /** A frame that two changed pages show is anchored. */
  lemma ChangedTwinsAnchor(s: Mem, d: nat, i: nat, e: nat, j: nat)
    requires Inv(s) && IsUser(d) && i < PTRS && IsUser(e) && j < PTRS && (d, i) != (e, j)
    requires IsDirty(At(s, d, i)) && IsDirty(At(s, e, j)) && At(s, d, i).frame == At(s, e, j).frame
    ensures Anchored(s, At(s, d, i).frame)
  {
    var f := At(s, d, i).frame;
    var clean, both := CleanEntries(s, f), {(d, i), (e, j)};
    assert Maps(s, d, i, f) && Maps(s, e, j, f);
    Fewer(clean, both, Entries(s, f));
    EntriesCounted(s, f);
  }

  lemma EntriesCounted(s: Mem, f: nat)
    requires Inv(s) && LOW <= f < FRAMES
    ensures |Entries(s, f)| <= CountAt(s, f)
  {
    assert Count(s, f) <= s.cnt[f - LOW];
  }

  lemma Fewer(a: set<(nat, nat)>, b: set<(nat, nat)>, c: set<(nat, nat)>)
    requires a !! b && a + b <= c
    ensures |a| + |b| <= |c|
  {
    assert |a + b| == |a| + |b|;
    assert c == (a + b) + (c - (a + b));
  }

  /** Eviction never frees an anchored frame. */
  lemma AnchoredInUse(s: Mem, mid: Mem, f: nat)
    requires Reclaimed(s, mid) && Anchored(s, f)
    ensures FreeFrame(mid) == 0 || FreeFrame(mid) != f
  {
    assert Anchored(mid, f);
  }

  /** A dirty page that another shares is refused: its count is not 1. */
  lemma TwinsRefused(s: Mem, d: nat, e: nat, i: nat)
    requires Inv(s) && Twins(s, d, e, i)
    ensures Refuses(s, d, i)
  {
    if CountAt(s, At(s, d, i).frame) == 1 {
      SoleUserAlone(s, d, i);
      assert Maps(s, e, i, At(s, d, i).frame);
    }
  }

  /** try_to_swap_out, with its disk write done. */
  ghost function EvictAndFree(s: Mem, d: nat, i: nat): Mem
    requires Shape(s) && d < PTRS && i < PTRS && !Refuses(s, d, i)
  {
    if At(s, d, i).dirty then KernelPut(Evict(s, d, i), At(s, d, i).frame) else Evict(s, d, i)
  }

  /** The page at (d, i) was evicted, and nothing else happened. */
  ghost predicate Evicted(s: Mem, s': Mem, d: nat, i: nat)
    requires Shape(s)
  {
    InTable(s, d, i) && !Refuses(s, d, i) && s' == EvictAndFree(s, d, i)
  }

  lemma EvictReclaims(s: Mem, d: nat, i: nat)
    requires Inv(s) && IsUser(d) && i < PTRS && !Refuses(s, d, i)
    ensures Reclaimed(s, EvictAndFree(s, d, i)) && !At(EvictAndFree(s, d, i), d, i).Present?
  {
    hide Accounting, Isolated, SlotsApart, AnchorsHold;
    EvictKeepsInv(s, d, i);
    assert Maps(s, d, i, At(s, d, i).frame);
    assert s.kernel + {At(s, d, i).frame} - {At(s, d, i).frame} == s.kernel;
    var s1, s2 := Evict(s, d, i), EvictAndFree(s, d, i);
    if At(s, d, i).dirty {
      KernelPutKeepsInv(s1, At(s, d, i).frame);
    }
    assert forall x: nat, j: nat :: x < PTRS && j < PTRS ==> At(s2, x, j) == At(s1, x, j) && s2.page == s1.page;
    EvictSparesKernel(s, d, i);
    EvictCounted(s, d, i);
    AnchorsHoldOnEvict(s, s2, d, i);
    forall x: nat, y: nat, j: nat | Twins(s, x, y, j) ensures At(s2, x, j) == At(s, x, j) {
      TwinsRefused(s, x, y, j);
    }
  }

  lemma EvictCounted(s: Mem, d: nat, i: nat)
    requires Inv(s) && IsUser(d) && i < PTRS && !Refuses(s, d, i)
    ensures var f := At(s, d, i).frame;
      CountAt(s, f) > 0 && EvictAndFree(s, d, i).cnt == s.cnt[f - LOW := CountAt(s, f) - 1]
  {
    DropEntryKeepsInv(s, d, i);
  }

  lemma EvictSparesKernel(s: Mem, d: nat, i: nat)
    requires Inv(s) && IsUser(d) && i < PTRS && !Refuses(s, d, i)
    ensures Shape(Evict(s, d, i)) && forall j: nat :: j < PTRS ==> At(Evict(s, d, i), 0, j) == At(s, 0, j)
  {
    var w := if At(s, d, i).dirty then Swapped(FreeSlot(s)) else Empty;
    SetEntryAt(s, d, i, w);
    assert forall j: nat :: j < PTRS ==> At(Evict(s, d, i), 0, j) == At(SetEntry(s, d, i, w), 0, j);
  }

  /** Eviction, field by field: one table word, one count, and for a dirty page one swap slot. */
  lemma EvictFields(s: Mem, d: nat, i: nat)
    requires Inv(s) && IsUser(d) && i < PTRS && !Refuses(s, d, i)
    ensures var e := At(s, d, i); var s' := EvictAndFree(s, d, i);
            Inv(s') && e.frame < s.high && CountAt(s, e.frame) > 0 &&
            s' == SetEntry(s, d, i, if e.dirty then Swapped(FreeSlot(s)) else Empty)
                    .(cnt := s.cnt[e.frame - LOW := CountAt(s, e.frame) - 1],
                      free := if e.dirty then s.free[FreeSlot(s) := false] else s.free)
  {
    var e := At(s, d, i);
    assert Maps(s, d, i, e.frame);
    EvictReclaims(s, d, i);
    DropEntryKeepsInv(s, d, i);
    if e.dirty {
      assert s.kernel + {e.frame} - {e.frame} == s.kernel;
    }
  }

  /** The user pages that are present. */
  ghost function PresentPages(s: Mem): set<(nat, nat)>
    requires Shape(s)
  {
    set d: nat, i: nat | d < PTRS && i < PTRS && IsUser(d) && At(s, d, i).Present? :: (d, i)
  }

  lemma EvictShrinks(s: Mem, d: nat, i: nat)
    requires Inv(s) && IsUser(d) && i < PTRS && !Refuses(s, d, i)
    ensures Shape(EvictAndFree(s, d, i)) && PresentPages(EvictAndFree(s, d, i)) < PresentPages(s)
  {
    EvictReclaims(s, d, i);
    assert (d, i) in PresentPages(s) && (d, i) !in PresentPages(EvictAndFree(s, d, i));
  }

  /** try_to_swap_out refuses the page at linear position `x` of user space. */
  ghost predicate RefusedAt(s: Mem, x: nat)
    requires Shape(s) && x < VM_PAGES
  {
    Refuses(s, FIRST_DIR + x / PTRS, x % PTRS)
  }

  /** The position of a page in user space. */
  function Linear(d: int, i: int): int { (d - FIRST_DIR) * PTRS + i }

  /** The page at position `u`, counted on through a second lap, is refused. */
  ghost predicate RefusedFrom(s: Mem, u: int)
    requires Shape(s)
  {
    0 <= u < 2 * VM_PAGES && RefusedAt(s, if u >= VM_PAGES then u - VM_PAGES else u)
  }

  ghost predicate AllRefused(s: Mem, from: int, to: int)
    requires Shape(s)
  {
    forall u :: from <= u < to ==> RefusedFrom(s, u)
  }

  lemma LinearBack(d: nat, i: nat, lap: int)
    requires IsUser(d) && i < PTRS && (lap == 0 || lap == VM_PAGES)
    ensures var u := Linear(d, i) + lap; var x := if u >= VM_PAGES then u - VM_PAGES else u;
            0 <= u < 2 * VM_PAGES && 0 <= x < VM_PAGES && FIRST_DIR + x / PTRS == d && x % PTRS == i
  {
  }

  lemma OneMoreRefused(s: Mem, d: nat, i: nat, from: int, to: int, lap: int)
    requires Shape(s) && IsUser(d) && i < PTRS && Refuses(s, d, i) && AllRefused(s, from, to)
    requires to == Linear(d, i) + lap && (lap == 0 || lap == VM_PAGES)
    ensures AllRefused(s, from, to + 1)
  {
    LinearBack(d, i, lap);
    forall u | from <= u < to + 1 ensures RefusedFrom(s, u) {
    }
  }

  /** Every page of an absent table is refused. */
  lemma AbsentRefused(s: Mem, d: nat, from: int, to: int, lap: int)
    requires Shape(s) && IsUser(d) && s.dir[d] == 0 && AllRefused(s, from, to)
    requires to == Linear(d, 0) + lap && (lap == 0 || lap == VM_PAGES)
    ensures AllRefused(s, from, to + PTRS)
  {
    forall u | from <= u < to + PTRS ensures RefusedFrom(s, u) {
      if u >= to {
        LinearBack(d, u - to, lap);
      }
    }
  }

  /** The directory after `d`, wrapping to the first user directory. */
  function NextDir(d: nat): nat {
    if d + 1 >= PTRS then FIRST_DIR else d + 1
  }

  function Before(d: nat): nat
    requires IsUser(d)
  {
    if d == FIRST_DIR then PTRS - 1 else d - 1
  }

  /** The directory `k` further on than `d`. */
  function Ahead(d: nat, k: nat): int {
    if d + k < PTRS then d + k else d + k - VM_DIRS
  }

  /** From directory `d` on there are `k` absent tables, and then a present one, or none at all. */
  ghost predicate Passed(s: Mem, d: nat, k: nat)
    requires Shape(s) && IsUser(d)
  {
    k <= VM_DIRS && (k < VM_DIRS ==> s.dir[Ahead(d, k)] != 0) && AbsentUpTo(s, d, k)
  }

  ghost predicate AbsentUpTo(s: Mem, d: nat, k: nat)
    requires Shape(s) && IsUser(d) && k <= VM_DIRS
  {
    forall i: nat {:trigger s.dir[Ahead(d, i)]} :: i < k ==> s.dir[Ahead(d, i)] == 0
  }

  lemma AbsentAt(s: Mem, d: nat, k: nat, i: nat)
    requires Shape(s) && IsUser(d) && i < k <= VM_DIRS && AbsentUpTo(s, d, k)
    ensures s.dir[Ahead(d, i)] == 0
  {
  }

  lemma PassedOnce(s: Mem, d: nat, j: nat, k: nat)
    requires Shape(s) && IsUser(d) && Passed(s, d, j) && Passed(s, d, k)
    ensures j == k
  {
    if j < k {
      AbsentAt(s, d, k, j);
    } else if k < j {
      AbsentAt(s, d, j, k);
    }
  }

  lemma SomePassed(s: Mem, d: nat)
    requires Shape(s) && IsUser(d)
    ensures exists k: nat :: Passed(s, d, k)
  {
    var k: nat := 0;
    while k < VM_DIRS && s.dir[Ahead(d, k)] == 0
      invariant k <= VM_DIRS && AbsentUpTo(s, d, k)
    {
      k := k + 1;
    }
    assert Passed(s, d, k);
  }

  /** How many absent tables swap_out passes before it finds its first present one. */
  ghost function Skips(s: Mem, d: nat): (k: nat)
    requires Shape(s) && IsUser(d)
    ensures Passed(s, d, k)
  {
    SomePassed(s, d);
    var k: nat :| Passed(s, d, k); k
  }

  /** The pages that a scan from directory `d0`, after page `p0`, never tries. Started on a present table it misses that
      table's first page, if it is to begin behind just that one and the table before is absent. Started on an absent
      table it misses, in the first present one, all pages up to `p0`: the same number of pages as were passed. */
  ghost predicate Untried(s: Mem, d0: nat, p0: int, x: nat)
    requires Shape(s) && IsUser(d0)
  {
    var k := Skips(s, d0);
    k < VM_DIRS &&
    if k == 0 then p0 == 0 && s.dir[Before(d0)] == 0 && x == Linear(d0, 0)
    else Linear(Ahead(d0, k), 0) <= x <= Linear(Ahead(d0, k), p0)
  }

  /** What a caller can look at before the call: on a present table, that the cursor is not on its first page, or that
      the table before is present; on an absent one, that it is before the first page, or that there is no table. */
  ghost predicate Exhaustive(s: Mem, d0: nat, p0: int)
    requires Shape(s) && IsUser(d0)
  {
    if s.dir[d0] != 0 then p0 != 0 || s.dir[Before(d0)] != 0
    else p0 == -1 || forall d: nat :: IsUser(d) ==> s.dir[d] == 0
  }

  lemma AheadReaches(d: nat, e: nat) returns (k: nat)
    requires IsUser(d) && IsUser(e)
    ensures k < VM_DIRS && Ahead(d, k) == e
  {
    k := if e >= d then e - d else e + VM_DIRS - d;
  }

  /** A failed scan vouches for every page exactly under that condition. */
  lemma ExhaustiveIsExact(s: Mem, d0: nat, p0: int)
    requires Shape(s) && IsUser(d0) && -1 <= p0 < PTRS
    ensures Exhaustive(s, d0, p0) <==> forall x: nat :: x < VM_PAGES ==> !Untried(s, d0, p0, x)
  {
    var k := Skips(s, d0);
    assert s.dir[Ahead(d0, 0)] == s.dir[d0];
    assert Passed(s, d0, k);
    if k == 0 {
      var x: nat := Linear(d0, 0);
      assert x < VM_PAGES && (p0 == 0 && s.dir[Before(d0)] == 0 ==> Untried(s, d0, p0, x));
    } else if k < VM_DIRS {
      var x: nat := Linear(Ahead(d0, k), 0);
      assert IsUser(Ahead(d0, k)) && x < VM_PAGES && (p0 >= 0 ==> Untried(s, d0, p0, x));
    } else {
      forall d: nat | IsUser(d) ensures s.dir[d] == 0 {
        var i := AheadReaches(d0, d);
        assert s.dir[Ahead(d0, i)] == 0;
      }
    }
  }

  /** The scan has tried all pages of its budget from its start on, or all but the last. */
  ghost predicate Spent(s: Mem, start: int, budget: int, p0: int)
    requires Shape(s)
  {
    AllRefused(s, start, start + budget - 1) && (p0 != 0 ==> AllRefused(s, start, start + budget))
  }

  /** What a scan that gave up has covered, which began on a present table `d`: the last page of a whole round included,
      if the table before is present. */
  ghost predicate Covered(s: Mem, d: nat, p: int, budget: int)
    requires Shape(s) && IsUser(d)
  {
    Spent(s, Linear(d, p) + 1, budget, p) &&
    (budget == VM_PAGES && p == 0 && s.dir[Before(d)] != 0 ==>
      AllRefused(s, Linear(d, p) + 1, Linear(d, p) + 1 + VM_PAGES))
  }

  /** The table that ends at position `u` is absent. */
  ghost predicate GapBefore(s: Mem, u: int)
    requires Shape(s)
  {
    forall d: nat :: IsUser(d) && (Linear(d, 0) + PTRS == u || Linear(d, 0) + PTRS + VM_PAGES == u) ==> s.dir[d] == 0
  }

  /** The scan stops once its budget is spent; only a last page behind an absent table can be left over. */
  lemma ScanEnds(s: Mem, start: int, upTo: int, counter: int, budget: int, d0: nat, p0: int)
    requires Shape(s) && IsUser(d0) && AllRefused(s, start, upTo) && budget - counter - 1 == upTo - start
    requires counter < 0 || (counter == 0 && upTo % PTRS == 0 && GapBefore(s, upTo))
    requires budget % PTRS == 0 && exists d: nat :: IsUser(d) && start == Linear(d, p0) + 1 && -1 <= p0 < PTRS
    ensures start == Linear(d0, p0) + 1 ==> Covered(s, d0, p0, budget)
  {
    if counter == 0 {
      assert p0 == 0;
      assert start == Linear(d0, 0) + 1 && budget == VM_PAGES ==> GapBefore(s, Linear(d0, 0) + VM_PAGES);
      assert IsUser(Before(d0));
    }
  }

  /** Page (d, i) is within a scan of `budget` pages from position `start`. */
  ghost predicate InScan(d: nat, i: nat, start: int, budget: int) {
    start <= Linear(d, i) < start + budget || start <= Linear(d, i) + VM_PAGES < start + budget
  }

  /** Page (e, i) is one that such a scan can come to. */
  ghost predicate InReach(s: Mem, d: nat, p: int, budget: int, e: nat, i: nat)
    requires Shape(s) && IsUser(d)
  {
    InScan(e, i, Linear(d, p) + 1, budget) &&
    (budget == VM_PAGES && p == 0 && s.dir[Before(d)] == 0 ==> (e, i) != (d, 0))
  }

  /** Every page that comes after page `p` of table `d` and before page (e, i), going round, is refused. */
  ghost predicate RefusedUpTo(s: Mem, d: nat, p: int, e: nat, i: nat)
    requires Shape(s) && IsUser(d)
  {
    var start, at := Linear(d, p) + 1, Linear(e, i);
    AllRefused(s, start, if at >= start then at else at + VM_PAGES)
  }

  /** Page (e, i) is the first that swap_out, from directory `d0` and page `p0` on, can let go: it begins on the first
      present table, behind page `p0` of it. */
  ghost predicate FirstToGo(s: Mem, d0: nat, p0: int, e: nat, i: nat) {
    Shape(s) && IsUser(d0) && e < PTRS && i < PTRS && !Refuses(s, e, i) &&
    exists k: nat :: Passed(s, d0, k) && k < VM_DIRS && RefusedUpTo(s, Ahead(d0, k), p0, e, i)
  }

  /** swap_out, from directory `d0` and page `p0` on, fails: all pages it tries are refused. */
  ghost predicate AllTried(s: Mem, d0: nat, p0: int)
    requires Shape(s) && IsUser(d0)
  {
    (forall x: nat :: x < VM_PAGES && !Untried(s, d0, p0, x) ==> RefusedAt(s, x)) &&
    (Exhaustive(s, d0, p0) ==> forall x: nat :: x < VM_PAGES ==> RefusedAt(s, x))
  }

  /** get_free_page gave up: no count is 0, and swap_out, wherever it had stopped before, was refused all pages it
      tries. */
  ghost predicate OutOfFrames(s: Mem) {
    Shape(s) && FreeFrame(s) == 0 && exists d: nat, p: int :: IsUser(d) && -1 <= p < PTRS && AllTried(s, d, p)
  }

  lemma AbsentTable(s: Mem, x: nat)
    requires Shape(s) && x < VM_PAGES && s.dir[FIRST_DIR + x / PTRS] == 0
    ensures RefusedAt(s, x)
  {
  }

  lemma AtPosition(x: nat)
    requires x < VM_PAGES
    ensures IsUser(FIRST_DIR + x / PTRS) && Linear(FIRST_DIR + x / PTRS, x % PTRS) == x
  {
  }

  /** What a scan that gave up has covered, after `k` absent tables. */
  lemma GaveUp(s: Mem, d0: nat, p0: int, x: nat)
    requires Shape(s) && IsUser(d0) && -1 <= p0 < PTRS && x < VM_PAGES && !Untried(s, d0, p0, x)
    requires var k := Skips(s, d0); k < VM_DIRS ==> Covered(s, Ahead(d0, k), p0, VM_PAGES - k * PTRS)
    ensures RefusedAt(s, x)
  {
    var k, d := Skips(s, d0), FIRST_DIR + x / PTRS;
    AtPosition(x);
    var a := AheadReaches(d0, d);
    if a < k {
      AbsentTable(s, x);
    } else {
      var start := Linear(Ahead(d0, k), p0) + 1;
      assert RefusedFrom(s, if x >= start then x else x + VM_PAGES);
    }
  }

  lemma AllGaveUp(s: Mem, d0: nat, p0: int)
    requires Shape(s) && IsUser(d0) && -1 <= p0 < PTRS
    ensures var k := Skips(s, d0);
      (k < VM_DIRS ==> Covered(s, Ahead(d0, k), p0, VM_PAGES - k * PTRS)) ==> AllTried(s, d0, p0)
  {
    var k := Skips(s, d0);
    if k < VM_DIRS ==> Covered(s, Ahead(d0, k), p0, VM_PAGES - k * PTRS) {
      ExhaustiveIsExact(s, d0, p0);
      forall x: nat | x < VM_PAGES && !Untried(s, d0, p0, x) ensures RefusedAt(s, x) {
        GaveUp(s, d0, p0, x);
      }
    }
  }

  /** Between two turns of a scan: all pages from its start up to position `upTo`, behind the cursors, were refused. */
  ghost predicate Waiting(s: Mem, d: nat, p: int, start: int, upTo: int, lap: int, budget: int, counter: int)
    requires Shape(s) && d < PTRS
  {
    s.dir[d] != 0 && 0 <= counter <= budget && upTo == Linear(d, p) + 1 + lap && (lap == 0 || lap == VM_PAGES) &&
    budget - counter == upTo - start && AllRefused(s, start, upTo)
  }

  lemma FoundInReach(s: Mem, d0: nat, p0: int, budget: int, d: nat, i: nat, counter: int, lap: int)
    requires Shape(s) && IsUser(d0) && 0 <= counter < budget <= VM_PAGES && (lap == 0 || lap == VM_PAGES)
    requires budget - counter - 1 == Linear(d, i) + lap - (Linear(d0, p0) + 1) && IsUser(d)
    requires p0 == 0 && i == 0 && s.dir[Before(d)] == 0 ==> counter > 0
    ensures InReach(s, d0, p0, budget, d, i)
    ensures AllRefused(s, Linear(d0, p0) + 1, Linear(d, i) + lap) ==> RefusedUpTo(s, d0, p0, d, i)
  {
  }

  /** And what it evicts is none of the pages it never tries. */
  lemma FoundInScan(s: Mem, d0: nat, p0: int, d: nat, i: nat)
    requires Shape(s) && IsUser(d0) && -1 <= p0 < PTRS && IsUser(d) && i < PTRS
    ensures var k := Skips(s, d0); k < VM_DIRS && InReach(s, Ahead(d0, k), p0, VM_PAGES - k * PTRS, d, i) ==>
      Linear(d, i) >= 0 && !Untried(s, d0, p0, Linear(d, i))
  {
    assert Ahead(d0, 0) == d0;
  }

  /** Pages outside the directories `d0` to `d0 + n - 1` are mapped and seen as before. */
  ghost predicate OthersKept(s: Mem, s': Mem, d0: nat, n: nat) {
    Shape(s) && Shape(s') && s'.page == s.page &&
    (forall x :: IsUser(x) && !(d0 <= x < d0 + n) ==> s'.dir[x] == s.dir[x]) &&
    forall x: nat, j: nat :: IsUser(x) && !(d0 <= x < d0 + n) && j < PTRS ==> At(s', x, j) == At(s, x, j)
  }

  /** Frame `f` left the caller's hands and shows, writable, at (d, i); no other page shows anything new. */
  ghost predicate Installed(s: Mem, s': Mem, d: nat, i: nat, f: nat) {
    Shape(s) && Shape(s') && IsUser(d) && i < PTRS && f < FRAMES &&
    At(s', d, i) == Present(f, true, false) && s'.page[f] == s.page[f] && f !in s'.kernel && SeenLessBut(s, s', d, i)
  }

  /** A write fault that needs no frame, or finds one free. */
  ghost predicate Untroubled(s: Mem, d: nat, i: nat)
    requires Shape(s) && d < PTRS && i < PTRS && At(s, d, i).Present?
  {
    At(s, d, i).frame < FRAMES && (SoleUser(s, At(s, d, i).frame) || FreeFrame(s) != 0)
  }

  /** The free frame, or any frame where none is needed. */
  ghost function FrameFor(s: Mem): (f: nat)
    requires Shape(s)
    ensures LOW <= f < FRAMES
  {
    if FreeFrame(s) != 0 then FreeFrame(s) else LOW
  }

  /** The copy of frame `g` in the frame `f` that get_free_page found, mapped writable at (d, i). */
  ghost function CopyInto(s: Mem, d: nat, i: nat, g: nat, f: nat): Mem
    requires Shape(s) && d < PTRS && i < PTRS && g < FRAMES && LOW <= f < FRAMES
  {
    MapPage(Take(s, f), d, i, f).(page := Take(s, f).page[f := Take(s, f).page[g]])
  }

  /** Without a frame: the old frame's count is lowered, frame 0 is mapped writable, and the page directory in it is
      copied over. */
  ghost function DirectoryCopiedOver(s: Mem, d: nat, i: nat, e: Entry): Mem
    requires Shape(s) && d < PTRS && i < PTRS && e.Present? && e.frame < FRAMES
    requires (e.frame >= LOW ==> CountAt(s, e.frame) > 0)
  {
    SetEntry(if e.frame >= LOW then SetCount(s, e.frame, CountAt(s, e.frame) - 1) else s, d, i, Present(0, true, false))
      .(page := s.page[0 := s.page[e.frame]])
  }

  /** All that un_wp_page may do to a present page; `mid` is memory once get_free_page is done evicting. A page that was
      itself evicted for want of frames, and whose frame is the one found, has lost its contents; an anchored one
      never. */
  ghost predicate FaultOutcome(s: Mem, mid: Mem, s': Mem, d: nat, i: nat, done: bool)
    requires Shape(s) && d < PTRS && i < PTRS && At(s, d, i).Present?
  {
    var e := At(s, d, i);
    e.frame < FRAMES &&
    if Untroubled(s, d, i) then mid == s && done && s' == WriteFault(s, d, i, FrameFor(s))
    else
      Reclaimed(s, mid) && (done <==> FreeFrame(mid) != 0) && (done || OutOfFrames(mid)) &&
      if done then
        s' == CopyInto(mid, d, i, e.frame, FreeFrame(mid)) && Shape(s') &&
        (ViewAt(s', d, i) == if FreeFrame(mid) == e.frame then Shows(ZERO_PAGE) else ViewAt(s, d, i)) &&
        (Anchored(s, e.frame) ==> ViewAt(s', d, i) == ViewAt(s, d, i))
      else (e.frame >= LOW ==> CountAt(mid, e.frame) > 0) && s' == DirectoryCopiedOver(mid, d, i, e)
  }

  lemma ReclaimedNothing(s: Mem)
    requires Inv(s)
    ensures Reclaimed(s, s)
  {
  }

  lemma WriteFaultAlone(s: Mem, d: nat, i: nat)
    requires Inv(s) && InTable(s, d, i) && At(s, d, i).Present? && At(s, d, i).frame < FRAMES
    requires SoleUser(s, At(s, d, i).frame)
    ensures var s' := SetEntry(s, d, i, At(s, d, i).(rw := true));
      Inv(s') && Writable(s', d, i) && SeenLessBut(s, s', d, i)
  {
    SoleUserWrites(s, d, i);
    SetEntryAt(s, d, i, At(s, d, i).(rw := true));
  }

  /** Filling a frame that one page alone shows is seen at that page only. */
  lemma FillsOnly(s: Mem, s1: Mem, s2: Mem, d: nat, i: nat, f: nat, p: Page)
    requires Inv(s2) && f < FRAMES && f >= LOW && SeenLessBut(s, s1, d, i) && Installed(s1, s2, d, i, f)
    ensures var s' := s2.(page := s2.page[f := p]); Inv(s') && Writable(s', d, i) && SeenLessBut(s, s', d, i)
  {
    var s' := s2.(page := s2.page[f := p]);
    SameTables(s2, s');
    assert Writable(s2, d, i);
    forall g: nat | LOW <= g < FRAMES ensures Count(s', g) <= s'.cnt[g - LOW] {
      assert Count(s2, g) <= s2.cnt[g - LOW];
    }
    forall x: nat, j: nat | IsUser(x) && j < PTRS && (x, j) != (d, i)
      ensures SamePage(s, s', x, j) || ViewAt(s', x, j) == Absent
    {
      assert At(s', x, j) == At(s2, x, j);
      assert !Maps(s2, x, j, f);
      assert SamePage(s1, s2, x, j) || ViewAt(s2, x, j) == Absent;
      assert SamePage(s, s1, x, j) || ViewAt(s1, x, j) == Absent;
    }
  }

  lemma UntroubledSeen(s: Mem, d: nat, i: nat)
    requires Inv(s) && InTable(s, d, i) && At(s, d, i).Present? && Untroubled(s, d, i)
    ensures Shape(WriteFault(s, d, i, FrameFor(s))) && SamePage(s, WriteFault(s, d, i, FrameFor(s)), d, i)
  {
    assert Maps(s, d, i, At(s, d, i).frame);
    if SoleUser(s, At(s, d, i).frame) {
      SetEntryAt(s, d, i, At(s, d, i).(rw := true));
    } else {
      WriteFaultKeepsInv(s, d, i, FreeFrame(s));
    }
  }

  lemma SwappedBack(s: Mem, mid: Mem, d: nat, i: nat, f: nat)
    requires Reclaimed(s, mid) && f == FreeFrame(mid) && f != 0 && InTable(s, d, i) && At(s, d, i).Swapped?
    ensures At(mid, d, i) == At(s, d, i) && At(mid, d, i).slot < SWAP_SLOTS && InTable(mid, d, i)
    ensures Inv(SwapIn(mid, d, i, f)) && ViewAt(SwapIn(mid, d, i, f), d, i) == Shows(ZERO_PAGE)
    ensures SeenLessBut(s, SwapIn(mid, d, i, f), d, i)
  {
    SwapInKeepsInv(mid, d, i, f);
    var s' := SwapIn(mid, d, i, f);
    forall x: nat, j: nat | IsUser(x) && j < PTRS && (x, j) != (d, i)
      ensures SamePage(s, s', x, j) || ViewAt(s', x, j) == Absent
    {
      assert SamePage(mid, s', x, j);
    }
  }

  /** A fresh table in `td`, and a source: a user's table, or the part of the kernel's that the first fork copies. */
  ghost predicate TableReady(s: Mem, fd: nat, td: nat, nr: nat) {
    Inv(s) && IsUser(td) && s.dir[td] != 0 && nr <= PTRS && fd != td &&
    (forall j: nat :: j < PTRS ==> At(s, td, j) == Empty) &&
    ((IsUser(fd) && s.dir[fd] != 0) || (fd == 0 && nr <= 160))
  }

  /** The first `nr` entries of `fd` stand, write-protected, in both tables; nothing else moved and no page changed. */
  ghost predicate TableCopied(s: Mem, s': Mem, fd: nat, td: nat, nr: nat)
    requires TableReady(s, fd, td, nr)
  {
    Shape(s') && s'.dir == s.dir && s'.page == s.page &&
    (forall j: nat :: j < PTRS ==> At(s', 0, j) == At(s, 0, j)) &&
    forall x: nat, j: nat :: IsUser(x) && j < PTRS ==>
      At(s', x, j) == if j < nr && At(s, fd, j).Present? && (x == td || (x == fd && At(s, fd, j).frame >= LOW))
                      then WriteProtect(At(s, fd, j)) else At(s, x, j)
  }

  lemma NothingCopied(s: Mem, fd: nat, td: nat, nr: nat)
    requires TableReady(s, fd, td, nr)
    ensures TableCopied(s, s, fd, td, 0)
  {
  }

  lemma FreshTable(s: Mem, f: nat, td: nat, fd: nat)
    requires Inv(s) && f == FreeFrame(s) && f != 0 && IsUser(td) && s.dir[td] == 0 && fd != td
    requires (fd == 0 || IsUser(fd)) && s.dir[fd] != 0
    ensures TableReady(GiveTable(Take(s, f), td, f), fd, td, CopiedPages(fd))
  {
    TakeKeepsInv(s, f);
    TakeAt(s, f);
    GiveTableKeepsInv(Take(s, f), td, f);
  }

  lemma OneMoreCopied(s: Mem, s1: Mem, fd: nat, td: nat, i: nat)
    requires i < PTRS && TableReady(s, fd, td, i + 1) && TableCopied(s, s1, fd, td, i) && CopyReady(s1, fd, i, td, i)
    ensures TableCopied(s, CopyEntry(s1, fd, i, td, i), fd, td, i + 1)
  {
    CopyEntryAt(s1, fd, i, td, i);
    assert At(s1, fd, i) == At(s, fd, i);
  }

  /** copy_page_tables copies the first 160 pages of the kernel's table, and all of a user's. */
  function CopiedPages(fd: nat): nat { if fd == 0 then 160 else PTRS }

  /** The directories to copy from and to: apart, with nothing at the target; the kernel's first one, or a user's. */
  ghost predicate RangesReady(s: Mem, fd: nat, td: nat, n: nat) {
    Inv(s) && FIRST_DIR <= td && td + n <= PTRS && fd + n <= PTRS &&
    (n == 0 || (fd == 0 && n == 1) || (FIRST_DIR <= fd && (td >= fd + n || fd >= td + n))) &&
    forall x :: td <= x < td + n ==> s.dir[x] == 0
  }

  /** Every page outside the child shows what it did, or was evicted; every page of the child shows what
      the parent's showed, or nothing. */
  ghost predicate Forked(s: Mem, s': Mem, fd: nat, td: nat, n: nat) {
    Shape(s) && Shape(s') && fd + n <= PTRS && td + n <= PTRS &&
    (forall x: nat, j: nat :: IsUser(x) && !(td <= x < td + n) && j < PTRS ==>
      SamePage(s, s', x, j) || ViewAt(s', x, j) == Absent) &&
    (forall j: nat :: j < 160 ==> SamePage(s, s', 0, j)) &&
    forall x: nat, j: nat :: td <= x < td + n && j < PTRS ==>
      ViewAt(s', x, j) == Absent || (j < CopiedPages(fd) && ViewAt(s', x, j) == ViewAt(s, x - td + fd, j))
  }

  /** A dirty page that the parent still has, the child has too. */
  ghost predicate DirtyShared(s: Mem, fd: nat, td: nat, n: nat) {
    Shape(s) && fd + n <= PTRS && td + n <= PTRS &&
    forall x: nat, j: nat :: td <= x < td + n && IsUser(x - td + fd) && j < PTRS && IsDirty(At(s, x - td + fd, j)) ==>
      At(s, x, j) == At(s, x - td + fd, j)
  }

  /** Outside the directories `fd` and `td` pages were at most evicted, and none of two that share a dirty frame. */
  ghost predicate OtherTwinsStay(s: Mem, s': Mem, fd: nat, td: nat)
    requires Shape(s) && Shape(s')
  {
    forall x: nat, y: nat, j: nat {:trigger At(s', x, j), At(s', y, j)} ::
      IsUser(x) && IsUser(y) && x != y && x != fd && x != td && y != fd && y != td && j < PTRS &&
        IsDirty(At(s', x, j)) ==>
        At(s, x, j) == At(s', x, j) && (At(s, y, j) == At(s, x, j) ==> At(s', y, j) == At(s, y, j))
  }

  /** The child sees exactly what the parent saw, and everyone else what they saw. */
  ghost predicate ForkedFully(s: Mem, s': Mem, fd: nat, td: nat, n: nat) {
    Shape(s) && Shape(s') && fd + n <= PTRS && td + n <= PTRS &&
    (forall x: nat, j: nat :: IsUser(x) && !(td <= x < td + n) && j < PTRS ==> SamePage(s, s', x, j)) &&
    forall x: nat, j: nat :: td <= x < td + n && j < CopiedPages(fd) ==> ViewAt(s', x, j) == ViewAt(s, x - td + fd, j)
  }

  lemma ForkedNothing(s: Mem, fd: nat, td: nat)
    requires Inv(s) && fd <= PTRS && td <= PTRS
    ensures Forked(s, s, fd, td, 0) && ForkedFully(s, s, fd, td, 0) && DirtyShared(s, fd, td, 0)
  {
  }

  /** One table: skipped because the parent has none there, or copied. */
  ghost predicate TableStep(s: Mem, s': Mem, fd: nat, td: nat, calm: bool) {
    Inv(s) && Inv(s') && fd < PTRS && td < PTRS &&
    (forall x :: 0 <= x < PTRS && x != td ==> s'.dir[x] == s.dir[x]) &&
    OtherTwinsStay(s, s', fd, td) && DirtyShared(s', fd, td, 1) &&
    if s.dir[fd] == 0 then s' == s else Forked(s, s', fd, td, 1) && (calm ==> ForkedFully(s, s', fd, td, 1))
  }

  /** The tables copied so far, and those still to copy. */
  ghost predicate ForkedSoFar(s: Mem, s': Mem, fd: nat, td: nat, k: nat, n: nat, calm: bool) {
    k <= n && RangesReady(s, fd, td, n) && RangesReady(s', fd + k, td + k, n - k) && Forked(s, s', fd, td, k) &&
    DirtyShared(s', fd, td, k) && (calm ==> ForkedFully(s, s', fd, td, k))
  }

  /** A table to copy, if there is one, and where it goes. */
  ghost predicate TableWanted(s: Mem, fd: nat, td: nat)
    requires Shape(s)
  {
    IsUser(td) && fd < PTRS && fd != td && (fd == 0 || IsUser(fd)) && s.dir[td] == 0
  }

  lemma ForkedOneMore(s: Mem, s1: Mem, s2: Mem, fd: nat, td: nat, k: nat, n: nat, calm: bool, quiet: bool)
    requires k < n && ForkedSoFar(s, s1, fd, td, k, n, calm) && TableStep(s1, s2, fd + k, td + k, quiet)
    ensures ForkedSoFar(s, s2, fd, td, k + 1, n, calm && quiet)
  {
    ForkedMore(s, s1, s2, fd, td, k, n, calm && quiet);
    DirtyMore(s1, s2, fd, td, k, n, quiet);
  }

  lemma DirtyMore(s1: Mem, s2: Mem, fd: nat, td: nat, k: nat, n: nat, calm: bool)
    requires k < n && RangesReady(s1, fd + k, td + k, n - k) && DirtyShared(s1, fd, td, k) && FIRST_DIR <= td
    requires (fd == 0 && n == 1) || (FIRST_DIR <= fd && (td >= fd + n || fd >= td + n))
    requires TableStep(s1, s2, fd + k, td + k, calm)
    ensures DirtyShared(s2, fd, td, k + 1)
  {
    forall x: nat, j: nat | td <= x < td + k + 1 && IsUser(x - td + fd) && j < PTRS && IsDirty(At(s2, x - td + fd, j))
      ensures At(s2, x, j) == At(s2, x - td + fd, j)
    {
      if x < td + k {
        TwinStays(s1, s2, fd + k, td + k, x - td + fd, x, j);
      }
    }
  }

  lemma TwinStays(s: Mem, s': Mem, fd: nat, td: nat, x: nat, y: nat, j: nat)
    requires Shape(s) && Shape(s') && OtherTwinsStay(s, s', fd, td) && j < PTRS && IsUser(x) && IsUser(y)
    requires x != y && x != fd && x != td && y != fd && y != td && IsDirty(At(s', x, j))
    requires IsDirty(At(s, x, j)) ==> At(s, y, j) == At(s, x, j)
    ensures At(s', y, j) == At(s', x, j)
  {
    var e := At(s', y, j);
  }

  lemma ForkedMore(s: Mem, s1: Mem, s2: Mem, fd: nat, td: nat, k: nat, n: nat, calm: bool)
    requires k < n && ForkedSoFar(s, s1, fd, td, k, n, calm) && TableStep(s1, s2, fd + k, td + k, calm)
    ensures Forked(s, s2, fd, td, k + 1) && RangesReady(s2, fd + k + 1, td + k + 1, n - k - 1)
    ensures calm ==> ForkedFully(s, s2, fd, td, k + 1)
  {
    ForkedMoreLow(s, s1, s2, fd, td, k, n, calm);
    ForkedMoreOthers(s, s1, s2, fd, td, k, n, calm);
    forall x: nat, j: nat | td <= x < td + k + 1 && j < PTRS
      ensures ViewAt(s2, x, j) == Absent || (j < CopiedPages(fd) && ViewAt(s2, x, j) == ViewAt(s, x - td + fd, j))
      ensures calm && j < CopiedPages(fd) ==> ViewAt(s2, x, j) == ViewAt(s, x - td + fd, j)
    {
      if x < td + k {
        assert ViewAt(s1, x, j) == Absent || ViewAt(s1, x, j) == ViewAt(s, x - td + fd, j);
        assert SamePage(s1, s2, x, j) || ViewAt(s2, x, j) == Absent;
      } else {
        ForkedLast(s, s1, s2, fd, td, k, n, calm, j);
      }
    }
  }

  lemma ForkedMoreLow(s: Mem, s1: Mem, s2: Mem, fd: nat, td: nat, k: nat, n: nat, calm: bool)
    requires k < n && ForkedSoFar(s, s1, fd, td, k, n, calm) && TableStep(s1, s2, fd + k, td + k, calm)
    ensures Shape(s) && Shape(s2) && forall j: nat :: j < 160 ==> SamePage(s, s2, 0, j)
  {
    forall j: nat | j < 160 ensures SamePage(s, s2, 0, j) {
      assert SamePage(s, s1, 0, j);
      if s1.dir[fd + k] != 0 {
        assert SamePage(s1, s2, 0, j);
      }
    }
  }

  lemma ForkedMoreOthers(s: Mem, s1: Mem, s2: Mem, fd: nat, td: nat, k: nat, n: nat, calm: bool)
    requires k < n && ForkedSoFar(s, s1, fd, td, k, n, calm) && TableStep(s1, s2, fd + k, td + k, calm)
    ensures Shape(s) && Shape(s2)
    ensures forall x: nat, j: nat :: IsUser(x) && !(td <= x < td + k + 1) && j < PTRS ==>
      (SamePage(s, s2, x, j) || ViewAt(s2, x, j) == Absent) && (calm ==> SamePage(s, s2, x, j))
  {
    forall x: nat, j: nat | IsUser(x) && !(td <= x < td + k + 1) && j < PTRS
      ensures SamePage(s, s2, x, j) || ViewAt(s2, x, j) == Absent
      ensures calm ==> SamePage(s, s2, x, j)
    {
      assert SamePage(s, s1, x, j) || ViewAt(s1, x, j) == Absent;
      assert SamePage(s1, s2, x, j) || ViewAt(s2, x, j) == Absent;
    }
  }

  lemma ForkedLast(s: Mem, s1: Mem, s2: Mem, fd: nat, td: nat, k: nat, n: nat, calm: bool, j: nat)
    requires k < n && ForkedSoFar(s, s1, fd, td, k, n, calm) && TableStep(s1, s2, fd + k, td + k, calm) && j < PTRS
    ensures ViewAt(s2, td + k, j) == Absent || (j < CopiedPages(fd) && ViewAt(s2, td + k, j) == ViewAt(s, fd + k, j))
    ensures calm && j < CopiedPages(fd) ==> ViewAt(s2, td + k, j) == ViewAt(s, fd + k, j)
  {
    if s1.dir[fd + k] != 0 {
      assert ViewAt(s2, td + k, j) == Absent || ViewAt(s2, td + k, j) == ViewAt(s1, fd + k, j);
    }
    if fd != 0 {
      assert SamePage(s, s1, fd + k, j) || ViewAt(s1, fd + k, j) == Absent;
    } else if j < 160 {
      assert SamePage(s, s1, 0, j);
    }
  }

  /** A table that was not copied to its end: the child shows some of the parent's pages there, or none. */
  ghost predicate TableStopped(s: Mem, s': Mem, fd: nat, td: nat) {
    Shape(s) && Shape(s') && td < PTRS && (forall x :: 0 <= x < PTRS && x != td ==> s'.dir[x] == s.dir[x]) &&
    Forked(s, s', fd, td, 1)
  }

  lemma NoTableStopped(s: Mem, s': Mem, fd: nat, td: nat)
    requires Reclaimed(s, s') && fd < PTRS && td < PTRS && s.dir[td] == 0
    ensures TableStopped(s, s', fd, td)
  {
    forall j: nat | j < 160 ensures SamePage(s, s', 0, j) {
      assert At(s', 0, j) == At(s, 0, j);
    }
  }

  /** The rest of the child is absent. */
  lemma ForkStopped(s: Mem, s1: Mem, s2: Mem, fd: nat, td: nat, k: nat, n: nat, calm: bool)
    requires k < n && ForkedSoFar(s, s1, fd, td, k, n, calm) && TableStopped(s1, s2, fd + k, td + k)
    ensures Forked(s, s2, fd, td, n)
  {
    forall j: nat | j < 160 ensures SamePage(s, s2, 0, j) {
      assert SamePage(s, s1, 0, j) && SamePage(s1, s2, 0, j);
    }
    forall x: nat, j: nat | IsUser(x) && !(td <= x < td + n) && j < PTRS
      ensures SamePage(s, s2, x, j) || ViewAt(s2, x, j) == Absent
    {
      assert SamePage(s, s1, x, j) || ViewAt(s1, x, j) == Absent;
      assert SamePage(s1, s2, x, j) || ViewAt(s2, x, j) == Absent;
    }
    forall x: nat, j: nat | td <= x < td + n && j < PTRS
      ensures ViewAt(s2, x, j) == Absent || (j < CopiedPages(fd) && ViewAt(s2, x, j) == ViewAt(s, x - td + fd, j))
    {
      StoppedPage(s, s1, s2, fd, td, k, n, calm, x, j);
    }
  }

  lemma StoppedPage(s: Mem, s1: Mem, s2: Mem, fd: nat, td: nat, k: nat, n: nat, calm: bool, x: nat, j: nat)
    requires k < n && ForkedSoFar(s, s1, fd, td, k, n, calm) && TableStopped(s1, s2, fd + k, td + k)
    requires td <= x < td + n && j < PTRS
    ensures ViewAt(s2, x, j) == Absent || (j < CopiedPages(fd) && ViewAt(s2, x, j) == ViewAt(s, x - td + fd, j))
  {
    if x < td + k {
      assert ViewAt(s1, x, j) == Absent || ViewAt(s1, x, j) == ViewAt(s, x - td + fd, j);
      assert SamePage(s1, s2, x, j) || ViewAt(s2, x, j) == Absent;
    } else if x == td + k {
      assert ViewAt(s2, x, j) == Absent || ViewAt(s2, x, j) == ViewAt(s1, fd + k, j);
      if fd != 0 {
        assert SamePage(s, s1, fd + k, j) || ViewAt(s1, fd + k, j) == Absent;
      } else if j < 160 {
        assert SamePage(s, s1, 0, j);
      }
    } else {
      assert s1.dir[td + k + (x - td - k)] == 0;
    }
  }

  /** A table copied entry by entry shows the child the parent's pages. */
  lemma TableForked(s: Mem, mid: Mem, f: nat, s2: Mem, fd: nat, td: nat)
    requires RangesReady(s, fd, td, 1) && Reclaimed(s, mid) && f == FreeFrame(mid) && f != 0
    requires var s1 := GiveTable(Take(mid, f), td, f);
      TableReady(s1, fd, td, CopiedPages(fd)) && TableCopied(s1, s2, fd, td, CopiedPages(fd))
    ensures Forked(s, s2, fd, td, 1) && (mid == s ==> ForkedFully(s, s2, fd, td, 1))
    ensures OtherTwinsStay(s, s2, fd, td) && DirtyShared(s2, fd, td, 1)
  {
    OtherTwinsForked(s, mid, f, s2, fd, td);
    EntriesForked(s, mid, f, s2, fd, td, CopiedPages(fd));
  }

  /** A table copied up to some entry. */
  lemma TableFilledTo(s: Mem, mid: Mem, f: nat, s2: Mem, fd: nat, td: nat, nr: nat)
    requires RangesReady(s, fd, td, 1) && Reclaimed(s, mid) && f == FreeFrame(mid) && f != 0 && nr <= CopiedPages(fd)
    requires var s1 := GiveTable(Take(mid, f), td, f); TableReady(s1, fd, td, nr) && TableCopied(s1, s2, fd, td, nr)
    ensures TableStopped(s, s2, fd, td)
  {
    EntriesForked(s, mid, f, s2, fd, td, nr);
  }

  /** The same for its first `nr` entries. */
  lemma EntriesForked(s: Mem, mid: Mem, f: nat, s2: Mem, fd: nat, td: nat, nr: nat)
    requires RangesReady(s, fd, td, 1) && Reclaimed(s, mid) && f == FreeFrame(mid) && f != 0 && nr <= CopiedPages(fd)
    requires var s1 := GiveTable(Take(mid, f), td, f); TableReady(s1, fd, td, nr) && TableCopied(s1, s2, fd, td, nr)
    ensures Forked(s, s2, fd, td, 1) && (mid == s && nr == CopiedPages(fd) ==> ForkedFully(s, s2, fd, td, 1))
  {
    var s1 := GiveTable(Take(mid, f), td, f);
    FreshTableSeen(s, mid, f, td);
    LowKept(mid, f, s1, td);
    OthersForked(s, mid, s1, s2, fd, td, nr);
    forall j: nat | j < PTRS
      ensures ViewAt(s2, td, j) == Absent || (j < CopiedPages(fd) && ViewAt(s2, td, j) == ViewAt(s, fd, j))
      ensures mid == s && j < nr ==> ViewAt(s2, td, j) == ViewAt(s, fd, j)
    {
      ChildPage(s, mid, f, s1, s2, fd, td, nr, j);
    }
  }

  lemma OtherTwinsForked(s: Mem, mid: Mem, f: nat, s2: Mem, fd: nat, td: nat)
    requires Inv(s) && IsUser(td) && fd < PTRS && s.dir[td] == 0 && Reclaimed(s, mid) && f == FreeFrame(mid) && f != 0
    requires var s1 := GiveTable(Take(mid, f), td, f);
      TableReady(s1, fd, td, CopiedPages(fd)) && TableCopied(s1, s2, fd, td, CopiedPages(fd))
    ensures OtherTwinsStay(s, s2, fd, td) && DirtyShared(s2, fd, td, 1)
  {
    FreshTableSeen(s, mid, f, td);
    forall x: nat, y: nat, j: nat |
      IsUser(x) && IsUser(y) && x != y && x != fd && x != td && y != fd && y != td && j < PTRS && IsDirty(At(s2, x, j))
      ensures At(s, x, j) == At(s2, x, j) && (At(s, y, j) == At(s, x, j) ==> At(s2, y, j) == At(s, y, j))
    {
      assert At(s2, x, j) == At(mid, x, j) && At(s2, y, j) == At(mid, y, j);
      assert At(s, y, j) == At(s, x, j) ==> Twins(s, y, x, j);
    }
  }

  lemma OthersForked(s: Mem, mid: Mem, s1: Mem, s2: Mem, fd: nat, td: nat, nr: nat)
    requires Shape(s) && TableReady(s1, fd, td, nr) && TableCopied(s1, s2, fd, td, nr)
    requires forall x: nat, j: nat :: IsUser(x) && j < PTRS ==>
      (SamePage(s, s1, x, j) || ViewAt(s1, x, j) == Absent) && (mid == s ==> SamePage(s, s1, x, j))
    ensures forall x: nat, j: nat :: IsUser(x) && j < PTRS && x != td ==>
      (SamePage(s, s2, x, j) || ViewAt(s2, x, j) == Absent) && (mid == s ==> SamePage(s, s2, x, j))
  {
    forall x: nat, j: nat | IsUser(x) && j < PTRS && x != td
      ensures SamePage(s, s2, x, j) || ViewAt(s2, x, j) == Absent
      ensures mid == s ==> SamePage(s, s2, x, j)
    {
      assert SamePage(s, s1, x, j) || ViewAt(s1, x, j) == Absent;
      assert SamePage(s1, s2, x, j);
    }
  }

  /** Entering a fresh table changes no page, beyond what eviction took. */
  lemma FreshTableSeen(s: Mem, mid: Mem, f: nat, td: nat)
    requires Reclaimed(s, mid) && f == FreeFrame(mid) && f != 0 && IsUser(td) && mid.dir[td] == 0
    ensures Shape(GiveTable(Take(mid, f), td, f))
    ensures forall x: nat, j: nat :: IsUser(x) && j < PTRS ==>
      var s1 := GiveTable(Take(mid, f), td, f);
      At(s1, x, j) == At(mid, x, j) && !Maps(mid, x, j, f) &&
      (SamePage(s, s1, x, j) || ViewAt(s1, x, j) == Absent) && (mid == s ==> SamePage(s, s1, x, j))
  {
    TakeAt(mid, f);
    TakeKeepsInv(mid, f);
    FreeFrameUnused(mid, f);
    GiveTableKeepsInv(Take(mid, f), td, f);
    var s1 := GiveTable(Take(mid, f), td, f);
    forall x: nat, j: nat | IsUser(x) && j < PTRS
      ensures At(s1, x, j) == At(mid, x, j) && !Maps(mid, x, j, f)
      ensures SamePage(s, s1, x, j) || ViewAt(s1, x, j) == Absent
      ensures mid == s ==> SamePage(s, s1, x, j)
    {
      assert !Maps(mid, x, j, f);
    }
  }

  /** The pages of the kernel's table that fork copies lie in low memory and show what they did. */
  lemma LowKept(s: Mem, f: nat, s1: Mem, td: nat)
    requires Inv(s) && f == FreeFrame(s) && f != 0 && IsUser(td) && s1 == GiveTable(Take(s, f), td, f)
    ensures Shape(s1) && forall j: nat :: j < 160 ==> At(s1, 0, j) == At(s, 0, j) && SamePage(s, s1, 0, j)
  {
    assert s.dir[0] < LOW <= f;
    forall j: nat | j < 160 ensures At(s1, 0, j) == At(s, 0, j) && SamePage(s, s1, 0, j) {
    }
  }

  lemma ChildPage(s: Mem, mid: Mem, f: nat, s1: Mem, s2: Mem, fd: nat, td: nat, nr: nat, j: nat)
    requires RangesReady(s, fd, td, 1) && Reclaimed(s, mid) && f == FreeFrame(mid) && f != 0 && j < PTRS
    requires s1 == GiveTable(Take(mid, f), td, f) && nr <= CopiedPages(fd)
    requires TableReady(s1, fd, td, nr) && TableCopied(s1, s2, fd, td, nr)
    requires IsUser(fd) ==> At(s1, fd, j) == At(mid, fd, j) && !Maps(mid, fd, j, f)
    ensures ViewAt(s2, td, j) == Absent || (j < CopiedPages(fd) && ViewAt(s2, td, j) == ViewAt(s, fd, j))
    ensures mid == s && j < nr ==> ViewAt(s2, td, j) == ViewAt(s, fd, j)
  {
    if fd == 0 && j < 160 {
      LowKept(mid, f, s1, td);
      assert At(s, 0, j) == At(mid, 0, j);
    }
  }

  /** The entry copied: low memory from the kernel's table, an existing frame from a user's. */
  lemma SourceFrame(s: Mem, fd: nat, i: nat, td: nat)
    requires CopyReady(s, fd, i, td, i) && At(s, fd, i).Present?
    ensures At(s, fd, i).frame < FRAMES && (fd == 0 ==> At(s, fd, i).frame < LOW)
  {
    if IsUser(fd) {
      assert Maps(s, fd, i, At(s, fd, i).frame);
    }
  }

  lemma TakenStaysAbsent(s: Mem, mid: Mem, f: nat, d: nat, i: nat)
    requires Reclaimed(s, mid) && f == FreeFrame(mid) && f != 0 && IsUser(d) && i < PTRS
    ensures Shape(Take(mid, f)) && (ViewAt(s, d, i) == Absent ==> ViewAt(Take(mid, f), d, i) == Absent)
  {
    TakeAt(mid, f);
    if At(s, d, i).Present? {
      assert Maps(s, d, i, At(s, d, i).frame);
    }
  }

  lemma HeldFreed(s: Mem, s': Mem, d: nat, i: nat, f: nat)
    requires SeenLessBut(s, s', d, i) && Inv(s') && f in s'.kernel && IsUser(d) && i < PTRS && f < FRAMES
    ensures SeenLessBut(s, KernelPut(s', f), d, i)
    ensures ViewAt(KernelPut(s', f), d, i) == ViewAt(s', d, i)
  {
    KernelPutKeepsInv(s', f);
    assert forall x: nat, j: nat :: x < PTRS && j < PTRS ==> At(KernelPut(s', f), x, j) == At(s', x, j);
    assert forall x: nat, j: nat :: x < PTRS && j < PTRS ==> ViewAt(KernelPut(s', f), x, j) == ViewAt(s', x, j);
  }

  /** A frame already held is not the one found free. */
  lemma HeldDiffers(s: Mem, mid: Mem, f: nat, g: nat)
    requires Reclaimed(s, mid) && f in s.kernel && g == FreeFrame(mid) && g != 0
    ensures f != g && f < FRAMES && Take(mid, g).page[f] == s.page[f] && f in Take(mid, g).kernel
  {
    KernelPutKeepsInv(mid, f);
  }

  /** A table found for a page whose frame is already held. */
  lemma TableForPage(s: Mem, mid: Mem, f: nat, g: nat, d: nat, i: nat)
    requires Reclaimed(s, mid) && f in s.kernel && g == FreeFrame(mid) && g != 0 && IsUser(d) && i < PTRS
    requires s.dir[d] == 0
    ensures Shape(Take(mid, g)) && f < FRAMES && Shape(GiveTable(Take(mid, g), d, g))
    ensures var s1 := GiveTable(Take(mid, g), d, g);
      s1.page[f] == s.page[f] && f in s1.kernel && InTable(s1, d, i) && SeenLessBut(s, s1, d, i)
  {
    HeldDiffers(s, mid, f, g);
    TakenSeenLess(s, mid, g, d, i);
    var s0, s1 := Take(mid, g), GiveTable(Take(mid, g), d, g);
    GiveTableKeepsInv(s0, d, g);
    forall x: nat, j: nat | IsUser(x) && j < PTRS && (x, j) != (d, i)
      ensures SamePage(s, s1, x, j) || ViewAt(s1, x, j) == Absent
    {
      assert SamePage(s, s0, x, j) || ViewAt(s0, x, j) == Absent;
    }
  }

  lemma InstalledAfter(s: Mem, s1: Mem, s': Mem, d: nat, i: nat, f: nat)
    requires f < FRAMES && SeenLessBut(s, s1, d, i) && s1.page[f] == s.page[f] && Installed(s1, s', d, i, f)
    ensures Installed(s, s', d, i, f)
  {
    forall x: nat, j: nat | IsUser(x) && j < PTRS && (x, j) != (d, i)
      ensures SamePage(s, s', x, j) || ViewAt(s', x, j) == Absent
    {
      assert SamePage(s1, s', x, j) || ViewAt(s', x, j) == Absent;
      assert SamePage(s, s1, x, j) || ViewAt(s1, x, j) == Absent;
    }
  }

  lemma EmptyPageMapped(s: Mem, s1: Mem, s2: Mem, d: nat, i: nat, f: nat, r: nat)
    requires Shape(s) && Shape(s2) && IsUser(d) && i < PTRS && f < FRAMES
    requires SeenLessBut(s, s1, d, i) && s1.page[f] == ZERO_PAGE
    requires ViewAt(s, d, i) == Absent ==> ViewAt(s1, d, i) == Absent
    requires if r == 0 then Reclaimed(s1, s2) else r == f && Installed(s1, s2, d, i, f)
    ensures SeenLessBut(s, s2, d, i)
    ensures ViewAt(s, d, i) == Absent ==> ViewAt(s2, d, i) == Shows(ZERO_PAGE) || ViewAt(s2, d, i) == Absent
    ensures r != 0 ==> ViewAt(s2, d, i) == Shows(ZERO_PAGE)
  {
    forall x: nat, j: nat | IsUser(x) && j < PTRS && (x, j) != (d, i)
      ensures SamePage(s, s2, x, j) || ViewAt(s2, x, j) == Absent
    {
      assert SamePage(s, s1, x, j) || ViewAt(s1, x, j) == Absent;
    }
  }

  /** get_empty_page mapped nothing: there was no frame for the page, or one, `f`, but none for its table, and it was
      given back. */
  ghost predicate NothingMapped(s: Mem, mid: Mem, s': Mem, d: nat, f: nat)
    requires Shape(s) && d < PTRS
  {
    OutOfFrames(mid) &&
    if f == 0 then Reclaimed(s, mid) && s' == mid
    else s.dir[d] == 0 && mid.dir[d] == 0 && f < FRAMES && f in mid.kernel && s' == KernelPut(mid, f)
  }

  /** A free frame for the page, and one for its table if there is none yet. */
  ghost predicate FramesFor(s: Mem, d: nat)
    requires Shape(s) && d < PTRS
  {
    FreeFrame(s) != 0 && (s.dir[d] != 0 || FreeFrame(Take(s, FreeFrame(s))) != 0)
  }

  lemma MapSeen(s: Mem, d: nat, i: nat, f: nat)
    requires Inv(s) && InTable(s, d, i) && f in s.kernel
    ensures Inv(MapPage(s, d, i, f)) && At(MapPage(s, d, i, f), d, i) == Present(f, true, false) && f < FRAMES
    ensures Installed(s, MapPage(s, d, i, f), d, i, f)
  {
    MapPageKeepsInv(s, d, i, f);
    assert Pageable(s, f);
    SetEntryAt(s, d, i, Present(f, true, false));
    var s1, s' := SetEntry(s, d, i, Present(f, true, false)), MapPage(s, d, i, f);
    assert forall x: nat, j: nat :: x < PTRS && j < PTRS ==> At(s', x, j) == At(s1, x, j);
  }

  /** After a failed fork: no child, every other page as it was or evicted. */
  ghost predicate Undone(s: Mem, s': Mem, td: nat, n: nat) {
    Shape(s) && Shape(s') && td + n <= PTRS &&
    (forall x :: td <= x < td + n ==> s'.dir[x] == 0) &&
    forall x: nat, j: nat :: IsUser(x) && !(td <= x < td + n) && j < PTRS ==>
      SamePage(s, s', x, j) || ViewAt(s', x, j) == Absent
  }

  lemma CopyUndone(s: Mem, s1: Mem, s2: Mem, fd: nat, td: nat, n: nat)
    requires Forked(s, s1, fd, td, n) && OthersKept(s1, s2, td, n)
    requires forall x :: td <= x < td + n ==> s2.dir[x] == 0
    ensures Undone(s, s2, td, n)
  {
    forall x: nat, j: nat | IsUser(x) && !(td <= x < td + n) && j < PTRS
      ensures SamePage(s, s2, x, j) || ViewAt(s2, x, j) == Absent
    {
      assert SamePage(s, s1, x, j) || ViewAt(s1, x, j) == Absent;
    }
  }

  /** The clean source page, after a page table was found for the target: still there, or evicted. */
  ghost predicate SourceKept(s: Mem, s1: Mem, fd: nat, td: nat, i: nat) {
    Inv(s) && Inv(s1) && s1.high == s.high && IsUser(fd) && IsUser(td) && i < PTRS && s1.dir[fd] != 0 &&
      s1.dir[td] != 0 &&
    SeenLessBut(s, s1, td, i) && !At(s1, td, i).Present? &&
    (At(s1, fd, i) == At(s, fd, i) || At(s1, fd, i) == Empty)
  }

  lemma SourceAfter(s: Mem, mid: Mem, f: nat, fd: nat, td: nat, i: nat)
    requires Inv(s) && IsUser(fd) && IsUser(td) && fd != td && i < PTRS && s.dir[fd] != 0 && s.dir[td] == 0
    requires At(s, fd, i).Present? && !At(s, fd, i).dirty && LOW <= At(s, fd, i).frame < FRAMES
    requires Reclaimed(s, mid) && f == FreeFrame(mid) && f != 0
    ensures SourceKept(s, GiveTable(Take(mid, f), td, f), fd, td, i)
    ensures CountAt(GiveTable(Take(mid, f), td, f), At(s, fd, i).frame) <= CountAt(s, At(s, fd, i).frame)
  {
    SourceCounted(s, fd, i);
    TakenSeenLess(s, mid, f, td, i);
    TakeAt(mid, f);
    var s0 := Take(mid, f);
    GiveTableKeepsInv(s0, td, f);
    var s1 := GiveTable(s0, td, f);
    forall x: nat, j: nat | IsUser(x) && j < PTRS && (x, j) != (td, i)
      ensures SamePage(s, s1, x, j) || ViewAt(s1, x, j) == Absent
    {
      assert SamePage(s, s0, x, j) || ViewAt(s0, x, j) == Absent;
    }
  }

  lemma SourceCounted(s: Mem, fd: nat, i: nat)
    requires Inv(s) && IsUser(fd) && i < PTRS && At(s, fd, i).Present? && LOW <= At(s, fd, i).frame < FRAMES
    ensures CountAt(s, At(s, fd, i).frame) > 0
  {
    assert (fd, i) in Entries(s, At(s, fd, i).frame);
    EntriesCounted(s, At(s, fd, i).frame);
  }

  /** The end of try_to_share: `mid` is `s`, or has a table of its own for the target. */
  ghost predicate SharedFrom(s: Mem, mid: Mem, s': Mem, fd: nat, td: nat, i: nat)
    requires Shape(s) && Shape(mid) && fd < PTRS && td < PTRS && i < PTRS && At(s, fd, i).Present?
  {
    var f := At(s, fd, i).frame;
    LOW <= f < FRAMES && CountAt(mid, f) <= CountAt(s, f) && s' == ShareTail(mid, fd, td, i, f) &&
    if s.dir[td] != 0 then mid == s
    else FreeFrame(s) != 0 ==> mid == GiveTable(Take(s, FreeFrame(s)), td, FreeFrame(s))
  }

  /** There is a clean page to share. */
  predicate Shareable(s: Mem, fd: nat, i: nat)
    requires Shape(s) && fd < PTRS && i < PTRS
  {
    At(s, fd, i).Present? && !At(s, fd, i).dirty && LOW <= At(s, fd, i).frame < s.high
  }

  /** try_to_share without a frame for the page table: the word goes into the page directory at frame 0, as entry
      `i`. */
  ghost function DirectoryEntered(s: Mem, fd: nat, i: nat, f: nat): Mem
    requires Shape(s) && fd < PTRS && i < PTRS && LOW <= f < FRAMES
  {
    var w := WriteProtect(At(s, fd, i));
    Bump(SetEntry(s, fd, i, w), f).(dir := s.dir[i := if w.Present? then w.frame else 0])
  }

  lemma ShareTailAt(s: Mem, fd: nat, td: nat, i: nat, f: nat)
    requires Shape(s) && TablesApart(s) && InTable(s, fd, i) && InTable(s, td, i) && LOW <= f < FRAMES
    ensures var s' := ShareTail(s, fd, td, i, f); var e := WriteProtect(At(s, fd, i));
            Shape(s') && s'.page == s.page &&
            forall x: nat, j: nat :: IsUser(x) && j < PTRS ==>
              At(s', x, j) == if (x, j) == (td, i) || (x, j) == (fd, i) then e else At(s, x, j)
  {
    var e := WriteProtect(At(s, fd, i));
    var s1 := SetEntry(s, fd, i, e);
    SetEntryAt(s, fd, i, e);
    SetEntryAt(s1, td, i, e);
    var s2 := SetEntry(s1, td, i, e);
    assert forall x: nat, j: nat :: x < PTRS && j < PTRS ==> At(Bump(s2, f), x, j) == At(s2, x, j);
  }

  /** The tail of try_to_share after a clean page was found: it is safe unless the count wraps. */
  lemma ShareTailSeen(s: Mem, s1: Mem, fd: nat, td: nat, i: nat, f: nat)
    requires SourceKept(s, s1, fd, td, i) && fd != td && At(s, fd, i).Present? && At(s, fd, i).frame == f
    requires LOW <= f < s.high
    ensures Shape(ShareTail(s1, fd, td, i, f)) && SeenLessBut(s, ShareTail(s1, fd, td, i, f), td, i)
    ensures ViewAt(ShareTail(s1, fd, td, i, f), td, i) == ViewAt(s, fd, i) || ViewAt(ShareTail(s1, fd, td, i, f), td,
      i) == Absent
    ensures CountAt(s1, f) < BYTE - 1 ==> ShareSafe(s1, fd, i, f)
  {
    var s2 := ShareTail(s1, fd, td, i, f);
    ShareTailAt(s1, fd, td, i, f);
    forall x: nat, j: nat | IsUser(x) && j < PTRS && (x, j) != (td, i)
      ensures SamePage(s, s2, x, j) || ViewAt(s2, x, j) == Absent
    {
      assert SamePage(s, s1, x, j) || ViewAt(s1, x, j) == Absent;
    }
    assert SamePage(s, s1, fd, i) || ViewAt(s1, fd, i) == Absent;
  }
}
