/** Memory as mem_init leaves it, where every run starts, and two states in which swap_out overlooks a page. */
module PagingStart {
  import opened Paging
  import opened PagingOps
  import opened PagingViews

  const KERNEL_TABLES := 4   // boot/head.s: four tables map the first 16 MB onto themselves

  /** The table in frame `f`: the four behind the page directory are the kernel's. */
  function KernelTable(f: nat): (t: seq<Entry>)
    ensures |t| == PTRS
    ensures 1 <= f <= KERNEL_TABLES ==> forall i :: 0 <= i < PTRS ==> t[i] == Present((f - 1) * PTRS + i, true, false)
    ensures !(1 <= f <= KERNEL_TABLES) ==> t == EmptyTable()
  {
    if 1 <= f <= KERNEL_TABLES then seq(PTRS, i requires 0 <= i < PTRS => Present((f - 1) * PTRS + i, true, false))
    else EmptyTable()
  }

  /** mem_init: pages from `start` up to `high` are free, the others marked as used; no user tables yet, no swap
      device. */
  ghost function Booted(high: nat, start: nat, page: seq<Page>): Mem
  {
    Mem(high,
        seq(PAGING_PAGES, k requires 0 <= k < PAGING_PAGES => if start <= k + LOW < high then 0 else USED),
        seq(PTRS, d requires 0 <= d < PTRS => if d < KERNEL_TABLES then d + 1 else 0),
        seq(FRAMES, f requires 0 <= f < FRAMES => KernelTable(f)),
        page, false, seq(SWAP_SLOTS, _ => false), {})
  }

  lemma BootedInv(high: nat, start: nat, page: seq<Page>)
    requires LOW <= start <= high <= FRAMES && |page| == FRAMES
    ensures Inv(Booted(high, start, page))
  {
    var s := Booted(high, start, page);
    forall f: nat ensures Entries(s, f) == {} && !IsTable(s, f) {}
    assert s.dir[0] == 1 && s.tab[1] == KernelTable(1);
  }

  /** No user directory has a table. */
  ghost predicate NoTables(s: Mem) {
    Shape(s) && forall d :: IsUser(d) ==> s.dir[d] == 0
  }

  /** One table, in the first user directory, and in it one clean page, at its first entry. */
  ghost function OnePage(s: Mem, f: nat, g: nat): Mem
    requires Shape(s) && LOW <= f < FRAMES && LOW <= g < FRAMES
  {
    MapPage(Take(GiveTable(Take(s, f), FIRST_DIR, f), g), FIRST_DIR, 0, g)
  }

  lemma OnePageInv(s: Mem, f: nat, g: nat)
    requires Inv(s) && NoTables(s) && LOW <= f < FRAMES && LOW <= g < FRAMES && f != g
    requires CountAt(s, f) == 0 == CountAt(s, g)
    ensures Inv(OnePage(s, f, g)) && OnePage(s, f, g).dir == s.dir[FIRST_DIR := f]
    ensures At(OnePage(s, f, g), FIRST_DIR, 0) == Present(g, true, false)
    ensures forall d: nat, i: nat :: IsUser(d) && i < PTRS && (d, i) != (FIRST_DIR, 0) ==>
      At(OnePage(s, f, g), d, i) == Empty
  {
    TakeKeepsInv(s, f);
    TakeAt(s, f);
    var s1 := Take(s, f);
    GiveTableKeepsInv(s1, FIRST_DIR, f);
    var s2 := GiveTable(s1, FIRST_DIR, f);
    TakeKeepsInv(s2, g);
    TakeAt(s2, g);
    var s3 := Take(s2, g);
    MapPageKeepsInv(s3, FIRST_DIR, 0, g);
    SetEntryAt(s3, FIRST_DIR, 0, Present(g, true, false));
    var s4, s' := SetEntry(s3, FIRST_DIR, 0, Present(g, true, false)), OnePage(s, f, g);
    assert forall d: nat, i: nat :: IsUser(d) && i < PTRS ==> At(s', d, i) == At(s4, d, i);
  }

  /** The only page there is could be evicted, but a scan that resumes behind it, its neighbour below being absent,
      never gets back to it; nor does one that resumes on an absent table. swap_out fails in both states. */
  lemma OverlookedPage(s: Mem, f: nat, g: nat)
    requires Inv(s) && NoTables(s) && LOW <= f < FRAMES && LOW <= g < FRAMES && f != g
    requires CountAt(s, f) == 0 == CountAt(s, g)
    ensures Inv(OnePage(s, f, g)) && !RefusedAt(OnePage(s, f, g), 0)
    ensures forall x: nat :: 0 < x < VM_PAGES ==> RefusedAt(OnePage(s, f, g), x)
    ensures Untried(OnePage(s, f, g), FIRST_DIR, 0, 0) && Untried(OnePage(s, f, g), PTRS - 1, 0, 0)
  {
    OnePageInv(s, f, g);
    var s' := OnePage(s, f, g);
    assert 0 / PTRS == 0 && 0 % PTRS == 0;
    forall x: nat | 0 < x < VM_PAGES ensures RefusedAt(s', x) {
      AtPosition(x);
      assert (FIRST_DIR + x / PTRS, x % PTRS) != (FIRST_DIR, 0);
    }
    assert s'.dir[Ahead(FIRST_DIR, 0)] == f && s'.dir[PTRS - 1] == 0;
    assert s'.dir[Ahead(PTRS - 1, 0)] == 0 && s'.dir[Ahead(PTRS - 1, 1)] == f;
    PassedOnce(s', FIRST_DIR, 0, Skips(s', FIRST_DIR));
    PassedOnce(s', PTRS - 1, 1, Skips(s', PTRS - 1));
  }

  /** Two free frames after mem_init are enough for such a state. */
  lemma OverlookedAfterBoot(high: nat, start: nat, page: seq<Page>)
    requires LOW <= start && start + 2 <= high <= FRAMES && |page| == FRAMES
    ensures var s' := OnePage(Booted(high, start, page), start, start + 1);
      Inv(s') && !RefusedAt(s', 0) && Untried(s', FIRST_DIR, 0, 0) && Untried(s', PTRS - 1, 0, 0)
  {
    BootedInv(high, start, page);
    OverlookedPage(Booted(high, start, page), start, start + 1);
  }

  const OTHER_DIR := FIRST_DIR + 16   // the next task's first directory

  /** A second task shares the page: it got a table from frame `h`, and fork's copy of the entry. */
  ghost function SharedPage(s: Mem, f: nat, g: nat, h: nat): Mem
    requires Inv(s) && NoTables(s) && ThreeFree(s, f, g, h)
  {
    OnePageInv(s, f, g);
    var s2 := GiveTable(Take(OnePage(s, f, g), h), OTHER_DIR, h);
    CopyEntry(s2, FIRST_DIR, 0, OTHER_DIR, 0)
  }

  /** Three frames are free. */
  ghost predicate ThreeFree(s: Mem, f: nat, g: nat, h: nat)
    requires Shape(s)
  {
    LOW <= f < FRAMES && LOW <= g < FRAMES && LOW <= h < FRAMES && f != g && g != h && f != h &&
    CountAt(s, f) == 0 && CountAt(s, g) == 0 && CountAt(s, h) == 0
  }

  lemma SecondTable(s: Mem, f: nat, g: nat, h: nat)
    requires Inv(s) && NoTables(s) && ThreeFree(s, f, g, h)
    ensures Shape(OnePage(s, f, g)) && Shape(Take(OnePage(s, f, g), h))
    ensures var s2 := GiveTable(Take(OnePage(s, f, g), h), OTHER_DIR, h);
      CopyReady(s2, FIRST_DIR, 0, OTHER_DIR, 0) && At(s2, FIRST_DIR, 0) == Present(g, true, false) &&
      s2.cnt == s.cnt[f - LOW := 1][g - LOW := 1][h - LOW := 1]
  {
    OnePageInv(s, f, g);
    var s1 := OnePage(s, f, g);
    TakeKeepsInv(s1, h);
    TakeAt(s1, h);
    GiveTableKeepsInv(Take(s1, h), OTHER_DIR, h);
  }

  lemma CountsSwap(cnt: seq<nat>, f: nat, g: nat, h: nat)
    requires f < |cnt| && g < |cnt| && h < |cnt| && f != g && g != h
    ensures cnt[f := 1][g := 1][h := 1][g] == 1 && cnt[f := 1][g := 1][h := 1][g := 2] == cnt[f := 1][g := 2][h := 1]
  {
  }

  /** Two tasks share a clean page. */
  lemma SharedPageInv(s: Mem, f: nat, g: nat, h: nat)
    requires Inv(s) && NoTables(s) && ThreeFree(s, f, g, h)
    ensures Inv(SharedPage(s, f, g, h))
  {
    SecondTable(s, f, g, h);
    CopyEntryKeepsInv(GiveTable(Take(OnePage(s, f, g), h), OTHER_DIR, h), FIRST_DIR, 0, OTHER_DIR, 0);
  }

  lemma CopiedShared(s: Mem, g: nat)
    requires CopyReady(s, FIRST_DIR, 0, OTHER_DIR, 0) && LOW <= g < FRAMES
    requires At(s, FIRST_DIR, 0) == Present(g, true, false)
    requires CountAt(s, g) == 1
    ensures var s' := CopyEntry(s, FIRST_DIR, 0, OTHER_DIR, 0);
      Shape(s') && At(s', FIRST_DIR, 0) == At(s', OTHER_DIR, 0) == Present(g, false, false) &&
        s'.cnt == s.cnt[g - LOW := 2]
  {
    CopyEntryAt(s, FIRST_DIR, 0, OTHER_DIR, 0);
  }

  /** If these were the last three frames, no frame is free now. */
  lemma SharedPageAt(s: Mem, f: nat, g: nat, h: nat)
    requires Inv(s) && NoTables(s) && ThreeFree(s, f, g, h)
    ensures Shape(SharedPage(s, f, g, h))
    ensures At(SharedPage(s, f, g, h), FIRST_DIR, 0) == At(SharedPage(s, f, g, h), OTHER_DIR, 0)
    ensures At(SharedPage(s, f, g, h), FIRST_DIR, 0) == Present(g, false, false)
    ensures SharedPage(s, f, g, h).cnt == s.cnt[f - LOW := 1][g - LOW := 2][h - LOW := 1]
  {
    SecondTable(s, f, g, h);
    CopiedShared(GiveTable(Take(OnePage(s, f, g), h), OTHER_DIR, h), g);
    CountsSwap(s.cnt, f - LOW, g - LOW, h - LOW);
  }

  /** Evicting a clean page lowers the count of its frame, and shows at that page only. */
  lemma CleanEvicted(s: Mem, d: nat, i: nat)
    requires Inv(s) && IsUser(d) && i < PTRS && At(s, d, i).Present? && !At(s, d, i).dirty
    requires LOW <= At(s, d, i).frame < FRAMES
    ensures CountAt(s, At(s, d, i).frame) > 0
    ensures Reclaimed(s, EvictAndFree(s, d, i)) && At(EvictAndFree(s, d, i), d, i) == Empty
    ensures EvictAndFree(s, d, i).cnt == s.cnt[At(s, d, i).frame - LOW := CountAt(s, At(s, d, i).frame) - 1]
    ensures forall x: nat, j: nat :: IsUser(x) && j < PTRS && (x, j) != (d, i) ==>
      At(EvictAndFree(s, d, i), x, j) == At(s, x, j)
  {
    EvictFields(s, d, i);
    EvictReclaims(s, d, i);
    SetEntryAt(s, d, i, Empty);
    var s1, s' := SetEntry(s, d, i, Empty), EvictAndFree(s, d, i);
    assert forall x: nat, j: nat :: IsUser(x) && j < PTRS ==> At(s', x, j) == At(s1, x, j);
  }

  lemma OnlyZero(cnt: seq<nat>, k: nat, n: nat)
    requires n <= |cnt| && k < n && cnt[k] == 0 && forall j :: 0 <= j < n && j != k ==> cnt[j] != 0
    ensures FreeBelow(cnt, n) == LOW + k
  {
  }

  /** Two tasks share a clean page, and no frame is free. One writes. get_free_page evicts the other's entry, which
      frees nothing, and then the writer's own: the frame it hands out, cleared, is that of the page to be copied. */
  lemma EvictedWhileCopied(s: Mem, d: nat, i: nat, e: nat, j: nat, g: nat)
    requires Inv(s) && IsUser(d) && i < PTRS && IsUser(e) && j < PTRS && (d, i) != (e, j) && FreeFrame(s) == 0
    requires LOW <= g < FRAMES && At(s, d, i) == At(s, e, j) == Present(g, false, false) && CountAt(s, g) == 2
    ensures !Untroubled(s, d, i) && !Refuses(s, e, j)
    ensures Shape(EvictAndFree(s, e, j)) && !Refuses(EvictAndFree(s, e, j), d, i)
    ensures var mid := EvictAndFree(EvictAndFree(s, e, j), d, i);
      Reclaimed(s, mid) && FreeFrame(mid) == g && Shape(CopyInto(mid, d, i, g, g)) &&
      ViewAt(CopyInto(mid, d, i, g, g), d, i) == Shows(ZERO_PAGE)
  {
    hide MappedApart, Accounting, Isolated, SlotsApart, TwinsStay, AnchorsHold;
    CleanEvicted(s, e, j);
    var s1 := EvictAndFree(s, e, j);
    CleanEvicted(s1, d, i);
    var mid := EvictAndFree(s1, d, i);
    ReclaimedTrans(s, s1, mid);
    assert mid.cnt == s.cnt[g - LOW := 0];
    OnlyZero(mid.cnt, g - LOW, PAGING_PAGES);
    TakeKeepsInv(mid, g);
    TakeAt(mid, g);
    SetEntryAt(Take(mid, g), d, i, Present(g, true, false));
    assert At(CopyInto(mid, d, i, g, g), d, i) == At(SetEntry(Take(mid, g), d, i, Present(g, true, false)), d, i);
  }
}
