/** Faults, eviction, swap-in and release, and what each task sees of memory. */
module PagingOps {
  import opened Paging

  /** What a task sees at a linear page. */
  datatype View = Absent | Shows(page: Page)

  function ViewAt(s: Mem, d: nat, i: nat): View
    requires Shape(s) && d < PTRS && i < PTRS
  {
    var e := At(s, d, i);
    if e.Present? && e.frame < FRAMES then Shows(s.page[e.frame]) else Absent
  }

  ghost predicate SamePage(s: Mem, s': Mem, d: nat, i: nat)
    requires Shape(s) && Shape(s') && d < PTRS && i < PTRS
  {
    ViewAt(s', d, i) == ViewAt(s, d, i)
  }

  // ----- free_page_tables

  /** The inner step of free_page_tables. */
  function DropEntry(s: Mem, d: nat, i: nat): Mem
    requires Shape(s) && d < PTRS && i < PTRS
  {
    var e := At(s, d, i);
    if e.Present? && e.frame < FRAMES then Lower(SetEntry(s, d, i, Empty), e.frame) else SetEntry(s, d, i, Empty)
  }

  /** Freeing an entry never panics, and keeps every invariant. */
  lemma DropEntryKeepsInv(s: Mem, d: nat, i: nat)
    requires Inv(s) && IsUser(d) && s.dir[d] != 0 && i < PTRS
    ensures At(s, d, i).Present? && At(s, d, i).frame >= LOW ==>
      At(s, d, i).frame < s.high && CountAt(s, At(s, d, i).frame) > 0
    ensures Inv(DropEntry(s, d, i))
  {
    var e := At(s, d, i);
    ClearKeepsInv(s, d, i);
    SetEntryAt(s, d, i, Empty);
    if e.Present? && e.frame >= LOW {
      assert Maps(s, d, i, e.frame);
      assert Count(s, e.frame) <= s.cnt[e.frame - LOW];
      DropSpare(SetEntry(s, d, i, Empty), e.frame);
    }
  }

  /** A count above the number of users may be lowered. */
  lemma DropSpare(s: Mem, f: nat)
    requires Inv(s) && LOW <= f < s.high && Count(s, f) < CountAt(s, f)
    ensures Inv(Lower(s, f))
  {
    var s' := Lower(s, f);
    SameTables(s, s');
    forall g: nat | LOW <= g < FRAMES ensures Count(s', g) <= s'.cnt[g - LOW] {
      assert Count(s, g) <= s.cnt[g - LOW];
    }
  }

  /** The outer step of free_page_tables: the emptied table itself is freed. */
  function DropTable(s: Mem, d: nat): Mem
    requires Shape(s) && d < PTRS
  {
    Lower(s, s.dir[d]).(dir := s.dir[d := 0])
  }

  lemma DropTableKeepsInv(s: Mem, d: nat)
    requires Inv(s) && IsUser(d) && s.dir[d] != 0 && forall i: nat :: i < PTRS ==> At(s, d, i) == Empty
    ensures LOW <= s.dir[d] < s.high && CountAt(s, s.dir[d]) > 0
    ensures Inv(DropTable(s, d))
    ensures forall x: nat, i: nat :: IsUser(x) && i < PTRS ==> At(DropTable(s, d), x, i) == At(s, x, i)
  {
    var f, s1 := s.dir[d], s.(dir := s.dir[d := 0]);
    assert Pageable(s, f) && IsTable(s, f);
    assert Count(s, f) <= s.cnt[f - LOW];
    UnlinkTable(s, d);
    assert s1.cnt == s.cnt;
    forall g: nat | LOW <= g < FRAMES ensures Count(s1, g) <= s1.cnt[g - LOW] {
      assert Count(s, g) <= s.cnt[g - LOW];
    }
    DropSpare(s1, f);
    assert Lower(s1, f) == DropTable(s, d);
    assert forall x: nat, i: nat :: x < PTRS && i < PTRS ==> At(DropTable(s, d), x, i) == At(s1, x, i);
  }

  /** Clearing the directory entry of an empty table hides no entry. */
  lemma UnlinkTable(s: Mem, d: nat)
    requires Inv(s) && IsUser(d) && s.dir[d] != 0 && forall i: nat :: i < PTRS ==> At(s, d, i) == Empty
    ensures var s1 := s.(dir := s.dir[d := 0]);
            Shape(s1) && TablesApart(s1) && MappedApart(s1) && Isolated(s1) && SlotsApart(s1) &&
            (forall x: nat, i: nat :: IsUser(x) && i < PTRS ==> At(s1, x, i) == At(s, x, i)) &&
            (forall g: nat :: Count(s1, g) == Count(s, g) - (if g == s.dir[d] then 1 else 0))
  {
    var f, s1 := s.dir[d], s.(dir := s.dir[d := 0]);
    assert IsTable(s, f);
    forall x: nat, i: nat | i < PTRS && IsUser(x) ensures At(s1, x, i) == At(s, x, i) {
    }
    assert forall i: nat :: i < PTRS ==> At(s1, 0, i) == At(s, 0, i);
    assert forall x: nat, i: nat, g: nat :: Maps(s1, x, i, g) <==> Maps(s, x, i, g);
    assert forall x: nat, i: nat :: Writable(s1, x, i) <==> Writable(s, x, i);
    forall g: nat ensures Entries(s1, g) == Entries(s, g) && (IsTable(s1, g) <==> IsTable(s, g) && g != f) {
      if x :| IsUser(x) && s.dir[x] == g != 0 {
        assert g != f ==> s1.dir[x] == g;
      }
      if x :| IsUser(x) && s1.dir[x] == g != 0 {
        assert s.dir[x] == g && x != d;
      }
    }
  }

  /** Undoing a fork: dropping a copied entry gives back the counts; only the parent's write bit stays cleared. */
  lemma DropUndoesCopy(s: Mem, fd: nat, fi: nat, td: nat, ti: nat)
    requires CopyReady(s, fd, fi, td, ti) && Inv(CopyEntry(s, fd, fi, td, ti))
    ensures var s' := DropEntry(CopyEntry(s, fd, fi, td, ti), td, ti);
            Shape(s') && s'.cnt == s.cnt && At(s', td, ti) == Empty &&
            forall x: nat, j: nat :: IsUser(x) && j < PTRS ==>
              At(s', x, j) == At(s, x, j) || (x == fd && j == fi && At(s', x, j) == WriteProtect(At(s, x, j)))
  {
    var s1 := CopyEntry(s, fd, fi, td, ti);
    CopyEntryKeepsInv(s, fd, fi, td, ti);
    CopyEntryAt(s, fd, fi, td, ti);
    DropEntryAt(s1, td, ti);
    var s' := DropEntry(s1, td, ti);
    if At(s, fd, fi).Present? && At(s, fd, fi).frame >= LOW {
      assert Maps(s, fd, fi, At(s, fd, fi).frame);
    }
    forall x: nat, j: nat | IsUser(x) && j < PTRS
      ensures At(s', x, j) == At(s, x, j) || (x == fd && j == fi && At(s', x, j) == WriteProtect(At(s, x, j)))
    {
      assert At(s', x, j) == if (x, j) == (td, ti) then Empty else At(s1, x, j);
    }
  }

  /** What the tables and the counts hold after one entry was dropped. */
  lemma DropEntryAt(s: Mem, d: nat, i: nat)
    requires Shape(s) && TablesApart(s) && IsUser(d) && s.dir[d] != 0 && i < PTRS
    ensures var s' := DropEntry(s, d, i); var e := At(s, d, i);
            Shape(s') && s'.dir == s.dir && s'.page == s.page &&
            (forall x: nat, j: nat :: IsUser(x) && j < PTRS ==>
              At(s', x, j) == if (x, j) == (d, i) then Empty else At(s, x, j)) &&
            s'.cnt == if e.Present? && LOW <= e.frame < FRAMES && CountAt(s, e.frame) > 0
                      then s.cnt[e.frame - LOW := CountAt(s, e.frame) - 1] else s.cnt
  {
    SetEntryAt(s, d, i, Empty);
    var s1, s' := SetEntry(s, d, i, Empty), DropEntry(s, d, i);
    assert forall x: nat, j: nat :: x < PTRS && j < PTRS ==> At(s', x, j) == At(s1, x, j);
  }

  /** What the tables hold after one entry was copied. */
  lemma CopyEntryAt(s: Mem, fd: nat, fi: nat, td: nat, ti: nat)
    requires CopyReady(s, fd, fi, td, ti)
    ensures var s' := CopyEntry(s, fd, fi, td, ti); var e := WriteProtect(At(s, fd, fi));
            Shape(s') && s'.dir == s.dir && s'.page == s.page &&
            At(s', td, ti) == (if e.Present? then e else Empty) &&
            (forall x: nat, j: nat :: IsUser(x) && j < PTRS && (x, j) != (td, ti) && (x, j) != (fd, fi) ==>
              At(s', x, j) == At(s, x, j)) &&
            (IsUser(fd) ==> At(s', fd, fi) == if e.Present? && e.frame >= LOW then e else At(s, fd, fi)) &&
            (forall j: nat :: j < PTRS ==> At(s', 0, j) == At(s, 0, j)) &&
            s'.cnt == if e.Present? && LOW <= e.frame < FRAMES
              then s.cnt[e.frame - LOW := (CountAt(s, e.frame) + 1) % BYTE] else s.cnt
  {
    var e := WriteProtect(At(s, fd, fi));
    if e.Present? && e.frame < LOW {
      SetEntryAt(s, td, ti, e);
    } else if e.Present? {
      assert Maps(s, fd, fi, e.frame);
      SetBothAt(s, td, ti, fd, fi, e);
    }
  }

  lemma SetBothAt(s: Mem, d: nat, i: nat, x: nat, j: nat, e: Entry)
    requires Shape(s) && TablesApart(s) && IsUser(d) && s.dir[d] != 0 && i < PTRS && IsUser(x) && s.dir[x] != 0
    requires j < PTRS
    requires e.Present? && LOW <= e.frame < FRAMES
    ensures var s' := Bump(SetEntry(SetEntry(s, d, i, e), x, j, e), e.frame);
            Shape(s') && (forall k: nat :: k < PTRS ==> At(s', 0, k) == At(s, 0, k)) &&
            (forall y: nat, k: nat :: IsUser(y) && k < PTRS ==>
              At(s', y, k) == if (y, k) == (d, i) || (y, k) == (x, j) then e else At(s, y, k))
  {
    var s1 := SetEntry(s, d, i, e);
    SetEntryAt(s, d, i, e);
    var s2 := SetEntry(s1, x, j, e);
    SetEntryAt(s1, x, j, e);
    var s' := Bump(s2, e.frame);
    assert forall k: nat :: k < PTRS ==> At(s', 0, k) == At(s2, 0, k);
    forall y: nat, k: nat | IsUser(y) && k < PTRS
      ensures At(s', y, k) == if (y, k) == (d, i) || (y, k) == (x, j) then e else At(s, y, k)
    {
      assert At(s', y, k) == At(s2, y, k);
    }
  }

  // ----- un_wp_page

  /** un_wp_page: the last user gets the page back writable; otherwise it gets a copy of its own.
      The count of the frame it leaves is not lowered. */
  function WriteFault(s: Mem, d: nat, i: nat, f: nat): Mem
    requires Shape(s) && d < PTRS && i < PTRS && At(s, d, i).Present? && At(s, d, i).frame < FRAMES && LOW <= f < FRAMES
  {
    var e := At(s, d, i);
    if SoleUser(s, e.frame) then SetEntry(s, d, i, e.(rw := true))
    else MapPage(Take(s, f), d, i, f).(page := Take(s, f).page[f := Take(s, f).page[e.frame]])
  }

  predicate SoleUser(s: Mem, f: nat)
    requires Shape(s) && f < FRAMES
  {
    f >= LOW && CountAt(s, f) == 1
  }

  /** A frame counted once that some entry shows is shown by that entry alone. */
  lemma SoleUserAlone(s: Mem, d: nat, i: nat)
    requires Inv(s) && IsUser(d) && i < PTRS && At(s, d, i).Present? && At(s, d, i).frame < FRAMES
    requires SoleUser(s, At(s, d, i).frame)
    ensures OnlyAt(s, d, i, At(s, d, i).frame) && Count(s, At(s, d, i).frame) == 1
  {
    var f := At(s, d, i).frame;
    assert Count(s, f) <= s.cnt[f - LOW];
    assert Maps(s, d, i, f);
    assert {(d, i)} <= Entries(s, f);
    assert |Entries(s, f) - {(d, i)}| == |Entries(s, f)| - 1;
    assert Entries(s, f) == {(d, i)};
    forall x: nat, j: nat | Maps(s, x, j, f) ensures x == d && j == i {
      assert (x, j) in Entries(s, f);
    }
  }

  /** A write fault keeps every invariant, leaves the page writable and private, and changes what no one sees. */
  lemma WriteFaultKeepsInv(s: Mem, d: nat, i: nat, f: nat)
    requires Inv(s) && IsUser(d) && i < PTRS && At(s, d, i).Present?
    requires LOW <= f < FRAMES && CountAt(s, f) == 0
    ensures At(s, d, i).frame < FRAMES
    ensures Inv(WriteFault(s, d, i, f)) && Writable(WriteFault(s, d, i, f), d, i)
    ensures forall x: nat, j: nat :: IsUser(x) && j < PTRS ==> SamePage(s, WriteFault(s, d, i, f), x, j)
  {
    var e := At(s, d, i);
    assert Maps(s, d, i, e.frame);
    if SoleUser(s, e.frame) {
      SoleUserWrites(s, d, i);
      SetEntryAt(s, d, i, e.(rw := true));
    } else {
      FreeFrameUnused(s, f);
      TakeAt(s, f);
      TakeKeepsInv(s, f);
      var s1 := Take(s, f);
      MapPageKeepsInv(s1, d, i, f);
      SetEntryAt(s1, d, i, Present(f, true, false));
      CopyOnWrite(s, d, i, f);
    }
  }

  lemma SoleUserWrites(s: Mem, d: nat, i: nat)
    requires Inv(s) && IsUser(d) && i < PTRS && At(s, d, i).Present? && At(s, d, i).frame < FRAMES
    requires SoleUser(s, At(s, d, i).frame)
    ensures Inv(SetEntry(s, d, i, At(s, d, i).(rw := true)))
  {
    var e := At(s, d, i);
    SoleUserAlone(s, d, i);
    assert Maps(s, d, i, e.frame);
    var w := e.(rw := true);
    var s' := SetEntry(s, d, i, w);
    SetEntryAt(s, d, i, w);
    forall g: nat ensures Count(s', g) == Count(s, g) {
      SetEntryCount(s, d, i, w, g);
    }
    EntryUpdateApart(s, d, i, w, s');
  }

  lemma CopyOnWrite(s: Mem, d: nat, i: nat, f: nat)
    requires Inv(s) && IsUser(d) && i < PTRS && At(s, d, i).Present? && At(s, d, i).frame < FRAMES
    requires LOW <= f < FRAMES && CountAt(s, f) == 0 && !SoleUser(s, At(s, d, i).frame)
    requires Inv(MapPage(Take(s, f), d, i, f))
    ensures Inv(WriteFault(s, d, i, f)) && Writable(WriteFault(s, d, i, f), d, i)
    ensures forall x: nat, j: nat :: IsUser(x) && j < PTRS ==> SamePage(s, WriteFault(s, d, i, f), x, j)
  {
    FreeFrameUnused(s, f);
    TakeAt(s, f);
    TakeKeepsInv(s, f);
    var s1 := Take(s, f);
    SetEntryAt(s1, d, i, Present(f, true, false));
    var s2, s' := MapPage(s1, d, i, f), WriteFault(s, d, i, f);
    SameTables(s2, s');
    assert forall x: nat, j: nat :: IsUser(x) && j < PTRS ==>
      At(s', x, j) == if (x, j) == (d, i) then Present(f, true, false) else At(s, x, j);
    assert Accounting(s') by {
      forall g: nat | LOW <= g < FRAMES ensures Count(s', g) <= s'.cnt[g - LOW] {
        assert Count(s2, g) <= s2.cnt[g - LOW];
      }
    }
    CopySeen(s, d, i, f, s');
  }

  /** The copy shows what the shared page showed, and every other page shows what it did. */
  lemma CopySeen(s: Mem, d: nat, i: nat, f: nat, s': Mem)
    requires Inv(s) && Shape(s') && IsUser(d) && i < PTRS && At(s, d, i).Present? && At(s, d, i).frame < FRAMES
    requires LOW <= f < FRAMES && forall x: nat, j: nat :: !Maps(s, x, j, f)
    requires s'.page == s.page[f := ZERO_PAGE][f := s.page[f := ZERO_PAGE][At(s, d, i).frame]]
    requires forall x: nat, j: nat :: IsUser(x) && j < PTRS ==>
      At(s', x, j) == if (x, j) == (d, i) then Present(f, true, false) else At(s, x, j)
    ensures forall x: nat, j: nat :: IsUser(x) && j < PTRS ==> SamePage(s, s', x, j)
  {
    assert !Maps(s, d, i, f);
    OthersSeen(s, s', d, i, f);
  }

  // ----- A store by user code

  /** A user store through a writable entry: the hardware sets the dirty bit. */
  function Store(s: Mem, d: nat, i: nat, v: Page): Mem
    requires Shape(s) && d < PTRS && i < PTRS && At(s, d, i).Present? && At(s, d, i).frame < FRAMES
  {
    var e := At(s, d, i);
    SetEntry(s, d, i, e.(dirty := true)).(page := s.page[e.frame := v])
  }

  /** One task's store changes that one page and nothing any other page shows. */
  lemma StoreIsPrivate(s: Mem, d: nat, i: nat, v: Page)
    requires Inv(s) && Writable(s, d, i) && At(s, d, i).frame >= LOW
    ensures At(s, d, i).frame < FRAMES
    ensures Inv(Store(s, d, i, v)) && ViewAt(Store(s, d, i, v), d, i) == Shows(v)
    ensures forall x: nat, j: nat :: IsUser(x) && j < PTRS && (x, j) != (d, i) ==> SamePage(s, Store(s, d, i, v), x, j)
  {
    var e := At(s, d, i);
    var w := e.(dirty := true);
    assert Maps(s, d, i, e.frame);
    MarkDirty(s, d, i);
    var s1, s' := SetEntry(s, d, i, w), Store(s, d, i, v);
    SetEntryAt(s, d, i, w);
    SameTables(s1, s');
    assert Accounting(s') by {
      forall g: nat | LOW <= g < FRAMES ensures Count(s', g) <= s'.cnt[g - LOW] {
        assert Count(s1, g) <= s1.cnt[g - LOW];
      }
    }
    forall x: nat, j: nat | IsUser(x) && j < PTRS && (x, j) != (d, i) ensures SamePage(s, s', x, j) {
      assert At(s', x, j) == At(s1, x, j) == At(s, x, j);
      assert !Maps(s, x, j, e.frame);
    }
  }

  lemma MarkDirty(s: Mem, d: nat, i: nat)
    requires Inv(s) && Writable(s, d, i) && At(s, d, i).frame >= LOW
    ensures Inv(SetEntry(s, d, i, At(s, d, i).(dirty := true)))
  {
    var e := At(s, d, i);
    var w := e.(dirty := true);
    assert Maps(s, d, i, e.frame);
    SetEntryAt(s, d, i, w);
    var s1 := SetEntry(s, d, i, w);
    forall g: nat ensures Count(s1, g) == Count(s, g) {
      SetEntryCount(s, d, i, w, g);
    }
    assert OnlyAt(s, d, i, e.frame);
    EntryUpdateApart(s, d, i, w, s1);
  }

  // ----- Swapping

  /** get_swap_page: the lowest free slot from 1 up; 0 when there is none. */
  function FreeSlotFrom(free: seq<bool>, k: nat): (r: nat)
    requires k <= |free|
    ensures r != 0 ==> k <= r < |free| && free[r]
    ensures k > 0 && r != 0 ==> forall j :: k <= j < r ==> !free[j]
    ensures k > 0 && r == 0 ==> forall j :: k <= j < |free| ==> !free[j]
    decreases |free| - k
  {
    if k == |free| then 0 else if free[k] then k else FreeSlotFrom(free, k + 1)
  }

  function FreeSlot(s: Mem): nat
    requires Shape(s)
  {
    if s.swapOn then FreeSlotFrom(s.free, 1) else 0
  }

  /** try_to_swap_out returns 0. */
  predicate Refuses(s: Mem, d: nat, i: nat)
    requires Shape(s) && d < PTRS && i < PTRS
  {
    var e := At(s, d, i);
    !e.Present? || e.frame < LOW || e.frame >= FRAMES ||
    (e.dirty && (CountAt(s, e.frame) != 1 || FreeSlot(s) == 0))
  }

  /** try_to_swap_out up to the disk write: a clean page is dropped; a dirty one gets a slot,
      and its frame stays in the kernel's hands until the write is done. */
  function Evict(s: Mem, d: nat, i: nat): Mem
    requires Shape(s) && d < PTRS && i < PTRS && !Refuses(s, d, i)
  {
    var e := At(s, d, i);
    if e.dirty then
      SetEntry(s, d, i, Swapped(FreeSlot(s))).(free := s.free[FreeSlot(s) := false], kernel := s.kernel + {e.frame})
    else DropEntry(s, d, i)
  }

  lemma EvictKeepsInv(s: Mem, d: nat, i: nat)
    requires Inv(s) && IsUser(d) && i < PTRS && !Refuses(s, d, i)
    ensures Inv(Evict(s, d, i)) && !At(Evict(s, d, i), d, i).Present?
    ensures forall x: nat, j: nat :: IsUser(x) && j < PTRS && (x, j) != (d, i) ==>
      At(Evict(s, d, i), x, j) == At(s, x, j) && SamePage(s, Evict(s, d, i), x, j)
  {
    if At(s, d, i).dirty {
      EvictDirty(s, d, i);
    } else {
      EvictClean(s, d, i);
    }
  }

  lemma EvictClean(s: Mem, d: nat, i: nat)
    requires Inv(s) && IsUser(d) && i < PTRS && !Refuses(s, d, i) && !At(s, d, i).dirty
    ensures Inv(Evict(s, d, i)) && !At(Evict(s, d, i), d, i).Present?
    ensures forall x: nat, j: nat :: IsUser(x) && j < PTRS && (x, j) != (d, i) ==>
      At(Evict(s, d, i), x, j) == At(s, x, j) && SamePage(s, Evict(s, d, i), x, j)
  {
    DropEntryKeepsInv(s, d, i);
    SetEntryAt(s, d, i, Empty);
    var s1, s' := SetEntry(s, d, i, Empty), Evict(s, d, i);
    assert forall x: nat, j: nat :: x < PTRS && j < PTRS ==> At(s', x, j) == At(s1, x, j);
  }

  lemma EvictDirty(s: Mem, d: nat, i: nat)
    requires Inv(s) && IsUser(d) && i < PTRS && !Refuses(s, d, i) && At(s, d, i).dirty
    ensures Inv(Evict(s, d, i)) && !At(Evict(s, d, i), d, i).Present?
    ensures forall x: nat, j: nat :: IsUser(x) && j < PTRS && (x, j) != (d, i) ==>
      At(Evict(s, d, i), x, j) == At(s, x, j) && SamePage(s, Evict(s, d, i), x, j)
  {
    var e, k := At(s, d, i), FreeSlot(s);
    var w := Swapped(k);
    SoleUserAlone(s, d, i);
    SetEntryAt(s, d, i, w);
    var s1, s' := SetEntry(s, d, i, w), Evict(s, d, i);
    assert forall x: nat, j: nat :: x < PTRS && j < PTRS ==> At(s', x, j) == At(s1, x, j);
    EvictCounts(s, d, i);
    assert SlotOnlyAt(s, d, i, k);
    EntryUpdateApart(s, d, i, w, s');
  }

  lemma EvictCounts(s: Mem, d: nat, i: nat)
    requires Inv(s) && IsUser(d) && i < PTRS && !Refuses(s, d, i) && At(s, d, i).dirty
    ensures Shape(Evict(s, d, i)) && Accounting(Evict(s, d, i)) && Pageable(s, At(s, d, i).frame)
    ensures !IsTable(s, At(s, d, i).frame)
    ensures forall g: nat :: IsTable(Evict(s, d, i), g) <==> IsTable(s, g)
  {
    var e, w := At(s, d, i), Swapped(FreeSlot(s));
    assert Maps(s, d, i, e.frame);
    var s1, s' := SetEntry(s, d, i, w), Evict(s, d, i);
    SetEntryAt(s, d, i, w);
    forall g: nat ensures Entries(s', g) == Entries(s1, g) && (IsTable(s', g) <==> IsTable(s, g)) {
      SameEntries(s1, s', g);
    }
    forall g: nat | LOW <= g < FRAMES ensures Count(s', g) <= s'.cnt[g - LOW] {
      SetEntryCount(s, d, i, w, g);
      assert Count(s, g) <= s.cnt[g - LOW];
    }
  }

  /** swap_in with a frame found: the slot is freed and the entry is present, writable and dirty. The page is
      read back only on the branch where no frame was found, so the frame keeps the zeros of get_free_page. */
  function SwapIn(s: Mem, d: nat, i: nat, f: nat): Mem
    requires Shape(s) && d < PTRS && i < PTRS && At(s, d, i).Swapped? && At(s, d, i).slot < SWAP_SLOTS
    requires LOW <= f < FRAMES
  {
    var s1 := Take(s, f);
    SetEntry(s1, d, i, Present(f, true, true)).(free := s.free[At(s, d, i).slot := true], kernel := s.kernel - {f})
  }

  /** A successful swap-in keeps every invariant, and always shows a zero page, whatever had been swapped out. */
  lemma SwapInKeepsInv(s: Mem, d: nat, i: nat, f: nat)
    requires Inv(s) && IsUser(d) && i < PTRS && At(s, d, i).Swapped?
    requires LOW <= f < FRAMES && CountAt(s, f) == 0
    ensures At(s, d, i).slot < SWAP_SLOTS
    ensures Inv(SwapIn(s, d, i, f)) && ViewAt(SwapIn(s, d, i, f), d, i) == Shows(ZERO_PAGE)
    ensures forall x: nat, j: nat :: IsUser(x) && j < PTRS && (x, j) != (d, i) ==> SamePage(s, SwapIn(s, d, i, f), x, j)
  {
    var k, w := At(s, d, i).slot, Present(f, true, true);
    FreeFrameUnused(s, f);
    TakeAt(s, f);
    TakeKeepsInv(s, f);
    var s1 := Take(s, f);
    SetEntryAt(s1, d, i, w);
    var s2, s' := SetEntry(s1, d, i, w), SwapIn(s, d, i, f);
    assert forall x: nat, j: nat :: x < PTRS && j < PTRS ==> At(s', x, j) == At(s2, x, j);
    assert forall x: nat, j: nat :: IsUser(x) && j < PTRS ==>
      At(s', x, j) == if (x, j) == (d, i) then w else At(s, x, j);
    SwapInCounts(s, d, i, f);
    assert SlotOnlyAt(s1, d, i, k);
    EntryUpdateApart(s1, d, i, w, s');
    OthersSeen(s, s', d, i, f);
  }

  /** Clearing an unmapped frame and changing one entry shows at no other page. */
  lemma OthersSeen(s: Mem, s': Mem, d: nat, i: nat, f: nat)
    requires Shape(s) && Shape(s') && f < FRAMES && s'.page == s.page[f := s'.page[f]]
    requires forall x: nat, j: nat :: !Maps(s, x, j, f)
    requires forall x: nat, j: nat :: IsUser(x) && j < PTRS && (x, j) != (d, i) ==> At(s', x, j) == At(s, x, j)
    ensures forall x: nat, j: nat :: IsUser(x) && j < PTRS && (x, j) != (d, i) ==> SamePage(s, s', x, j)
  {
    forall x: nat, j: nat | IsUser(x) && j < PTRS && (x, j) != (d, i) ensures SamePage(s, s', x, j) {
      assert !Maps(s, x, j, f);
    }
  }

  lemma SwapInCounts(s: Mem, d: nat, i: nat, f: nat)
    requires Inv(s) && IsUser(d) && i < PTRS && At(s, d, i).Swapped? && At(s, d, i).slot < SWAP_SLOTS
    requires LOW <= f < FRAMES && CountAt(s, f) == 0
    ensures Shape(SwapIn(s, d, i, f)) && Accounting(SwapIn(s, d, i, f))
    ensures forall g: nat :: IsTable(SwapIn(s, d, i, f), g) <==> IsTable(Take(s, f), g)
  {
    var w := Present(f, true, true);
    TakeAt(s, f);
    TakeKeepsInv(s, f);
    var s1 := Take(s, f);
    SetEntryAt(s1, d, i, w);
    var s2, s' := SetEntry(s1, d, i, w), SwapIn(s, d, i, f);
    forall g: nat ensures Entries(s', g) == Entries(s2, g) && (IsTable(s', g) <==> IsTable(s1, g)) {
      SameEntries(s2, s', g);
    }
    forall g: nat | LOW <= g < FRAMES ensures Count(s', g) <= s'.cnt[g - LOW] {
      SetEntryCount(s1, d, i, w, g);
      assert Count(s1, g) <= s1.cnt[g - LOW];
    }
  }
}
