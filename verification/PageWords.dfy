/** What each operation on memory leaves in the page-table words, the counts and the swap map. */
module PageWords {
  import opened Paging
  import opened PagingOps
  import opened PagingRuns
  import opened PagingViews
  import opened ForkWords

  ghost predicate OtherEntries(s: Mem, s': Mem, changed: set<(nat, nat)>) {
    Shape(s) && Shape(s') &&
    forall x: nat, j: nat :: IsUser(x) && j < PTRS && (x, j) !in changed ==> At(s', x, j) == At(s, x, j)
  }

  ghost predicate OtherCounts(s: Mem, s': Mem, changed: set<nat>) {
    Shape(s) && Shape(s') && forall g: nat :: LOW <= g < FRAMES && g !in changed ==> CountAt(s', g) == CountAt(s, g)
  }

  ghost predicate OtherPages(s: Mem, s': Mem, changed: set<nat>) {
    Shape(s) && Shape(s') && forall g: nat :: g < FRAMES && g !in changed ==> s'.page[g] == s.page[g]
  }

  ghost predicate OtherSlots(s: Mem, s': Mem, changed: set<nat>) {
    Shape(s) && Shape(s') && forall k: nat :: k < SWAP_SLOTS && k !in changed ==> s'.free[k] == s.free[k]
  }

  /** get_free_page: the highest frame whose count was 0 now counts 1 and is cleared. */
  lemma Allocates(s: Mem)
    requires Inv(s) && FreeFrame(s) != 0
    ensures var f, s' := FreeFrame(s), Next(s, Get);
      256 <= f < 4096 && CountAt(s, f) == 0 && (forall g: nat :: f < g < 4096 ==> CountAt(s, g) != 0) &&
      Shape(s') && CountAt(s', f) == 1 && s'.page[f] == ZERO_PAGE &&
        (forall i :: 0 <= i < PTRS ==> s'.tab[f][i] == Empty) &&
      OtherEntries(s, s', {}) && OtherCounts(s, s', {f}) && OtherPages(s, s', {f}) && s'.free == s.free
  {
    TakeAt(s, FreeFrame(s));
    forall g: nat | FreeFrame(s) < g < 4096 ensures CountAt(s, g) != 0 {
      assert s.cnt[g - LOW] != 0;
    }
  }

  /** put_page: the word is the frame's address with the bits for present, writable and user; no count changes. */
  lemma Installs(s: Mem, d: nat, i: nat, f: nat)
    requires Inv(s) && InTable(s, d, i) && f in s.kernel
    ensures var s' := MapPage(s, d, i, f);
      Shape(s') && Word(At(s', d, i)) == 4096 * f + 7 &&
      OtherEntries(s, s', {(d, i)}) && OtherCounts(s, s', {}) && OtherPages(s, s', {}) && s'.free == s.free
  {
    SetEntryAt(s, d, i, Present(f, true, false));
    var s1, s' := SetEntry(s, d, i, Present(f, true, false)), MapPage(s, d, i, f);
    assert forall x: nat, j: nat :: IsUser(x) && j < PTRS ==> At(s', x, j) == At(s1, x, j);
  }

  /** A write fault in a frame counted once: the word gains the write bit, and nothing else changes. */
  lemma FaultAlone(s: Mem, d: nat, i: nat, f: nat)
    requires Inv(s) && InTable(s, d, i) && At(s, d, i).Present? && LOW <= At(s, d, i).frame < FRAMES
    requires CountAt(s, At(s, d, i).frame) == 1 && LOW <= f < FRAMES
    ensures var e, s' := At(s, d, i), WriteFault(s, d, i, f);
      Shape(s') && At(s', d, i).Present? && At(s', d, i).rw && At(s', d, i).frame == e.frame &&
      At(s', d, i).dirty == e.dirty &&
      OtherEntries(s, s', {(d, i)}) && OtherCounts(s, s', {}) && OtherPages(s, s', {}) && s'.free == s.free
  {
    SetEntryAt(s, d, i, At(s, d, i).(rw := true));
  }

  /** In any other frame: the word is that of the new frame, which counts 1 and has the old one's bytes; the old frame's
      count is not lowered. */
  lemma FaultCopies(s: Mem, d: nat, i: nat, f: nat)
    requires Inv(s) && InTable(s, d, i) && At(s, d, i).Present? && At(s, d, i).frame < FRAMES
    requires At(s, d, i).frame < LOW || CountAt(s, At(s, d, i).frame) != 1
    requires LOW <= f < FRAMES && CountAt(s, f) == 0
    ensures var e, s' := At(s, d, i), WriteFault(s, d, i, f);
      Shape(s') && Word(At(s', d, i)) == 4096 * f + 7 && CountAt(s', f) == 1 && s'.page[f] == s.page[e.frame] &&
      OtherEntries(s, s', {(d, i)}) && OtherCounts(s, s', {f}) && OtherPages(s, s', {f}) && s'.free == s.free
  {
    var e, s1, s' := At(s, d, i), Take(s, f), WriteFault(s, d, i, f);
    assert Maps(s, d, i, e.frame);
    FreeFrameUnused(s, f);
    TakeAt(s, f);
    SetEntryAt(s1, d, i, Present(f, true, false));
    var s2 := SetEntry(s1, d, i, Present(f, true, false));
    hide Inv, TablesApart, Entries;
    assert forall x: nat, j: nat :: IsUser(x) && j < PTRS ==> At(s', x, j) == At(s2, x, j);
  }

  /** A store: the dirty bit is set, and the bytes are those stored. */
  lemma StoreMarks(s: Mem, d: nat, i: nat, v: Page)
    requires Inv(s) && Writable(s, d, i) && LOW <= At(s, d, i).frame < FRAMES
    ensures var e, s' := At(s, d, i), Store(s, d, i, v);
      Shape(s') && At(s', d, i) == e.(dirty := true) && s'.page[e.frame] == v &&
      OtherEntries(s, s', {(d, i)}) && OtherCounts(s, s', {}) && OtherPages(s, s', {e.frame}) && s'.free == s.free
  {
    var w := At(s, d, i).(dirty := true);
    SetEntryAt(s, d, i, w);
    var s1, s' := SetEntry(s, d, i, w), Store(s, d, i, v);
    assert forall x: nat, j: nat :: IsUser(x) && j < PTRS ==> At(s', x, j) == At(s1, x, j);
  }

  /** free_page_tables, one entry: the word is 0, and a counted frame counts one less. */
  lemma Frees(s: Mem, d: nat, i: nat)
    requires Inv(s) && InTable(s, d, i)
    ensures var e, s' := At(s, d, i), DropEntry(s, d, i);
      Shape(s') && Word(At(s', d, i)) == 0 && OtherEntries(s, s', {(d, i)}) && OtherPages(s, s', {}) &&
        s'.free == s.free &&
      (if e.Present? && e.frame >= LOW then
         e.frame < FRAMES && CountAt(s', e.frame) == CountAt(s, e.frame) - 1 && OtherCounts(s, s', {e.frame})
       else OtherCounts(s, s', {}))
  {
    DropEntryKeepsInv(s, d, i);
    DropEntryAt(s, d, i);
  }

  /** swap_out of an unchanged page: as if it were freed; no slot is used. */
  lemma EvictsClean(s: Mem, d: nat, i: nat)
    requires Inv(s) && InTable(s, d, i) && At(s, d, i).Present? && LOW <= At(s, d, i).frame < FRAMES
    requires !At(s, d, i).dirty
    ensures var e, s' := At(s, d, i), Evict(s, d, i);
      Shape(s') && Word(At(s', d, i)) == 0 && CountAt(s', e.frame) == CountAt(s, e.frame) - 1 &&
      OtherEntries(s, s', {(d, i)}) && OtherCounts(s, s', {e.frame}) && OtherPages(s, s', {}) && s'.free == s.free
  {
    Frees(s, d, i);
  }

  /** swap_out of a changed page: the word is twice the number of the lowest free slot from 1 up, which is taken; once
      its frame is freed, that counts 0. */
  lemma EvictsDirty(s: Mem, d: nat, i: nat) returns (k: nat)
    requires Inv(s) && InTable(s, d, i) && !Refuses(s, d, i) && At(s, d, i).dirty
    ensures 1 <= k < SWAP_SLOTS && s.free[k] && forall j :: 1 <= j < k ==> !s.free[j]
    ensures var e, s' := At(s, d, i), EvictAndFree(s, d, i);
      Shape(s') && Word(At(s', d, i)) == 2 * k && !s'.free[k] && CountAt(s', e.frame) == 0 &&
      OtherEntries(s, s', {(d, i)}) && OtherCounts(s, s', {e.frame}) && OtherPages(s, s', {}) && OtherSlots(s, s', {k})
  {
    k := FreeSlot(s);
    SetEntryAt(s, d, i, Swapped(k));
    var s1, s' := SetEntry(s, d, i, Swapped(k)), EvictAndFree(s, d, i);
    assert forall x: nat, j: nat :: IsUser(x) && j < PTRS ==> At(s', x, j) == At(s1, x, j);
  }

  /** swap_in with a frame: the slot is free again, and the word is the frame's address with the bits for present,
      writable, user and dirty. */
  lemma SwapsIn(s: Mem, d: nat, i: nat, f: nat)
    requires Inv(s) && InTable(s, d, i) && At(s, d, i).Swapped? && At(s, d, i).slot < SWAP_SLOTS
    requires LOW <= f < FRAMES && CountAt(s, f) == 0
    ensures var k, s' := At(s, d, i).slot, SwapIn(s, d, i, f);
      Shape(s') && Word(At(s', d, i)) == 4096 * f + 71 && s'.free[k] && CountAt(s', f) == 1 &&
      OtherEntries(s, s', {(d, i)}) && OtherCounts(s, s', {f}) && OtherPages(s, s', {f}) && OtherSlots(s, s', {k})
  {
    var s1, s' := Take(s, f), SwapIn(s, d, i, f);
    TakeAt(s, f);
    SetEntryAt(s1, d, i, Present(f, true, true));
    var s2 := SetEntry(s1, d, i, Present(f, true, true));
    assert forall x: nat, j: nat :: IsUser(x) && j < PTRS ==> At(s', x, j) == At(s2, x, j);
  }

  /** try_to_share, the source page still there: both words are the source's without the write bit, and the frame counts
      one more. */
  lemma Shares(s: Mem, fd: nat, td: nat, i: nat)
    requires Inv(s) && InTable(s, fd, i) && InTable(s, td, i) && fd != td && !At(s, td, i).Present?
    requires At(s, fd, i).Present? && LOW <= At(s, fd, i).frame < FRAMES && CountAt(s, At(s, fd, i).frame) < 255
    ensures var e, s' := At(s, fd, i), ShareTail(s, fd, td, i, At(s, fd, i).frame);
      Shape(s') && CopyOf(At(s', td, i), e) && CopyOf(At(s', fd, i), e) &&
        CountAt(s', e.frame) == CountAt(s, e.frame) + 1 &&
      OtherEntries(s, s', {(fd, i), (td, i)}) && OtherCounts(s, s', {e.frame}) && OtherPages(s, s', {}) &&
      s'.free == s.free
  {
    var e := At(s, fd, i);
    assert Maps(s, fd, i, e.frame);
    SetBothAt(s, fd, i, td, i, WriteProtect(e));
  }

  /** fork, one entry: the frame counts one more, unless it is in low memory; only the two words change. */
  lemma ForkCounts(s: Mem, fd: nat, fi: nat, td: nat, ti: nat)
    requires CopyReady(s, fd, fi, td, ti) && IsUser(fd) && At(s, fd, fi).Present?
    ensures var e, s' := At(s, fd, fi), CopyEntry(s, fd, fi, td, ti);
      OtherEntries(s, s', {(fd, fi), (td, ti)}) && OtherPages(s, s', {}) && s'.free == s.free && Shape(s') &&
      e.frame < FRAMES &&
      if e.frame < LOW then OtherCounts(s, s', {})
      else OtherCounts(s, s', {e.frame}) &&
           CountAt(s', e.frame) == if CountAt(s, e.frame) == 255 then 0 else CountAt(s, e.frame) + 1
  {
    assert Maps(s, fd, fi, At(s, fd, fi).frame);
    CopyEntryAt(s, fd, fi, td, ti);
  }

  /** A write fault without any frame: the word is 7, frame 0 writable; the old frame counts one less; and the page that
      was shared lies over the page directory. */
  lemma LosesDirectory(s: Mem, d: nat, i: nat)
    requires Inv(s) && InTable(s, d, i) && At(s, d, i).Present? && At(s, d, i).frame < FRAMES
    requires At(s, d, i).frame >= LOW ==> CountAt(s, At(s, d, i).frame) > 0
    ensures var e, s' := At(s, d, i), DirectoryCopiedOver(s, d, i, At(s, d, i));
      Shape(s') && Word(At(s', d, i)) == 7 && s'.page[0] == s.page[e.frame] && s'.free == s.free &&
      OtherEntries(s, s', {(d, i)}) && OtherPages(s, s', {0}) &&
      if e.frame < LOW then OtherCounts(s, s', {})
      else CountAt(s', e.frame) == CountAt(s, e.frame) - 1 && OtherCounts(s, s', {e.frame})
  {
    var e, s' := At(s, d, i), DirectoryCopiedOver(s, d, i, At(s, d, i));
    SetEntryAt(s, d, i, Present(0, true, false));
    var s1 := SetEntry(s, d, i, Present(0, true, false));
    assert forall x: nat, j: nat :: IsUser(x) && j < PTRS ==> At(s', x, j) == At(s1, x, j);
  }

  /** try_to_share without a frame for the table: the word it shares is entry `i` of the page directory. */
  lemma EntersDirectory(s: Mem, fd: nat, i: nat)
    requires Inv(s) && InTable(s, fd, i) && At(s, fd, i).Present? && LOW <= At(s, fd, i).frame < FRAMES
    ensures var e, s' := At(s, fd, i), DirectoryEntered(s, fd, i, At(s, fd, i).frame);
      s'.dir == s.dir[i := e.frame] && s'.tab[s.dir[fd]] == s.tab[s.dir[fd]][i := e.(rw := false)] &&
      s'.page == s.page && s'.free == s.free &&
        (forall g :: 0 <= g < FRAMES && g != s.dir[fd] ==> s'.tab[g] == s.tab[g]) &&
      s'.cnt == s.cnt[e.frame - 256 := if s.cnt[e.frame - 256] == 255 then 0 else s.cnt[e.frame - 256] + 1]
  {
  }
}
