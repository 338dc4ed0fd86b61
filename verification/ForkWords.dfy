/** What fork leaves in the words of the page tables themselves. */
module ForkWords {
  import opened Paging
  import opened PagingOps
  import opened PagingRuns
  import opened PagingViews

  /** A page-table entry as the processor reads it: the frame's address, and the bits 1 for present, 2 for writable, 4
      for user and 64 for dirty; a swap slot, shifted by one, where bit 1 is clear. */
  function Word(e: Entry): nat {
    match e
    case Empty => 0
    case Present(f, rw, dirty) => 4096 * f + (if dirty then 64 else 0) + 4 + (if rw then 2 else 0) + 1
    case Swapped(slot) => 2 * slot
  }

  /** Write-protecting a word clears bit 2 of it, and no other. */
  lemma WriteProtectClearsOneBit(e: Entry)
    ensures Word(WriteProtect(e)) == Word(e) - 2 * (Word(e) / 2 % 2)
  {
    if e.Present? {
      var even, w := 2048 * e.frame + (if e.dirty then 32 else 0) + 2, Word(e);
      assert w == 2 * (even + if e.rw then 1 else 0) + 1 && Word(WriteProtect(e)) == 2 * even + 1;
      hide Word, WriteProtect;
      OneBit(w, even, e.rw);
    } else if e.Swapped? {
      hide Word, WriteProtect;
      SlotBit(e, e.slot);
    }
  }

  lemma OneBit(w: nat, even: nat, bit: bool)
    requires even % 2 == 0 && w == 2 * (even + if bit then 1 else 0) + 1
    ensures w / 2 % 2 == if bit then 1 else 0
  {
    assert w / 2 == even + if bit then 1 else 0;
  }

  lemma SlotBit(e: Entry, slot: nat)
    requires e == Swapped(slot)
    ensures Word(WriteProtect(e)) == Word(e) - 2 * (Word(e) / 2 % 2)
  {
    assert Word(e) / 2 == slot;
  }

  /** `e` shows what `from` shows, changed or not as that is, and cannot be written to. */
  ghost predicate CopyOf(e: Entry, from: Entry) {
    e.Present? && from.Present? && e.frame == from.frame && e.dirty == from.dirty && !e.rw
  }

  /** Fork's copy of one entry: the child's word is the parent's without the write bit; from LOW_MEM up the parent's
      loses it too, and below it keeps it. */
  lemma CopiedWords(s: Mem, fd: nat, fi: nat, td: nat, ti: nat)
    requires CopyReady(s, fd, fi, td, ti) && At(s, fd, fi).Present?
    ensures var s' := CopyEntry(s, fd, fi, td, ti);
      Shape(s') && CopyOf(At(s', td, ti), At(s, fd, fi)) &&
      (IsUser(fd) && At(s, fd, fi).frame >= LOW ==> CopyOf(At(s', fd, fi), At(s, fd, fi))) &&
      (At(s, fd, fi).frame < LOW ==> At(s', fd, fi) == At(s, fd, fi))
  {
    CopyEntryAt(s, fd, fi, td, ti);
    if IsUser(fd) {
      assert Maps(s, fd, fi, At(s, fd, fi).frame);
    }
  }

  ghost predicate LoneAndSlotFree(s: Mem, d: nat, i: nat)
    requires Shape(s) && d < PTRS && i < PTRS && At(s, d, i).Present? && 256 <= At(s, d, i).frame < 4096
  {
    s.cnt[At(s, d, i).frame - 256] == 1 && s.swapOn && exists k :: 0 < k < |s.free| && s.free[k]
  }

  /** What swap_out takes: a page in a counted frame, if it is unchanged, or if nobody shares it and a slot is free. */
  lemma RefusesExactly(s: Mem, d: nat, i: nat)
    requires Shape(s) && d < PTRS && i < PTRS
    ensures !Refuses(s, d, i) <==>
      At(s, d, i).Present? && 256 <= At(s, d, i).frame < 4096 && (At(s, d, i).dirty ==> LoneAndSlotFree(s, d, i))
  {
  }

  /** A changed page just forked stays: swap_out refuses it from both tables, then, and as long as its count is above
      1. */
  lemma ForkedChangeStays(s: Mem, fd: nat, fi: nat, td: nat, ti: nat, s2: Mem)
    requires CopyReady(s, fd, fi, td, ti) && IsUser(fd) && At(s, fd, fi).Present? && At(s, fd, fi).dirty
    requires LOW <= At(s, fd, fi).frame && !Wraps(s, fd, fi)
    ensures var s', f := CopyEntry(s, fd, fi, td, ti), At(s, fd, fi).frame;
      Shape(s') && f < FRAMES && CountAt(s', f) > 1 && Refuses(s', fd, fi) && Refuses(s', td, ti) &&
      (Shape(s2) && CountAt(s2, f) > 1 && At(s2, fd, fi) == At(s', fd, fi) && At(s2, td, ti) == At(s', td, ti) ==>
        Refuses(s2, fd, fi) && Refuses(s2, td, ti))
  {
    CopiedWords(s, fd, fi, td, ti);
    CopyEntryAt(s, fd, fi, td, ti);
    assert Maps(s, fd, fi, At(s, fd, fi).frame);
    assert (fd, fi) in Entries(s, At(s, fd, fi).frame);
    EntriesCounted(s, At(s, fd, fi).frame);
  }

  // ----- Whole tables

  /** A word after `n` tables were copied, or begun: gone; or, in the child, a copy of the parent's; or as it was, but
      that in the tables copied it may have lost its write bit. */
  ghost predicate WordForked(s: Mem, s': Mem, fd: nat, td: nat, n: nat, x: nat, j: nat)
    requires Shape(s) && Shape(s') && fd + n <= PTRS && td + n <= PTRS && x < PTRS && j < PTRS
  {
    At(s', x, j).Present? ==>
      if td <= x < td + n then j < CopiedPages(fd) && CopyOf(At(s', x, j), At(s, x - td + fd, j))
      else At(s', x, j) == At(s, x, j) ||
           (fd <= x < fd + n && At(s, x, j).Present? && At(s', x, j) == At(s, x, j).(rw := false))
  }

  ghost predicate WordsForked(s: Mem, s': Mem, fd: nat, td: nat, n: nat) {
    Shape(s) && Shape(s') && fd + n <= PTRS && td + n <= PTRS &&
    (forall j: nat :: j < 160 ==> At(s', 0, j) == At(s, 0, j)) &&
    forall x: nat, j: nat :: IsUser(x) && j < PTRS ==> WordForked(s, s', fd, td, n, x, j)
  }

  /** A page in a counted frame cannot be written to. */
  ghost predicate ReadOnly(s: Mem, x: nat, j: nat)
    requires Shape(s) && x < PTRS && j < PTRS
  {
    At(s, x, j).Present? && At(s, x, j).frame >= LOW ==> !At(s, x, j).rw
  }

  ghost predicate Protected(s: Mem, fd: nat, n: nat) {
    Shape(s) && fd + n <= PTRS &&
    forall x: nat, j: nat :: fd <= x < fd + n && IsUser(x) && j < PTRS ==> ReadOnly(s, x, j)
  }

  lemma WordsOfNothing(s: Mem, fd: nat, td: nat)
    requires Shape(s) && fd <= PTRS && td <= PTRS
    ensures WordsForked(s, s, fd, td, 0) && Protected(s, fd, 0)
  {
  }

  /** Eviction changes no word but those that go. */
  lemma WordsReclaimed(s: Mem, s': Mem, fd: nat, td: nat)
    requires Reclaimed(s, s') && fd < PTRS && td < PTRS && s.dir[td] == 0
    ensures WordsForked(s, s', fd, td, 1)
  {
    forall x: nat, j: nat | IsUser(x) && j < PTRS ensures WordForked(s, s', fd, td, 1, x, j) {
      assert At(s', x, j) == At(s, x, j) || !At(s', x, j).Present?;
    }
  }

  /** Nor does a table that the parent has not. */
  lemma WordsSkipped(s: Mem, fd: nat, td: nat)
    requires Inv(s) && fd < PTRS && td < PTRS && s.dir[td] == 0 && s.dir[fd] == 0
    ensures WordsForked(s, s, fd, td, 1) && Protected(s, fd, 1)
  {
    forall x: nat, j: nat | IsUser(x) && j < PTRS ensures WordForked(s, s, fd, td, 1, x, j) {}
  }

  /** One table, copied up to some entry. */
  lemma WordsOfTable(s: Mem, mid: Mem, f: nat, s2: Mem, fd: nat, td: nat, nr: nat)
    requires Reclaimed(s, mid) && f == FreeFrame(mid) && f != 0 && IsUser(td) && s.dir[td] == 0 && nr <= CopiedPages(fd)
    requires fd < PTRS && fd != td
    requires var s1 := GiveTable(Take(mid, f), td, f); TableReady(s1, fd, td, nr) && TableCopied(s1, s2, fd, td, nr)
    ensures WordsForked(s, s2, fd, td, 1) && (nr == CopiedPages(fd) ==> Protected(s2, fd, 1))
  {
    var s1 := GiveTable(Take(mid, f), td, f);
    FreshTableSeen(s, mid, f, td);
    LowKept(mid, f, s1, td);
    forall x: nat, j: nat | IsUser(x) && j < PTRS ensures WordForked(s, s2, fd, td, 1, x, j) {
      WordOfTable(s, mid, s1, s2, fd, td, nr, x, j);
    }
    if nr == CopiedPages(fd) && IsUser(fd) {
      forall j: nat | j < PTRS ensures ReadOnly(s2, fd, j) {}
    }
  }

  lemma WordOfTable(s: Mem, mid: Mem, s1: Mem, s2: Mem, fd: nat, td: nat, nr: nat, x: nat, j: nat)
    requires Reclaimed(s, mid) && nr <= CopiedPages(fd) && fd < PTRS && td < PTRS && IsUser(x) && j < PTRS
    requires TableReady(s1, fd, td, nr) && TableCopied(s1, s2, fd, td, nr)
    requires forall y: nat, i: nat :: IsUser(y) && i < PTRS ==> At(s1, y, i) == At(mid, y, i)
    requires forall i: nat :: i < 160 ==> At(s1, 0, i) == At(mid, 0, i)
    ensures WordForked(s, s2, fd, td, 1, x, j)
  {
    var y := if x == td then fd else x;
    assert y == 0 || At(mid, y, j) == At(s, y, j) || !At(mid, y, j).Present?;
    assert At(mid, 0, j) == At(s, 0, j);
  }

  lemma WordsAdded(s: Mem, s1: Mem, s2: Mem, fd: nat, td: nat, k: nat, n: nat)
    requires k < n && WordsForked(s, s1, fd, td, k) && WordsForked(s1, s2, fd + k, td + k, 1) && FIRST_DIR <= td
    requires (fd == 0 && n == 1) || (FIRST_DIR <= fd && (td >= fd + n || fd >= td + n))
    ensures WordsForked(s, s2, fd, td, k + 1)
    ensures Protected(s1, fd, k) && Protected(s2, fd + k, 1) ==> Protected(s2, fd, k + 1)
  {
    var m := k + 1;
    forall x: nat, j: nat | IsUser(x) && j < PTRS ensures WordForked(s, s2, fd, td, m, x, j) {
      WordAdded(s, s1, s2, fd, td, k, n, x, j);
    }
    if Protected(s1, fd, k) && Protected(s2, fd + k, 1) {
      forall x: nat, j: nat | fd <= x < fd + k + 1 && IsUser(x) && j < PTRS ensures ReadOnly(s2, x, j) {
        if x < fd + k {
          assert ReadOnly(s1, x, j) && WordForked(s1, s2, fd + k, td + k, 1, x, j);
        }
      }
    }
  }

  lemma WordAdded(s: Mem, s1: Mem, s2: Mem, fd: nat, td: nat, k: nat, n: nat, x: nat, j: nat)
    requires k < n && WordsForked(s, s1, fd, td, k) && WordsForked(s1, s2, fd + k, td + k, 1) && FIRST_DIR <= td
    requires (fd == 0 && n == 1) || (FIRST_DIR <= fd && (td >= fd + n || fd >= td + n))
    requires IsUser(x) && j < PTRS
    ensures WordForked(s, s2, fd, td, k + 1, x, j)
  {
    assert WordForked(s, s1, fd, td, k, x, j) && WordForked(s1, s2, fd + k, td + k, 1, x, j);
    if x == td + k && fd != 0 {
      assert WordForked(s, s1, fd, td, k, fd + k, j);
    }
  }

  /** The rest of the child is absent. */
  lemma WordsWidened(s: Mem, s': Mem, fd: nat, td: nat, k: nat, n: nat)
    requires k <= n && WordsForked(s, s', fd, td, k) && fd + n <= PTRS && td + n <= PTRS
    requires forall x :: td + k <= x < td + n ==> s'.dir[x] == 0
    ensures WordsForked(s, s', fd, td, n)
  {
    forall x: nat, j: nat | IsUser(x) && j < PTRS ensures WordForked(s, s', fd, td, n, x, j) {
      assert WordForked(s, s', fd, td, k, x, j);
    }
  }
}
