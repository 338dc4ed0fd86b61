/** By how much mem_map overcounts: exactly the frames that write faults left without lowering their count. */
module PagingCounts {
  import opened Paging
  import opened PagingOps
  import opened PagingRuns

  /** What mem_map says beyond the users a frame has. */
  ghost function Slack(s: Mem, g: nat): int
    requires Shape(s) && LOW <= g < FRAMES
  {
    CountAt(s, g) - Count(s, g)
  }

  /** What a step adds to the slack of frame `g`. A write fault that copies leaves the old frame counted; so does a page
      installed over a present one, and a share whose source entry vanished or moved to another frame. */
  ghost function Leak(s: Mem, op: Op, g: nat): int
    requires Shape(s) && Enabled(s, op)
  {
    match op
    case Fault(d, i) => if At(s, d, i).frame == g && !SoleUser(s, g) then 1 else 0
    case Install(d, i, f) => if Maps(s, d, i, g) then 1 else 0
    case Share(fd, td, i, f) =>
      (if f == g then 1 else 0) -
      (if At(s, fd, i).Present? && At(s, fd, i).frame == g then 1 else 0)
    case _ => 0
  }

  lemma TakeSlack(s: Mem, f: nat, g: nat)
    requires Inv(s) && LOW <= f < FRAMES && CountAt(s, f) == 0 && LOW <= g < FRAMES
    ensures Shape(Take(s, f)) && Slack(Take(s, f), g) == Slack(s, g)
  {
    FreeFrameUnused(s, f);
    TakeAt(s, f);
  }

  lemma KernelPutSlack(s: Mem, f: nat, g: nat)
    requires Inv(s) && f in s.kernel && LOW <= g < FRAMES
    ensures f < FRAMES && Shape(KernelPut(s, f)) && Slack(KernelPut(s, f), g) == Slack(s, g)
  {
    KernelPutKeepsInv(s, f);
    SameTables(s, KernelPut(s, f));
  }

  lemma GiveTableSlack(s: Mem, d: nat, f: nat, g: nat)
    requires Inv(s) && IsUser(d) && s.dir[d] == 0 && f in s.kernel && s.tab[f] == EmptyTable() && LOW <= g < FRAMES
    ensures Shape(GiveTable(s, d, f)) && Slack(GiveTable(s, d, f), g) == Slack(s, g)
  {
    var s' := GiveTable(s, d, f);
    GiveTableKeepsInv(s, d, f);
    assert forall x: nat, i: nat :: Maps(s', x, i, g) <==> Maps(s, x, i, g);
    assert Entries(s', g) == Entries(s, g);
    assert s'.dir[d] == f && Pageable(s, f);
    if x :| IsUser(x) && s.dir[x] == g != 0 {
      assert s'.dir[x] == g;
    }
  }

  /** An entry update changes the slack of a frame by the users it takes away less those it adds. */
  lemma SetEntrySlack(s: Mem, d: nat, i: nat, e: Entry, g: nat)
    requires Shape(s) && TablesApart(s) && InTable(s, d, i) && LOW <= g < FRAMES
    ensures Shape(SetEntry(s, d, i, e))
    ensures Slack(SetEntry(s, d, i, e), g) ==
      Slack(s, g) + (if Maps(s, d, i, g) then 1 else 0) - (if e.Present? && e.frame == g then 1 else 0)
  {
    SetEntryCount(s, d, i, e, g);
  }

  /** The slack depends on the tables, the counts and the kernel's frames only. */
  lemma SlackFrame(s: Mem, s': Mem, g: nat)
    requires Shape(s) && Shape(s') && s'.dir == s.dir && s'.tab == s.tab && s'.cnt == s.cnt && LOW <= g < FRAMES
    requires g in s'.kernel <==> g in s.kernel
    ensures Slack(s', g) == Slack(s, g)
  {
    SameEntries(s, s', g);
  }

  lemma BumpSlack(s: Mem, f: nat, g: nat)
    requires Shape(s) && LOW <= f < FRAMES && LOW <= g < FRAMES && CountAt(s, f) < BYTE - 1
    ensures Shape(Bump(s, f)) && Slack(Bump(s, f), g) == Slack(s, g) + (if f == g then 1 else 0)
  {
    SameEntries(s, Bump(s, f), g);
  }

  lemma DropSlack(s: Mem, f: nat, g: nat)
    requires Shape(s) && LOW <= f < FRAMES && LOW <= g < FRAMES && CountAt(s, f) > 0
    ensures Shape(Lower(s, f)) && Slack(Lower(s, f), g) == Slack(s, g) - (if f == g then 1 else 0)
  {
    SameEntries(s, Lower(s, f), g);
  }

  lemma CopySlack(s: Mem, fd: nat, fi: nat, td: nat, ti: nat, g: nat)
    requires CopyReady(s, fd, fi, td, ti) && !Wraps(s, fd, fi) && LOW <= g < FRAMES
    ensures Shape(CopyEntry(s, fd, fi, td, ti)) && Slack(CopyEntry(s, fd, fi, td, ti), g) == Slack(s, g)
  {
    var e := WriteProtect(At(s, fd, fi));
    if e.Present? && e.frame < LOW {
      SetEntrySlack(s, td, ti, e, g);
    } else if e.Present? {
      assert Maps(s, fd, fi, e.frame);
      SharedSlack(s, fd, fi, td, ti, e, g);
    }
  }

  lemma SharedSlack(s: Mem, fd: nat, fi: nat, td: nat, ti: nat, e: Entry, g: nat)
    requires Shape(s) && TablesApart(s) && InTable(s, fd, fi) && InTable(s, td, ti) && LOW <= g < FRAMES
    requires e.Present? && LOW <= e.frame < FRAMES && CountAt(s, e.frame) < BYTE - 1
    requires Maps(s, fd, fi, e.frame) && !At(s, td, ti).Present?
    ensures var s' := Bump(SetEntry(SetEntry(s, td, ti, e), fd, fi, e), e.frame);
      Shape(s') && Slack(s', g) == Slack(s, g)
  {
    var s1 := SetEntry(s, td, ti, e);
    SetEntryAt(s, td, ti, e);
    SetEntrySlack(s, td, ti, e, g);
    SetEntrySlack(s1, fd, fi, e, g);
    BumpSlack(SetEntry(s1, fd, fi, e), e.frame, g);
  }

  lemma ShareSlack(s: Mem, fd: nat, td: nat, i: nat, f: nat, g: nat)
    requires Inv(s) && IsUser(fd) && InTable(s, td, i) && fd != td && !At(s, td, i).Present? && LOW <= f < s.high
    requires CountAt(s, f) < BYTE - 1 && LOW <= g < FRAMES
    ensures Shape(ShareTail(s, fd, td, i, f))
    ensures Slack(ShareTail(s, fd, td, i, f), g) == Slack(s, g) + Leak(s, Share(fd, td, i, f), g)
  {
    var e := WriteProtect(At(s, fd, i));
    var s1 := if s.dir[fd] == 0 then s else SetEntry(s, fd, i, e);
    if s.dir[fd] != 0 {
      SetEntryAt(s, fd, i, e);
      SetEntrySlack(s, fd, i, e, g);
    }
    SetEntrySlack(s1, td, i, e, g);
    BumpSlack(SetEntry(s1, td, i, e), f, g);
  }

  lemma ReleaseSlack(s: Mem, d: nat, i: nat, g: nat)
    requires Inv(s) && InTable(s, d, i) && LOW <= g < FRAMES
    ensures Shape(DropEntry(s, d, i)) && Slack(DropEntry(s, d, i), g) == Slack(s, g)
  {
    var e := At(s, d, i);
    DropEntryKeepsInv(s, d, i);
    SetEntrySlack(s, d, i, Empty, g);
    if e.Present? {
      assert Maps(s, d, i, e.frame);
      if e.frame >= LOW {
        DropSlack(SetEntry(s, d, i, Empty), e.frame, g);
      }
    }
  }

  lemma ReleaseTableSlack(s: Mem, d: nat, g: nat)
    requires Inv(s) && InTable(s, d, 0) && (forall i: nat :: i < PTRS ==> At(s, d, i) == Empty) && LOW <= g < FRAMES
    ensures Shape(DropTable(s, d)) && Slack(DropTable(s, d), g) == Slack(s, g)
  {
    DropTableKeepsInv(s, d);
    UnlinkTable(s, d);
    var s1 := s.(dir := s.dir[d := 0]);
    DropSlack(s1, s.dir[d], g);
    assert Lower(s1, s.dir[d]) == DropTable(s, d);
  }

  lemma InstallSlack(s: Mem, d: nat, i: nat, f: nat, g: nat)
    requires Inv(s) && InTable(s, d, i) && f in s.kernel && LOW <= g < FRAMES
    ensures Shape(MapPage(s, d, i, f))
    ensures Slack(MapPage(s, d, i, f), g) == Slack(s, g) + (if Maps(s, d, i, g) then 1 else 0)
  {
    var s1 := SetEntry(s, d, i, Present(f, true, false));
    SetEntrySlack(s, d, i, Present(f, true, false), g);
    SameEntries(s1, MapPage(s, d, i, f), g);
  }

  lemma FaultSlack(s: Mem, d: nat, i: nat, f: nat, g: nat)
    requires Inv(s) && InTable(s, d, i) && At(s, d, i).Present? && At(s, d, i).frame < FRAMES
    requires LOW <= f < FRAMES && CountAt(s, f) == 0 && LOW <= g < FRAMES
    ensures Shape(WriteFault(s, d, i, f))
    ensures Slack(WriteFault(s, d, i, f), g) == Slack(s, g) +
      (if At(s, d, i).frame == g && !SoleUser(s, g) then 1 else 0)
  {
    var e := At(s, d, i);
    if SoleUser(s, e.frame) {
      SetEntrySlack(s, d, i, e.(rw := true), g);
    } else {
      TakeKeepsInv(s, f);
      TakeAt(s, f);
      TakeSlack(s, f, g);
      InstallSlack(Take(s, f), d, i, f, g);
      SlackFrame(MapPage(Take(s, f), d, i, f), WriteFault(s, d, i, f), g);
    }
  }

  lemma OutSlack(s: Mem, d: nat, i: nat, g: nat)
    requires Inv(s) && InTable(s, d, i) && !Refuses(s, d, i) && LOW <= g < FRAMES
    ensures Shape(Evict(s, d, i)) && Slack(Evict(s, d, i), g) == Slack(s, g)
  {
    var e := At(s, d, i);
    if e.dirty {
      var s1 := SetEntry(s, d, i, Swapped(FreeSlot(s)));
      assert Maps(s, d, i, e.frame);
      SetEntrySlack(s, d, i, Swapped(FreeSlot(s)), g);
      SameEntries(s1, Evict(s, d, i), g);
    } else {
      ReleaseSlack(s, d, i, g);
    }
  }

  lemma InSlack(s: Mem, d: nat, i: nat, f: nat, g: nat)
    requires Inv(s) && InTable(s, d, i) && At(s, d, i).Swapped? && At(s, d, i).slot < SWAP_SLOTS
    requires LOW <= f < FRAMES && CountAt(s, f) == 0 && LOW <= g < FRAMES
    ensures Shape(SwapIn(s, d, i, f)) && Slack(SwapIn(s, d, i, f), g) == Slack(s, g)
  {
    TakeAt(s, f);
    TakeSlack(s, f, g);
    var s1 := Take(s, f);
    SetEntrySlack(s1, d, i, Present(f, true, true), g);
    FreeFrameUnused(s, f);
    SameEntries(SetEntry(s1, d, i, Present(f, true, true)), SwapIn(s, d, i, f), g);
  }

  /** Every step changes the slack of every frame by exactly its leak. */
  lemma StepSlack(s: Mem, op: Op, g: nat)
    requires Inv(s) && Enabled(s, op) && Careful(s, op) && LOW <= g < FRAMES
    requires op.Share? ==> CountAt(s, op.f) < BYTE - 1
    ensures Inv(Next(s, op)) && Slack(Next(s, op), g) == Slack(s, g) + Leak(s, op, g)
  {
    StepKeepsInv(s, op);
    match op
    case Get => TakeSlack(s, FreeFrame(s), g);
    case Put(h) => KernelPutSlack(s, h, g);
    case NewTable(d) => NewTableSlack(s, d, FreeFrame(s), g);
    case Copy(fd, fi, td, ti) => CopySlack(s, fd, fi, td, ti, g);
    case Share(fd, td, i, h) => ShareSlack(s, fd, td, i, h, g);
    case Release(d, i) => ReleaseSlack(s, d, i, g);
    case ReleaseTable(d) => ReleaseTableSlack(s, d, g);
    case Install(d, i, h) => InstallSlack(s, d, i, h, g);
    case _ => FaultOrSwapSlack(s, op, g);
  }

  lemma FaultOrSwapSlack(s: Mem, op: Op, g: nat)
    requires Inv(s) && Enabled(s, op) && (op.Fault? || op.Out? || op.In? || op.Write?) && LOW <= g < FRAMES
    ensures Shape(Next(s, op)) && Slack(Next(s, op), g) == Slack(s, g) + Leak(s, op, g)
  {
    match op
    case Fault(d, i) => FaultSlack(s, d, i, FreeFrame(s), g);
    case Out(d, i) => OutSlack(s, d, i, g);
    case In(d, i) => InSlack(s, d, i, FreeFrame(s), g);
    case Write(d, i, v) => StoreSlack(s, d, i, v, g);
  }

  lemma NewTableSlack(s: Mem, d: nat, f: nat, g: nat)
    requires Inv(s) && IsUser(d) && s.dir[d] == 0 && LOW <= f < FRAMES && CountAt(s, f) == 0 && LOW <= g < FRAMES
    ensures Shape(GiveTable(Take(s, f), d, f)) && Slack(GiveTable(Take(s, f), d, f), g) == Slack(s, g)
  {
    TakeKeepsInv(s, f);
    TakeSlack(s, f, g);
    GiveTableSlack(Take(s, f), d, f, g);
  }

  lemma StoreSlack(s: Mem, d: nat, i: nat, v: Page, g: nat)
    requires Inv(s) && InTable(s, d, i) && At(s, d, i).Present? && At(s, d, i).frame < FRAMES && LOW <= g < FRAMES
    ensures Shape(Store(s, d, i, v)) && Slack(Store(s, d, i, v), g) == Slack(s, g)
  {
    var w := At(s, d, i).(dirty := true);
    SetEntrySlack(s, d, i, w, g);
    SlackFrame(SetEntry(s, d, i, w), Store(s, d, i, v), g);
  }

  /** A run whose write faults never copy, whose pages are installed at absent entries, and whose shared pages stay in
      place. */
  ghost predicate Tidy(s: Mem, op: Op)
    requires Shape(s) && Enabled(s, op)
  {
    (op.Fault? ==> At(s, op.d, op.i).frame >= LOW && SoleUser(s, At(s, op.d, op.i).frame)) &&
    (op.Install? ==> !At(s, op.d, op.i).Present?) &&
    (op.Share? ==> At(s, op.fd, op.i).Present? && At(s, op.fd, op.i).frame == op.f)
  }

  /** Over a tidy run mem_map says exactly how many users each frame has, if it did at the start. */
  lemma {:induction false} TidyRunsCountExactly(states: seq<Mem>, ops: seq<Op>, k: nat, g: nat)
    requires History(states, ops) && k <= |ops| && LOW <= g < FRAMES
    requires forall n :: 0 <= n < k ==> StepOf(states[n], ops[n], states[n + 1]) && Tidy(states[n], ops[n])
    requires Count(states[0], g) == CountAt(states[0], g)
    ensures Inv(states[k]) && Count(states[k], g) == CountAt(states[k], g)
  {
    HistoryKeepsInv(states, ops, k);
    if k > 0 {
      TidyRunsCountExactly(states, ops, k - 1, g);
      assert StepOf(states[k - 1], ops[k - 1], states[k - 1 + 1]) && Tidy(states[k - 1], ops[k - 1]);
      TidyStep(states[k - 1], ops[k - 1], g);
    }
  }

  lemma TidyStep(s: Mem, op: Op, g: nat)
    requires Inv(s) && Enabled(s, op) && Careful(s, op) && Tidy(s, op) && LOW <= g < FRAMES
    ensures Inv(Next(s, op)) && Slack(Next(s, op), g) == Slack(s, g)
  {
    if op.Share? {
      assert Maps(s, op.fd, op.i, op.f);
      assert (op.fd, op.i) in Entries(s, op.f);
    }
    StepSlack(s, op, g);
  }
}
