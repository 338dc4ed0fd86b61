/** Every interleaving of fork, share, fault, exit, evict, swap-in and user stores. */
module PagingRuns {
  import opened Paging
  import opened PagingOps

  /** One uninterrupted stretch of kernel or user code. A dirty page being swapped out is an `Out` step,
      any steps of other tasks while the disk write sleeps, then `Put` of its frame. */
  datatype Op =
    | Get                                               // get_free_page for a task structure, a pipe, exec arguments
    | Put(f: nat)                                       // free_page of such a frame
    | NewTable(d: nat)                                  // a page table is allocated and entered in the directory
    | Copy(fd: nat, fi: nat, td: nat, ti: nat)          // copy_page_tables, one entry
    | Share(fd: nat, td: nat, i: nat, f: nat)           // try_to_share, after its page table was found
    | Release(d: nat, i: nat)                           // free_page_tables, one entry
    | ReleaseTable(d: nat)                              // free_page_tables, one table
    | Install(d: nat, i: nat, f: nat)                   // put_page
    | Fault(d: nat, i: nat)                             // do_wp_page, write_verify
    | Out(d: nat, i: nat)                               // try_to_swap_out
    | In(d: nat, i: nat)                                // swap_in
    | Write(d: nat, i: nat, v: Page)                    // user code stores

  ghost predicate InTable(s: Mem, d: nat, i: nat)
    requires Shape(s)
  {
    IsUser(d) && s.dir[d] != 0 && i < PTRS
  }

  /** The guards of the code, with a free frame wherever one is asked for. */
  ghost predicate Enabled(s: Mem, op: Op)
    requires Shape(s)
  {
    match op
    case Get => FreeFrame(s) != 0
    case Put(f) => f in s.kernel
    case NewTable(d) => IsUser(d) && s.dir[d] == 0 && FreeFrame(s) != 0
    case Copy(fd, fi, td, ti) => CopyReady(s, fd, fi, td, ti)
    case Share(fd, td, i, f) => IsUser(fd) && InTable(s, td, i) && fd != td && !At(s, td, i).Present? &&
      LOW <= f < s.high
    case Release(d, i) => InTable(s, d, i)
    case ReleaseTable(d) => InTable(s, d, 0) && forall i: nat :: i < PTRS ==> At(s, d, i) == Empty
    case Install(d, i, f) => InTable(s, d, i) && f in s.kernel
    case Fault(d, i) => InTable(s, d, i) && At(s, d, i).Present? && At(s, d, i).frame < FRAMES && FreeFrame(s) != 0
    case Out(d, i) => InTable(s, d, i) && !Refuses(s, d, i)
    case In(d, i) => InTable(s, d, i) && At(s, d, i).Swapped? && At(s, d, i).slot < SWAP_SLOTS && FreeFrame(s) != 0
    case Write(d, i, v) => Writable(s, d, i) && LOW <= At(s, d, i).frame < FRAMES
  }

  ghost function Next(s: Mem, op: Op): Mem
    requires Shape(s) && Enabled(s, op)
  {
    match op
    case Get => Take(s, FreeFrame(s))
    case Put(f) => if f < FRAMES then KernelPut(s, f) else s
    case NewTable(d) => GiveTable(Take(s, FreeFrame(s)), d, FreeFrame(s))
    case Copy(fd, fi, td, ti) => CopyEntry(s, fd, fi, td, ti)
    case Share(fd, td, i, f) => ShareTail(s, fd, td, i, f)
    case Release(d, i) => DropEntry(s, d, i)
    case ReleaseTable(d) => DropTable(s, d)
    case Install(d, i, f) => MapPage(s, d, i, f)
    case Fault(d, i) => WriteFault(s, d, i, FreeFrame(s))
    case Out(d, i) => Evict(s, d, i)
    case In(d, i) => SwapIn(s, d, i, FreeFrame(s))
    case Write(d, i, v) => Store(s, d, i, v)
  }

  /** No count wraps, and a page being shared was not swapped out or moved behind try_to_share's back. */
  ghost predicate Careful(s: Mem, op: Op)
    requires Shape(s)
  {
    match op
    case Copy(fd, fi, td, ti) => fd < PTRS && fi < PTRS ==> !Wraps(s, fd, fi)
    case Share(fd, td, i, f) => fd < PTRS && i < PTRS && LOW <= f < FRAMES ==> ShareSafe(s, fd, i, f)
    case _ => true
  }

  /** Every step keeps every invariant exactly when it is careful. */
  lemma StepKeepsInv(s: Mem, op: Op)
    requires Inv(s) && Enabled(s, op)
    ensures Inv(Next(s, op)) <==> Careful(s, op)
  {
    var f := FreeFrame(s);
    match op
    case Get => TakeKeepsInv(s, f);
    case Put(g) => KernelPutKeepsInv(s, g);
    case NewTable(d) =>
      TakeKeepsInv(s, f);
      GiveTableKeepsInv(Take(s, f), d, f);
    case Copy(fd, fi, td, ti) => CopyEntryKeepsInv(s, fd, fi, td, ti);
    case Share(fd, td, i, g) => ShareTailKeepsInv(s, fd, td, i, g);
    case Release(d, i) => DropEntryKeepsInv(s, d, i);
    case ReleaseTable(d) => DropTableKeepsInv(s, d);
    case Install(d, i, g) => MapPageKeepsInv(s, d, i, g);
    case Fault(d, i) => WriteFaultKeepsInv(s, d, i, f);
    case Out(d, i) => EvictKeepsInv(s, d, i);
    case In(d, i) => SwapInKeepsInv(s, d, i, f);
    case Write(d, i, v) => StoreIsPrivate(s, d, i, v);
  }

  /** The one linear page an operation is about. */
  ghost predicate Targets(op: Op, d: nat, i: nat) {
    match op
    case Copy(fd, fi, td, ti) => d == td && i == ti
    case Share(fd, td, j, f) => d == td && i == j
    case Release(x, j) => d == x && i == j
    case Install(x, j, f) => d == x && i == j
    case Out(x, j) => d == x && i == j
    case In(x, j) => d == x && i == j
    case Write(x, j, v) => d == x && i == j
    case _ => false
  }

  /** A step changes what is seen at the page it is about and at no other: neither at the other pages of the
      same task nor at any page of another task. A write fault changes nothing at all. */
  lemma StepSeenOnlyAtTarget(s: Mem, op: Op, x: nat, j: nat)
    requires Inv(s) && Enabled(s, op) && Careful(s, op) && IsUser(x) && j < PTRS && !Targets(op, x, j)
    ensures Inv(Next(s, op)) && SamePage(s, Next(s, op), x, j)
  {
    StepKeepsInv(s, op);
    match op
    case Get => TakeSeen(s, FreeFrame(s), x, j);
    case Put(g) =>
    case NewTable(d) => NewTableSeen(s, d, FreeFrame(s), x, j);
    case Copy(fd, fi, td, ti) => CopiedSeen(s, fd, fi, td, ti, x, j);
    case Share(fd, td, i, g) => ShareSeen(s, fd, td, i, g, x, j);
    case Release(d, i) => ReleaseSeen(s, d, i, x, j);
    case ReleaseTable(d) => DropTableKeepsInv(s, d);
    case Install(d, i, g) => InstallSeen(s, d, i, g, x, j);
    case _ => FaultOrSwapSeen(s, op, x, j);
  }

  lemma CopiedSeen(s: Mem, fd: nat, fi: nat, td: nat, ti: nat, x: nat, j: nat)
    requires CopyReady(s, fd, fi, td, ti) && IsUser(x) && j < PTRS && (x, j) != (td, ti)
    ensures Shape(CopyEntry(s, fd, fi, td, ti)) && SamePage(s, CopyEntry(s, fd, fi, td, ti), x, j)
  {
    CopyEntryAt(s, fd, fi, td, ti);
  }

  lemma ReleaseSeen(s: Mem, d: nat, i: nat, x: nat, j: nat)
    requires Inv(s) && InTable(s, d, i) && IsUser(x) && j < PTRS && (x, j) != (d, i)
    ensures Shape(DropEntry(s, d, i)) && SamePage(s, DropEntry(s, d, i), x, j)
  {
    DropEntryAt(s, d, i);
  }

  lemma FaultOrSwapSeen(s: Mem, op: Op, x: nat, j: nat)
    requires Inv(s) && Enabled(s, op) && (op.Fault? || op.Out? || op.In? || op.Write?)
    requires IsUser(x) && j < PTRS && !Targets(op, x, j)
    ensures Shape(Next(s, op)) && SamePage(s, Next(s, op), x, j)
  {
    match op
    case Fault(d, i) => WriteFaultKeepsInv(s, d, i, FreeFrame(s));
    case Out(d, i) => EvictKeepsInv(s, d, i);
    case In(d, i) => SwapInKeepsInv(s, d, i, FreeFrame(s));
    case Write(d, i, v) => StoreIsPrivate(s, d, i, v);
  }

  lemma NewTableSeen(s: Mem, d: nat, f: nat, x: nat, j: nat)
    requires Inv(s) && IsUser(d) && s.dir[d] == 0 && LOW <= f < FRAMES && CountAt(s, f) == 0 && IsUser(x) && j < PTRS
    ensures Shape(GiveTable(Take(s, f), d, f)) && SamePage(s, GiveTable(Take(s, f), d, f), x, j)
  {
    TakeSeen(s, f, x, j);
    TakeKeepsInv(s, f);
    GiveTableKeepsInv(Take(s, f), d, f);
  }

  lemma InstallSeen(s: Mem, d: nat, i: nat, f: nat, x: nat, j: nat)
    requires Inv(s) && InTable(s, d, i) && IsUser(x) && j < PTRS && (x, j) != (d, i)
    ensures Shape(MapPage(s, d, i, f)) && SamePage(s, MapPage(s, d, i, f), x, j)
  {
    var s1 := SetEntry(s, d, i, Present(f, true, false));
    SetEntryAt(s, d, i, Present(f, true, false));
    assert At(MapPage(s, d, i, f), x, j) == At(s1, x, j);
  }

  lemma TakeSeen(s: Mem, f: nat, x: nat, j: nat)
    requires Inv(s) && LOW <= f < FRAMES && CountAt(s, f) == 0 && IsUser(x) && j < PTRS
    ensures Shape(Take(s, f)) && SamePage(s, Take(s, f), x, j)
  {
    FreeFrameUnused(s, f);
    TakeAt(s, f);
    assert !Maps(s, x, j, f);
  }

  lemma ShareSeen(s: Mem, fd: nat, td: nat, i: nat, f: nat, x: nat, j: nat)
    requires Inv(s) && IsUser(fd) && InTable(s, td, i) && fd != td && LOW <= f < s.high
    requires IsUser(x) && j < PTRS && (x, j) != (td, i)
    ensures Shape(ShareTail(s, fd, td, i, f)) && SamePage(s, ShareTail(s, fd, td, i, f), x, j)
  {
    var e := WriteProtect(At(s, fd, i));
    if s.dir[fd] == 0 {
      CountedSeen(s, td, i, e, f, x, j);
    } else {
      SetEntryAt(s, fd, i, e);
      CountedSeen(SetEntry(s, fd, i, e), td, i, e, f, x, j);
    }
  }

  lemma CountedSeen(s: Mem, d: nat, i: nat, e: Entry, f: nat, x: nat, j: nat)
    requires Shape(s) && TablesApart(s) && InTable(s, d, i) && LOW <= f < FRAMES && IsUser(x) && j < PTRS
    requires (x, j) != (d, i)
    ensures Shape(Bump(SetEntry(s, d, i, e), f)) && At(Bump(SetEntry(s, d, i, e), f), x, j) == At(s, x, j)
    ensures SamePage(s, Bump(SetEntry(s, d, i, e), f), x, j)
  {
    SetEntryAt(s, d, i, e);
    assert At(Bump(SetEntry(s, d, i, e), f), x, j) == At(SetEntry(s, d, i, e), x, j);
  }

  /** After fork's copy the child sees exactly what the parent sees, and the parent what it saw. */
  lemma ForkedPageSeen(s: Mem, fd: nat, fi: nat, td: nat, ti: nat)
    requires CopyReady(s, fd, fi, td, ti) && IsUser(fd)
    ensures var s' := CopyEntry(s, fd, fi, td, ti);
            Shape(s') && ViewAt(s', td, ti) == ViewAt(s, fd, fi) == ViewAt(s', fd, fi)
  {
    CopyEntryAt(s, fd, fi, td, ti);
  }

  // ----- Whole runs

  ghost predicate History(states: seq<Mem>, ops: seq<Op>) {
    |states| == |ops| + 1 && Inv(states[0]) &&
    forall k :: 0 <= k < |ops| ==> StepOf(states[k], ops[k], states[k + 1])
  }

  ghost predicate StepOf(s: Mem, op: Op, s': Mem) {
    Shape(s) && Enabled(s, op) && Careful(s, op) && s' == Next(s, op)
  }

  /** Over every run: frame accounting, copy-on-write isolation, and swap slots that are never aliased. */
  lemma {:induction false} HistoryKeepsInv(states: seq<Mem>, ops: seq<Op>, k: nat)
    requires History(states, ops) && k <= |ops|
    ensures Inv(states[k])
  {
    if k > 0 {
      HistoryKeepsInv(states, ops, k - 1);
      assert StepOf(states[k - 1], ops[k - 1], states[k - 1 + 1]);
      StepKeepsInv(states[k - 1], ops[k - 1]);
    }
  }

  /** In every reachable state get_free_page hands out a frame that no entry, no directory and no kernel holder
      names. */
  lemma AllocationIsFresh(states: seq<Mem>, ops: seq<Op>, k: nat)
    requires History(states, ops) && k <= |ops|
    ensures Shape(states[k]) && (FreeFrame(states[k]) != 0 ==> Count(states[k], FreeFrame(states[k])) == 0)
  {
    HistoryKeepsInv(states, ops, k);
    if FreeFrame(states[k]) != 0 {
      FreeFrameUnused(states[k], FreeFrame(states[k]));
    }
  }

  /** A page no operation of the run is about shows at the end what it showed at the start, whatever other tasks
      stored. */
  lemma {:induction false} UntouchedPagesKeepTheirContents(states: seq<Mem>, ops: seq<Op>, k: nat, d: nat, i: nat)
    requires History(states, ops) && k <= |ops| && IsUser(d) && i < PTRS
    requires forall n :: 0 <= n < k ==> !Targets(ops[n], d, i)
    ensures Inv(states[0]) && Inv(states[k]) && ViewAt(states[k], d, i) == ViewAt(states[0], d, i)
  {
    HistoryKeepsInv(states, ops, k);
    if k > 0 {
      UntouchedPagesKeepTheirContents(states, ops, k - 1, d, i);
      assert StepOf(states[k - 1], ops[k - 1], states[k - 1 + 1]);
      StepSeenOnlyAtTarget(states[k - 1], ops[k - 1], d, i);
    }
  }

  // ----- How a count comes to wrap

  /** A parent forks, the child writes to the shared page and exits: copy, fault on the copy, release. */
  ghost predicate CycleReady(s: Mem, fd: nat, td: nat, i: nat, f: nat) {
    CopyReady(s, fd, i, td, i) && IsUser(fd) && fd != td && At(s, fd, i).Present? && At(s, fd, i).frame == f &&
    LOW <= f < FRAMES && 1 <= CountAt(s, f) < BYTE - 1 && FreeFrame(s) != 0
  }

  /** The parent forks, the child writes to the page, and the child exits. */
  ghost function Cycle(s: Mem, fd: nat, td: nat, i: nat, f: nat): Mem
    requires CycleReady(s, fd, td, i, f)
  {
    CycleCopies(s, fd, td, i, f);
    CycleFaults(CopyEntry(s, fd, i, td, i), fd, td, i, FreeFrame(s));
    DropEntry(WriteFault(CopyEntry(s, fd, i, td, i), td, i, FreeFrame(s)), td, i)
  }

  /** One such cycle raises the count of the parent's frame by one for good: un_wp_page did not lower it. */
  lemma CycleSteps(s: Mem, fd: nat, td: nat, i: nat, f: nat)
    requires CycleReady(s, fd, td, i, f)
    ensures var s' := Cycle(s, fd, td, i, f);
            Inv(s') && s'.dir == s.dir && s'.cnt == s.cnt[f - LOW := CountAt(s, f) + 1] &&
            At(s', td, i) == Empty && At(s', fd, i).Present? && At(s', fd, i).frame == f
  {
    var g := FreeFrame(s);
    var s1 := CopyEntry(s, fd, i, td, i);
    CycleCopies(s, fd, td, i, f);
    CycleFaults(s1, fd, td, i, g);
    CycleDrops(WriteFault(s1, td, i, g), fd, td, i, g);
    CycleCounts(s.cnt, f - LOW, CountAt(s, f) + 1, g - LOW);
  }

  /** The child's write in a cycle: it gets the free frame for itself, and no other count changes. */
  lemma CycleFaults(s: Mem, fd: nat, td: nat, i: nat, g: nat)
    requires Inv(s) && InTable(s, td, i) && IsUser(fd) && fd != td && At(s, td, i).Present?
    requires At(s, td, i).frame < FRAMES
    requires LOW <= g < FRAMES && CountAt(s, g) == 0 && !SoleUser(s, At(s, td, i).frame)
    ensures var s' := WriteFault(s, td, i, g);
            Inv(s') && InTable(s', td, i) && s'.dir == s.dir && s'.cnt == s.cnt[g - LOW := 1] &&
            At(s', td, i) == Present(g, true, false) && At(s', fd, i) == At(s, fd, i)
  {
    WriteFaultKeepsInv(s, td, i, g);
    CopyFaultAt(s, td, i, g);
  }

  /** The child's exit in a cycle: its frame is free again. */
  lemma CycleDrops(s: Mem, fd: nat, td: nat, i: nat, g: nat)
    requires Inv(s) && InTable(s, td, i) && IsUser(fd) && fd != td
    requires LOW <= g < FRAMES && CountAt(s, g) == 1 && At(s, td, i) == Present(g, true, false)
    ensures var s' := DropEntry(s, td, i);
            Inv(s') && s'.dir == s.dir && s'.cnt == s.cnt[g - LOW := 0] && At(s', td, i) == Empty &&
              At(s', fd, i) == At(s, fd, i)
  {
    DropEntryKeepsInv(s, td, i);
    DropEntryAt(s, td, i);
  }

  /** The fork of a cycle: both entries show the frame, its count goes up by one, and the free frame stays free. */
  lemma CycleCopies(s: Mem, fd: nat, td: nat, i: nat, f: nat)
    requires CycleReady(s, fd, td, i, f)
    ensures var s1, g := CopyEntry(s, fd, i, td, i), FreeFrame(s);
            Inv(s1) && LOW <= g < FRAMES && g != f && s1.dir == s.dir && InTable(s1, td, i) &&
            s1.cnt == s.cnt[f - LOW := CountAt(s, f) + 1] && s.cnt[g - LOW] == 0 &&
            At(s1, td, i).Present? && At(s1, td, i).frame == f && At(s1, fd, i).Present? && At(s1, fd, i).frame == f
  {
    CopyEntryKeepsInv(s, fd, i, td, i);
    CopyEntryAt(s, fd, i, td, i);
  }

  lemma CycleCounts(c: seq<nat>, f: nat, v: nat, g: nat)
    requires f < |c| && g < |c| && f != g && c[g] == 0
    ensures c[f := v][g := 1][g := 0] == c[f := v]
  {
  }

  /** What the tables and counts hold after a fault on a shared page. */
  lemma CopyFaultAt(s: Mem, d: nat, i: nat, f: nat)
    requires Inv(s) && InTable(s, d, i) && At(s, d, i).Present? && At(s, d, i).frame < FRAMES
    requires LOW <= f < FRAMES && CountAt(s, f) == 0 && !SoleUser(s, At(s, d, i).frame)
    ensures var s' := WriteFault(s, d, i, f);
            Shape(s') && s'.dir == s.dir && s'.cnt == s.cnt[f - LOW := 1] &&
            forall x: nat, j: nat :: IsUser(x) && j < PTRS ==>
              At(s', x, j) == if (x, j) == (d, i) then Present(f, true, false) else At(s, x, j)
  {
    TakeAt(s, f);
    TakeKeepsInv(s, f);
    SetEntryAt(Take(s, f), d, i, Present(f, true, false));
    var s2, s' := SetEntry(Take(s, f), d, i, Present(f, true, false)), WriteFault(s, d, i, f);
    assert forall x: nat, j: nat :: x < PTRS && j < PTRS ==> At(s', x, j) == At(s2, x, j);
  }

  /** The frame is shown read-only by the parent alone, its count is `c`, and every other count is as in `s`. */
  ghost predicate Leaked(s: Mem, s': Mem, fd: nat, td: nat, i: nat, f: nat, c: nat) {
    Shape(s) && LOW <= f < FRAMES && CopyReady(s', fd, i, td, i) && IsUser(fd) && fd != td && At(s', fd, i).Present? &&
    At(s', fd, i).frame == f && s'.cnt == s.cnt[f - LOW := c]
  }

  /** Repeating the cycle takes the count up to 255, one by one, with every other count as it was. */
  lemma {:induction false} CyclesLeak(s: Mem, fd: nat, td: nat, i: nat, f: nat, c: nat) returns (s': Mem)
    requires CycleReady(s, fd, td, i, f) && CountAt(s, f) <= c <= BYTE - 1
    ensures Leaked(s, s', fd, td, i, f, c)
    decreases c
  {
    if c == CountAt(s, f) {
      s' := s;
      SetSame(s.cnt, f - LOW);
    } else {
      var s1 := CyclesLeak(s, fd, td, i, f, c - 1);
      LeakedReady(s, s1, fd, td, i, f, c - 1);
      s' := Cycle(s1, fd, td, i, f);
      CycleSteps(s1, fd, td, i, f);
      SetAgain(s.cnt, f - LOW, c - 1, c);
    }
  }

  lemma LeakedReady(s: Mem, s1: Mem, fd: nat, td: nat, i: nat, f: nat, c: nat)
    requires CycleReady(s, fd, td, i, f) && Leaked(s, s1, fd, td, i, f, c) && 1 <= c < BYTE - 1
    ensures CycleReady(s1, fd, td, i, f) && CountAt(s1, f) == c
  {
    SameFreeFrame(s, s1, f);
  }

  lemma SetAgain(c: seq<nat>, k: nat, a: nat, b: nat)
    requires k < |c|
    ensures c[k := a][k := b] == c[k := b]
  {
  }

  lemma SetSame(c: seq<nat>, k: nat)
    requires k < |c|
    ensures c[k := c[k]] == c
  {
  }

  /** A nonzero count that stays nonzero does not show in the scan for a free frame. */
  lemma SameFreeFrame(s: Mem, s': Mem, f: nat)
    requires Shape(s) && Shape(s') && LOW <= f < FRAMES && s.cnt[f - LOW] != 0
    requires s'.cnt == s.cnt[f - LOW := s'.cnt[f - LOW]]
    requires s'.cnt[f - LOW] != 0
    ensures FreeFrame(s') == FreeFrame(s)
  {
    SameFreeBelow(s.cnt, s'.cnt, f - LOW, PAGING_PAGES);
  }

  lemma {:induction false} SameFreeBelow(a: seq<nat>, b: seq<nat>, k: nat, n: nat)
    requires |a| == |b| && k < |a| && n <= |a| && a[k] != 0 && b[k] != 0 && b == a[k := b[k]]
    ensures FreeBelow(b, n) == FreeBelow(a, n)
  {
    if n > 0 {
      SameFreeBelow(a, b, k, n - 1);
    }
  }

  /** From every state with a shared-able page and a free frame, a run of forks, child writes and exits followed by one
      more fork wraps the count to 0 while two entries show the frame: the accounting is lost. */
  lemma ForkingWrapsTheCount(s: Mem, fd: nat, td: nat, i: nat, f: nat) returns (s': Mem, s'': Mem)
    requires CycleReady(s, fd, td, i, f)
    ensures CopyReady(s', fd, i, td, i) && Inv(s')
    ensures s'' == CopyEntry(s', fd, i, td, i) && Shape(s'') && CountAt(s'', f) == 0
    ensures Maps(s'', fd, i, f) && Maps(s'', td, i, f) && !Accounting(s'')
  {
    s' := CyclesLeak(s, fd, td, i, f, BYTE - 1);
    s'' := CopyEntry(s', fd, i, td, i);
    CopyEntryAt(s', fd, i, td, i);
    assert (fd, i) in Entries(s'', f);
    assert Count(s'', f) > s''.cnt[f - LOW];
  }
}
