/** mm/memory.c, mm/swap.c and copy_mem, on the arrays they work on. Linear addresses are given as directory and page
    index. */
module MemoryManager {
  import opened Paging
  import opened PagingOps
  import opened PagingRuns
  import opened PagingStart
  import opened PagingViews
  import opened ForkCounts
  import opened ForkWords

  /** How a walk over tables ends. When a count wraps, or the page directory has been written over, `Valid` is not
      claimed. */
  datatype Outcome = Done | OutOfMemory | CountWrapped | DirectoryLost | Panicked

  /** What one turn of the scan came to. */
  datatype Look = Found | Refused | GaveUp

  /** Where a fork stopped: memory just before, the table, and the page in it. */
  datatype Stop = Stop(mid: Mem, table: nat, page: nat)

  /** The count of the frame shown by the page that was to be copied next was at its limit, and wrapped. */
  ghost predicate WrappedAt(stop: Stop, s': Mem, fd: nat, td: nat, n: nat) {
    stop.table < n && stop.page < CopiedPages(fd) &&
      CountOver(stop.mid, s', fd + stop.table, td + stop.table, stop.page)
  }

  /** Room for a fork, from page `i` of table `fd` on. */
  ghost predicate MayFork(s: Mem, fd: nat, td: nat, i: nat, hi: nat)
    requires Shape(s)
  {
    fd < hi && !(fd <= td < hi) && RoomFor(s, fd, i, hi)
  }

  /** What copy_page_tables did to one table, or on which page it stopped. */
  ghost predicate TableDone(s: Mem, s2: Mem, fd: nat, td: nat, hi: nat, quiet: bool, r: Outcome, mid: Mem, at: nat,
    room: bool) {
    WordsForked(s, s2, fd, td, 1) &&
    match r
    case Done => Protected(s2, fd, 1) && TableStep(s, s2, fd, td, quiet) && (room ==> RoomFor(s2, fd + 1, 0, hi))
    case OutOfMemory => TableStopped(s, s2, fd, td) && OutOfFrames(s2)
    case CountWrapped => TableStopped(s, s2, fd, td) && !room && at < CopiedPages(fd) && CountOver(mid, s2, fd, td, at)
    case _ => false
  }

  /** The tables copied so far, those still to copy, and room in the counts for them. */
  ghost predicate Forking(s: Mem, s1: Mem, fd: nat, td: nat, k: nat, n: nat, calm: bool, room: bool) {
    ForkedSoFar(s, s1, fd, td, k, n, calm) && (room ==> RoomFor(s1, fd + k, 0, fd + n)) &&
    WordsForked(s, s1, fd, td, k) && Protected(s1, fd, k)
  }

  /** A fork that did not come to its end. */
  ghost predicate ForkEnded(s: Mem, s2: Mem, fd: nat, td: nat, n: nat, r: Outcome, stop: Stop, room: bool) {
    Forked(s, s2, fd, td, n) && WordsForked(s, s2, fd, td, n) &&
    if r == CountWrapped then !room && WrappedAt(stop, s2, fd, td, n) else r == OutOfMemory && OutOfFrames(s2)
  }

  /** The next table of a fork is ready to be copied. */
  lemma NextTableWanted(s: Mem, s1: Mem, fd: nat, td: nat, k: nat, n: nat, calm: bool, room: bool)
    requires k < n && Forking(s, s1, fd, td, k, n, calm, room)
    ensures Shape(s1) && TableWanted(s1, fd + k, td + k) && (room ==> MayFork(s1, fd + k, td + k, 0, fd + n))
  {
  }

  /** What one more table makes of a fork. */
  lemma TableAdded(s: Mem, s1: Mem, s2: Mem, fd: nat, td: nat, k: nat, n: nat, calm: bool, quiet: bool, mid: Mem,
    at: nat, room: bool)
    requires k < n && Forking(s, s1, fd, td, k, n, calm, room)
    requires TableDone(s1, s2, fd + k, td + k, fd + n, quiet, Done, mid, at, room)
    ensures Forking(s, s2, fd, td, k + 1, n, calm && quiet, room)
  {
    ForkedOneMore(s, s1, s2, fd, td, k, n, calm, quiet);
    assert fd + k + 1 == fd + (k + 1);
    WordsAdded(s, s1, s2, fd, td, k, n);
  }

  lemma TableNotDone(s: Mem, s1: Mem, s2: Mem, fd: nat, td: nat, k: nat, n: nat, calm: bool, quiet: bool, r: Outcome,
    mid: Mem, at: nat, room: bool)
    requires k < n && r != Done && Forking(s, s1, fd, td, k, n, calm, room)
    requires TableDone(s1, s2, fd + k, td + k, fd + n, quiet, r, mid, at, room)
    ensures ForkEnded(s, s2, fd, td, n, r, Stop(mid, k, at), room)
  {
    hide Protected, TableStopped, RoomFor, OutOfFrames, CountOver, Forked;
    ForkStopped(s, s1, s2, fd, td, k, n, calm);
    WordsAdded(s, s1, s2, fd, td, k, n);
    NothingBehind(s1, s2, fd, td, k, n);
    hide ForkedSoFar;
    WordsWidened(s, s2, fd, td, k + 1, n);
    hide WordsForked;
  }

  lemma NothingBehind(s1: Mem, s2: Mem, fd: nat, td: nat, k: nat, n: nat)
    requires k < n && RangesReady(s1, fd + k, td + k, n - k) && TableStopped(s1, s2, fd + k, td + k)
    ensures forall x :: td + (k + 1) <= x < td + n ==> s2.dir[x] == 0
  {
  }

  class Memory {
    const high: nat
    const memMap: array<nat>
    const dir: array<nat>
    const tab: array<seq<Entry>>
    const page: array<Page>
    const free: array<bool>
    var swapOn: bool
    ghost var kernel: set<nat>
    var dirEntry: nat        // the two static cursors of swap_out
    var pageEntry: int

    ghost function View(): Mem
      reads this, memMap, dir, tab, page, free
    {
      Mem(high, memMap[..], dir[..], tab[..], page[..], swapOn, free[..], kernel)
    }

    ghost predicate Valid()
      reads this, memMap, dir, tab, page, free
    {
      Inv(View()) && memMap != dir && IsUser(dirEntry) && -1 <= pageEntry < PTRS
    }

    /** mem_init, and the tables that boot/head.s has set up. */
    constructor (high: nat, start: nat, pages: seq<Page>)
      requires LOW <= start <= high <= FRAMES && |pages| == FRAMES
      ensures Valid() && View() == Booted(high, start, pages)
    {
      this.high := high;
      memMap := new nat[PAGING_PAGES](_ => USED);
      dir := new nat[PTRS](d => if 0 <= d < KERNEL_TABLES then d + 1 else 0);
      tab := new seq<Entry>[FRAMES](f => if f >= 0 then KernelTable(f) else EmptyTable());
      page := new Page[FRAMES](f => if 0 <= f < |pages| then pages[f] else ZERO_PAGE);
      free := new bool[SWAP_SLOTS](_ => false);
      swapOn, kernel, dirEntry, pageEntry := false, {}, FIRST_DIR, -1;
      new;
      var i, left := start - LOW, high - start;
      while left > 0
        invariant 0 <= left <= high - start && i == high - LOW - left
        invariant forall k :: 0 <= k < PAGING_PAGES ==> memMap[k] == if start <= k + LOW < LOW + i then 0 else USED
        modifies memMap
      {
        memMap[i] := 0;
        i, left := i + 1, left - 1;
      }
      BootedInv(high, start, pages);
      assert memMap[..] == Booted(high, start, pages).cnt;
      assert dir[..] == Booted(high, start, pages).dir;
      assert tab[..] == Booted(high, start, pages).tab;
      assert page[..] == pages;
      assert free[..] == Booted(high, start, pages).free;
    }

    /** get_swap_page */
    method GetSwapPage() returns (nr: nat)
      requires Valid()
      modifies free
      ensures nr == old(FreeSlot(View())) < SWAP_SLOTS
      ensures View() == if nr == 0 then old(View()) else old(View()).(free := old(free[..])[nr := false])
    {
      if !swapOn {
        return 0;
      }
      nr := 1;
      while nr < SWAP_SLOTS
        invariant 1 <= nr <= SWAP_SLOTS && FreeSlotFrom(free[..], 1) == FreeSlotFrom(free[..], nr)
        invariant View() == old(View())
      {
        if free[nr] {
          free[nr] := false;
          return;
        }
        nr := nr + 1;
      }
      return 0;
    }

    /** free_page of a frame some holder named. */
    method FreePage(f: nat)
      requires memMap.Length == PAGING_PAGES && f < FRAMES && (f >= LOW ==> f < high && memMap[f - LOW] > 0)
      modifies memMap
      ensures memMap[..] == if f < LOW then old(memMap[..]) else old(memMap[..])[f - LOW := old(memMap[f - LOW]) - 1]
    {
      if f < LOW {
        return;
      }
      memMap[f - LOW] := memMap[f - LOW] - 1;
    }

    /** try_to_swap_out */
    method TryToSwapOut(d: nat, i: nat) returns (r: bool)
      requires Valid() && InTable(View(), d, i)
      modifies this`kernel, memMap, tab, free
      ensures Valid()
      ensures r == !old(Refuses(View(), d, i))
      ensures View() == if r then EvictAndFree(old(View()), d, i) else old(View())
    {
      ghost var s := View();
      var e := tab[dir[d]][i];
      if !e.Present? || e.frame < LOW || e.frame >= FRAMES {
        return false;
      }
      if e.dirty {
        if memMap[e.frame - LOW] != 1 {
          return false;
        }
        r := WriteOut(d, i, e);
        return;
      }
      EvictFields(s, d, i);
      SetWord(d, i, Empty);
      FreePage(e.frame);
      assert View() == EvictAndFree(s, d, i);
      return true;
    }

    /** try_to_swap_out, for a dirty page that nobody shares: it needs a slot. */
    method WriteOut(d: nat, i: nat, e: Entry) returns (r: bool)
      requires Valid() && InTable(View(), d, i) && e == At(View(), d, i) && e.Present? && LOW <= e.frame < FRAMES
      requires e.dirty
      requires memMap[e.frame - LOW] == 1
      modifies this`kernel, memMap, tab, free
      ensures Valid()
      ensures r == !old(Refuses(View(), d, i))
      ensures View() == if r then EvictAndFree(old(View()), d, i) else old(View())
    {
      ghost var s := View();
      var nr := GetSwapPage();
      if nr == 0 {
        return false;
      }
      EvictFields(s, d, i);
      SetWord(d, i, Swapped(nr));
      FreePage(e.frame);
      assert View() == EvictAndFree(s, d, i);
      return true;
    }

    /** *table_ptr = e */
    method SetWord(d: nat, i: nat, e: Entry)
      requires Shape(View()) && d < PTRS && i < PTRS
      modifies tab
      ensures View() == SetEntry(old(View()), d, i, e)
    {
      tab[dir[d]] := tab[dir[d]][i := e];
      assert tab[..] == SetEntry(old(View()), d, i, e).tab;
    }

    /** swap_out: resume the scan where it stopped and evict the first page that can go. It fails exactly when none of
        the pages it tries can go; those it never tries are `Untried`. */
    method SwapOut() returns (r: bool, ghost d: nat, ghost i: nat)
      requires Valid()
      modifies this, memMap, tab, free
      ensures Valid()
      ensures r ==> Evicted(old(View()), View(), d, i)
      ensures r ==> Linear(d, i) >= 0 && !old(Untried(View(), dirEntry, pageEntry, Linear(d, i)))
      ensures r ==> FirstToGo(old(View()), old(dirEntry), old(pageEntry), d, i) && dirEntry == d && pageEntry == i
      ensures !r ==> View() == old(View()) && AllTried(View(), old(dirEntry), old(pageEntry))
    {
      ghost var s, d0, p0 := View(), dirEntry, pageEntry;
      d, i := 0, 0;
      AllGaveUp(s, d0, p0);
      var counter := FindTable();
      if counter <= 0 {
        return false, d, i;
      }
      r, d, i := Scan(counter);
      if r {
        FoundInScan(s, d0, p0, d, i);
      }
    }

    /** The first loop of swap_out: on to a present table, each absent one costing a table's worth of the budget. */
    method FindTable() returns (counter: int)
      requires Valid()
      modifies this`dirEntry
      ensures Valid() && View() == old(View())
      ensures var k := Skips(View(), old(dirEntry));
        counter == VM_PAGES - k * PTRS && (k < VM_DIRS ==> dirEntry == Ahead(old(dirEntry), k) && dir[dirEntry] != 0)
    {
      ghost var k, s, d0 := 0, View(), dirEntry;
      counter := VM_PAGES;
      while counter > 0
        invariant k <= VM_DIRS && counter == VM_PAGES - k * PTRS && (k < VM_DIRS ==> dirEntry == Ahead(d0, k))
        invariant IsUser(dirEntry) && View() == s && AbsentUpTo(s, d0, k)
      {
        if dir[dirEntry] != 0 {
          break;
        }
        counter, k := counter - PTRS, k + 1;
        dirEntry := NextDir(dirEntry);
      }
      PassedOnce(s, d0, k, Skips(s, d0));
    }

    /** The second loop of swap_out, starting on a present table with a budget of `budget` pages. */
    method Scan(budget: int) returns (r: bool, ghost d: nat, ghost i: nat)
      requires Valid() && dir[dirEntry] != 0 && 0 < budget <= VM_PAGES && budget % PTRS == 0
      modifies this, memMap, tab, free
      ensures Valid()
      ensures r ==> Evicted(old(View()), View(), d, i) && old(InReach(View(), dirEntry, pageEntry, budget, d, i))
      ensures r ==> old(RefusedUpTo(View(), dirEntry, pageEntry, d, i)) && dirEntry == d && pageEntry == i
      ensures !r ==> View() == old(View()) && Covered(View(), old(dirEntry), old(pageEntry), budget)
    {
      ghost var s, start, d0, p0 := View(), Linear(dirEntry, pageEntry) + 1, dirEntry, pageEntry;
      ghost var upTo, lap := start, 0;
      var counter := budget;
      d, i := 0, 0;
      while counter > 0
        invariant Valid() && View() == s && Waiting(s, dirEntry, pageEntry, start, upTo, lap, budget, counter)
        invariant p0 >= 0 ==> pageEntry >= 0
      {
        var look;
        look, counter, upTo, lap := Turn(counter, upTo, lap, start, budget);
        if look == Found {
          FoundInReach(s, d0, p0, budget, dirEntry, pageEntry, counter, lap);
          return true, dirEntry, pageEntry;
        }
        if look == GaveUp {
          ScanEnds(s, start, upTo, counter, budget, d0, p0);
          return false, d, i;
        }
      }
      ScanEnds(s, start, upTo, -1, budget, d0, p0);
      return false, d, i;
    }

    /** One turn of that loop. */
    method Turn(counter0: int, ghost upTo0: int, ghost lap0: int, ghost start: int, ghost budget: int)
      returns (look: Look, counter: int, ghost upTo: int, ghost lap: int)
      requires Valid() && 0 < counter0 && 0 <= start <= VM_PAGES && budget <= VM_PAGES
      requires Waiting(View(), dirEntry, pageEntry, start, upTo0, lap0, budget, counter0)
      modifies this, memMap, tab, free
      ensures Valid() && counter < counter0 && (look != GaveUp ==> pageEntry >= 0)
      ensures look != Found ==> View() == old(View())
      ensures look == Refused ==> Waiting(View(), dirEntry, pageEntry, start, upTo, lap, budget, counter)
      ensures look == GaveUp ==> AllRefused(View(), start, upTo) && budget - counter - 1 == upTo - start
      ensures look == GaveUp ==> counter <= 0 && upTo % PTRS == 0 && GapBefore(View(), upTo)
      ensures look == Found ==> counter >= 0 && Evicted(old(View()), View(), dirEntry, pageEntry)
      ensures look == Found ==>
        budget - counter - 1 == Linear(dirEntry, pageEntry) + lap - start && (lap == 0 || lap == VM_PAGES)
      ensures look == Found ==> AllRefused(old(View()), start, Linear(dirEntry, pageEntry) + lap)
      ensures look == Found && pageEntry == 0 && old(pageEntry) >= 0 && old(dir[..])[Before(dirEntry)] == 0 ==>
        counter > 0
    {
      var ok;
      ok, counter, upTo, lap := Advance(counter0 - 1, upTo0, lap0, start, budget);
      if !ok {
        return GaveUp, counter, upTo, lap;
      }
      var r := TryHere(start, upTo, lap);
      if r {
        return Found, counter, upTo, lap;
      }
      return Refused, counter, upTo + 1, lap;
    }

    /** The page under the cursors, at position `upTo` of the scan. */
    method TryHere(ghost start: int, ghost upTo: int, ghost lap: int) returns (r: bool)
      requires Valid() && dir[dirEntry] != 0 && pageEntry >= 0 && AllRefused(View(), start, upTo)
      requires upTo == Linear(dirEntry, pageEntry) + lap && (lap == 0 || lap == VM_PAGES)
      modifies this`kernel, memMap, tab, free
      ensures Valid()
      ensures r ==> Evicted(old(View()), View(), dirEntry, pageEntry)
      ensures !r ==> View() == old(View()) && AllRefused(View(), start, upTo + 1)
    {
      ghost var s := View();
      r := TryToSwapOut(dirEntry, pageEntry);
      if !r {
        OneMoreRefused(s, dirEntry, pageEntry, start, upTo, lap);
      }
    }

    /** One turn of the loop up to `try_to_swap_out`: step to the next page, going on to the next present table at the
        end of one. */
    method Advance(budgetLeft: int, ghost upTo0: int, ghost lap0: int, ghost start: int, ghost budget: int)
      returns (ok: bool, counter: int, ghost upTo: int, ghost lap: int)
      requires Valid() && dir[dirEntry] != 0 && 0 <= budgetLeft && 0 <= start <= VM_PAGES && budget <= VM_PAGES
      requires upTo0 == Linear(dirEntry, pageEntry) + 1 + lap0 && (lap0 == 0 || lap0 == VM_PAGES)
      requires budget - budgetLeft - 1 == upTo0 - start && AllRefused(View(), start, upTo0)
      modifies this`dirEntry, this`pageEntry
      ensures Valid() && View() == old(View()) && AllRefused(View(), start, upTo)
      ensures budget - counter - 1 == upTo - start && (lap == 0 || lap == VM_PAGES)
      ensures ok ==>
        0 <= counter <= budgetLeft && dir[dirEntry] != 0 && pageEntry >= 0 && upTo == Linear(dirEntry, pageEntry) + lap
      ensures ok && pageEntry == 0 && old(pageEntry) >= 0 && dir[Before(dirEntry)] == 0 ==> counter > 0
      ensures !ok ==> counter <= 0 && upTo % PTRS == 0 && GapBefore(View(), upTo)
    {
      pageEntry := pageEntry + 1;
      if pageEntry < PTRS {
        return true, budgetLeft, upTo0, lap0;
      }
      pageEntry := 0;
      ok, counter, upTo, lap := NextTable(budgetLeft, upTo0, lap0, start, budget);
    }

    /** The lines from `repeat:` on: find the next present table, charging a table's worth of pages for each absent
        one. */
    method NextTable(budgetLeft: int, ghost upTo0: int, ghost lap0: int, ghost start: int, ghost budget: int)
      returns (ok: bool, counter: int, ghost upTo: int, ghost lap: int)
      requires Valid() && dir[dirEntry] != 0 && 0 <= budgetLeft && 0 <= start <= VM_PAGES && budget <= VM_PAGES
      requires upTo0 == Linear(dirEntry, PTRS - 1) + 1 + lap0 && (lap0 == 0 || lap0 == VM_PAGES)
      requires budget - budgetLeft - 1 == upTo0 - start && AllRefused(View(), start, upTo0)
      modifies this`dirEntry
      ensures Valid() && View() == old(View()) && AllRefused(View(), start, upTo)
      ensures budget - counter - 1 == upTo - start && (lap == 0 || lap == VM_PAGES)
      ensures ok ==> 0 <= counter <= budgetLeft && dir[dirEntry] != 0 && upTo == Linear(dirEntry, 0) + lap
      ensures ok && dir[Before(dirEntry)] == 0 ==> counter > 0
      ensures !ok ==> counter <= 0 && upTo == Linear(dirEntry, PTRS - 1) + 1 + lap && dir[dirEntry] == 0
    {
      counter, upTo, lap := budgetLeft, upTo0, lap0;
      while true
        invariant Valid() && View() == old(View()) && AllRefused(View(), start, upTo)
        invariant upTo == Linear(dirEntry, PTRS - 1) + 1 + lap && (lap == 0 || lap == VM_PAGES)
        invariant budget - counter - 1 == upTo - start
        invariant 0 <= counter <= budgetLeft && (dir[dirEntry] != 0 || counter > 0)
        decreases counter
      {
        if dirEntry + 1 >= PTRS {
          lap := VM_PAGES;
        }
        dirEntry := NextDir(dirEntry);
        if dir[dirEntry] != 0 {
          return true, counter, upTo, lap;
        }
        AbsentRefused(View(), dirEntry, start, upTo, lap);
        counter, upTo := counter - PTRS, upTo + PTRS;
        if counter <= 0 {
          return false, counter, upTo, lap;
        }
      }
    }

    /** The repne scasb of get_free_page: the highest frame with count 0. */
    method FindFree() returns (f: nat)
      requires memMap.Length == PAGING_PAGES
      ensures f == FreeBelow(memMap[..], PAGING_PAGES)
    {
      var n := PAGING_PAGES;
      while n > 0 && memMap[n - 1] != 0
        invariant 0 <= n <= PAGING_PAGES && FreeBelow(memMap[..], n) == FreeBelow(memMap[..], PAGING_PAGES)
      {
        n := n - 1;
      }
      f := if n == 0 then 0 else LOW + n - 1;
    }

    /** get_free_page: evict until some frame is free. `mid` is memory after the evictions; each one removes a present
        page, so the retry loop ends. */
    method GetFreePage() returns (f: nat, ghost mid: Mem)
      requires Valid()
      modifies this, memMap, tab, page, free
      ensures Valid() && Reclaimed(old(View()), mid) && f == FreeFrame(mid)
      ensures View() == if f == 0 then mid else Take(mid, f)
      ensures f != 0 ==> LOW <= f < FRAMES && f in kernel && tab[f] == EmptyTable()
      ensures f == 0 ==> OutOfFrames(mid)
      ensures old(FreeFrame(View())) != 0 ==> mid == old(View())
    {
      hide Reclaimed, OutOfFrames, TablesApart, Reserved, MappedApart, Accounting, Isolated, SlotsApart;
      ghost var s := View();
      mid := s;
      ReclaimedNothing(s);
      f := FindFree();
      while f == 0
        invariant Valid() && View() == mid && Reclaimed(s, mid) && f == FreeFrame(mid)
        invariant FreeFrame(s) != 0 ==> mid == s
        decreases PresentPages(mid), f == 0
      {
        var r := MakeRoom(s);
        if !r {
          return;
        }
        mid := View();
        f := FindFree();
      }
      assert CountAt(mid, f) == 0;
      TakeFrame(f);
    }

    /** One call of swap_out, as get_free_page looks at it. */
    method MakeRoom(ghost s: Mem) returns (r: bool)
      requires Valid() && Reclaimed(s, View())
      modifies this, memMap, tab, page, free
      ensures Valid()
      ensures r ==> Reclaimed(s, View()) && PresentPages(View()) < PresentPages(old(View()))
      ensures !r ==> View() == old(View()) && (FreeFrame(View()) == 0 ==> OutOfFrames(View()))
    {
      ghost var s1, d0, p0, d, i := View(), dirEntry, pageEntry, 0, 0;
      r, d, i := SwapOut();
      if r {
        EvictReclaims(s1, d, i);
        EvictShrinks(s1, d, i);
        ReclaimedTrans(s, s1, View());
      } else {
        assert AllTried(s1, d0, p0);
      }
    }

    /** movb $1,1(%edi), and rep stosl over the frame. */
    method TakeFrame(f: nat)
      requires Valid() && LOW <= f < FRAMES && CountAt(View(), f) == 0
      modifies this`kernel, memMap, tab, page
      ensures Valid() && View() == Take(old(View()), f)
    {
      ghost var s := View();
      TakeKeepsInv(s, f);
      memMap[f - LOW] := 1;
      tab[f] := EmptyTable();
      page[f] := ZERO_PAGE;
      kernel := kernel + {f};
      assert memMap[..] == Take(s, f).cnt && tab[..] == Take(s, f).tab && page[..] == Take(s, f).page;
    }

    /** free_page_tables: drop every page of `n` directories, then their tables. */
    method FreePageTables(d0: nat, n: nat)
      requires Valid() && FIRST_DIR <= d0 && d0 + n <= PTRS
      modifies memMap, dir, tab
      ensures Valid() && forall x :: d0 <= x < d0 + n ==> dir[x] == 0
      ensures OthersKept(old(View()), View(), d0, n)
    {
      ghost var s := View();
      var k := 0;
      while k < n
        invariant k <= n && Valid() && OthersKept(s, View(), d0, k)
        invariant forall x :: d0 <= x < d0 + k ==> dir[x] == 0
      {
        if dir[d0 + k] != 0 {
          FreeTable(d0 + k);
        }
        k := k + 1;
      }
    }

    method FreeTable(d: nat)
      requires Valid() && IsUser(d) && dir[d] != 0
      modifies memMap, dir, tab
      ensures Valid() && dir[..] == old(dir[..])[d := 0]
      ensures OthersKept(old(View()), View(), d, 1)
    {
      ghost var s := View();
      var nr := 0;
      while nr < PTRS
        invariant nr <= PTRS && Valid() && dir[..] == s.dir && page[..] == s.page
        invariant forall x: nat, j: nat :: IsUser(x) && j < PTRS ==>
          At(View(), x, j) == if x == d && j < nr then Empty else At(s, x, j)
      {
        DropEntryAt(View(), d, nr);
        FreeEntry(d, nr);
        nr := nr + 1;
      }
      ghost var s2 := View();
      DropTableKeepsInv(s2, d);
      FreePage(dir[d]);
      dir[d] := 0;
      assert dir[..] == DropTable(s2, d).dir;
      assert View() == DropTable(s2, d);
    }

    /** The body of the inner loop of free_page_tables. */
    method FreeEntry(d: nat, nr: nat)
      requires Valid() && InTable(View(), d, nr)
      modifies memMap, tab
      ensures Valid() && View() == DropEntry(old(View()), d, nr)
    {
      ghost var s := View();
      DropEntryKeepsInv(s, d, nr);
      var e := tab[dir[d]][nr];
      assert e.Present? ==> Maps(s, d, nr, e.frame);
      if e.Present? {
        FreePage(e.frame);
      }
      SetWord(d, nr, Empty);
      assert View() == DropEntry(s, d, nr);
    }

    /** put_page: map a frame the caller holds, allocating the page table if need be; 0 exactly when no frame can be had
        for it. */
    method PutPage(f: nat, d: nat, i: nat) returns (r: nat)
      requires Valid() && IsUser(d) && i < PTRS && f in kernel
      modifies this, memMap, dir, tab, page, free
      ensures Valid()
      ensures r == 0 ==> Reclaimed(old(View()), View()) && OutOfFrames(View()) && old(dir[d]) == 0 && dir[d] == 0
      ensures old(dir[d] != 0 || FreeFrame(View()) != 0) ==> r != 0
      ensures r != 0 ==> r == f && Installed(old(View()), View(), d, i, f)
    {
      ghost var s := View();
      if dir[d] == 0 {
        var tmp;
        ghost var mid;
        tmp, mid := GetFreePage();
        if tmp == 0 {
          return 0;
        }
        TableForPage(s, mid, f, tmp, d, i);
        EnterTable(d, tmp);
      }
      ghost var s1 := View();
      MapFrame(f, d, i);
      InstalledAfter(s, s1, View(), d, i, f);
      return f;
    }

    /** page_table[...] = page | 7 */
    method MapFrame(f: nat, d: nat, i: nat)
      requires Valid() && InTable(View(), d, i) && f in kernel
      modifies this`kernel, tab
      ensures Valid() && View() == MapPage(old(View()), d, i, f) && Installed(old(View()), View(), d, i, f)
    {
      ghost var s := View();
      MapSeen(s, d, i, f);
      SetWord(d, i, Present(f, true, false));
      kernel := kernel - {f};
      assert View() == MapPage(s, d, i, f);
    }

    /** *page_table = tmp | 7 */
    method EnterTable(d: nat, f: nat)
      requires Valid() && IsUser(d) && dir[d] == 0 && f in kernel && tab[f] == EmptyTable()
      modifies this`kernel, dir
      ensures Valid() && View() == GiveTable(old(View()), d, f)
    {
      ghost var s := View();
      GiveTableKeepsInv(s, d, f);
      assert Pageable(s, f);
      dir[d] := f;
      kernel := kernel - {f};
      assert dir[..] == GiveTable(s, d, f).dir;
    }

    /** get_empty_page: map a cleared page; when it cannot be mapped the frame is given back. `done` is whether it was
        mapped, which it is unless frames run out; `mid` is memory after the last eviction, `f` the page's frame. */
    method GetEmptyPage(d: nat, i: nat) returns (ghost done: bool, ghost mid: Mem, ghost f: nat)
      requires Valid() && IsUser(d) && i < PTRS
      modifies this, memMap, dir, tab, page, free
      ensures Valid() && SeenLessBut(old(View()), View(), d, i)
      ensures done ==> ViewAt(View(), d, i) == Shows(ZERO_PAGE) && Writable(View(), d, i)
      ensures !done ==> NothingMapped(old(View()), mid, View(), d, f)
      ensures !done && old(ViewAt(View(), d, i)) == Absent ==> ViewAt(View(), d, i) == Absent
      ensures old(FramesFor(View(), d)) ==> done
    {
      ghost var s := View();
      var tmp;
      tmp, mid := GetFreePage();
      f := tmp;
      if tmp == 0 {
        return false, mid, f;
      }
      ghost var s1 := View();
      TakenSeenLess(s, mid, tmp, d, i);
      TakenStaysAbsent(s, mid, tmp, d, i);
      var r := PutPage(tmp, d, i);
      mid := View();
      EmptyPageMapped(s, s1, View(), d, i, tmp, r);
      done := r != 0;
      if r == 0 {
        HeldFreed(s, View(), d, i, tmp);
        FreeHeld(tmp);
      }
    }

    /** free_page of a frame the kernel holds. */
    method FreeHeld(f: nat)
      requires Valid() && f in kernel
      modifies this`kernel, memMap
      ensures Valid() && View() == KernelPut(old(View()), f)
    {
      ghost var s := View();
      KernelPutKeepsInv(s, f);
      assert Pageable(s, f);
      FreePage(f);
      kernel := kernel - {f};
      assert View() == KernelPut(s, f);
    }

    /** un_wp_page. With a free frame at hand this is exactly `WriteFault`; otherwise it copies after evicting, or, when
        that yields no frame either, maps frame 0 and copies over the page directory. */
    method UnWpPage(d: nat, i: nat) returns (r: Outcome, ghost mid: Mem)
      requires Valid() && InTable(View(), d, i) && At(View(), d, i).Present?
      modifies this, memMap, tab, page, free
      ensures r == Done || r == DirectoryLost
      ensures FaultOutcome(old(View()), mid, View(), d, i, r == Done)
      ensures r == Done ==> Valid() && Writable(View(), d, i) && SeenLessBut(old(View()), View(), d, i)
    {
      ghost var s := View();
      mid := s;
      var e := tab[dir[d]][i];
      assert Maps(s, d, i, e.frame);
      if e.frame >= LOW && memMap[e.frame - LOW] == 1 {
        WriteFaultAlone(s, d, i);
        SetWord(d, i, e.(rw := true));
        return Done, mid;
      }
      r, mid := UnWpShared(d, i, e);
    }

    /** un_wp_page from the call of get_free_page on. */
    method UnWpShared(d: nat, i: nat, e: Entry) returns (r: Outcome, ghost mid: Mem)
      requires Valid() && InTable(View(), d, i) && e == At(View(), d, i) && e.Present? && e.frame < high
      requires !SoleUser(View(), e.frame)
      modifies this, memMap, tab, page, free
      ensures r == Done || r == DirectoryLost
      ensures FaultOutcome(old(View()), mid, View(), d, i, r == Done)
      ensures r == Done ==> Valid() && Writable(View(), d, i) && SeenLessBut(old(View()), View(), d, i)
    {
      hide Anchored, OutOfFrames, Accounting, Isolated, SlotsApart;
      ghost var s := View();
      var f;
      f, mid := GetFreePage();
      assert mid.dir == s.dir && mid.page == s.page && mid.high == s.high;
      hide Reclaimed;
      if f == 0 {
        LoseDirectory(d, i, e);
        return DirectoryLost, mid;
      }
      TakenSeenLess(s, mid, f, d, i);
      if Anchored(s, e.frame) {
        AnchoredInUse(s, mid, e.frame);
      }
      CopyPage(d, i, e.frame, f, s);
      return Done, mid;
    }

    /** The lines after a frame was found: map the copy, then copy. */
    method CopyPage(d: nat, i: nat, oldFrame: nat, f: nat, ghost s: Mem)
      requires Valid() && InTable(View(), d, i) && f in kernel && oldFrame < FRAMES && SeenLessBut(s, View(), d, i)
      modifies this`kernel, tab, page
      ensures Valid() && Writable(View(), d, i) && SeenLessBut(s, View(), d, i)
      ensures View() == MapPage(old(View()), d, i, f).(page := old(page[..])[f := old(page[oldFrame])])
      ensures ViewAt(View(), d, i) == Shows(old(page[oldFrame]))
    {
      ghost var s1 := View();
      assert Pageable(s1, f);
      MapFrame(f, d, i);
      ghost var s2 := View();
      FillsOnly(s, s1, s2, d, i, f, page[oldFrame]);
      page[f] := page[oldFrame];
      assert page[..] == s2.page[f := s2.page[oldFrame]];
    }

    /** un_wp_page with no frame: the commented-out oom() leaves the lowering of the count under the failed test. */
    method LoseDirectory(d: nat, i: nat, e: Entry)
      requires Valid() && InTable(View(), d, i) && e.Present? && e.frame < high && FreeFrame(View()) == 0
      modifies memMap, tab, page
      ensures e.frame >= LOW ==> CountAt(old(View()), e.frame) > 0
      ensures View() == DirectoryCopiedOver(old(View()), d, i, e)
    {
      ghost var s := View();
      if e.frame >= LOW {
        memMap[e.frame - LOW] := memMap[e.frame - LOW] - 1;
      }
      SetWord(d, i, Present(0, true, false));
      page[0] := page[e.frame];
      assert page[..] == s.page[0 := s.page[e.frame]];
    }

    /** write_verify: give the kernel a writable page before it stores through a user address. */
    method WriteVerify(d: nat, i: nat) returns (r: Outcome, ghost mid: Mem)
      requires Valid() && IsUser(d) && i < PTRS
      modifies this, memMap, tab, page, free
      ensures r == Done || r == DirectoryLost
      ensures r == Done ==> Valid() && SeenLessBut(old(View()), View(), d, i)
      ensures r == Done && old(At(View(), d, i)).Present? ==> Writable(View(), d, i)
      ensures if old(At(View(), d, i).Present? && !Writable(View(), d, i))
        then FaultOutcome(old(View()), mid, View(), d, i, r == Done)
        else r == Done && View() == old(View())
      ensures old(At(View(), d, i).Present? && Untroubled(View(), d, i)) ==>
        r == Done && ViewAt(View(), d, i) == old(ViewAt(View(), d, i))
    {
      mid := View();
      if dir[d] == 0 {
        return Done, mid;
      }
      var e := tab[dir[d]][i];
      if e.Present? && !e.rw {
        ghost var s := View();
        if Untroubled(s, d, i) {
          UntroubledSeen(s, d, i);
        }
        r, mid := UnWpPage(d, i);
        return;
      }
      return Done, mid;
    }

    /** swap_in. With a frame found this is `SwapIn` on what eviction left; without one, the swapped page, `swapped`, is
        read over frame 0, the page directory, and that frame is mapped. */
    method SwapInPage(d: nat, i: nat, swapped: Page) returns (r: Outcome, ghost mid: Mem)
      requires Valid() && swapOn && InTable(View(), d, i) && At(View(), d, i).Swapped?
      modifies this, memMap, tab, page, free
      ensures r == Done || r == DirectoryLost
      ensures Reclaimed(old(View()), mid) && At(mid, d, i) == old(At(View(), d, i))
      ensures (r == Done <==> FreeFrame(mid) != 0)
      ensures old(FreeFrame(View())) != 0 ==> mid == old(View())
      ensures r == DirectoryLost ==> OutOfFrames(mid) && old(At(View(), d, i).slot) < SWAP_SLOTS
      ensures r == Done ==> Valid() && View() == SwapIn(mid, d, i, FreeFrame(mid))
      ensures r == Done ==> ViewAt(View(), d, i) == Shows(ZERO_PAGE) && SeenLessBut(old(View()), View(), d, i)
      ensures r == DirectoryLost ==> View() == SetEntry(mid, d, i, Present(0, true, true))
        .(free := mid.free[old(At(View(), d, i).slot) := true], page := mid.page[0 := swapped])
    {
      ghost var s := View();
      var nr := tab[dir[d]][i].slot;
      var f;
      f, mid := GetFreePage();
      if f == 0 {
        SwapOver(d, i, nr, swapped);
        return DirectoryLost, mid;
      }
      SwappedBack(s, mid, d, i, f);
      FinishSwapIn(d, i, f, nr, mid);
      return Done, mid;
    }

    /** swap_in without a frame. */
    method SwapOver(d: nat, i: nat, nr: nat, swapped: Page)
      requires Valid() && InTable(View(), d, i) && At(View(), d, i) == Swapped(nr)
      modifies tab, page, free
      ensures nr < SWAP_SLOTS
      ensures View() == SetEntry(old(View()), d, i, Present(0, true, true))
        .(free := old(free[..])[nr := true], page := old(page[..])[0 := swapped])
    {
      page[0] := swapped;
      free[nr] := true;
      SetWord(d, i, Present(0, true, true));
      assert page[..] == old(page[..])[0 := swapped] && free[..] == old(free[..])[nr := true];
    }

    method FinishSwapIn(d: nat, i: nat, f: nat, nr: nat, ghost mid: Mem)
      requires Inv(mid) && InTable(mid, d, i) && At(mid, d, i) == Swapped(nr) && nr < SWAP_SLOTS
      requires Valid() && f == FreeFrame(mid) && f != 0 && View() == Take(mid, f) && Inv(SwapIn(mid, d, i, f))
      modifies this`kernel, tab, free
      ensures Valid() && View() == SwapIn(mid, d, i, f)
    {
      free[nr] := true;
      SetWord(d, i, Present(f, true, true));
      kernel := kernel - {f};
      assert free[..] == mid.free[nr := true];
      FreeFrameUnused(mid, f);
      assert mid.kernel + {f} - {f} == mid.kernel;
      assert View() == SwapIn(mid, d, i, f);
    }

    /** The body of the inner loop of copy_page_tables; true when the count of the shared frame wrapped. */
    method CopyOne(fd: nat, td: nat, i: nat) returns (wrapped: bool)
      requires Valid() && CopyReady(View(), fd, i, td, i) && dir[fd] != 0
      modifies memMap, tab
      ensures View() == CopyEntry(old(View()), fd, i, td, i)
      ensures wrapped == old(Wraps(View(), fd, i))
    {
      ghost var s := View();
      var e := tab[dir[fd]][i];
      if !e.Present? {
        return false;
      }
      SourceFrame(s, fd, i, td);
      var w := WriteProtect(e);
      SetWord(td, i, w);
      if e.frame < LOW {
        return false;
      }
      SetWord(fd, i, w);
      wrapped := CountOnceMore(e.frame);
    }

    /** mem_map[...]++ on an unsigned char; true when it wraps. */
    method CountOnceMore(f: nat) returns (wrapped: bool)
      requires Shape(View()) && LOW <= f < FRAMES
      modifies memMap
      ensures View() == Bump(old(View()), f) && wrapped == (CountAt(old(View()), f) == BYTE - 1)
    {
      memMap[f - LOW] := (memMap[f - LOW] + 1) % BYTE;
      assert memMap[..] == Bump(old(View()), f).cnt;
      return memMap[f - LOW] == 0;
    }

    /** The inner loop of copy_page_tables, over the first `nr` entries of a table, up to one whose frame's count
        wraps. */
    method CopyEntries(fd: nat, td: nat, nr: nat, ghost hi: nat, ghost room: bool)
      returns (wrapped: bool, ghost mid: Mem, ghost at: nat)
      requires Valid() && TableReady(View(), fd, td, nr) && dir[fd] != 0 && (room ==> MayFork(View(), fd, td, 0, hi))
      modifies memMap, tab
      ensures at <= nr && TableCopied(old(View()), View(), fd, td, at)
      ensures !wrapped ==> Valid() && at == nr && (room ==> MayFork(View(), fd, td, nr, hi))
      ensures wrapped ==> !room && at > 0 && CountOver(mid, View(), fd, td, at - 1)
    {
      hide TableCopied, MayFork, CountOver, MappedApart, Accounting, Isolated, SlotsApart;
      ghost var s := View();
      NothingCopied(s, fd, td, nr);
      var i := 0;
      while i < nr
        invariant i <= nr && Valid() && TableCopied(s, View(), fd, td, i) && dir[fd] != 0
        invariant room ==> MayFork(View(), fd, td, i, hi)
      {
        mid := View();
        wrapped := CopyEntryAfter(fd, td, nr, i, hi, room, s);
        i := i + 1;
        if wrapped {
          return wrapped, mid, i;
        }
      }
      return false, s, i;
    }

    method CopyEntryAfter(fd: nat, td: nat, nr: nat, i: nat, ghost hi: nat, ghost room: bool, ghost s: Mem)
      returns (wrapped: bool)
      requires Valid() && i < nr && TableReady(s, fd, td, nr) && TableCopied(s, View(), fd, td, i) && dir[fd] != 0
      requires room ==> MayFork(View(), fd, td, i, hi)
      modifies memMap, tab
      ensures TableCopied(s, View(), fd, td, i + 1) && dir[fd] != 0
      ensures !wrapped ==> Valid() && (room ==> MayFork(View(), fd, td, i + 1, hi))
      ensures wrapped ==> !room && CountOver(old(View()), View(), fd, td, i)
    {
      ghost var mid := View();
      CopyEntryKeepsInv(mid, fd, i, td, i);
      if room {
        RoomCopied(mid, fd, i, td, hi);
      }
      OneMoreCopied(s, mid, fd, td, i);
      wrapped := CopyOne(fd, td, i);
    }

    /** copy_page_tables over `n` directories. `calm` says that every page table was allocated without evicting
        anything. If not, a page evicted on the way may be missing in the child, but no dirty one that the parent still
        has. It ends early only when frames run out, or when a count wraps, which it does not if there was room in all
        counts. */
    method CopyPageTables(fd: nat, td: nat, n: nat) returns (r: Outcome, ghost calm: bool, ghost stop: Stop)
      requires Valid() && RangesReady(View(), fd, td, n)
      modifies this, memMap, dir, tab, page, free
      ensures r == Done || r == OutOfMemory || r == CountWrapped
      ensures Forked(old(View()), View(), fd, td, n) && (r != CountWrapped ==> Valid())
      ensures WordsForked(old(View()), View(), fd, td, n) && (r == Done ==> Protected(View(), fd, n))
      ensures r == Done ==> DirtyShared(View(), fd, td, n)
      ensures r == Done && calm ==> ForkedFully(old(View()), View(), fd, td, n)
      ensures r == OutOfMemory ==> OutOfFrames(View())
      ensures r == CountWrapped ==> WrappedAt(stop, View(), fd, td, n)
      ensures old(RoomFor(View(), fd, 0, fd + n)) ==> r != CountWrapped
    {
      ForkedNothing(View(), fd, td);
      WordsOfNothing(View(), fd, td);
      r, calm, stop := CopyTables(fd, td, n, RoomFor(View(), fd, 0, fd + n));
    }

    /** Its outer loop. */
    method CopyTables(fd: nat, td: nat, n: nat, ghost room: bool)
      returns (r: Outcome, ghost calm: bool, ghost stop: Stop)
      requires Valid() && Forking(View(), View(), fd, td, 0, n, true, room)
      modifies this, memMap, dir, tab, page, free
      ensures r == Done ==> Forking(old(View()), View(), fd, td, n, n, calm, room)
      ensures r != Done ==> ForkEnded(old(View()), View(), fd, td, n, r, stop, room)
      ensures r != CountWrapped ==> Valid()
    {
      hide Forking, ForkEnded, TableDone, Inv;
      ghost var s := View();
      calm, stop := true, Stop(s, 0, 0);
      var k := 0;
      while k < n
        invariant k <= n && Valid() && Forking(s, View(), fd, td, k, n, calm, room)
      {
        ghost var s1, quiet, mid, at := View(), calm, s, 0;
        NextTableWanted(s, s1, fd, td, k, n, calm, room);
        r, quiet, mid, at := CopyTable(fd + k, td + k, fd + n, room);
        if r != Done {
          TableNotDone(s, s1, View(), fd, td, k, n, calm, quiet, r, mid, at, room);
          stop := Stop(mid, k, at);
          return;
        }
        TableAdded(s, s1, View(), fd, td, k, n, calm, quiet, mid, at, room);
        calm, k := calm && quiet, k + 1;
      }
      r := Done;
    }

    /** The outer step of copy_page_tables. */
    method CopyTable(fd: nat, td: nat, ghost hi: nat, ghost room: bool)
      returns (r: Outcome, ghost calm: bool, ghost mid: Mem, ghost at: nat)
      requires Valid() && TableWanted(View(), fd, td) && (room ==> MayFork(View(), fd, td, 0, hi))
      modifies this, memMap, dir, tab, page, free
      ensures TableDone(old(View()), View(), fd, td, hi, calm, r, mid, at, room)
      ensures r != CountWrapped ==> Valid()
    {
      ghost var s := View();
      if dir[fd] == 0 {
        if room { RoomInNext(s, fd, 0, hi); }
        WordsSkipped(s, fd, td);
        return Done, true, s, 0;
      }
      var f;
      ghost var evicted;
      f, evicted := NewTable(fd, td);
      calm := evicted == s;
      if f == 0 {
        NoTableStopped(s, evicted, fd, td);
        WordsReclaimed(s, evicted, fd, td);
        return OutOfMemory, calm, s, 0;
      }
      r, mid, at := FillTable(fd, td, hi, room, s, evicted, f);
    }

    /** The fresh table of a child is filled. */
    method FillTable(fd: nat, td: nat, ghost hi: nat, ghost room: bool, ghost s: Mem, ghost evicted: Mem, ghost f: nat)
      returns (r: Outcome, ghost mid: Mem, ghost at: nat)
      requires Inv(s) && TableWanted(s, fd, td) && s.dir[fd] != 0 && Reclaimed(s, evicted) && f == FreeFrame(evicted)
      requires f != 0
      requires Valid() && View() == GiveTable(Take(evicted, f), td, f) && TableReady(View(), fd, td, CopiedPages(fd))
      requires room ==> MayFork(s, fd, td, 0, hi)
      modifies memMap, tab
      ensures TableDone(s, View(), fd, td, hi, evicted == s, r, mid, at, room)
      ensures r != CountWrapped ==> Valid()
    {
      hide WordsForked, Protected, RoomFor, TableStopped, TableCopied, CountOver, Forked, ForkedFully, OtherTwinsStay,
        DirtyShared, Accounting,
        Isolated, SlotsApart;
      if room {
        RoomFreshTable(s, evicted, f, td, fd, 0, hi);
      }
      var wrapped;
      wrapped, mid, at := CopyEntries(fd, td, CopiedPages(fd), hi, room);
      WordsOfTable(s, evicted, f, View(), fd, td, at);
      if wrapped {
        TableFilledTo(s, evicted, f, View(), fd, td, at);
        return CountWrapped, mid, at - 1;
      }
      TableForked(s, evicted, f, View(), fd, td);
      if room {
        RoomInNext(View(), fd, CopiedPages(fd), hi);
      }
      return Done, mid, at;
    }

    /** Allocate a page table and enter it in the directory. */
    method NewTable(fd: nat, td: nat) returns (f: nat, ghost mid: Mem)
      requires Valid() && IsUser(td) && dir[td] == 0 && fd != td && (fd == 0 || IsUser(fd)) && dir[fd] != 0
      modifies this, memMap, dir, tab, page, free
      ensures Valid() && Reclaimed(old(View()), mid) && f == FreeFrame(mid)
      ensures old(FreeFrame(View())) != 0 ==> mid == old(View())
      ensures f == 0 ==> View() == mid && OutOfFrames(mid)
      ensures f != 0 ==> View() == GiveTable(Take(mid, f), td, f) && TableReady(View(), fd, td, CopiedPages(fd))
    {
      f, mid := GetFreePage();
      if f != 0 {
        FreshTable(mid, f, td, fd);
        EnterTable(td, f);
      }
    }

    /** copy_mem: copy the parent's tables to the child's; when memory runs out, give back what the child got. */
    method CopyMem(fd: nat, td: nat, n: nat) returns (r: Outcome, ghost calm: bool, ghost stop: Stop)
      requires Valid() && RangesReady(View(), fd, td, n)
      modifies this, memMap, dir, tab, page, free
      ensures r == Done || r == OutOfMemory || r == CountWrapped
      ensures r != OutOfMemory ==> Forked(old(View()), View(), fd, td, n) && WordsForked(old(View()), View(), fd, td, n)
      ensures r == Done ==> Protected(View(), fd, n)
      ensures r == Done ==> Valid() && DirtyShared(View(), fd, td, n)
      ensures r == Done && calm ==> ForkedFully(old(View()), View(), fd, td, n)
      ensures r == OutOfMemory ==> Valid() && Undone(old(View()), View(), td, n)
      ensures r == OutOfMemory ==> OutOfFrames(stop.mid) && Forked(old(View()), stop.mid, fd, td, n)
      ensures r == CountWrapped ==> WrappedAt(stop, View(), fd, td, n)
      ensures old(RoomFor(View(), fd, 0, fd + n)) ==> r != CountWrapped
    {
      ghost var s := View();
      r, calm, stop := CopyPageTables(fd, td, n);
      if r == OutOfMemory {
        stop := Stop(View(), 0, 0);
        FreePageTables(td, n);
        CopyUndone(s, stop.mid, View(), fd, td, n);
      }
    }

    /** try_to_share: map the clean page of a task running the same program. With `shared`, the page shows what the
        other task's did, or that page was evicted on the way. `mid` is memory once there is a page table: the rest is
        then `ShareTail`, in which the count wraps exactly if it was at its limit. Without a frame for the page table,
        frame 0 is taken for it: the word is entered in the page directory, unless there is an entry already. */
    method TryToShare(fd: nat, td: nat, i: nat) returns (shared: bool, r: Outcome, ghost mid: Mem)
      requires Valid() && IsUser(fd) && IsUser(td) && fd != td && i < PTRS && !At(View(), td, i).Present?
      modifies this, memMap, dir, tab, page, free
      ensures r == Done || r == CountWrapped || r == DirectoryLost || r == Panicked
      ensures shared <==> old(Shareable(View(), fd, i)) && r != Panicked
      ensures !shared && r != Panicked ==> r == Done && View() == old(View())
      ensures r == Done ==> Valid()
      ensures r == Done || r == CountWrapped ==> SeenLessBut(old(View()), View(), td, i)
      ensures shared && r != DirectoryLost ==>
        ViewAt(View(), td, i) == old(ViewAt(View(), fd, i)) || ViewAt(View(), td, i) == Absent
      ensures shared && r != DirectoryLost ==>
        SourceKept(old(View()), mid, fd, td, i) && SharedFrom(old(View()), mid, View(), fd, td, i)
      ensures shared && r != DirectoryLost ==>
        (r == CountWrapped <==> CountAt(mid, old(At(View(), fd, i).frame)) == BYTE - 1)
      ensures r == CountWrapped ==> shared && old(CountAt(View(), At(View(), fd, i).frame)) == BYTE - 1
      ensures old(dir[td] != 0 || FreeFrame(View()) != 0) ==> r == Done || r == CountWrapped
      ensures r == DirectoryLost || r == Panicked ==>
        Reclaimed(old(View()), mid) && OutOfFrames(mid) && old(dir[td]) == 0
      ensures r == DirectoryLost ==> mid.dir[i] == 0 && LOW <= old(At(View(), fd, i)).frame < FRAMES
      ensures r == DirectoryLost ==> View() == DirectoryEntered(mid, fd, i, old(At(View(), fd, i).frame))
      ensures r == Panicked ==> mid.dir[i] != 0 && View() == mid
    {
      ghost var s := View();
      mid := s;
      if dir[fd] == 0 {
        return false, Done, mid;
      }
      var e := tab[dir[fd]][i];
      if !e.Present? || e.dirty || e.frame >= high || e.frame < LOW {
        return false, Done, mid;
      }
      if dir[td] == 0 {
        var f;
        f, mid := NewTable(fd, td);
        if f == 0 {
          if dir[i] != 0 {
            return false, Panicked, mid;
          }
          EnterDirectory(fd, i, e.frame);
          return true, DirectoryLost, mid;
        }
        SourceAfter(s, mid, f, fd, td, i);
        mid := View();
      }
      r := ShareWith(fd, td, i, e.frame, s);
      return true, r, mid;
    }

    method EnterDirectory(fd: nat, i: nat, f: nat)
      requires Shape(View()) && fd < PTRS && i < PTRS && LOW <= f < FRAMES && memMap != dir
      modifies memMap, dir, tab
      ensures View() == DirectoryEntered(old(View()), fd, i, f)
    {
      ghost var s := View();
      var w := WriteProtect(if dir[fd] == 0 then Empty else tab[dir[fd]][i]);
      SetWord(fd, i, w);
      var wrapped := CountOnceMore(f);
      dir[i] := if w.Present? then w.frame else 0;
      assert dir[..] == DirectoryEntered(s, fd, i, f).dir;
    }

    /** try_to_share from `share them: write-protect` on. */
    method ShareWith(fd: nat, td: nat, i: nat, f: nat, ghost s: Mem) returns (r: Outcome)
      requires Valid() && SourceKept(s, View(), fd, td, i) && fd != td
      requires At(s, fd, i).Present? && At(s, fd, i).frame == f && LOW <= f < high
      modifies memMap, tab
      ensures View() == ShareTail(old(View()), fd, td, i, f)
      ensures r == if CountAt(old(View()), f) == BYTE - 1 then CountWrapped else Done
      ensures r == Done ==> Valid()
      ensures SeenLessBut(s, View(), td, i)
      ensures ViewAt(View(), td, i) == ViewAt(s, fd, i) || ViewAt(View(), td, i) == Absent
    {
      ghost var s1 := View();
      ShareTailKeepsInv(s1, fd, td, i, f);
      ShareTailSeen(s, s1, fd, td, i, f);
      var w := WriteProtect(tab[dir[fd]][i]);
      SetWord(fd, i, w);
      SetWord(td, i, w);
      var wrapped := CountOnceMore(f);
      return if wrapped then CountWrapped else Done;
    }
  }

}
