/** Page tables, per-frame counts, write-protect sharing and the swap map, as values. */
module Paging {

  const LOW := 256              // frame number of LOW_MEM: frames below are never counted
  const FRAMES := 4096          // 16 MB
  const PAGING_PAGES := FRAMES - LOW
  const USED := 100
  const PTRS := 1024            // entries per table, and tables per directory
  const FIRST_DIR := 16         // FIRST_VM_PAGE >> 10: user space starts here
  const SWAP_SLOTS := 32768
  const BYTE := 256             // mem_map is an array of unsigned char

  type Page = seq<nat>
  const ZERO_PAGE: Page := []   // a cleared page

  /** A page-table word: 0, a present page, or a swap slot shifted left by one. */
  datatype Entry = Empty | Present(frame: nat, rw: bool, dirty: bool) | Swapped(slot: nat)

  /** Physical memory and the tables in it. Frame `f` is read as a table through `tab[f]` and as data through
      `page[f]`. */
  datatype Mem = Mem(
    high: nat,                  // HIGH_MEMORY, as a frame number
    cnt: seq<nat>,              // mem_map
    dir: seq<nat>,              // pg_dir: the table's frame, or 0
    tab: seq<seq<Entry>>,
    page: seq<Page>,
    swapOn: bool,               // swap_bitmap is set up
    free: seq<bool>,            // swap_bitmap: true = slot free
    kernel: set<nat>)           // frames held by the kernel outside any table

  ghost predicate Shape(s: Mem) {
    LOW <= s.high <= FRAMES && |s.cnt| == PAGING_PAGES && |s.dir| == PTRS && |s.tab| == FRAMES && |s.page| == FRAMES &&
    |s.free| == SWAP_SLOTS &&
    (forall f :: 0 <= f < PAGING_PAGES ==> s.cnt[f] < BYTE) &&
    (forall d :: 0 <= d < PTRS ==> s.dir[d] < FRAMES) &&
    (forall f :: 0 <= f < FRAMES ==> |s.tab[f]| == PTRS)
  }

  predicate IsUser(d: int) { FIRST_DIR <= d < PTRS }

  /** The entry for linear page `i` of directory `d`. */
  function At(s: Mem, d: nat, i: nat): Entry
    requires Shape(s) && d < PTRS && i < PTRS
  {
    if s.dir[d] == 0 then Empty else s.tab[s.dir[d]][i]
  }

  ghost predicate Maps(s: Mem, d: nat, i: nat, f: nat)
    requires Shape(s)
  {
    IsUser(d) && i < PTRS && At(s, d, i).Present? && At(s, d, i).frame == f
  }

  /** The user pages that show frame `f`. */
  ghost function Entries(s: Mem, f: nat): set<(nat, nat)>
    requires Shape(s)
  {
    set d: nat, i: nat | d < PTRS && i < PTRS && Maps(s, d, i, f) :: (d, i)
  }

  ghost predicate IsTable(s: Mem, f: nat)
    requires Shape(s)
  {
    exists d :: IsUser(d) && s.dir[d] == f != 0
  }

  /** Present entries, directory entries and kernel holders that name frame `f`. */
  ghost function Count(s: Mem, f: nat): nat
    requires Shape(s)
  {
    |Entries(s, f)| + (if IsTable(s, f) then 1 else 0) + (if f in s.kernel then 1 else 0)
  }

  ghost predicate Pageable(s: Mem, f: nat) { LOW <= f < s.high }

  /** User tables are distinct pageable frames; kernel tables lie in low memory and map low memory in the part that fork
      copies. */
  ghost predicate TablesApart(s: Mem)
    requires Shape(s)
  {
    (forall d :: IsUser(d) && s.dir[d] != 0 ==> Pageable(s, s.dir[d])) &&
    (forall d :: 0 <= d < FIRST_DIR ==> s.dir[d] < LOW) &&
    (forall d, e :: IsUser(d) && IsUser(e) && s.dir[d] == s.dir[e] != 0 ==> d == e) &&
    (forall i: nat :: i < 160 && At(s, 0, i).Present? ==> At(s, 0, i).frame < LOW)
  }

  /** A mapped frame exists, and is neither a table nor held by the kernel. */
  ghost predicate MappedApart(s: Mem)
    requires Shape(s)
  {
    (forall d: nat, i: nat, f: nat :: d < PTRS && i < PTRS && Maps(s, d, i, f) ==>
      f < s.high && !IsTable(s, f) && f !in s.kernel) &&
    (forall f :: f in s.kernel ==> Pageable(s, f) && !IsTable(s, f))
  }

  /** mem_map never undercounts. */
  ghost predicate Accounting(s: Mem)
    requires Shape(s)
  {
    forall f: nat :: LOW <= f < FRAMES ==> Count(s, f) <= s.cnt[f - LOW]
  }

  /** A counted frame that is writable through one entry is mapped by no other. */
  ghost predicate Isolated(s: Mem)
    requires Shape(s)
  {
    forall d: nat, i: nat, e: nat, j: nat ::
      Writable(s, d, i) && At(s, d, i).frame >= LOW && Maps(s, e, j, At(s, d, i).frame) ==> d == e && i == j
  }

  ghost predicate Writable(s: Mem, d: nat, i: nat)
    requires Shape(s)
  {
    IsUser(d) && i < PTRS && At(s, d, i).Present? && At(s, d, i).rw
  }

  /** Every swapped-out entry names a slot of its own that is marked in use. */
  ghost predicate SlotsApart(s: Mem)
    requires Shape(s)
  {
    (forall d: nat, i: nat :: IsUser(d) && i < PTRS && At(s, d, i).Swapped? ==>
      1 <= At(s, d, i).slot < SWAP_SLOTS && !s.free[At(s, d, i).slot]) &&
    (forall d: nat, i: nat, e: nat, j: nat ::
      IsUser(d) && i < PTRS && IsUser(e) && j < PTRS && At(s, d, i).Swapped? && At(s, d, i) == At(s, e, j)
      ==> d == e && i == j)
  }

  /** mem_init marks frames that do not exist as used. */
  ghost predicate Reserved(s: Mem)
    requires Shape(s)
  {
    forall k :: s.high - LOW <= k < PAGING_PAGES ==> s.cnt[k] != 0
  }

  ghost predicate Inv(s: Mem) {
    Shape(s) && Reserved(s) && TablesApart(s) && MappedApart(s) && Accounting(s) && Isolated(s) && SlotsApart(s)
  }

  // ----- Elementary changes

  function SetEntry(s: Mem, d: nat, i: nat, e: Entry): Mem
    requires Shape(s) && d < PTRS && i < PTRS
  {
    s.(tab := s.tab[s.dir[d] := s.tab[s.dir[d]][i := e]])
  }

  function SetCount(s: Mem, f: nat, c: nat): Mem
    requires Shape(s) && LOW <= f < FRAMES
  {
    s.(cnt := s.cnt[f - LOW := c])
  }

  function CountAt(s: Mem, f: nat): nat
    requires Shape(s) && LOW <= f < FRAMES
  {
    s.cnt[f - LOW]
  }

  /** mem_map[...]++ on an unsigned char. */
  function Bump(s: Mem, f: nat): Mem
    requires Shape(s) && LOW <= f < FRAMES
  {
    SetCount(s, f, (CountAt(s, f) + 1) % BYTE)
  }

  /** free_page of a frame with a nonzero count; low memory is ignored. */
  function Lower(s: Mem, f: nat): Mem
    requires Shape(s) && f < FRAMES
  {
    if f < LOW || CountAt(s, f) == 0 then s else SetCount(s, f, CountAt(s, f) - 1)
  }

  function WriteProtect(e: Entry): Entry {
    match e
    case Empty => Empty
    case Present(f, rw, dirty) => Present(f, false, dirty)
    case Swapped(slot) => if slot < 2 then Empty else Swapped(slot - slot % 2)   // clearing bit 1 of slot << 1
  }

  // ----- How an entry update shows

  lemma SetEntryAt(s: Mem, d: nat, i: nat, e: Entry)
    requires Shape(s) && TablesApart(s) && IsUser(d) && s.dir[d] != 0 && i < PTRS
    ensures var s' := SetEntry(s, d, i, e);
            Shape(s') && TablesApart(s') &&
            (forall x: nat, j: nat :: IsUser(x) && j < PTRS ==>
              At(s', x, j) == if x == d && j == i then e else At(s, x, j)) &&
            (forall j: nat :: j < PTRS ==> At(s', 0, j) == At(s, 0, j)) &&
            (forall f: nat :: IsTable(s', f) <==> IsTable(s, f))
  {
    var s' := SetEntry(s, d, i, e);
    forall j: nat | j < PTRS ensures At(s', 0, j) == At(s, 0, j) {
      assert s.dir[0] < LOW <= s.dir[d];
    }
    forall x: nat, j: nat | IsUser(x) && j < PTRS ensures At(s', x, j) == if x == d && j == i then e else At(s, x, j) {
    }
    forall f: nat ensures IsTable(s', f) <==> IsTable(s, f) {
      if x :| IsUser(x) && s.dir[x] == f != 0 {
        assert s'.dir[x] == f;
      }
      if x :| IsUser(x) && s'.dir[x] == f != 0 {
        assert s.dir[x] == f;
      }
    }
  }

  /** Setting one entry adds or removes exactly that page. */
  lemma SetEntryEntries(s: Mem, d: nat, i: nat, e: Entry, f: nat)
    requires Shape(s) && TablesApart(s) && IsUser(d) && s.dir[d] != 0 && i < PTRS
    ensures Shape(SetEntry(s, d, i, e))
    ensures Entries(SetEntry(s, d, i, e), f)
            == if e.Present? && e.frame == f then Entries(s, f) + {(d, i)} else Entries(s, f) - {(d, i)}
  {
    SetEntryAt(s, d, i, e);
    var s' := SetEntry(s, d, i, e);
    forall x: nat, j: nat ensures Maps(s', x, j, f) <==>
      if x == d && j == i then e.Present? && e.frame == f else Maps(s, x, j, f) {
    }
  }

  /** How an entry update shows in the count of a frame. */
  lemma SetEntryCount(s: Mem, d: nat, i: nat, e: Entry, f: nat)
    requires Shape(s) && TablesApart(s) && IsUser(d) && s.dir[d] != 0 && i < PTRS
    ensures Shape(SetEntry(s, d, i, e))
    ensures Count(SetEntry(s, d, i, e), f) == Count(s, f)
              - (if Maps(s, d, i, f) then 1 else 0) + (if e.Present? && e.frame == f then 1 else 0)
  {
    SetEntryAt(s, d, i, e);
    SetEntryEntries(s, d, i, e, f);
    assert Maps(s, d, i, f) <==> (d, i) in Entries(s, f);
  }

  /** Counts and pages do not show in entries. */
  lemma SameEntries(s: Mem, s': Mem, f: nat)
    requires Shape(s) && Shape(s') && s'.dir == s.dir && s'.tab == s.tab
    ensures Entries(s', f) == Entries(s, f) && (IsTable(s', f) <==> IsTable(s, f))
    ensures s'.kernel == s.kernel ==> Count(s', f) == Count(s, f)
  {
    assert forall d: nat, i: nat :: Maps(s', d, i, f) <==> Maps(s, d, i, f);
    assert forall d :: IsUser(d) ==> s'.dir[d] == s.dir[d];
  }

  /** Changing only counts and contents, or dropping kernel holds, touches nothing that is said about entries. */
  lemma SameTables(s: Mem, s': Mem)
    requires Inv(s) && Shape(s') && s'.dir == s.dir && s'.tab == s.tab && s'.high == s.high && s'.free == s.free
    requires s'.kernel <= s.kernel
    ensures TablesApart(s') && MappedApart(s') && Isolated(s') && SlotsApart(s')
    ensures forall g: nat :: Entries(s', g) == Entries(s, g) && (IsTable(s', g) <==> IsTable(s, g))
    ensures s'.kernel == s.kernel ==> forall g: nat :: Count(s', g) == Count(s, g)
  {
    assert forall d: nat, i: nat :: d < PTRS && i < PTRS ==> At(s', d, i) == At(s, d, i);
    forall g: nat ensures Entries(s', g) == Entries(s, g) && (IsTable(s', g) <==> IsTable(s, g)) {
      SameEntries(s, s', g);
    }
    assert forall d: nat, i: nat, g: nat :: Maps(s', d, i, g) <==> Maps(s, d, i, g);
    assert forall d: nat, i: nat :: Writable(s', d, i) <==> Writable(s, d, i);
  }

  // ----- get_free_page and free_page

  /** The scan of get_free_page: the highest frame whose count is 0, below index `n` of mem_map; 0 when there is
      none. */
  function FreeBelow(cnt: seq<nat>, n: nat): (f: nat)
    requires n <= |cnt|
    ensures f != 0 ==> LOW <= f < LOW + n && cnt[f - LOW] == 0
    ensures f == 0 ==> forall k :: 0 <= k < n ==> cnt[k] != 0
    ensures f != 0 ==> forall k :: f - LOW < k < n ==> cnt[k] != 0
  {
    if n == 0 then 0 else if cnt[n - 1] == 0 then LOW + n - 1 else FreeBelow(cnt, n - 1)
  }

  function FreeFrame(s: Mem): nat
    requires Shape(s)
  {
    FreeBelow(s.cnt, PAGING_PAGES)
  }

  function EmptyTable(): (t: seq<Entry>)
    ensures |t| == PTRS && forall i :: 0 <= i < PTRS ==> t[i] == Empty
  {
    seq(PTRS, _ => Empty)
  }

  /** get_free_page found `f`: counted once, cleared, in the kernel's hands. */
  function Take(s: Mem, f: nat): Mem
    requires Shape(s) && LOW <= f < FRAMES
  {
    SetCount(s, f, 1).(tab := s.tab[f := EmptyTable()], page := s.page[f := ZERO_PAGE], kernel := s.kernel + {f})
  }

  /** A frame whose count is 0 is not in use anywhere. */
  lemma FreeFrameUnused(s: Mem, f: nat)
    requires Inv(s) && LOW <= f < FRAMES && CountAt(s, f) == 0
    ensures Pageable(s, f) && !IsTable(s, f) && f !in s.kernel && Count(s, f) == 0
    ensures forall d: nat, i: nat :: !Maps(s, d, i, f)
  {
    assert Count(s, f) <= s.cnt[f - LOW];
    forall d: nat, i: nat ensures !Maps(s, d, i, f) {
      assert (d, i) !in Entries(s, f);
    }
  }

  lemma TakeAt(s: Mem, f: nat)
    requires Inv(s) && LOW <= f < FRAMES && CountAt(s, f) == 0
    ensures var s' := Take(s, f);
            Shape(s') && TablesApart(s') && Reserved(s') && s'.dir == s.dir &&
            (forall d: nat, i: nat :: IsUser(d) && i < PTRS ==> At(s', d, i) == At(s, d, i)) &&
            (forall g: nat :: Entries(s', g) == Entries(s, g) && (IsTable(s', g) <==> IsTable(s, g)))
  {
    FreeFrameUnused(s, f);
    var s' := Take(s, f);
    forall d: nat, i: nat | d < PTRS && i < PTRS && (IsUser(d) || d == 0) ensures At(s', d, i) == At(s, d, i) {
      assert s.dir[d] != f;
    }
    forall g: nat ensures Entries(s', g) == Entries(s, g) && (IsTable(s', g) <==> IsTable(s, g)) {
      assert forall d: nat, i: nat :: Maps(s', d, i, g) <==> Maps(s, d, i, g);
      assert forall d :: IsUser(d) ==> s'.dir[d] == s.dir[d];
    }
  }

  /** get_free_page never hands out a frame in use, and keeps every invariant. */
  lemma TakeKeepsInv(s: Mem, f: nat)
    requires Inv(s) && LOW <= f < FRAMES && CountAt(s, f) == 0
    ensures Inv(Take(s, f))
  {
    FreeFrameUnused(s, f);
    TakeAt(s, f);
    var s' := Take(s, f);
    forall g: nat | LOW <= g < FRAMES ensures Count(s', g) <= s'.cnt[g - LOW] {
      assert Count(s, g) <= s.cnt[g - LOW];
    }
    assert forall d: nat, i: nat, g: nat :: Maps(s', d, i, g) <==> Maps(s, d, i, g);
    assert forall d: nat, i: nat :: Writable(s', d, i) <==> Writable(s, d, i);
  }

  /** free_page of a frame the kernel holds. */
  function KernelPut(s: Mem, f: nat): Mem
    requires Shape(s) && f < FRAMES
  {
    Lower(s, f).(kernel := s.kernel - {f})
  }

  lemma KernelPutKeepsInv(s: Mem, f: nat)
    requires Inv(s) && f in s.kernel
    ensures LOW <= f < FRAMES && CountAt(s, f) > 0
    ensures Inv(KernelPut(s, f))
  {
    assert Pageable(s, f);
    assert Count(s, f) <= s.cnt[f - LOW];
    var s' := KernelPut(s, f);
    SameTables(s, s');
    forall g: nat | LOW <= g < FRAMES ensures Count(s', g) <= s'.cnt[g - LOW] {
      assert Count(s, g) <= s.cnt[g - LOW];
    }
  }

  // ----- Installing tables and pages

  /** *dir = table | 7 */
  function GiveTable(s: Mem, d: nat, f: nat): Mem
    requires Shape(s) && d < PTRS
  {
    s.(dir := s.dir[d := f], kernel := s.kernel - {f})
  }

  lemma GiveTableKeepsInv(s: Mem, d: nat, f: nat)
    requires Inv(s) && IsUser(d) && s.dir[d] == 0 && f in s.kernel && s.tab[f] == EmptyTable()
    ensures Inv(GiveTable(s, d, f))
    ensures forall x: nat, i: nat :: IsUser(x) && i < PTRS ==> At(GiveTable(s, d, f), x, i) == At(s, x, i)
  {
    var s' := GiveTable(s, d, f);
    assert Pageable(s, f);
    forall x: nat, i: nat | i < PTRS && IsUser(x) ensures At(s', x, i) == At(s, x, i) {
    }
    assert forall i: nat :: i < PTRS ==> At(s', 0, i) == At(s, 0, i);
    forall g: nat ensures Entries(s', g) == Entries(s, g) && (IsTable(s', g) <==> IsTable(s, g) || g == f) {
      assert forall x: nat, i: nat :: Maps(s', x, i, g) <==> Maps(s, x, i, g);
      assert s'.dir[d] == f;
      assert forall x :: IsUser(x) && x != d ==> s'.dir[x] == s.dir[x];
      if x :| IsUser(x) && s.dir[x] == g != 0 {
        assert s'.dir[x] == g;
      }
    }
    forall g: nat | LOW <= g < FRAMES ensures Count(s', g) <= s'.cnt[g - LOW] {
      assert Count(s, g) <= s.cnt[g - LOW];
    }
    assert forall x: nat, i: nat, g: nat :: Maps(s', x, i, g) <==> Maps(s, x, i, g);
    assert forall x: nat, i: nat :: Writable(s', x, i) <==> Writable(s, x, i);
  }

  /** put_page of a frame the kernel holds: mapped writable and clean. */
  function MapPage(s: Mem, d: nat, i: nat, f: nat): Mem
    requires Shape(s) && d < PTRS && i < PTRS
  {
    SetEntry(s, d, i, Present(f, true, false)).(kernel := s.kernel - {f})
  }

  lemma MapPageKeepsInv(s: Mem, d: nat, i: nat, f: nat)
    requires Inv(s) && IsUser(d) && s.dir[d] != 0 && i < PTRS && f in s.kernel
    ensures Inv(MapPage(s, d, i, f))
  {
    var e := Present(f, true, false);
    var s1 := SetEntry(s, d, i, e);
    var s' := MapPage(s, d, i, f);
    assert Pageable(s, f);
    SetEntryAt(s, d, i, e);
    forall g: nat ensures Entries(s', g) == Entries(s1, g) && (IsTable(s', g) <==> IsTable(s, g)) {
      SameEntries(s1, s', g);
    }
    assert forall j: nat :: j < PTRS ==> At(s', 0, j) == At(s1, 0, j);
    forall g: nat | LOW <= g < FRAMES ensures Count(s', g) <= s'.cnt[g - LOW] {
      SetEntryCount(s, d, i, e, g);
      assert Count(s, g) <= s.cnt[g - LOW];
    }
    EntryUpdateApart(s, d, i, e, s');
  }

  /** No entry but (d, i) shows frame `f`. */
  ghost predicate OnlyAt(s: Mem, d: nat, i: nat, f: nat)
    requires Shape(s)
  {
    forall x: nat, j: nat :: Maps(s, x, j, f) ==> x == d && j == i
  }

  /** No entry shows frame `f` writable. */
  ghost predicate NowhereWritable(s: Mem, f: nat)
    requires Shape(s)
  {
    forall x: nat, j: nat :: Writable(s, x, j) ==> At(s, x, j).frame != f
  }

  /** No entry but (d, i) names swap slot `k`. */
  ghost predicate SlotOnlyAt(s: Mem, d: nat, i: nat, k: nat)
    requires Shape(s)
  {
    forall x: nat, j: nat :: IsUser(x) && j < PTRS && At(s, x, j) == Swapped(k) ==> x == d && j == i
  }

  /** Entry `e` may stand at (d, i): a present one shows an existing frame that it shares only read-only;
      a swapped one names a slot of its own. */
  ghost predicate Fits(s: Mem, d: nat, i: nat, e: Entry, s': Mem)
    requires Shape(s) && Shape(s')
  {
    match e
    case Empty => true
    case Present(f, rw, dirty) =>
      f < s.high && !IsTable(s, f) && f !in s'.kernel &&
      (f >= LOW ==> OnlyAt(s, d, i, f) || (!rw && NowhereWritable(s, f)))
    case Swapped(k) => 1 <= k < SWAP_SLOTS && !s'.free[k] && SlotOnlyAt(s, d, i, k)
  }

  /** Replacing one entry keeps what is said about pairs of entries, when the new one fits. */
  lemma EntryUpdateApart(s: Mem, d: nat, i: nat, e: Entry, s': Mem)
    requires Inv(s) && IsUser(d) && s.dir[d] != 0 && i < PTRS
    requires Shape(s') && TablesApart(s') && s'.high == s.high && Fits(s, d, i, e, s')
    requires forall x: nat, j: nat :: IsUser(x) && j < PTRS ==>
      At(s', x, j) == if x == d && j == i then e else At(s, x, j)
    requires forall g: nat :: IsTable(s', g) <==> IsTable(s, g)
    requires forall f :: f in s'.kernel ==> Pageable(s, f) && !IsTable(s, f) && OnlyAt(s, d, i, f)
    requires forall k :: 0 <= k < SWAP_SLOTS && s'.free[k] && !s.free[k] ==> SlotOnlyAt(s, d, i, k)
    ensures MappedApart(s') && Isolated(s') && SlotsApart(s')
  {
    forall x: nat, j: nat, g: nat | Maps(s', x, j, g) ensures g < s'.high && !IsTable(s', g) && g !in s'.kernel {
      if x != d || j != i {
        assert Maps(s, x, j, g);
      }
    }
    forall x: nat, j: nat, y: nat, k: nat |
      Writable(s', x, j) && At(s', x, j).frame >= LOW && Maps(s', y, k, At(s', x, j).frame)
      ensures x == y && j == k
    {
      assert (x, j) != (d, i) ==> Writable(s, x, j) && Maps(s, x, j, At(s', x, j).frame);
      assert (y, k) != (d, i) ==> Maps(s, y, k, At(s', x, j).frame);
    }
    forall x: nat, j: nat | IsUser(x) && j < PTRS && At(s', x, j).Swapped?
      ensures 1 <= At(s', x, j).slot < SWAP_SLOTS && !s'.free[At(s', x, j).slot]
    {
      if (x, j) != (d, i) {
        assert At(s, x, j) == Swapped(At(s, x, j).slot);
      }
    }
  }

  // ----- Sharing: fork's copy and try_to_share

  /** The inner step of copy_page_tables: write-protect a present entry in both tables and count the new user.
      Low memory is not counted, and stays as it was in the source table. */
  function CopyEntry(s: Mem, fd: nat, fi: nat, td: nat, ti: nat): Mem
    requires Shape(s) && fd < PTRS && fi < PTRS && td < PTRS && ti < PTRS
  {
    var e := WriteProtect(At(s, fd, fi));
    if !e.Present? then s
    else if e.frame < LOW || e.frame >= FRAMES then SetEntry(s, td, ti, e)
    else Bump(SetEntry(SetEntry(s, td, ti, e), fd, fi, e), e.frame)
  }

  /** The entry shows a frame whose count is at the top of its byte. */
  predicate Wraps(s: Mem, d: nat, i: nat)
    requires Shape(s) && d < PTRS && i < PTRS
  {
    var e := At(s, d, i);
    e.Present? && LOW <= e.frame < FRAMES && CountAt(s, e.frame) == BYTE - 1
  }

  ghost predicate CopyReady(s: Mem, fd: nat, fi: nat, td: nat, ti: nat) {
    Inv(s) && IsUser(td) && s.dir[td] != 0 && ti < PTRS && fi < PTRS && At(s, td, ti) == Empty &&
    ((IsUser(fd) && s.dir[fd] != 0) || (fd == 0 && fi < 160))
  }

  /** Clearing the write bit of an entry keeps every invariant. */
  lemma ProtectKeepsInv(s: Mem, d: nat, i: nat)
    requires Inv(s) && IsUser(d) && s.dir[d] != 0 && i < PTRS && At(s, d, i).Present?
    ensures Inv(SetEntry(s, d, i, WriteProtect(At(s, d, i))))
    ensures At(s, d, i).frame >= LOW ==>
      NowhereWritable(SetEntry(s, d, i, WriteProtect(At(s, d, i))), At(s, d, i).frame)
    ensures forall g: nat :: Count(SetEntry(s, d, i, WriteProtect(At(s, d, i))), g) == Count(s, g)
  {
    var e := WriteProtect(At(s, d, i));
    var s' := SetEntry(s, d, i, e);
    assert Maps(s, d, i, e.frame);
    SetEntryAt(s, d, i, e);
    forall g: nat ensures Count(s', g) == Count(s, g) {
      SetEntryCount(s, d, i, e, g);
    }
    forall x: nat, j: nat | e.frame >= LOW && Writable(s', x, j) ensures At(s', x, j).frame != e.frame {
      assert Writable(s, x, j);
    }
    if e.frame >= LOW && !OnlyAt(s, d, i, e.frame) {
      forall x: nat, j: nat | Writable(s, x, j) ensures At(s, x, j).frame != e.frame {
      }
    }
    EntryUpdateApart(s, d, i, e, s');
  }

  /** A second, read-only view of a frame keeps the invariants exactly when its count does not wrap. */
  lemma AddSharer(s: Mem, d: nat, i: nat, e: Entry)
    requires Inv(s) && IsUser(d) && s.dir[d] != 0 && i < PTRS && !At(s, d, i).Present?
    requires e.Present? && !e.rw && LOW <= e.frame < s.high && !IsTable(s, e.frame) && e.frame !in s.kernel
    requires NowhereWritable(s, e.frame)
    ensures Shape(Bump(SetEntry(s, d, i, e), e.frame))
    ensures Inv(Bump(SetEntry(s, d, i, e), e.frame)) <==> CountAt(s, e.frame) < BYTE - 1
  {
    var f := e.frame;
    var s' := Bump(SetEntry(s, d, i, e), f);
    SharerCounts(s, d, i, e);
    assert Count(s, f) <= s.cnt[f - LOW];
    if CountAt(s, f) < BYTE - 1 {
      forall g: nat | LOW <= g < FRAMES ensures Count(s', g) <= s'.cnt[g - LOW] {
        assert Count(s, g) <= s.cnt[g - LOW];
      }
      EntryUpdateApart(s, d, i, e, s');
    } else {
      assert Count(s', f) > s'.cnt[f - LOW];
    }
  }

  lemma SharerCounts(s: Mem, d: nat, i: nat, e: Entry)
    requires Inv(s) && IsUser(d) && s.dir[d] != 0 && i < PTRS && !At(s, d, i).Present?
    requires e.Present? && LOW <= e.frame < FRAMES
    ensures var s' := Bump(SetEntry(s, d, i, e), e.frame);
            Shape(s') && TablesApart(s') &&
            (forall x: nat, j: nat :: IsUser(x) && j < PTRS ==>
              At(s', x, j) == if x == d && j == i then e else At(s, x, j)) &&
            (forall g: nat :: Count(s', g) == Count(s, g) + (if g == e.frame then 1 else 0)) &&
            (forall g: nat :: IsTable(s', g) <==> IsTable(s, g))
  {
    var s1 := SetEntry(s, d, i, e);
    SetEntryAt(s, d, i, e);
    var s' := Bump(s1, e.frame);
    forall g: nat ensures Count(s', g) == Count(s, g) + (if g == e.frame then 1 else 0)
      ensures IsTable(s', g) <==> IsTable(s, g)
    {
      SetEntryCount(s, d, i, e, g);
      SameEntries(s1, s', g);
    }
    assert forall x: nat, j: nat :: x < PTRS && j < PTRS ==> At(s', x, j) == At(s1, x, j);
  }

  /** Copying an entry in fork keeps every invariant if and only if the count of the shared frame is below 255. */
  lemma CopyEntryKeepsInv(s: Mem, fd: nat, fi: nat, td: nat, ti: nat)
    requires CopyReady(s, fd, fi, td, ti)
    ensures Shape(CopyEntry(s, fd, fi, td, ti))
    ensures Inv(CopyEntry(s, fd, fi, td, ti)) <==> !Wraps(s, fd, fi)
  {
    var e := WriteProtect(At(s, fd, fi));
    if !e.Present? {
    } else if e.frame < LOW {
      CopyLowKeepsInv(s, td, ti, e);
    } else {
      CopyHighKeepsInv(s, fd, fi, td, ti);
    }
  }

  lemma CopyHighKeepsInv(s: Mem, fd: nat, fi: nat, td: nat, ti: nat)
    requires CopyReady(s, fd, fi, td, ti) && At(s, fd, fi).Present? && At(s, fd, fi).frame >= LOW
    ensures Shape(CopyEntry(s, fd, fi, td, ti))
    ensures Inv(CopyEntry(s, fd, fi, td, ti)) <==> !Wraps(s, fd, fi)
  {
    var e := WriteProtect(At(s, fd, fi));
    assert Maps(s, fd, fi, e.frame);
    ProtectKeepsInv(s, fd, fi);
    var s1 := SetEntry(s, fd, fi, e);
    SetEntryAt(s, fd, fi, e);
    assert Maps(s1, fd, fi, e.frame);
    AddSharer(s1, td, ti, e);
    SetTwice(s, td, ti, fd, fi, e);
  }

  lemma SetTwice(s: Mem, d: nat, i: nat, x: nat, j: nat, e: Entry)
    requires Shape(s) && d < PTRS && i < PTRS && x < PTRS && j < PTRS
    ensures Shape(SetEntry(s, d, i, e)) && Shape(SetEntry(s, x, j, e))
    ensures SetEntry(SetEntry(s, d, i, e), x, j, e) == SetEntry(SetEntry(s, x, j, e), d, i, e)
  {
    var a, b := SetEntry(SetEntry(s, d, i, e), x, j, e).tab, SetEntry(SetEntry(s, x, j, e), d, i, e).tab;
    forall k | 0 <= k < FRAMES ensures a[k] == b[k] {
      assert a[k] == b[k];
    }
    assert a == b;
  }

  lemma CopyLowKeepsInv(s: Mem, d: nat, i: nat, e: Entry)
    requires Inv(s) && IsUser(d) && s.dir[d] != 0 && i < PTRS && !At(s, d, i).Present?
    requires e.Present? && e.frame < LOW
    ensures Inv(SetEntry(s, d, i, e))
  {
    var s' := SetEntry(s, d, i, e);
    SetEntryAt(s, d, i, e);
    forall g: nat | LOW <= g < FRAMES ensures Count(s', g) <= s'.cnt[g - LOW] {
      SetEntryCount(s, d, i, e, g);
    }
    assert !IsTable(s, e.frame) && e.frame !in s.kernel;
    EntryUpdateApart(s, d, i, e, s');
  }

  /** The last lines of try_to_share, after a page table was found: whatever the source entry is by now,
      it is write-protected, copied to the absent target, and frame `f`, read before, is counted. If the source's
      table was released meanwhile, the words of its frame have been cleared. */
  function ShareTail(s: Mem, fd: nat, td: nat, i: nat, f: nat): Mem
    requires Shape(s) && fd < PTRS && td < PTRS && i < PTRS && LOW <= f < FRAMES
  {
    var e := WriteProtect(At(s, fd, i));
    Bump(SetEntry(if s.dir[fd] == 0 then s else SetEntry(s, fd, i, e), td, i, e), f)
  }

  /** Whether counting frame `f` once more leaves its count right. */
  ghost predicate MayBump(s: Mem, f: nat)
    requires Shape(s) && LOW <= f < FRAMES
  {
    CountAt(s, f) < BYTE - 1 || Count(s, f) == 0
  }

  /** What the source entry may have become while get_free_page slept: gone, or present with a count that allows
      one more user. If it was swapped out meanwhile, its slot number would be copied. */
  ghost predicate ShareSafe(s: Mem, fd: nat, i: nat, f: nat)
    requires Shape(s) && fd < PTRS && i < PTRS && LOW <= f < FRAMES
  {
    match At(s, fd, i)
    case Empty => MayBump(s, f)
    case Present(g, rw, dirty) => MayBump(s, f) && (g != f && LOW <= g < FRAMES ==> Count(s, g) < CountAt(s, g))
    case Swapped(k) => k < 2 && MayBump(s, f)
  }

  lemma BumpAlone(s: Mem, f: nat)
    requires Inv(s) && LOW <= f < s.high
    ensures Shape(Bump(s, f)) && (Inv(Bump(s, f)) <==> MayBump(s, f))
  {
    var s' := Bump(s, f);
    SameTables(s, s');
    assert Count(s, f) <= s.cnt[f - LOW];
    if MayBump(s, f) {
      forall g: nat | LOW <= g < FRAMES ensures Count(s', g) <= s'.cnt[g - LOW] {
        assert Count(s, g) <= s.cnt[g - LOW];
      }
    } else {
      assert Count(s', f) > s'.cnt[f - LOW];
    }
  }

  lemma ShareTailCase(s: Mem, fd: nat, td: nat, i: nat, f: nat)
    requires Inv(s) && IsUser(fd) && IsUser(td) && fd != td && s.dir[fd] != 0 && s.dir[td] != 0 && i < PTRS
    requires !At(s, td, i).Present? && LOW <= f < s.high && At(s, fd, i).Present?
    ensures Shape(ShareTail(s, fd, td, i, f))
    ensures Inv(ShareTail(s, fd, td, i, f)) <==> ShareSafe(s, fd, i, f)
  {
    var e := WriteProtect(At(s, fd, i));
    var g := e.frame;
    assert Maps(s, fd, i, g);
    ProtectKeepsInv(s, fd, i);
    var s1 := SetEntry(s, fd, i, e);
    SetEntryAt(s, fd, i, e);
    assert Maps(s1, fd, i, g);
    if g < LOW {
      CopyLowKeepsInv(s1, td, i, e);
      var s2 := SetEntry(s1, td, i, e);
      SetEntryCount(s1, td, i, e, f);
      BumpAlone(s2, f);
    } else if g == f {
      AddSharer(s1, td, i, e);
      assert (fd, i) in Entries(s, f);
    } else {
      ShareOther(s1, fd, td, i, f, e);
    }
  }

  /** The entry now shows another frame than the one about to be counted. */
  lemma ShareOther(s: Mem, fd: nat, td: nat, i: nat, f: nat, e: Entry)
    requires Inv(s) && IsUser(fd) && IsUser(td) && fd != td && s.dir[fd] != 0 && s.dir[td] != 0 && i < PTRS
    requires !At(s, td, i).Present? && LOW <= f < s.high && At(s, fd, i) == e && e.Present? && !e.rw
    requires LOW <= e.frame && e.frame != f && NowhereWritable(s, e.frame)
    ensures Shape(Bump(SetEntry(s, td, i, e), f)) && e.frame < FRAMES
    ensures Inv(Bump(SetEntry(s, td, i, e), f)) <==> MayBump(s, f) && Count(s, e.frame) < CountAt(s, e.frame)
  {
    var g := e.frame;
    assert Maps(s, fd, i, g);
    var s1 := SetEntry(s, td, i, e);
    SetEntryAt(s, td, i, e);
    forall h: nat ensures Count(s1, h) == Count(s, h) + (if h == g then 1 else 0) {
      SetEntryCount(s, td, i, e, h);
    }
    assert Count(s, g) <= s.cnt[g - LOW];
    if Count(s, g) < CountAt(s, g) {
      forall h: nat | LOW <= h < FRAMES ensures Count(s1, h) <= s1.cnt[h - LOW] {
        assert Count(s, h) <= s.cnt[h - LOW];
      }
      EntryUpdateApart(s, td, i, e, s1);
      BumpAlone(s1, f);
    } else {
      var s2 := Bump(s1, f);
      SameEntries(s1, s2, g);
      assert Count(s2, g) > s2.cnt[g - LOW];
    }
  }

  /** Emptying an entry keeps every invariant. */
  lemma ClearKeepsInv(s: Mem, d: nat, i: nat)
    requires Inv(s) && IsUser(d) && s.dir[d] != 0 && i < PTRS
    ensures Inv(SetEntry(s, d, i, Empty))
    ensures forall g: nat :: Count(SetEntry(s, d, i, Empty), g) == Count(s, g) - (if Maps(s, d, i, g) then 1 else 0)
  {
    var s' := SetEntry(s, d, i, Empty);
    SetEntryAt(s, d, i, Empty);
    forall g: nat ensures Count(s', g) == Count(s, g) - (if Maps(s, d, i, g) then 1 else 0) {
      SetEntryCount(s, d, i, Empty, g);
    }
    forall g: nat | LOW <= g < FRAMES ensures Count(s', g) <= s'.cnt[g - LOW] {
      assert Count(s, g) <= s.cnt[g - LOW];
    }
    EntryUpdateApart(s, d, i, Empty, s');
  }

  /** The tail of try_to_share keeps every invariant if and only if the entry it finds is safe to share. */
  lemma ShareTailKeepsInv(s: Mem, fd: nat, td: nat, i: nat, f: nat)
    requires Inv(s) && IsUser(fd) && IsUser(td) && fd != td && s.dir[td] != 0 && i < PTRS
    requires !At(s, td, i).Present? && LOW <= f < s.high
    ensures Shape(ShareTail(s, fd, td, i, f))
    ensures Inv(ShareTail(s, fd, td, i, f)) <==> ShareSafe(s, fd, i, f)
  {
    var e := WriteProtect(At(s, fd, i));
    if At(s, fd, i).Present? {
      ShareTailCase(s, fd, td, i, f);
    } else if e == Empty {
      ShareNothing(s, fd, td, i, f);
    } else {
      SlotCopied(s, fd, td, i, f);
    }
  }

  lemma ShareNothing(s: Mem, fd: nat, td: nat, i: nat, f: nat)
    requires Inv(s) && IsUser(fd) && IsUser(td) && fd != td && s.dir[td] != 0 && i < PTRS
    requires !At(s, td, i).Present? && LOW <= f < s.high && WriteProtect(At(s, fd, i)) == Empty
    ensures Shape(ShareTail(s, fd, td, i, f))
    ensures Inv(ShareTail(s, fd, td, i, f)) <==> MayBump(s, f)
  {
    var s1 := if s.dir[fd] == 0 then s else SetEntry(s, fd, i, Empty);
    if s.dir[fd] != 0 {
      ClearKeepsInv(s, fd, i);
      SetEntryAt(s, fd, i, Empty);
    }
    ClearKeepsInv(s1, td, i);
    var s2 := SetEntry(s1, td, i, Empty);
    assert !Maps(s, fd, i, f) && !Maps(s1, td, i, f);
    assert Count(s2, f) == Count(s1, f) == Count(s, f);
    BumpAlone(s2, f);
  }

  /** A swap slot number copied by try_to_share names one slot from two entries. */
  lemma SlotCopied(s: Mem, fd: nat, td: nat, i: nat, f: nat)
    requires Inv(s) && IsUser(fd) && IsUser(td) && fd != td && s.dir[fd] != 0 && s.dir[td] != 0 && i < PTRS
    requires LOW <= f < s.high && WriteProtect(At(s, fd, i)).Swapped?
    ensures Shape(ShareTail(s, fd, td, i, f)) && !SlotsApart(ShareTail(s, fd, td, i, f))
  {
    var e := WriteProtect(At(s, fd, i));
    var s1 := SetEntry(s, fd, i, e);
    SetEntryAt(s, fd, i, e);
    var s2 := SetEntry(s1, td, i, e);
    SetEntryAt(s1, td, i, e);
    var s3 := Bump(s2, f);
    assert At(s3, fd, i) == At(s2, fd, i) == e && At(s3, td, i) == At(s2, td, i) == e;
  }
}
