/** What the in-core inodes show over whole runs, and the two races that break them. */
module InodeRuns {
  import opened Inodes

  // ----- One step: the exact conditions

  /** What the code takes for granted is exactly what it needs: without it, the very step breaks the table. */
  lemma CarefulIsExact(s: Table, e: Event, s': Table)
    requires Inv(s) && Next(s, e, s')
    ensures Inv(s') <==> Careful(s, e)
  {
    if Careful(s, e) {
      StepKeepsInv(s, e, s');
    } else {
      assert InodeOk(s, e.x);
      if e.Create? {
        var y: nat :| y < |s.tab| && s.tab[y].name == e.name;
        assert s'.tab[y].name == s'.tab[e.x].name;
      } else {
        assert Saved(s'.saves, e.x) && !s'.tab[e.x].lock;
        assert !InodeOk(s', e.x);
      }
    }
  }

  /** Every inode in the table is allocated. */
  ghost predicate AllUsed(s: Table) {
    forall x: nat :: x < |s.tab| && s.tab[x].name.dev != 0 ==> s.tab[x].name in s.used
  }

  /** iget comes with a number that is still allocated, and nobody is just writing back an inode that is freed. */
  ghost predicate Timely(s: Table, e: Event) {
    (e.Miss? ==> e.name in s.used) && (e.Free? && e.x < |s.tab| ==> !s.tab[e.x].lock)
  }

  lemma TimelyKeepsInv(s: Table, e: Event, s': Table)
    requires Inv(s) && AllUsed(s) && Next(s, e, s') && Timely(s, e)
    ensures Careful(s, e) && Inv(s') && AllUsed(s')
  {
    StepKeepsInv(s, e, s');
    if e.Free? {
      assert Unique(s.tab);
    }
  }

  // ----- What is shown

  /** Inode `x` shows `n`: it has the name, and is loaded. */
  ghost predicate Shows(s: Table, x: nat, n: Name) {
    x < |s.tab| && x < |s.who| && s.tab[x].name == n && n.dev != 0 && !IsLoading(s.who[x])
  }

  ghost predicate IsShown(s: Table, n: Name) {
    exists x: nat :: Shows(s, x, n)
  }

  ghost function ShownIn(s: Table, n: Name): (x: nat)
    requires IsShown(s, n)
    ensures Shows(s, x, n)
  {
    var x: nat :| Shows(s, x, n); x
  }

  /** An inode as whoever holds it sees it, or would: the one in the table wins over the one on disk. */
  ghost function ShownAt(s: Table, n: Name): Body {
    if IsShown(s, n) then s.tab[ShownIn(s, n)].body else if n in s.disk then s.disk[n] else BLANK
  }

  ghost function Shown(s: Table): (m: imap<Name, Body>)
    ensures Total(m) && forall n: Name :: m[n] == ShownAt(s, n)
  {
    imap n: Name :: ShownAt(s, n)
  }

  lemma ShownByInode(s: Table, x: nat, n: Name)
    requires Unique(s.tab) && Shows(s, x, n)
    ensures ShownAt(s, n) == s.tab[x].body
  {
    assert Shows(s, ShownIn(s, n), n);
  }

  lemma NotShown(s: Table, n: Name)
    requires Total(s.disk)
    requires forall x: nat :: x < |s.tab| && s.tab[x].name == n ==> x < |s.who| && (n.dev == 0 || IsLoading(s.who[x]))
    ensures ShownAt(s, n) == s.disk[n]
  {
  }

  /** A name that only row `x` could have had, and has not, is shown as before. */
  lemma OthersShow(s: Table, s': Table, x: nat, n: Name)
    requires Unique(s.tab) && Unique(s'.tab) && |s.who| == |s.tab| == |s'.tab| == |s'.who| && x < |s.tab|
    requires forall y: nat :: y < |s.tab| && y != x ==> s'.tab[y] == s.tab[y] && s'.who[y] == s.who[y]
    requires n != s.tab[x].name && n != s'.tab[x].name
    requires Total(s.disk) && Total(s'.disk) && s'.disk[n] == s.disk[n]
    ensures ShownAt(s', n) == ShownAt(s, n)
  {
    if IsShown(s, n) {
      var y := ShownIn(s, n);
      assert Shows(s', y, n);
      ShownByInode(s', y, n);
    } else if IsShown(s', n) {
      assert Shows(s, ShownIn(s', n), n);
    }
  }

  /** What one step does to the inodes as they are shown: holders' own changes, a new inode, and a freed one, which is
      given up to whatever is on disk. */
  ghost function Effect(s: Table, e: Event): imap<Name, Body>
    requires Enabled(s, e) && Total(s.disk)
  {
    match e
    case Change(x, j, b) => Shown(s)[s.tab[x].name := b]
    case Store(x, j, b) => Shown(s)[s.tab[x].name := b]
    case Create(x, j, n, rest) => Shown(s)[n := Body(1, rest)]
    case Free(x, j) => Shown(s)[s.tab[x].name := s.disk[s.tab[x].name]]
    case _ => Shown(s)
  }

  /** Main result, one step: what is shown changes only by the holders' own stores; taking an inode out of the table,
      writing it back and reading it in lose nothing. */
  lemma StepShows(s: Table, e: Event, s': Table)
    requires Inv(s) && Next(s, e, s') && Careful(s, e)
    ensures Inv(s') && Shown(s') == Effect(s, e)
  {
    StepKeepsInv(s, e, s');
    var x := if e.FinishSave? then s.saves[e.i].x else e.x;
    assert InodeOk(s, x) && InodeOk(s', x);
    RowShows(s, e, s', x);
    if e.FinishSave? {
      assert SaveOk(s, s.saves[e.i]);
      OwnPlace(s, s.saves[e.i]);
    }
    forall n: Name | n != s.tab[x].name && n != s'.tab[x].name ensures ShownAt(s', n) == ShownAt(s, n) {
      OthersShow(s, s', x, n);
    }
  }

  /** The same for the name that the inode concerned had, and the one it has. */
  lemma RowShows(s: Table, e: Event, s': Table, x: nat)
    requires Inv(s) && Next(s, e, s') && Careful(s, e) && Inv(s')
    requires x == if e.FinishSave? then s.saves[e.i].x else e.x
    requires x < |s.tab|
    ensures ShownAt(s', s.tab[x].name) == Effect(s, e)[s.tab[x].name]
    ensures ShownAt(s', s'.tab[x].name) == Effect(s, e)[s'.tab[x].name]
  {
    var n, n' := s.tab[x].name, s'.tab[x].name;
    assert InodeOk(s, x) && InodeOk(s', x);
    if e.FinishSave? {
      assert SaveOk(s, s.saves[e.i]);
      OwnPlace(s, s.saves[e.i]);
    }
    if Shows(s, x, n) { ShownByInode(s, x, n); } else { NotShown(s, n); }
    if Shows(s', x, n') { ShownByInode(s', x, n'); } else { NotShown(s', n'); }
    if n' != n {
      NotShown(s', n);
      NotShown(s, n');
    }
  }

  // ----- Whole runs

  ghost predicate History(states: seq<Table>, events: seq<Event>) {
    |states| == |events| + 1 && forall i :: 0 <= i < |events| ==> Next(states[i], events[i], states[i + 1])
  }

  ghost predicate AllTimely(states: seq<Table>, events: seq<Event>)
    requires |states| == |events| + 1
  {
    forall i :: 0 <= i < |events| ==> Timely(states[i], events[i])
  }

  /** Main result: as long as iget comes with allocated numbers and no inode is freed while being written back, there is
      one in-core inode for each device and number, each count is that of its holders, and no change is lost, over
      every interleaving. */
  lemma {:induction false} HistoryKeepsInv(states: seq<Table>, events: seq<Event>, n: nat)
    requires History(states, events) && AllTimely(states, events) && n <= |events|
    requires Inv(states[0]) && AllUsed(states[0])
    ensures Inv(states[n]) && AllUsed(states[n])
  {
    if n > 0 {
      HistoryKeepsInv(states, events, n - 1);
      assert Next(states[n - 1], events[n - 1], states[n - 1 + 1]);
      TimelyKeepsInv(states[n - 1], events[n - 1], states[n]);
    }
  }

  /** The event changes inode `n`: by a holder, or by making or freeing it. */
  ghost predicate Touches(s: Table, e: Event, n: Name) {
    ((e.Store? || e.Change? || e.Free?) && e.x < |s.tab| && s.tab[e.x].name == n) || (e.Create? && e.name == n)
  }

  /** The event leaves inode `n` as `b`. */
  ghost predicate Stores(s: Table, e: Event, n: Name, b: Body) {
    Touches(s, e, n) && !e.Free? && b == if e.Create? then Body(1, e.rest) else e.body
  }

  lemma UntouchedStep(s: Table, e: Event, s': Table, n: Name)
    requires Inv(s) && AllUsed(s)
    ensures Next(s, e, s') && Timely(s, e) && !Touches(s, e, n) ==> Shown(s')[n] == Shown(s)[n]
  {
    if Next(s, e, s') && Timely(s, e) && !Touches(s, e, n) {
      TimelyKeepsInv(s, e, s');
      StepShows(s, e, s');
    }
  }

  lemma StoreStep(s: Table, e: Event, s': Table, n: Name, b: Body)
    requires Inv(s) && AllUsed(s) && Next(s, e, s') && Timely(s, e) && Stores(s, e, n, b)
    ensures Shown(s')[n] == b
  {
    TimelyKeepsInv(s, e, s');
    StepShows(s, e, s');
  }

  /** An inode nobody changes is shown unchanged, however often it leaves the table and comes back. */
  lemma {:induction false} UntouchedStays(states: seq<Table>, events: seq<Event>, i: nat, k: nat, n: Name)
    requires History(states, events) && AllTimely(states, events) && i <= k <= |events|
    requires Inv(states[0]) && AllUsed(states[0])
    requires forall j :: i <= j < k ==> !Touches(states[j], events[j], n)
    ensures Shown(states[k])[n] == Shown(states[i])[n]
    decreases k - i
  {
    if i < k {
      UntouchedStays(states, events, i, k - 1, n);
      HistoryKeepsInv(states, events, k - 1);
      assert Next(states[k - 1], events[k - 1], states[k - 1 + 1]);
      UntouchedStep(states[k - 1], events[k - 1], states[k], n);
    }
  }

  lemma LastStoreShown(states: seq<Table>, events: seq<Event>, i: nat, k: nat, n: Name, b: Body)
    requires History(states, events) && AllTimely(states, events) && i < k <= |events|
    requires Inv(states[0]) && AllUsed(states[0])
    requires Stores(states[i], events[i], n, b)
    requires forall j :: i < j < k ==> !Touches(states[j], events[j], n)
    ensures Shown(states[k])[n] == b
  {
    UntouchedStays(states, events, i + 1, k, n);
    HistoryKeepsInv(states, events, i);
    assert Next(states[i], events[i], states[i + 1]);
    StoreStep(states[i], events[i], states[i + 1], n, b);
  }

  /** Main result, over runs: whoever holds an inode sees the last change made to it, by whichever task, however often
      the inode was written back, thrown out of the table and read in again since. */
  lemma HoldersSeeTheLastStore(states: seq<Table>, events: seq<Event>, i: nat, k: nat, n: Name, b: Body, x: nat, j: nat)
    requires History(states, events) && AllTimely(states, events) && i < k <= |events|
    requires Inv(states[0]) && AllUsed(states[0])
    requires Stores(states[i], events[i], n, b)
    requires forall m :: i < m < k ==> !Touches(states[m], events[m], n)
    requires Owns(states[k], x, j) && states[k].who[x][j].name == n
    ensures states[k].tab[x].body == b
  {
    LastStoreShown(states, events, i, k, n, b);
    HistoryKeepsInv(states, events, k);
    assert InodeOk(states[k], x);
    ShownByInode(states[k], x, n);
  }

  /** Nothing is dirty, and nobody is in the middle of a change. */
  ghost predicate Settled(s: Table) {
    forall x: nat :: x < |s.tab| && x < |s.who| ==> !s.tab[x].dirt && !IsChanging(s.who[x])
  }

  /** Then the disk has the last change of every inode: get_empty_inode and sync forget none. */
  lemma SettledDiskHasTheLastStore(states: seq<Table>, events: seq<Event>, i: nat, k: nat, n: Name, b: Body)
    requires History(states, events) && AllTimely(states, events) && i < k <= |events|
    requires Inv(states[0]) && AllUsed(states[0])
    requires Stores(states[i], events[i], n, b)
    requires forall m :: i < m < k ==> !Touches(states[m], events[m], n)
    requires Settled(states[k])
    ensures n in states[k].disk && states[k].disk[n] == b
  {
    LastStoreShown(states, events, i, k, n, b);
    HistoryKeepsInv(states, events, k);
    var s := states[k];
    if IsShown(s, n) {
      assert InodeOk(s, ShownIn(s, n));
    }
  }

  /** iget's two ways out, and new_inode's: the caller then owns the inode it asked for, unlocked and loaded, and no
      other inode in the table has that name. */
  lemma IgetReturnsTheInode(s: Table, e: Event, s': Table, n: Name)
    requires Inv(s) && Next(s, e, s') && Careful(s, e)
    requires (e.Hit? && n == s.tab[e.x].name) || (e.Loaded? && n == s.tab[e.x].name) || (e.Create? && n == e.name)
    ensures var j := if e.Hit? then |s.who[e.x]| else e.j;
      Owns(s', e.x, j) && s'.who[e.x][j].name == n && s'.tab[e.x].name == n && !s'.tab[e.x].lock &&
      forall y: nat :: y < |s'.tab| && s'.tab[y].name == n ==> y == e.x
  {
    StepKeepsInv(s, e, s');
    assert InodeOk(s, e.x) && InodeOk(s', e.x);
  }

  /** As long as somebody holds it, an inode keeps its name; only its last holder can free it. */
  lemma HeldInodesKeepTheirName(s: Table, e: Event, s': Table, x: nat)
    requires Inv(s) && Next(s, e, s') && x < |s.tab| && s.tab[x].count > 0 && s.tab[x].name.dev != 0
    ensures x < |s'.tab|
    ensures s'.tab[x].name == s.tab[x].name || (e.Free? && e.x == x && s.tab[x].count == 1)
  {
    assert InodeOk(s, x);
  }

  /** The table as it starts, all zeroes. */
  lemma FreshTableInv(s: Table)
    requires |s.tab| == |s.who| && Total(s.disk) && s.saves == []
    requires forall x: nat :: x < |s.tab| ==> s.tab[x] == Cleared(0) && s.who[x] == []
    ensures Inv(s) && AllUsed(s) && Shown(s) == s.disk
  {
    forall x: nat | x < |s.tab| ensures InodeOk(s, x) {
      assert !Saved(s.saves, x);
    }
    forall n: Name ensures ShownAt(s, n) == s.disk[n] {
      NotShown(s, n);
    }
  }

  // ----- The two races

  const FILE := Name(1, 5)

  /** An unlinked inode 5, held once and not yet written back, and one inode not in use. */
  ghost function Unlinked(disk: imap<Name, Body>): Table {
    Table([Inode(FILE, 1, true, false, Body(0, 7)), Cleared(0)], [[Hold(1, FILE, Held)], []], [], disk,
          iset{Name(1, 1), Name(1, 2), Name(1, 3), Name(1, 4), FILE})
  }

  lemma UnlinkedOk(disk: imap<Name, Body>)
    requires Total(disk)
    ensures Inv(Unlinked(disk)) && AllUsed(Unlinked(disk))
  {
    var s := Unlinked(disk);
    assert !Saved(s.saves, 0) && !Saved(s.saves, 1);
    assert InodeOk(s, 0) && InodeOk(s, 1);
  }

  /** sync writes the inode back while its last holder frees it: once the block is there, a cleared inode goes to the
      last place of that block, over inode 32, which nobody touched. */
  lemma SaveMeetsFree(disk: imap<Name, Body>) returns (states: seq<Table>, events: seq<Event>)
    requires Total(disk)
    ensures History(states, events) && Inv(states[0]) && AllUsed(states[0]) && |events| == 3
    ensures states[0].disk == disk && states[3].disk == disk[Name(1, 32) := BLANK]
    ensures forall i :: 0 <= i < 3 ==> !Touches(states[i], events[i], Name(1, 32))
  {
    UnlinkedOk(disk);
    var s0 := Unlinked(disk);
    var s1 := Result(s0, StartSave(0));
    var s2 := Result(s1, Free(0, 0));
    var s3 := Result(s2, FinishSave(0));
    states, events := [s0, s1, s2, s3], [StartSave(0), Free(0, 0), FinishSave(0)];
    assert s1.saves == [Save(0, 1, 0)];
  }

  /** A task read number 5 from a directory; while it sleeps in iget the file goes, and it brings the freed inode in.
      The next new file gets number 5: two inodes in the table carry it. */
  lemma StaleNumberMeetsNewFile(disk: imap<Name, Body>, rest: nat) returns (states: seq<Table>, events: seq<Event>)
    requires Total(disk)
    ensures History(states, events) && Inv(states[0]) && AllUsed(states[0]) && |states| == 7
    ensures forall i :: 0 <= i < 5 ==> Careful(states[i], events[i])
    ensures !Unique(states[6].tab)
  {
    UnlinkedOk(disk);
    var s0 := Unlinked(disk);
    events := [Empty(1, 2), Free(0, 0), Miss(1, 0, FILE), Loaded(1, 0), Empty(0, 3), Create(0, 0, FILE, rest)];
    var s1 := Result(s0, events[0]);
    var s2 := Result(s1, events[1]);
    assert !InCore(s2.tab, FILE);
    var s3 := Result(s2, events[2]);
    var s4 := Result(s3, events[3]);
    var s5 := Result(s4, events[4]);
    assert s5.who[0] == [Hold(3, NONE, Spare)];
    assert FirstFree(s5.used, FILE);
    var s6 := Result(s5, events[5]);
    states := [s0, s1, s2, s3, s4, s5, s6];
    assert s6.tab[0].name == s6.tab[1].name;
  }
}
