/** The in-core inode table: every interleaving of iget, iput, new_inode, and the tasks writing inodes back. */
module Inodes {
  import opened Links

  /** Which inode of which device; device 0 means none. */
  datatype Name = Name(dev: nat, num: nat)

  const NONE := Name(0, 0)
  const INODES_PER_BLOCK := 32

  /** What is kept on disk: the number of links, and everything else. */
  datatype Body = Body(nlinks: nat, rest: nat)

  const BLANK := Body(0, 0)

  datatype Inode = Inode(name: Name, count: nat, dirt: bool, lock: bool, body: Body)

  /** What a task that counts in an inode is doing with it. */
  datatype Kind =
    | Spare      // fresh from get_empty_inode, still without a name
    | Pipe       // one end of a pipe, whose inode has no name
    | Loading    // inside read_inode, with the lock
    | Held       // from iget or new_inode
    | Changing   // changed it, and has not marked it dirty yet: inside truncate

  datatype Hold = Hold(task: nat, name: Name, kind: Kind)

  /** Somebody inside write_inode, waiting for the block: the lock is taken, device and block were looked up. */
  datatype Save = Save(x: nat, dev: nat, block: nat)

  datatype Table = Table(
    tab: seq<Inode>,
    who: seq<seq<Hold>>,       // for each inode: those counted in
    saves: seq<Save>,
    disk: imap<Name, Body>,    // the inode blocks, as the buffer cache shows them
    used: iset<Name>)          // the inode bitmaps

  // ----- The invariant

  ghost predicate Total(m: imap<Name, Body>) { forall n: Name :: n in m }

  predicate IsLoading(w: seq<Hold>) {
    |w| == 1 && w[0].kind.Loading?
  }

  ghost predicate IsChanging(w: seq<Hold>) {
    exists j :: 0 <= j < |w| && w[j].kind.Changing?
  }

  ghost predicate Saved(saves: seq<Save>, x: nat) {
    exists i :: 0 <= i < |saves| && saves[i].x == x
  }

  predicate Nameless(k: Kind) { k.Spare? || k.Pipe? }

  predicate Private(k: Kind) { k.Spare? || k.Loading? }

  /** The count is the number of holds; all hold it under its name; nobody else sees it before it is loaded. */
  ghost predicate HoldsOk(i: Inode, w: seq<Hold>) {
    i.count == |w| &&
    forall j :: 0 <= j < |w| ==>
      w[j].name == i.name && (Nameless(w[j].kind) <==> i.name.dev == 0) && (Private(w[j].kind) ==> |w| == 1)
  }

  /** The lock belongs to the one who is loading or saving the inode; nobody saves what has no name. */
  ghost predicate LockOk(i: Inode, w: seq<Hold>, saved: bool) {
    (i.lock <==> saved || IsLoading(w)) && !(saved && IsLoading(w)) && (i.name.dev == 0 ==> !i.lock)
  }

  /** A clean inode equals the disk, unless somebody is just changing it. */
  ghost predicate Coherent(i: Inode, w: seq<Hold>, stored: Body) {
    (i.name.dev == 0 || IsLoading(w) ==> !i.dirt) &&
    (i.name.dev != 0 ==> i.name.num > 0) &&
    (i.name.dev != 0 && !i.dirt && !IsLoading(w) && !IsChanging(w) ==> i.body == stored)
  }

  ghost predicate InodeOk(s: Table, x: nat)
    requires x < |s.tab| == |s.who| && Total(s.disk)
  {
    HoldsOk(s.tab[x], s.who[x]) && LockOk(s.tab[x], s.who[x], Saved(s.saves, x)) &&
    Coherent(s.tab[x], s.who[x], s.disk[s.tab[x].name])
  }

  /** Whoever is saving an inode looked up the block of the inode as it is named now. */
  ghost predicate SaveOk(s: Table, v: Save) {
    v.x < |s.tab| && s.tab[v.x].name.dev == v.dev && v.dev != 0 &&
    s.tab[v.x].name.num > 0 && v.block == (s.tab[v.x].name.num - 1) / INODES_PER_BLOCK
  }

  ghost predicate SavesOk(s: Table) {
    (forall i :: 0 <= i < |s.saves| ==> SaveOk(s, s.saves[i])) &&
    (forall i, j :: 0 <= i < |s.saves| && 0 <= j < |s.saves| && s.saves[i].x == s.saves[j].x ==> i == j)
  }

  /** One in-core inode per device and number. */
  ghost predicate Unique(tab: seq<Inode>) {
    forall x: nat, y: nat :: x < |tab| && y < |tab| && tab[x].name == tab[y].name && tab[x].name.dev != 0 ==> x == y
  }

  ghost predicate Inv(s: Table) {
    |s.tab| == |s.who| && Total(s.disk) && Unique(s.tab) && SavesOk(s) &&
    forall x: nat :: x < |s.tab| ==> InodeOk(s, x)
  }

  // ----- The steps: what a task does between two sleeps

  datatype Event =
    | Empty(x: nat, t: nat)                    // get_empty_inode takes an unused inode
    | Hit(x: nat, t: nat)                      // iget finds the inode in the table, unlocked
    | Miss(x: nat, j: nat, name: Name)         // iget does not: its empty inode gets the name, and read_inode the lock
    | Loaded(x: nat, j: nat)                   // read_inode has the block
    | Create(x: nat, j: nat, name: Name, rest: nat)   // new_inode names its empty inode
    | MakePipe(x: nat, j: nat)                 // get_pipe_inode: its empty inode is held by a reader and a writer
    | Share(x: nat, j: nat, t: nat)            // i_count++ by somebody who holds it: namei, fork
    | Change(x: nat, j: nat, body: Body)       // a holder changes the inode without marking it: truncate
    | Store(x: nat, j: nat, body: Body)        // a holder changes the inode and marks it dirty
    | StartSave(x: nat)                        // write_inode gets the lock
    | FinishSave(i: nat)                       // write_inode has the block
    | Put(x: nat, j: nat)                      // iput counts its caller out
    | Free(x: nat, j: nat)                     // iput of the last link: truncate is over, free_inode

  ghost predicate Holding(s: Table, x: nat, j: nat) {
    x < |s.tab| && x < |s.who| && j < |s.who[x]|
  }

  /** Holding a named and loaded inode. */
  ghost predicate Owns(s: Table, x: nat, j: nat) {
    Holding(s, x, j) && (s.who[x][j].kind.Held? || s.who[x][j].kind.Changing?)
  }

  ghost predicate InCore(tab: seq<Inode>, n: Name) {
    exists x: nat :: x < |tab| && tab[x].name == n
  }

  /** iput may count its caller out now: others remain, or nobody will need what the inode holds. */
  predicate MayLeave(i: Inode) {
    !i.lock && i.count > 0 && (i.count > 1 || i.name.dev == 0 || (i.body.nlinks > 0 && !i.dirt))
  }

  /** The lowest inode number that is free on its device. */
  ghost predicate FirstFree(used: iset<Name>, n: Name) {
    n.dev != 0 && n.num > 0 && n !in used && forall k: nat :: 0 < k < n.num ==> Name(n.dev, k) in used
  }

  ghost predicate Enabled(s: Table, e: Event) {
    |s.tab| == |s.who| &&
    match e
    case Empty(x, t) => x < |s.tab| && s.tab[x].count == 0 && !s.tab[x].dirt && !s.tab[x].lock
    case Hit(x, t) => x < |s.tab| && s.tab[x].name.dev != 0 && !s.tab[x].lock
    case Miss(x, j, n) =>
      Holding(s, x, j) && s.who[x][j].kind.Spare? && !s.tab[x].lock && n.dev != 0 && n.num > 0 && !InCore(s.tab, n)
    case Loaded(x, j) => Holding(s, x, j) && s.who[x][j].kind.Loading? && s.tab[x].name in s.disk
    case Create(x, j, n, rest) => Holding(s, x, j) && s.who[x][j].kind.Spare? && FirstFree(s.used, n)
    case MakePipe(x, j) => Holding(s, x, j) && s.who[x][j].kind.Spare?
    case Share(x, j, t) => Owns(s, x, j)
    case Change(x, j, b) => Owns(s, x, j)
    case Store(x, j, b) => Owns(s, x, j)
    case StartSave(x) => x < |s.tab| && !s.tab[x].lock && s.tab[x].dirt && s.tab[x].name.dev != 0 &&
      s.tab[x].name.num > 0
    case FinishSave(i) => i < |s.saves| && s.saves[i].x < |s.tab|
    case Put(x, j) => Holding(s, x, j) && (s.who[x][j].kind.Held? || Nameless(s.who[x][j].kind)) && MayLeave(s.tab[x])
    case Free(x, j) =>
      Holding(s, x, j) && s.who[x][j].kind.Held? && s.tab[x].count <= 1 && s.tab[x].name.dev != 0 &&
      s.tab[x].body.nlinks == 0
  }

  function Set(s: Table, x: nat, i: Inode, w: seq<Hold>): Table
    requires x < |s.tab| == |s.who|
  {
    s.(tab := s.tab[x := i], who := s.who[x := w])
  }

  /** memset, and `i_count = 1` for get_empty_inode. */
  function Cleared(count: nat): Inode {
    Inode(NONE, count, false, false, BLANK)
  }

  /** Where write_inode puts what it writes: the block it looked up before it slept, the place in it afterwards. */
  function Target(v: Save, num: nat): Name {
    Name(v.dev, v.block * INODES_PER_BLOCK + (num + INODES_PER_BLOCK - 1) % INODES_PER_BLOCK + 1)
  }

  function Kept(s: Table, i: nat): Table
    requires i < |s.saves| && s.saves[i].x < |s.tab|
  {
    var v, x := s.saves[i], s.saves[i].x;
    s.(tab := s.tab[x := s.tab[x].(dirt := false, lock := false)],
       disk := s.disk[Target(v, s.tab[x].name.num) := s.tab[x].body],
       saves := s.saves[..i] + s.saves[i + 1..])
  }

  ghost function Result(s: Table, e: Event): Table
    requires Enabled(s, e)
  {
    match e
    case Empty(x, t) => Set(s, x, Cleared(1), s.who[x] + [Hold(t, NONE, Spare)])
    case Hit(x, t) =>
      Set(s, x, s.tab[x].(count := s.tab[x].count + 1), s.who[x] + [Hold(t, s.tab[x].name, Held)])
    case Miss(x, j, n) =>
      Set(s, x, s.tab[x].(name := n, lock := true), s.who[x][j := s.who[x][j].(name := n, kind := Loading)])
    case Loaded(x, j) =>
      Set(s, x, s.tab[x].(body := s.disk[s.tab[x].name], lock := false), s.who[x][j := s.who[x][j].(kind := Held)])
    case Create(x, j, n, rest) =>
      Set(s, x, s.tab[x].(name := n, count := 1, dirt := true, body := Body(1, rest)),
          s.who[x][j := s.who[x][j].(name := n, kind := Held)]).(used := s.used + iset{n})
    case MakePipe(x, j) =>
      Set(s, x, s.tab[x].(count := 2), [s.who[x][j].(kind := Pipe), s.who[x][j].(kind := Pipe)])
    case Share(x, j, t) =>
      Set(s, x, s.tab[x].(count := s.tab[x].count + 1), s.who[x] + [Hold(t, s.tab[x].name, Held)])
    case Change(x, j, b) => Set(s, x, s.tab[x].(body := b), s.who[x][j := s.who[x][j].(kind := Changing)])
    case Store(x, j, b) => Set(s, x, s.tab[x].(body := b, dirt := true), s.who[x][j := s.who[x][j].(kind := Held)])
    case StartSave(x) =>
      Set(s, x, s.tab[x].(lock := true), s.who[x])
        .(saves := s.saves + [Save(x, s.tab[x].name.dev, (s.tab[x].name.num - 1) / INODES_PER_BLOCK)])
    case FinishSave(i) => Kept(s, i)
    case Put(x, j) => Set(s, x, s.tab[x].(count := s.tab[x].count - 1), Drop(s.who[x], j))
    case Free(x, j) => Set(s, x, Cleared(0), Drop(s.who[x], j)).(used := s.used - iset{s.tab[x].name})
  }

  ghost predicate Next(s: Table, e: Event, s': Table) {
    Enabled(s, e) && s' == Result(s, e)
  }

  /** The two things the code takes for granted: the first free number is that of no inode in the table, and nobody is
      just writing an inode back when its last holder frees it. */
  ghost predicate Careful(s: Table, e: Event) {
    (e.Create? ==> !InCore(s.tab, e.name)) &&
    (e.Free? && e.x < |s.tab| ==> !s.tab[e.x].lock)
  }

  // ----- Every careful step keeps the invariant

  /** Only row `x` changed, and nothing was saved or written. */
  lemma RowKeepsInv(s: Table, x: nat, i: Inode, w: seq<Hold>, u: iset<Name>)
    requires Inv(s) && x < |s.tab|
    requires HoldsOk(i, w) && LockOk(i, w, Saved(s.saves, x)) && Coherent(i, w, s.disk[i.name])
    requires Saved(s.saves, x) ==> i.name == s.tab[x].name
    requires i.name == s.tab[x].name || i.name.dev == 0 || !InCore(s.tab, i.name)
    ensures Inv(Set(s, x, i, w).(used := u))
  {
    var s' := Set(s, x, i, w).(used := u);
    forall y: nat | y < |s'.tab| ensures InodeOk(s', y) {
      assert InodeOk(s, y);
    }
    forall k | 0 <= k < |s'.saves| ensures SaveOk(s', s'.saves[k]) {
      assert SaveOk(s, s.saves[k]);
    }
  }

  lemma StartSaveKeepsInv(s: Table, x: nat)
    requires Inv(s) && Enabled(s, StartSave(x))
    ensures Inv(Result(s, StartSave(x)))
  {
    var s' := Result(s, StartSave(x));
    assert InodeOk(s, x);
    assert s'.saves[|s.saves|].x == x;
    forall y: nat | y < |s'.tab| ensures InodeOk(s', y) {
      assert InodeOk(s, y);
      assert forall k :: 0 <= k < |s.saves| ==> s'.saves[k] == s.saves[k];
    }
    forall k | 0 <= k < |s'.saves| ensures SaveOk(s', s'.saves[k]) {
      if k < |s.saves| { assert SaveOk(s, s.saves[k]); }
    }
  }

  /** A save that finds its inode as it left it writes to that inode's own place. */
  lemma OwnPlace(s: Table, v: Save)
    requires SaveOk(s, v)
    ensures Target(v, s.tab[v.x].name.num) == s.tab[v.x].name
  {
  }

  lemma SavedWithout(saves: seq<Save>, i: nat, y: nat)
    requires i < |saves|
    requires forall a, b :: 0 <= a < |saves| && 0 <= b < |saves| && saves[a].x == saves[b].x ==> a == b
    ensures Saved(saves[..i] + saves[i + 1..], y) <==> Saved(saves, y) && y != saves[i].x
  {
    var left := saves[..i] + saves[i + 1..];
    if Saved(left, y) {
      var k :| 0 <= k < |left| && left[k].x == y;
      assert left[k] == saves[if k < i then k else k + 1];
    }
    if Saved(saves, y) && y != saves[i].x {
      var k :| 0 <= k < |saves| && saves[k].x == y;
      assert left[if k < i then k else k - 1] == saves[k];
    }
  }

  lemma FinishSaveOthers(s: Table, i: nat, y: nat)
    requires Inv(s) && Enabled(s, FinishSave(i)) && y < |s.tab|
    ensures |Kept(s, i).tab| == |s.tab| && Total(Kept(s, i).disk) && InodeOk(Kept(s, i), y)
  {
    var v, x := s.saves[i], s.saves[i].x;
    assert SaveOk(s, v) && InodeOk(s, x) && Saved(s.saves, x);
    OwnPlace(s, v);
    SavedWithout(s.saves, i, y);
    assert InodeOk(s, y);
  }

  lemma FinishSaveKeepsInv(s: Table, i: nat)
    requires Inv(s) && Enabled(s, FinishSave(i))
    ensures Inv(Result(s, FinishSave(i)))
  {
    var s' := Kept(s, i);
    forall y: nat | y < |s'.tab| ensures InodeOk(s', y) {
      FinishSaveOthers(s, i, y);
    }
    forall k | 0 <= k < |s'.saves| ensures SaveOk(s', s'.saves[k]) {
      var was := if k < i then k else k + 1;
      assert s'.saves[k] == s.saves[was] && SaveOk(s, s.saves[was]);
    }
  }

  /** Whoever was changing the inode still is, if his hold is still there. */
  lemma StillChanging(w: seq<Hold>, w': seq<Hold>)
    requires forall j :: 0 <= j < |w| && w[j].kind.Changing? ==> w[j] in w'
    ensures IsChanging(w) ==> IsChanging(w')
  {
    if IsChanging(w) {
      var j :| 0 <= j < |w| && w[j].kind.Changing?;
      var k :| 0 <= k < |w'| && w'[k] == w[j];
    }
  }

  lemma DropIn(w: seq<Hold>, j: nat)
    requires j < |w|
    ensures |Drop(w, j)| == |w| - 1
    ensures forall h :: h in Drop(w, j) ==> h in w
    ensures forall k :: 0 <= k < |w| && k != j ==> w[k] in Drop(w, j)
  {
    forall k | 0 <= k < |w| && k != j ensures w[k] in Drop(w, j) {
      assert Drop(w, j)[if k < j then k else k - 1] == w[k];
    }
  }

  /** One more hold on an inode that is nobody's, or is loaded. */
  lemma JoinKeepsInv(s: Table, x: nat, t: nat)
    requires Inv(s) && x < |s.tab| && s.tab[x].name.dev != 0 && !IsLoading(s.who[x])
    ensures Inv(Set(s, x, s.tab[x].(count := s.tab[x].count + 1), s.who[x] + [Hold(t, s.tab[x].name, Held)]))
  {
    var i, w := s.tab[x], s.who[x];
    var w' := w + [Hold(t, i.name, Held)];
    assert InodeOk(s, x);
    if w != [] { assert w[0].kind.Loading? ==> |w| == 1; }
    assert |w| == 0 || !w'[0].kind.Loading?;
    StillChanging(w, w');
    RowKeepsInv(s, x, i.(count := i.count + 1), w', s.used);
    assert s.(used := s.used) == s;
  }

  lemma EmptyKeepsInv(s: Table, x: nat, t: nat)
    requires Inv(s) && Enabled(s, Empty(x, t))
    ensures Inv(Result(s, Empty(x, t)))
  {
    assert InodeOk(s, x);
    RowKeepsInv(s, x, Cleared(1), s.who[x] + [Hold(t, NONE, Spare)], s.used);
  }

  lemma MissKeepsInv(s: Table, x: nat, j: nat, n: Name)
    requires Inv(s) && Enabled(s, Miss(x, j, n))
    ensures Inv(Result(s, Miss(x, j, n)))
  {
    assert InodeOk(s, x);
    var e := Miss(x, j, n);
    assert Result(s, e).who[x] == [s.who[x][j].(name := n, kind := Loading)];
    RowKeepsInv(s, x, Result(s, e).tab[x], Result(s, e).who[x], s.used);
  }

  lemma LoadedKeepsInv(s: Table, x: nat, j: nat)
    requires Inv(s) && Enabled(s, Loaded(x, j))
    ensures Inv(Result(s, Loaded(x, j)))
  {
    assert InodeOk(s, x);
    var e := Loaded(x, j);
    RowKeepsInv(s, x, Result(s, e).tab[x], Result(s, e).who[x], s.used);
  }

  /** A holder's change is either marked dirty, or he is known to be changing the inode. */
  lemma OwnerKeepsInv(s: Table, x: nat, j: nat, b: Body, dirt: bool, kind: Kind)
    requires Inv(s) && Owns(s, x, j) && ((kind.Held? && dirt) || (kind.Changing? && dirt == s.tab[x].dirt))
    ensures Inv(Set(s, x, s.tab[x].(body := b, dirt := dirt), s.who[x][j := s.who[x][j].(kind := kind)]))
  {
    assert InodeOk(s, x);
    var w' := s.who[x][j := s.who[x][j].(kind := kind)];
    assert w'[j].kind == kind;
    RowKeepsInv(s, x, s.tab[x].(body := b, dirt := dirt), w', s.used);
    assert s.(used := s.used) == s;
  }

  lemma CreateKeepsInv(s: Table, x: nat, j: nat, n: Name, rest: nat)
    requires Inv(s) && Enabled(s, Create(x, j, n, rest)) && !InCore(s.tab, n)
    ensures Inv(Result(s, Create(x, j, n, rest)))
  {
    assert InodeOk(s, x);
    var e := Create(x, j, n, rest);
    RowKeepsInv(s, x, Result(s, e).tab[x], Result(s, e).who[x], Result(s, e).used);
  }

  lemma PipeKeepsInv(s: Table, x: nat, j: nat)
    requires Inv(s) && Enabled(s, MakePipe(x, j))
    ensures Inv(Result(s, MakePipe(x, j)))
  {
    assert InodeOk(s, x);
    RowKeepsInv(s, x, Result(s, MakePipe(x, j)).tab[x], Result(s, MakePipe(x, j)).who[x], s.used);
  }

  lemma LeaveKeepsInv(s: Table, x: nat, j: nat, i: Inode, u: iset<Name>)
    requires Inv(s) && Holding(s, x, j) && !s.who[x][j].kind.Changing? && !s.who[x][j].kind.Loading? && !s.tab[x].lock
    requires s.tab[x].count > 0
    requires i == s.tab[x].(count := s.tab[x].count - 1) || (i == Cleared(0) && s.tab[x].count <= 1)
    ensures Inv(Set(s, x, i, Drop(s.who[x], j)).(used := u))
  {
    assert InodeOk(s, x);
    DropIn(s.who[x], j);
    StillChanging(s.who[x], Drop(s.who[x], j));
    RowKeepsInv(s, x, i, Drop(s.who[x], j), u);
  }

  lemma StepKeepsInv(s: Table, e: Event, s': Table)
    requires Inv(s) && Next(s, e, s') && Careful(s, e)
    ensures Inv(s')
  {
    if e.FinishSave? {
      FinishSaveKeepsInv(s, e.i);
    } else {
      assert InodeOk(s, e.x);
      match e
      case StartSave(x) => StartSaveKeepsInv(s, x);
      case Empty(x, t) => EmptyKeepsInv(s, x, t);
      case Hit(x, t) => JoinKeepsInv(s, x, t);
      case Share(x, j, t) => JoinKeepsInv(s, x, t);
      case Miss(x, j, n) => MissKeepsInv(s, x, j, n);
      case Loaded(x, j) => LoadedKeepsInv(s, x, j);
      case MakePipe(x, j) => PipeKeepsInv(s, x, j);
      case Create(x, j, n, rest) => CreateKeepsInv(s, x, j, n, rest);
      case Change(x, j, b) => OwnerKeepsInv(s, x, j, b, s.tab[x].dirt, Changing);
      case Store(x, j, b) => OwnerKeepsInv(s, x, j, b, true, Held);
      case Put(x, j) => LeaveKeepsInv(s, x, j, s'.tab[x], s.used);
      case Free(x, j) => LeaveKeepsInv(s, x, j, s'.tab[x], s'.used);
    }
  }
}
