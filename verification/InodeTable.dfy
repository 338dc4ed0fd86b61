/** The code over inode_table: each turn of get_empty_inode, iget, iput and write_inode, from one sleep to the next. */
module InodeTable {
  import opened Inodes
  import opened Links

  predicate Unused(tab: seq<Inode>, x: nat) {
    x < |tab| && tab[x].count == 0
  }

  predicate Ready(tab: seq<Inode>, x: nat) {
    Unused(tab, x) && !tab[x].dirt && !tab[x].lock
  }

  /** The `k`-th inode after `last`, going round. */
  function After(last: nat, k: nat, n: nat): nat
    requires last < n && k < n
  {
    if last + 1 + k < n then last + 1 + k else last + 1 + k - n
  }

  lemma GoesRound(last: nat, x: nat, n: nat) returns (k: nat)
    requires last < n && x < n
    ensures k < n && After(last, k, n) == x
  {
    k := if x > last then x - last - 1 else x + n - last - 1;
  }

  /** What get_empty_inode's scan settles on: the next inode ready for use, or else the last unused one it met. */
  ghost predicate Picked(tab: seq<Inode>, last: nat, k: nat, i: int) {
    last < |tab| && k < |tab| && i == After(last, k, |tab|) && Unused(tab, i) &&
    if Ready(tab, i) then forall m: nat :: m < k ==> !Ready(tab, After(last, m, |tab|))
    else (forall x: nat :: !Ready(tab, x)) && (forall m: nat :: k < m < |tab| ==> !Unused(tab, After(last, m, |tab|)))
  }

  /** How a turn ends. */
  datatype Turn =
    | Done(x: nat)       // with the inode asked for; or, of iput, counted out
    | Again              // from the start
    | Wait(x: nat)       // for the lock of x
    | Saving(x: nat)     // inside write_inode of x, which got the lock
    | Reading(x: nat)    // inside read_inode of x, likewise
    | Freeing(x: nat)    // iput of the last link: truncate, then free_inode

  class Core {
    const tab: array<Inode>
    var last: nat            // last_inode

    ghost predicate Valid()
      reads this, tab
    {
      last < tab.Length
    }

    constructor (n: nat)
      requires n > 0
      ensures Valid() && fresh(tab) && tab.Length == n && forall x :: 0 <= x < n ==> tab[x] == Cleared(0)
    {
      tab := new Inode[n](_ => Cleared(0));
      last := 0;
    }

    /** The scan of get_empty_inode. */
    method PickEmpty() returns (i: int)
      requires Valid()
      modifies this`last
      ensures Valid()
      ensures i == NULL <==> forall x: nat :: !Unused(tab[..], x)
      ensures i != NULL ==> exists k: nat :: Picked(tab[..], old(last), k, i)
    {
      i := NULL;
      ghost var at: nat, was := 0, last;
      var k: nat := 0;
      while k < tab.Length
        invariant k <= tab.Length && last < tab.Length && (k > 0 ==> last == After(was, k - 1, tab.Length))
        invariant k == 0 ==> last == was
        invariant forall m: nat :: m < k ==> !Ready(tab[..], After(was, m, tab.Length))
        invariant i == NULL ==> forall m: nat :: m < k ==> !Unused(tab[..], After(was, m, tab.Length))
        invariant i != NULL ==> at < k && i == After(was, at, tab.Length) && Unused(tab[..], i)
        invariant i != NULL ==> forall m: nat :: at < m < k ==> !Unused(tab[..], After(was, m, tab.Length))
      {
        last := if last + 1 >= tab.Length then 0 else last + 1;
        assert last == After(was, k, tab.Length);
        if tab[last].count == 0 {
          i, at := last, k;
          if !tab[last].dirt && !tab[last].lock {
            assert Picked(tab[..], was, at, i);
            return;
          }
        }
        k := k + 1;
      }
      forall x: nat | x < tab.Length ensures !Ready(tab[..], x) && (i == NULL ==> !Unused(tab[..], x)) {
        var m := GoesRound(was, x, tab.Length);
      }
      assert i != NULL ==> Picked(tab[..], was, at, i);
    }

    /** get_empty_inode once the inode it picked is unlocked: write it back if it is dirty, look again if it is in use,
        or take it. */
    method TakeEmpty(x: nat, t: nat, ghost s: Table) returns (r: Turn, ghost s': Table)
      requires Valid() && x < tab.Length && !tab[x].lock && Inv(s) && s.tab == tab[..]
      modifies tab
      ensures s'.tab == tab[..]
      ensures old(tab[x].dirt) ==> r == Saving(x) && Next(s, StartSave(x), s')
      ensures !old(tab[x].dirt) && old(tab[x].count) > 0 ==> r == Again && s' == s
      ensures !old(tab[x].dirt) && old(tab[x].count) == 0 ==> r == Done(x) && Next(s, Empty(x, t), s')
    {
      assert InodeOk(s, x);
      if tab[x].dirt {
        tab[x] := tab[x].(lock := true);
        r, s' := Saving(x), Result(s, StartSave(x));
      } else if tab[x].count > 0 {
        r, s' := Again, s;
      } else {
        tab[x] := Cleared(1);
        r, s' := Done(x), Result(s, Empty(x, t));
      }
    }

    /** iget's search. */
    method Find(n: Name) returns (x: int)
      ensures x == NULL <==> !InCore(tab[..], n)
      ensures x != NULL ==> 0 <= x < tab.Length && tab[x].name == n
    {
      x := 0;
      while x < tab.Length && tab[x].name != n
        invariant 0 <= x <= tab.Length && forall y :: 0 <= y < x ==> tab[y].name != n
      {
        x := x + 1;
      }
      if x == tab.Length {
        x := NULL;
      }
    }

    /** iget, from the start of its search, with the empty inode `e` in hand, to its first sleep or its end. */
    method Search(n: Name, t: nat, e: nat, ghost j: nat, ghost s: Table) returns (r: Turn, ghost s': Table)
      requires Inv(s) && s.tab == tab[..] && Holding(s, e, j) && s.who[e][j].kind.Spare? && n.dev != 0 && n.num > 0
      modifies tab
      ensures s'.tab == tab[..]
      ensures r.Done? ==> r.x < |s.tab| && s.tab[r.x].name == n && Next(s, Hit(r.x, t), s')
      ensures r.Wait? ==> s' == s && r.x < |s.tab| && s.tab[r.x].name == n && s.tab[r.x].lock
      ensures !r.Done? && !r.Wait? ==> r == Reading(e) && Next(s, Miss(e, j, n), s')
    {
      assert InodeOk(s, e);
      var x := Find(n);
      if x == NULL {
        tab[e] := tab[e].(name := n, lock := true);
        r, s' := Reading(e), Result(s, Miss(e, j, n));
      } else {
        r, s' := Meet(x, n, t, s);
      }
    }

    /** iget at an inode that carried the name when it last looked. */
    method Meet(x: nat, n: Name, t: nat, ghost s: Table) returns (r: Turn, ghost s': Table)
      requires Inv(s) && s.tab == tab[..] && x < tab.Length && n.dev != 0
      modifies tab
      ensures s'.tab == tab[..]
      ensures old(tab[x].lock) ==> r == Wait(x) && s' == s
      ensures !old(tab[x].lock) && old(tab[x].name) != n ==> r == Again && s' == s
      ensures !old(tab[x].lock) && old(tab[x].name) == n ==> r == Done(x) && Next(s, Hit(x, t), s')
    {
      r, s' := if tab[x].lock then Wait(x) else Again, s;
      if !tab[x].lock && tab[x].name == n {
        tab[x] := tab[x].(count := tab[x].count + 1);
        r, s' := Done(x), Result(s, Hit(x, t));
      }
    }

    /** iput from `repeat:`, the inode being unlocked, to its first sleep or its end. */
    method PutOne(x: nat, ghost j: nat, ghost s: Table) returns (r: Turn, ghost s': Table)
      requires Inv(s) && s.tab == tab[..] && Holding(s, x, j) && !tab[x].lock
      requires s.who[x][j].kind.Held? || Nameless(s.who[x][j].kind)
      modifies tab
      ensures s'.tab == tab[..]
      ensures r.Done? ==> Next(s, Put(x, j), s')
      ensures r.Freeing? ==> s' == s && Enabled(s, Free(x, j))
      ensures !r.Done? && !r.Freeing? ==> r == Saving(x) && Next(s, StartSave(x), s')
      ensures r.Done? <==> MayLeave(old(tab[x]))
    {
      assert InodeOk(s, x);
      if tab[x].name.dev == 0 || tab[x].count > 1 {
        tab[x] := tab[x].(count := tab[x].count - 1);
        r, s' := Done(x), Result(s, Put(x, j));
      } else if tab[x].body.nlinks == 0 {
        r, s' := Freeing(x), s;
      } else if tab[x].dirt {
        tab[x] := tab[x].(lock := true);
        r, s' := Saving(x), Result(s, StartSave(x));
      } else {
        tab[x] := tab[x].(count := tab[x].count - 1);
        r, s' := Done(x), Result(s, Put(x, j));
      }
    }

    /** free_inode: it panics, and changes nothing, exactly when somebody else came to hold the inode, or gave it a link
        again, while truncate slept. */
    method FreeInode(x: nat, ghost j: nat, ghost s: Table) returns (panic: bool, ghost s': Table)
      requires Inv(s) && s.tab == tab[..] && Holding(s, x, j) && s.who[x][j].kind.Held? && tab[x].name.dev != 0
      modifies tab
      ensures s'.tab == tab[..]
      ensures panic <==> old(tab[x].count) > 1 || old(tab[x].body.nlinks) > 0
      ensures if panic then s' == s else Next(s, Free(x, j), s')
    {
      panic, s' := tab[x].count > 1 || tab[x].body.nlinks > 0, s;
      if !panic {
        tab[x] := Cleared(0);
        s' := Result(s, Free(x, j));
      }
    }

    /** write_inode once it has the block it looked up: the inode as it is now goes to its own place on disk, and is
        clean. */
    method WriteInode(v: Save, ghost i: nat, ghost s: Table) returns (n: Name, b: Body, ghost s': Table)
      requires Inv(s) && s.tab == tab[..] && i < |s.saves| && s.saves[i] == v && v.x < tab.Length
      modifies tab
      ensures s'.tab == tab[..] && Next(s, FinishSave(i), s')
      ensures n == old(tab[v.x].name) && b == old(tab[v.x].body) && s'.disk == s.disk[n := b]
    {
      assert SaveOk(s, v);
      OwnPlace(s, v);
      n, b := Target(v, tab[v.x].name.num), tab[v.x].body;
      tab[v.x] := tab[v.x].(dirt := false, lock := false);
      s' := Result(s, FinishSave(i));
    }

    /** new_inode with the empty inode in hand: it takes the first free number of the device, or goes back. */
    method NewInode(x: nat, dev: nat, maps: seq<seq<bool>>, ninodes: nat, rest: nat, ghost j: nat, ghost s: Table)
      returns (n: nat, ghost s': Table)
      requires Inv(s) && s.tab == tab[..] && Holding(s, x, j) && s.who[x][j].kind.Spare?
      requires MapsOk(maps) && dev != 0 && Reflects(s.used, dev, maps)
      modifies tab
      ensures s'.tab == tab[..]
      ensures n > 0 ==> n <= ninodes && Next(s, Create(x, j, Name(dev, n), rest), s')
      ensures n == 0 ==> Next(s, Put(x, j), s')
      ensures n == 0 ==> forall k: nat :: 0 < k <= ninodes && k < |maps| * MAP_BITS ==> Name(dev, k) in s.used
    {
      assert InodeOk(s, x);
      var k := FirstClear(maps);
      if k > ninodes || k == |maps| * MAP_BITS {
        tab[x] := tab[x].(count := tab[x].count - 1);
        n, s' := 0, Result(s, Put(x, j));
      } else {
        n := k;
        tab[x] := tab[x].(name := Name(dev, n), count := 1, dirt := true, body := Body(1, rest));
        s' := Result(s, Create(x, j, Name(dev, n), rest));
      }
    }
  }

  // ----- The inode bitmap

  const MAP_BITS := 8192

  predicate MapsOk(maps: seq<seq<bool>>) {
    forall i :: 0 <= i < |maps| ==> |maps[i]| == MAP_BITS
  }

  predicate Bit(maps: seq<seq<bool>>, k: nat)
    requires MapsOk(maps) && k < |maps| * MAP_BITS
  {
    maps[k / MAP_BITS][k % MAP_BITS]
  }

  /** The bitmap says which inodes of the device are in use; number 0 is never free. */
  ghost predicate Reflects(used: iset<Name>, dev: nat, maps: seq<seq<bool>>)
    requires MapsOk(maps)
  {
    forall k: nat :: k < |maps| * MAP_BITS ==> (Bit(maps, k) <==> k == 0 || Name(dev, k) in used)
  }

  /** The search of new_inode, block by block of the map, for the first clear bit. */
  method FirstClear(maps: seq<seq<bool>>) returns (k: nat)
    requires MapsOk(maps)
    ensures k <= |maps| * MAP_BITS && (k < |maps| * MAP_BITS ==> !Bit(maps, k))
    ensures forall m: nat :: m < k ==> Bit(maps, m)
  {
    var i: nat := 0;
    while i < |maps|
      invariant i <= |maps| && forall m: nat :: m < i * MAP_BITS ==> Bit(maps, m)
    {
      var j: nat := 0;
      while j < MAP_BITS && maps[i][j]
        invariant j <= MAP_BITS && forall m: nat :: m < i * MAP_BITS + j ==> Bit(maps, m)
      {
        InBlock(maps, i, j);
        j := j + 1;
      }
      if j < MAP_BITS {
        InBlock(maps, i, j);
        return i * MAP_BITS + j;
      }
      i := i + 1;
    }
    k := i * MAP_BITS;
  }

  lemma InBlock(maps: seq<seq<bool>>, i: nat, j: nat)
    requires MapsOk(maps) && i < |maps| && j < MAP_BITS
    ensures i * MAP_BITS + j < |maps| * MAP_BITS && (Bit(maps, i * MAP_BITS + j) <==> maps[i][j])
  {
  }
}
