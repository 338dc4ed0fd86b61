/** What iget, new_inode, write_inode and iput come to, in the fields of the inode and the disk. */
module InodeLaws {
  import opened Links
  import opened Inodes

  /** Every other inode, and who holds it, is as before. */
  ghost predicate OtherInodes(s: Table, s': Table, x: nat) {
    |s'.tab| == |s.tab| && |s'.who| == |s.who| &&
    forall y: nat :: y != x ==>
      (y < |s.tab| ==> s'.tab[y] == s.tab[y]) && (y < |s.who| ==> s'.who[y] == s.who[y])
  }

  /** An inode nobody needs: get_empty_inode may take it. */
  predicate Unused(s: Table, x: nat) {
    x < |s.tab| && s.tab[x].count == 0 && !s.tab[x].dirt && !s.tab[x].lock
  }

  /** iget of an inode that is in no slot: in three steps task `t`, alone, holds it in the unused slot `x`, with what
      the disk has. */
  lemma IgetLoads(s: Table, x: nat, n: Name, t: nat) returns (s1: Table, s2: Table, s3: Table)
    requires Inv(s) && Unused(s, x) && n.dev != 0 && n.num > 0 && !InCore(s.tab, n)
    ensures Next(s, Event.Empty(x, t), s1) && Next(s1, Miss(x, 0, n), s2) && Next(s2, Loaded(x, 0), s3)
    ensures s2.tab[x].lock && s2.tab[x].name == n
    ensures n in s.disk && s3.tab[x] == Inode(n, 1, false, false, s.disk[n]) && s3.who[x] == [Hold(t, n, Held)]
    ensures OtherInodes(s, s3, x) && s3.disk == s.disk && s3.used == s.used && s3.saves == s.saves
  {
    assert InodeOk(s, x);
    s1 := Result(s, Event.Empty(x, t));
    assert !InCore(s1.tab, n);
    assert s1.who[x] == [Hold(t, NONE, Spare)];
    s2 := Result(s1, Miss(x, 0, n));
    s3 := Result(s2, Loaded(x, 0));
  }

  /** iget of one that is there, unlocked: it counts one more and stays as it is. */
  lemma IgetFinds(s: Table, x: nat, t: nat) returns (s': Table)
    requires Inv(s) && x < |s.tab| && s.tab[x].name.dev != 0 && !s.tab[x].lock
    ensures Next(s, Hit(x, t), s')
    ensures var i, i' := s.tab[x], s'.tab[x];
      i'.count == i.count + 1 && i'.name == i.name && i'.body == i.body && i'.dirt == i.dirt && !i'.lock &&
      s'.who[x] == s.who[x] + [Hold(t, i.name, Held)]
    ensures OtherInodes(s, s', x) && s'.disk == s.disk && s'.used == s.used && s'.saves == s.saves
  {
    s' := Result(s, Hit(x, t));
  }

  /** new_inode: the lowest free number is marked used, and the task holds a dirty inode of that number with one
      link. */
  lemma NewInodeCreates(s: Table, x: nat, n: Name, rest: nat, t: nat) returns (s1: Table, s2: Table)
    requires Inv(s) && Unused(s, x) && n.dev != 0 && n.num > 0 && n !in s.used
    requires forall k: nat :: 0 < k < n.num ==> Name(n.dev, k) in s.used
    ensures Next(s, Event.Empty(x, t), s1) && Next(s1, Create(x, 0, n, rest), s2)
    ensures s2.tab[x] == Inode(n, 1, true, false, Body(1, rest)) && s2.who[x] == [Hold(t, n, Held)]
    ensures OtherInodes(s, s2, x) && s2.disk == s.disk && s2.saves == s.saves
    ensures forall m: Name :: m in s2.used <==> m in s.used || m == n
  {
    assert InodeOk(s, x);
    s1 := Result(s, Event.Empty(x, t));
    s2 := Result(s1, Create(x, 0, n, rest));
  }

  /** write_inode: afterwards the disk has the inode at its own place, and the inode is clean and unlocked. */
  lemma WriteInodeSaves(s: Table, x: nat) returns (s1: Table, s2: Table)
    requires Inv(s) && x < |s.tab| && s.tab[x].dirt && !s.tab[x].lock && s.tab[x].name.dev != 0
    ensures Next(s, StartSave(x), s1) && Next(s1, FinishSave(|s.saves|), s2) && s1.tab[x].lock
    ensures s2.tab[x] == s.tab[x].(dirt := false) && OtherInodes(s, s2, x) && s2.who == s.who
    ensures s.tab[x].name in s.disk && s2.disk == s.disk[s.tab[x].name := s.tab[x].body]
    ensures s2.used == s.used && s2.saves == s.saves
  {
    assert InodeOk(s, x);
    s1 := Result(s, StartSave(x));
    StartSaveKeepsInv(s, x);
    assert s1.saves[|s.saves|].x == x && SaveOk(s1, s1.saves[|s.saves|]);
    OwnPlace(s1, s1.saves[|s.saves|]);
    s2 := Result(s1, FinishSave(|s.saves|));
    assert s2.saves == s.saves;
  }

  /** iput while others hold the inode, or with nothing left to write: it counts one less, and keeps its name and what
      is in it, for the next iget. */
  lemma IputLeaves(s: Table, x: nat, j: nat, s': Table)
    requires Inv(s) && Next(s, Put(x, j), s')
    ensures var i, i' := s.tab[x], s'.tab[x];
      i.count > 0 && i'.count == i.count - 1 && i'.name == i.name && i'.body == i.body && i'.dirt == i.dirt && !i'.lock
    ensures |s'.who[x]| == |s.who[x]| - 1 &&
      forall k :: 0 <= k < |s'.who[x]| ==> s'.who[x][k] == s.who[x][if k < j then k else k + 1]
    ensures OtherInodes(s, s', x) && s'.disk == s.disk && s'.used == s.used && s'.saves == s.saves
  {
  }

  /** iput by the last holder of an inode without links: the slot is unused and empty, and the number is free again. */
  lemma IputFrees(s: Table, x: nat, j: nat, s': Table)
    requires Inv(s) && Next(s, Free(x, j), s')
    ensures Unused(s', x) && s'.tab[x].name.dev == 0 && s'.who[x] == []
    ensures forall m: Name :: m in s'.used <==> m in s.used && m != s.tab[x].name
    ensures OtherInodes(s, s', x) && s'.disk == s.disk && s'.saves == s.saves
  {
    assert InodeOk(s, x);
  }
}
