/** A directory's blocks of 16-byte entries, as a map from names of up to 14 characters to inode numbers. */
module Directory {
  const NAME_LEN := 14
  const ENTRIES_PER_BLOCK := 64

  type Key = string

  const DOT: Key := "."
  const DOTDOT: Key := ".."

  datatype Entry = Entry(inode: nat, name: string)

  /** The characters of an entry's name, up to a null. */
  function KeyOf(name: string): (k: Key)
    ensures |k| <= |name| && k == name[..|k|] && '\0' !in k && (|k| < |name| ==> name[|k|] == '\0')
  {
    if name == [] || name[0] == '\0' then [] else [name[0]] + KeyOf(name[1..])
  }

  /** What counts of a name given by a caller. */
  function Cut(name: string): string {
    if |name| > NAME_LEN then name[..NAME_LEN] else name
  }

  function Padded(k: Key): string
    requires |k| <= NAME_LEN
  {
    k + seq(NAME_LEN - |k|, _ => '\0')
  }

  predicate EntryOk(e: Entry) { |e.name| == NAME_LEN }

  /** match */
  predicate Match(len: nat, name: string, e: Entry)
    requires len <= |name| && EntryOk(e)
  {
    e.inode != 0 && len <= NAME_LEN && (len < NAME_LEN ==> e.name[len] == '\0') && name[..len] == e.name[..len]
  }

  /** The name ends at its first null. */
  lemma {:induction false} KeyEnds(name: string, n: nat)
    requires n <= |name| && '\0' !in name[..n] && (n < |name| ==> name[n] == '\0')
    ensures KeyOf(name) == name[..n]
  {
    if n > 0 {
      assert name[..n][0] == name[0];
      assert name[1..][..n - 1] == name[..n][1..];
      KeyEnds(name[1..], n - 1);
      assert name[..n] == [name[0]] + name[1..][..n - 1];
    }
  }

  /** It compares whole names: neither a longer nor a shorter one will do. */
  lemma MatchIsSameName(len: nat, name: string, e: Entry)
    requires len <= |name| && len <= NAME_LEN && EntryOk(e) && '\0' !in name
    ensures Match(len, name, e) <==> e.inode != 0 && KeyOf(e.name) == name[..len]
  {
    if Match(len, name, e) {
      assert '\0' !in name[..len];
      KeyEnds(e.name, len);
    }
  }

  lemma PaddedKey(k: Key)
    requires |k| <= NAME_LEN && '\0' !in k
    ensures |Padded(k)| == NAME_LEN && KeyOf(Padded(k)) == k
  {
    assert Padded(k)[..|k|] == k;
    KeyEnds(Padded(k), |k|);
  }

  // ----- The map

  /** Entry `i` is in use, under this name. */
  predicate Live(es: seq<Entry>, i: nat, k: Key) {
    i < |es| && es[i].inode != 0 && KeyOf(es[i].name) == k
  }

  ghost predicate Has(es: seq<Entry>, k: Key) {
    exists i: nat :: Live(es, i, k)
  }

  /** No name is there twice. */
  ghost predicate Distinct(es: seq<Entry>) {
    forall i: nat, j: nat :: i < |es| && j < |es| && es[i].inode != 0 && es[j].inode != 0 &&
      KeyOf(es[i].name) == KeyOf(es[j].name)
      ==> i == j
  }

  ghost function At(es: seq<Entry>, k: Key): (i: nat)
    requires Has(es, k)
    ensures Live(es, i, k)
  {
    var i: nat :| Live(es, i, k); i
  }

  ghost function Keys(es: seq<Entry>): (ks: set<Key>)
    ensures forall k: Key :: k in ks <==> Has(es, k)
  {
    var ks := set i: nat | i < |es| && es[i].inode != 0 :: KeyOf(es[i].name);
    assert forall k: Key :: Has(es, k) ==> (var i := At(es, k); es[i].inode != 0 && KeyOf(es[i].name) in ks);
    assert forall i: nat :: i < |es| && es[i].inode != 0 ==> Live(es, i, KeyOf(es[i].name));
    ks
  }

  /** The directory as its callers see it. */
  ghost function AsMap(es: seq<Entry>): (m: map<Key, nat>)
    ensures forall k: Key :: k in m <==> Has(es, k)
    ensures forall k: Key :: k in m ==> m[k] == es[At(es, k)].inode
  {
    map k | k in Keys(es) :: es[At(es, k)].inode
  }

  lemma AsMapAt(es: seq<Entry>, i: nat, k: Key)
    requires Distinct(es) && Live(es, i, k)
    ensures k in AsMap(es) && AsMap(es)[k] == es[i].inode
  {
    assert Live(es, At(es, k), k);
  }

  /** The directory gives inode `v` for the name `k`. */
  ghost predicate Gives(es: seq<Entry>, k: Key, v: nat) {
    exists i: nat :: Live(es, i, k) && es[i].inode == v
  }

  lemma AsMapGives(es: seq<Entry>, k: Key, v: nat)
    requires Distinct(es)
    ensures Gives(es, k, v) <==> k in AsMap(es) && AsMap(es)[k] == v
  {
    if Gives(es, k, v) {
      var i: nat :| Live(es, i, k) && es[i].inode == v;
      AsMapAt(es, i, k);
    }
  }

  lemma SameMap(es: seq<Entry>, m: map<Key, nat>)
    requires Distinct(es)
    requires forall k: Key, v: nat :: Gives(es, k, v) <==> k in m && m[k] == v
    ensures AsMap(es) == m
  {
    forall k: Key ensures k in AsMap(es) <==> k in m {
      if k in m { AsMapGives(es, k, m[k]); assert Gives(es, k, m[k]); }
      if k in AsMap(es) { AsMapGives(es, k, AsMap(es)[k]); }
    }
    forall k: Key | k in m ensures AsMap(es)[k] == m[k] {
      AsMapGives(es, k, m[k]);
      assert Gives(es, k, m[k]);
    }
  }

  /** Entry `i`, free before or just appended, is now `ino` under a new name. */
  ghost predicate Entered(es: seq<Entry>, es': seq<Entry>, i: nat, k: Key, ino: nat) {
    i <= |es| && |es'| == (if i < |es| then |es| else |es| + 1) && (i < |es| ==> es[i].inode == 0) &&
    ino != 0 && Live(es', i, k) && es'[i].inode == ino && forall j: nat :: j < |es| && j != i ==> es'[j] == es[j]
  }

  lemma EnterGives(es: seq<Entry>, es': seq<Entry>, i: nat, k: Key, ino: nat, q: Key, v: nat)
    requires Entered(es, es', i, k, ino) && !Has(es, k)
    ensures Gives(es', q, v) <==> if q == k then v == ino else Gives(es, q, v)
  {
    if Gives(es', q, v) {
      var j: nat :| Live(es', j, q) && es'[j].inode == v;
      if j != i {
        assert Live(es, j, q);
      }
    }
    if Gives(es, q, v) {
      var j: nat :| Live(es, j, q) && es[j].inode == v;
      assert Live(es', j, q);
    }
  }

  /** A free entry, or the one behind the last, takes a new name: the map gets one more. */
  lemma EnterMap(es: seq<Entry>, es': seq<Entry>, i: nat, k: Key, ino: nat)
    requires Distinct(es) && Entered(es, es', i, k, ino) && !Has(es, k)
    ensures Distinct(es') && AsMap(es') == AsMap(es)[k := ino]
  {
    forall j: nat | j < |es| && j != i && es[j].inode != 0 ensures KeyOf(es[j].name) != k {
      assert !Live(es, j, k);
    }
    forall q: Key, v: nat ensures Gives(es', q, v) <==> q in AsMap(es)[k := ino] && AsMap(es)[k := ino][q] == v {
      EnterGives(es, es', i, k, ino, q, v);
      AsMapGives(es, q, v);
    }
    SameMap(es', AsMap(es)[k := ino]);
  }

  lemma ClearGives(es: seq<Entry>, i: nat, k: Key, q: Key, v: nat)
    requires Distinct(es) && Live(es, i, k)
    ensures Gives(es[i := es[i].(inode := 0)], q, v) <==> q != k && Gives(es, q, v)
  {
    var es' := es[i := es[i].(inode := 0)];
    if Gives(es', q, v) {
      var j: nat :| Live(es', j, q) && es'[j].inode == v;
      assert Live(es, j, q);
    }
    if q != k && Gives(es, q, v) {
      var j: nat :| Live(es, j, q) && es[j].inode == v;
      assert Live(es', j, q);
    }
  }

  /** Clearing the inode number of an entry takes its name out of the map. */
  lemma ClearMap(es: seq<Entry>, i: nat, k: Key)
    requires Distinct(es) && Live(es, i, k)
    ensures Distinct(es[i := es[i].(inode := 0)])
    ensures AsMap(es[i := es[i].(inode := 0)]) == AsMap(es) - {k}
  {
    var es', m' := es[i := es[i].(inode := 0)], AsMap(es) - {k};
    forall q: Key, v: nat ensures Gives(es', q, v) <==> q in m' && m'[q] == v {
      ClearGives(es, i, k, q, v);
      AsMapGives(es, q, v);
    }
    SameMap(es', m');
  }

  // ----- The code over the directory's blocks

  ghost predicate BlocksOk(blocks: seq<seq<Entry>>) {
    forall b :: 0 <= b < |blocks| ==> |blocks[b]| == ENTRIES_PER_BLOCK && forall e :: 0 <= e < ENTRIES_PER_BLOCK ==>
      EntryOk(blocks[b][e])
  }

  /** The first `n` entries of the blocks, one after the other. */
  ghost function Flat(blocks: seq<seq<Entry>>, n: nat): (es: seq<Entry>)
    requires BlocksOk(blocks) && n <= |blocks| * ENTRIES_PER_BLOCK
  {
    seq(n, i requires 0 <= i < n => blocks[i / ENTRIES_PER_BLOCK][i % ENTRIES_PER_BLOCK])
  }

  lemma FlatAt(blocks: seq<seq<Entry>>, n: nat, b: nat, d: nat, i: nat)
    requires BlocksOk(blocks) && n <= |blocks| * ENTRIES_PER_BLOCK
    requires i == b * ENTRIES_PER_BLOCK + d && d < ENTRIES_PER_BLOCK && i < n
    ensures b < |blocks| && Flat(blocks, n)[i] == blocks[b][d]
  {
    assert i / ENTRIES_PER_BLOCK == b && i % ENTRIES_PER_BLOCK == d;
  }

  /** One more block behind changes none of the entries. */
  lemma FlatMore(blocks: seq<seq<Entry>>, x: seq<Entry>, n: nat)
    requires BlocksOk(blocks) && BlocksOk(blocks + [x]) && n <= |blocks| * ENTRIES_PER_BLOCK
    ensures Flat(blocks + [x], n) == Flat(blocks, n)
  {
  }

  /** One entry more, at the end. */
  lemma FlatNext(blocks: seq<seq<Entry>>, n: nat)
    requires BlocksOk(blocks) && n < |blocks| * ENTRIES_PER_BLOCK
    ensures Flat(blocks, n + 1)[..n] == Flat(blocks, n)
  {
  }

  lemma FlatSet(blocks: seq<seq<Entry>>, n: nat, b: nat, d: nat, i: nat, e: Entry)
    requires BlocksOk(blocks) && n <= |blocks| * ENTRIES_PER_BLOCK && EntryOk(e)
    requires i == b * ENTRIES_PER_BLOCK + d && d < ENTRIES_PER_BLOCK && i < n && b < |blocks|
    ensures BlocksOk(blocks[b := blocks[b][d := e]])
    ensures Flat(blocks[b := blocks[b][d := e]], n) == Flat(blocks, n)[i := e]
  {
    var was, now := Flat(blocks, n)[i := e], Flat(blocks[b := blocks[b][d := e]], n);
    forall k | 0 <= k < n ensures now[k] == was[k] {
      assert k == (k / ENTRIES_PER_BLOCK) * ENTRIES_PER_BLOCK + k % ENTRIES_PER_BLOCK;
    }
  }

  const FREE := Entry(0, seq(NAME_LEN, _ => '\0'))

  class Dir {
    var blocks: seq<seq<Entry>>   // the data blocks; a directory has no holes
    var size: nat                 // i_size, counted in entries
    var room: nat                 // blocks the device can still give

    ghost predicate Valid()
      reads this
    {
      BlocksOk(blocks) && blocks != [] && size <= |blocks| * ENTRIES_PER_BLOCK
    }

    ghost function Slots(): seq<Entry>
      requires Valid()
      reads this
    {
      Flat(blocks, size)
    }

    /** The one block that mkdir writes into a new directory. */
    constructor (num: nat, parent: nat, spare: nat)
      requires num != 0 && parent != 0
      ensures Valid() && Dotted(Slots(), num) && Distinct(Slots())
      ensures AsMap(Slots()) == map[DOT := num, DOTDOT := parent]
    {
      blocks := [[Entry(num, Padded(DOT)), Entry(parent, Padded(DOTDOT))] + seq(ENTRIES_PER_BLOCK - 2, _ => FREE)];
      size, room := 2, spare;
      new;
      PaddedKey(DOT);
      PaddedKey(DOTDOT);
      FlatAt(blocks, size, 0, 0, 0);
      FlatAt(blocks, size, 0, 1, 1);
      DotsMap(Slots(), num, parent);
    }

    /** find_entry, '..' being like any other name here. */
    method FindEntry(name: string) returns (at: int)
      requires Valid() && '\0' !in name
      ensures at == -1 <==> name == [] || !Has(Slots(), Cut(name))
      ensures at != -1 ==> 0 <= at && Live(Slots(), at, Cut(name))
      ensures at != -1 ==> forall i: nat :: i < at ==> !Live(Slots(), i, Cut(name))
    {
      if |name| == 0 {
        return -1;
      }
      ghost var es, k := Slots(), Cut(name);
      var len := |Cut(name)|;
      assert name[..len] == k;
      var i: nat, b: nat, d: nat := 0, 0, 0;
      while i < size
        invariant i <= size && d <= ENTRIES_PER_BLOCK && i == b * ENTRIES_PER_BLOCK + d
        invariant forall m: nat :: m < i ==> !Live(es, m, k)
      {
        if d >= ENTRIES_PER_BLOCK {
          b, d := i / ENTRIES_PER_BLOCK, 0;
        }
        FlatAt(blocks, size, b, d, i);
        MatchIsSameName(len, name, blocks[b][d]);
        if Match(len, name, blocks[b][d]) {
          assert Live(es, i, k);
          return i;
        }
        d, i := d + 1, i + 1;
      }
      return -1;
    }

    /** add_entry: the first free entry, or one more at the end, gets the name; its inode number is still 0. */
    method AddEntry(name: string) returns (at: int)
      requires Valid()
      modifies this
      ensures Valid()
      ensures at == -1 <==> name == [] || old(AllInUse(Slots()) && size == |blocks| * ENTRIES_PER_BLOCK && room == 0)
      ensures at == -1 ==> Slots() == old(Slots())
      ensures at != -1 ==> 0 <= at && Added(old(Slots()), Slots(), at, Entry(0, Padded(Cut(name))))
    {
      if |name| == 0 {
        return -1;
      }
      var e := Entry(0, Padded(Cut(name)));
      var i: nat, b: nat, d: nat := 0, 0, 0;
      ghost var es := Slots();
      while true
        invariant Valid() && size == old(size) == |es| && blocks == old(blocks) && room == old(room) && Slots() == es
        invariant i <= size && d <= ENTRIES_PER_BLOCK && i == b * ENTRIES_PER_BLOCK + d && b < |blocks|
        invariant forall m: nat :: m < i ==> es[m].inode != 0
        decreases size - i
      {
        if d >= ENTRIES_PER_BLOCK {
          b, d := i / ENTRIES_PER_BLOCK, 0;
          if b >= |blocks| {
            if room == 0 {
              return -1;
            }
            NewBlock();
          }
        }
        if i >= size {
          Append(b, d, e);
          return i;
        }
        FlatAt(blocks, size, b, d, i);
        if blocks[b][d].inode == 0 {
          SetEntry(b, d, e);
          return i;
        }
        d, i := d + 1, i + 1;
      }
    }

    /** What link, open and mknod do with a name that find_entry did not find: add_entry, and at once the inode
        number. */
    method Enter(name: string, ino: nat) returns (ok: bool)
      requires Valid() && '\0' !in name && name != [] && ino != 0
      requires Distinct(Slots()) && !Has(Slots(), Cut(name))
      modifies this
      ensures Valid() && Distinct(Slots())
      ensures AsMap(Slots()) == if ok then old(AsMap(Slots()))[Cut(name) := ino] else old(AsMap(Slots()))
      ensures !ok ==> old(AllInUse(Slots()) && room == 0)
    {
      ghost var es := Slots();
      var at := AddEntry(name);
      if at == -1 {
        return false;
      }
      ghost var named := Slots();
      FlatAt(blocks, size, at / ENTRIES_PER_BLOCK, at % ENTRIES_PER_BLOCK, at);
      SetEntry(at / ENTRIES_PER_BLOCK, at % ENTRIES_PER_BLOCK,
               blocks[at / ENTRIES_PER_BLOCK][at % ENTRIES_PER_BLOCK].(inode := ino));
      PaddedKey(Cut(name));
      assert Entered(es, Slots(), at, Cut(name), ino);
      EnterMap(es, Slots(), at, Cut(name), ino);
      return true;
    }

    /** unlink and rmdir clear the inode number of the entry that find_entry found. */
    method Clear(at: nat, ghost k: Key)
      requires Valid() && Distinct(Slots()) && Live(Slots(), at, k)
      modifies this`blocks
      ensures Valid() && Distinct(Slots()) && AsMap(Slots()) == old(AsMap(Slots())) - {k}
    {
      ghost var es := Slots();
      FlatAt(blocks, size, at / ENTRIES_PER_BLOCK, at % ENTRIES_PER_BLOCK, at);
      SetEntry(at / ENTRIES_PER_BLOCK, at % ENTRIES_PER_BLOCK,
               blocks[at / ENTRIES_PER_BLOCK][at % ENTRIES_PER_BLOCK].(inode := 0));
      ClearMap(es, at, k);
    }

    /** empty_dir */
    method EmptyDir(num: nat) returns (r: bool)
      requires Valid()
      ensures r <==> Dotted(Slots(), num) && forall i :: 2 <= i < size ==> Slots()[i].inode == 0
    {
      if size < 2 {
        return false;
      }
      ghost var es := Slots();
      FlatAt(blocks, size, 0, 0, 0);
      FlatAt(blocks, size, 0, 1, 1);
      if blocks[0][0].inode != num || blocks[0][1].inode == 0 ||
         KeyOf(blocks[0][0].name) != DOT || KeyOf(blocks[0][1].name) != DOTDOT {
        return false;
      }
      var nr: nat, b: nat, d: nat := 2, 0, 2;
      while nr < size
        invariant 2 <= nr <= size && d <= ENTRIES_PER_BLOCK && nr == b * ENTRIES_PER_BLOCK + d
        invariant forall i :: 2 <= i < nr ==> es[i].inode == 0
      {
        if d >= ENTRIES_PER_BLOCK {
          b, d := nr / ENTRIES_PER_BLOCK, 0;
        }
        FlatAt(blocks, size, b, d, nr);
        if blocks[b][d].inode != 0 {
          return false;
        }
        d, nr := d + 1, nr + 1;
      }
      return true;
    }

    /** create_block for the block behind the last. */
    method NewBlock()
      requires Valid() && room > 0
      modifies this`blocks, this`room
      ensures Valid() && |blocks| == |old(blocks)| + 1 && Slots() == old(Slots())
    {
      FlatMore(blocks, seq(ENTRIES_PER_BLOCK, _ => FREE), size);
      blocks, room := blocks + [seq(ENTRIES_PER_BLOCK, _ => FREE)], room - 1;
    }

    /** The directory grows by one entry. */
    method Append(b: nat, d: nat, e: Entry)
      requires Valid() && b < |blocks| && d < ENTRIES_PER_BLOCK && b * ENTRIES_PER_BLOCK + d == size && EntryOk(e)
      modifies this`blocks, this`size
      ensures Valid() && |blocks| == |old(blocks)| && Slots() == old(Slots()) + [e]
    {
      FlatNext(blocks, size);
      size := size + 1;
      ghost var es := Slots();
      SetEntry(b, d, e);
      assert es[size - 1 := e] == es[..size - 1] + [e];
    }

    /** One entry is written in place. */
    method SetEntry(b: nat, d: nat, e: Entry)
      requires Valid() && b < |blocks| && d < ENTRIES_PER_BLOCK && b * ENTRIES_PER_BLOCK + d < size && EntryOk(e)
      modifies this`blocks
      ensures Valid() && |blocks| == |old(blocks)|
      ensures Slots() == old(Slots())[b * ENTRIES_PER_BLOCK + d := e]
    {
      FlatSet(blocks, size, b, d, b * ENTRIES_PER_BLOCK + d, e);
      blocks := blocks[b := blocks[b][d := e]];
    }
  }

  /** The first two entries are '.', naming the directory itself, and '..'. */
  ghost predicate Dotted(es: seq<Entry>, num: nat) {
    |es| >= 2 && es[0].inode == num && es[1].inode != 0 && KeyOf(es[0].name) == DOT && KeyOf(es[1].name) == DOTDOT
  }

  lemma DotsMap(es: seq<Entry>, num: nat, parent: nat)
    requires Dotted(es, num) && |es| == 2 && num != 0 && es[1].inode == parent
    ensures Distinct(es) && AsMap(es) == map[DOT := num, DOTDOT := parent]
  {
    assert Live(es, 0, DOT) && Live(es, 1, DOTDOT);
    assert Distinct(es);
    AsMapAt(es, 0, DOT);
    AsMapAt(es, 1, DOTDOT);
    assert AsMap(es).Keys == {DOT, DOTDOT};
  }

  /** What empty_dir looks for is that only '.' and '..' are in the directory. */
  lemma EmptyIsDotsOnly(es: seq<Entry>, num: nat)
    requires Distinct(es) && Dotted(es, num) && num != 0
    ensures (forall i :: 2 <= i < |es| ==> es[i].inode == 0) <==> AsMap(es).Keys == {DOT, DOTDOT}
  {
    assert Live(es, 0, DOT) && Live(es, 1, DOTDOT);
    if forall i :: 2 <= i < |es| ==> es[i].inode == 0 {
      forall k: Key ensures k in AsMap(es) <==> k == DOT || k == DOTDOT {}
    } else {
      var i :| 2 <= i < |es| && es[i].inode != 0;
      assert Live(es, i, KeyOf(es[i].name));
      assert KeyOf(es[i].name) in AsMap(es);
    }
  }

  ghost predicate AllInUse(es: seq<Entry>) {
    forall i :: 0 <= i < |es| ==> es[i].inode != 0
  }

  /** The first free entry of the directory, or one more at its end, is now `e`. */
  ghost predicate Added(es: seq<Entry>, es': seq<Entry>, at: nat, e: Entry) {
    AllInUse(es[..if at < |es| then at else |es|]) &&
    if at < |es| then es[at].inode == 0 && es' == es[at := e] else at == |es| && es' == es + [e]
  }
}
