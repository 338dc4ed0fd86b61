/** Which zones `truncate` gives back, and when none is lost. */
module Truncation {
  import opened BlockTree
  import opened FileBytes

  /** One of the first `i` entries of index block `z` names zone `w`. */
  ghost predicate Named(fs: Fs, z: nat, i: nat, w: nat)
    requires Shape(fs) && z < ZONES && i <= FANOUT
  {
    w != 0 && exists j: nat :: j < i && Entry(fs, z, j) == w
  }

  /** Zone `w` is index block `z` or is named by it. */
  ghost predicate InIndirect(fs: Fs, z: nat, w: nat)
    requires Shape(fs) && z < ZONES
  {
    z != 0 && (w == z || Named(fs, z, FANOUT, w))
  }

  /** Zone `w` is in the subtree of one of the first `i` entries of double index block `z`. */
  ghost predicate Under(fs: Fs, z: nat, i: nat, w: nat)
    requires Shape(fs) && z < ZONES && i <= FANOUT
  {
    exists j: nat :: j < i && InIndirect(fs, Entry(fs, z, j), w)
  }

  ghost predicate InDouble(fs: Fs, z: nat, w: nat)
    requires Shape(fs) && z < ZONES
  {
    z != 0 && (w == z || Under(fs, z, FANOUT, w))
  }

  /** One of the first `i` direct slots holds zone `w`. */
  ghost predicate InDirect(fs: Fs, n: nat, i: nat, w: nat)
    requires Shape(fs) && n < |fs.inodes| && i <= 7
  {
    w != 0 && exists j: nat :: j < i && fs.inodes[n].zone[j] == w
  }

  /** Zone `w` is held somewhere in the tree of inode `n`. */
  ghost predicate InTree(fs: Fs, n: nat, w: nat)
    requires Shape(fs) && n < |fs.inodes|
  {
    w != 0 && exists p :: IsPath(p) && Zone(fs, n, p) == w
  }

  ghost function NamedSet(fs: Fs, z: nat, i: nat): iset<nat>
    requires Shape(fs) && z < ZONES && i <= FANOUT
  {
    iset w: nat | Named(fs, z, i, w)
  }

  ghost function IndirectSet(fs: Fs, z: nat): iset<nat>
    requires Shape(fs) && z < ZONES
  {
    iset w: nat | InIndirect(fs, z, w)
  }

  ghost function UnderSet(fs: Fs, z: nat, i: nat): iset<nat>
    requires Shape(fs) && z < ZONES && i <= FANOUT
  {
    iset w: nat | Under(fs, z, i, w)
  }

  ghost function DoubleSet(fs: Fs, z: nat): iset<nat>
    requires Shape(fs) && z < ZONES
  {
    iset w: nat | InDouble(fs, z, w)
  }

  ghost function DirectSet(fs: Fs, n: nat, i: nat): iset<nat>
    requires Shape(fs) && n < |fs.inodes| && i <= 7
  {
    iset w: nat | InDirect(fs, n, i, w)
  }

  ghost function TreeSet(fs: Fs, n: nat): iset<nat>
    requires Shape(fs) && n < |fs.inodes|
  {
    iset w: nat | InTree(fs, n, w)
  }

  /** The tree of an inode is its direct zones, its indirect part and its double indirect part. */
  lemma TreeParts(fs: Fs, n: nat, w: nat)
    requires Shape(fs) && n < |fs.inodes| && fs.inodes[n].tree
    ensures InTree(fs, n, w) <==>
            InDirect(fs, n, 7, w) || InIndirect(fs, fs.inodes[n].zone[7], w) || InDouble(fs, fs.inodes[n].zone[8], w)
  {
    var a, b := fs.inodes[n].zone[7], fs.inodes[n].zone[8];
    if InTree(fs, n, w) {
      var p :| IsPath(p) && Zone(fs, n, p) == w;
      match p
      case Direct(i) => assert fs.inodes[n].zone[i] == w;
      case IndLeaf(j) => assert Entry(fs, a, j) == w;
      case DindMid(j) => assert Entry(fs, b, j) == w; assert InIndirect(fs, Entry(fs, b, j), w);
      case DindLeaf(j, k) => assert Entry(fs, Entry(fs, b, j), k) == w; assert InIndirect(fs, Entry(fs, b, j), w);
      case _ =>
    }
    if InDirect(fs, n, 7, w) {
      var i: nat :| i < 7 && fs.inodes[n].zone[i] == w;
      assert Zone(fs, n, Direct(i)) == w;
    }
    if InIndirect(fs, a, w) {
      assert Zone(fs, n, Ind) == a;
      if w != a {
        var j: nat :| j < FANOUT && Entry(fs, a, j) == w;
        assert Zone(fs, n, IndLeaf(j)) == w;
      }
    }
    if InDouble(fs, b, w) {
      assert Zone(fs, n, Dind) == b;
      if w != b {
        var j: nat :| j < FANOUT && InIndirect(fs, Entry(fs, b, j), w);
        MiddlePath(fs, n, j, w);
      }
    }
  }

  /** The zones of `s` whose buffer no other task holds: those `free_block` really clears. */
  ghost function Unheld(s: iset<nat>, busy: set<nat>): iset<nat> {
    iset w | w in s && w !in busy
  }

  /** The zones whose buffers are held, given the buffers' counts. */
  function Busy(counts: seq<nat>): set<nat> {
    set z: nat | z < |counts| && counts[z] > 0
  }

  /** The counts after free_block refused the held zones of `s`: it leaves each raised by one. */
  ghost function Raised(counts: seq<nat>, s: iset<nat>): (c: seq<nat>)
    ensures |c| == |counts|
  {
    seq(|counts|, z requires 0 <= z < |counts| => if z in s && counts[z] > 0 then counts[z] + 1 else counts[z])
  }

  lemma RaisedBusy(counts: seq<nat>, s: iset<nat>)
    ensures Busy(Raised(counts, s)) == Busy(counts)
  {
  }

  lemma RaisedNone(counts: seq<nat>)
    ensures Raised(counts, iset{}) == counts
  {
  }

  lemma RaisedTwice(counts: seq<nat>, s: iset<nat>, t: iset<nat>)
    requires forall w :: w in s ==> w !in t
    ensures Raised(Raised(counts, s), t) == Raised(counts, s + t)
  {
  }

  lemma AllUnheld(s: iset<nat>, s': iset<nat>, t: iset<nat>)
    ensures Unheld(s', {}) == Unheld(s, {}) + Unheld(t, {}) ==> s' == s + t
    ensures Unheld(s', {}) == Unheld(s, {}) + iset{} ==> s' == s
  {
    assert Unheld(s, {}) == s && Unheld(s', {}) == s' && Unheld(t, {}) == t;
  }

  /** The map with the bits of all zones of `s` cleared. */
  ghost function Freed(fs: Fs, s: iset<nat>): (fs': Fs)
    requires fs.geo.Valid()
    ensures |fs'.bits| == |fs.bits|
  {
    fs.(bits := seq(|fs.bits|, k requires 0 <= k < |fs.bits| =>
      fs.bits[k] && (k + fs.geo.firstDataZone - 1) !in s))
  }

  lemma FreedTwice(fs: Fs, s: iset<nat>, t: iset<nat>)
    requires fs.geo.Valid()
    ensures Freed(Freed(fs, s), t) == Freed(fs, s + t)
  {
    assert Freed(Freed(fs, s), t).bits == Freed(fs, s + t).bits;
  }

  lemma FreedNone(fs: Fs)
    requires fs.geo.Valid()
    ensures Freed(fs, iset{}) == fs
  {
    assert Freed(fs, iset{}).bits == fs.bits;
  }

  /** Freeing the next entry of an index block. */
  lemma NamedNext(fs: Fs, z: nat, i: nat, busy: set<nat>)
    requires Shape(fs) && z < ZONES && i < FANOUT
    ensures var p := Entry(fs, z, i);
            Unheld(NamedSet(fs, z, i + 1), busy) ==
            Unheld(NamedSet(fs, z, i), busy) + (if p == 0 then iset{} else Unheld(iset{p}, busy))
  {
    forall w: nat ensures Named(fs, z, i + 1, w) <==> Named(fs, z, i, w) || (w != 0 && w == Entry(fs, z, i)) {
      if Named(fs, z, i + 1, w) {
        var j: nat :| j < i + 1 && Entry(fs, z, j) == w;
      }
    }
  }

  /** Freeing the subtree of the next entry of a double index block. */
  lemma UnderNext(fs: Fs, z: nat, i: nat, busy: set<nat>)
    requires Shape(fs) && z < ZONES && i < FANOUT
    ensures Unheld(UnderSet(fs, z, i + 1), busy) ==
            Unheld(UnderSet(fs, z, i), busy) +
            Unheld(IndirectSet(fs, Entry(fs, z, i)), busy)
  {
    forall w: nat ensures Under(fs, z, i + 1, w) <==> Under(fs, z, i, w) || InIndirect(fs, Entry(fs, z, i), w) {
      if Under(fs, z, i + 1, w) {
        var j: nat :| j < i + 1 && InIndirect(fs, Entry(fs, z, j), w);
      }
    }
  }

  /** Clearing other zones' bits leaves a subtree freeable. */
  lemma StillFreeable(fs: Fs, z: nat, i: nat, busy: set<nat>)
    requires Shape(fs) && 0 < z < ZONES && FreeableDouble(fs, z) && i < FANOUT
    ensures var fs' := Freed(fs, Unheld(UnderSet(fs, z, i), busy));
            Shape(fs') && FreeableIndirect(fs', Entry(fs, z, i))
  {
    var fs' := Freed(fs, Unheld(UnderSet(fs, z, i), busy));
    var p := Entry(fs, z, i);
    forall w: nat | InIndirect(fs, p, w) ensures !Under(fs, z, i, w) {
    }
    forall j: nat | j < FANOUT ensures Entry(fs', p, j) == Entry(fs, p, j) {
    }
    forall j: nat | p != 0 && j < FANOUT && Entry(fs, p, j) != 0 ensures InIndirect(fs, p, Entry(fs, p, j)) {
    }
    assert p != 0 ==> InIndirect(fs, p, p);
  }

  lemma FreedSubtree(fs: Fs, z: nat, i: nat, busy: set<nat>)
    requires Shape(fs) && z < ZONES && i < FANOUT
    ensures var s := Unheld(UnderSet(fs, z, i), busy);
            var p := Entry(fs, z, i);
            Shape(Freed(fs, s)) &&
            Freed(Freed(fs, s), Unheld(IndirectSet(Freed(fs, s), p), busy)) ==
            Freed(fs, s + Unheld(IndirectSet(fs, p), busy))
  {
    var s := Unheld(UnderSet(fs, z, i), busy);
    var p := Entry(fs, z, i);
    var fs' := Freed(fs, s);
    forall j: nat | j < FANOUT ensures Entry(fs', p, j) == Entry(fs, p, j) {
    }
    assert IndirectSet(fs', p) == IndirectSet(fs, p);
    FreedTwice(fs, s, Unheld(IndirectSet(fs, p), busy));
  }

  /** The next subtree shares no zone with those before it. */
  lemma SubtreeApart(fs: Fs, z: nat, i: nat, busy: set<nat>)
    requires Shape(fs) && 0 < z < ZONES && FreeableDouble(fs, z) && i < FANOUT
    ensures forall w :: w in UnderSet(fs, z, i) ==> w !in IndirectSet(fs, Entry(fs, z, i))
    ensures Shape(Freed(fs, Unheld(UnderSet(fs, z, i), busy)))
    ensures IndirectSet(Freed(fs, Unheld(UnderSet(fs, z, i), busy)), Entry(fs, z, i)) == IndirectSet(fs,
      Entry(fs, z, i))
  {
    SameEntries(fs, Freed(fs, Unheld(UnderSet(fs, z, i), busy)), Entry(fs, z, i));
  }

  lemma DirectApart(fs: Fs, n: nat, i: nat)
    requires Inv(fs) && n < |fs.inodes| && fs.inodes[n].tree && i < 7
    ensures fs.inodes[n].zone[i] !in DirectSet(fs, n, i)
  {
    forall j: nat | j < i && fs.inodes[n].zone[j] != 0 ensures fs.inodes[n].zone[j] != fs.inodes[n].zone[i] {
      assert Zone(fs, n, Direct(j)) == fs.inodes[n].zone[j] && Zone(fs, n, Direct(i)) == fs.inodes[n].zone[i];
    }
  }

  /** The parts of a tree together: each held zone's count is raised once. */
  lemma AllRaised(fs: Fs, n: nat, counts: seq<nat>)
    requires Inv(fs) && n < |fs.inodes| && fs.inodes[n].tree
    ensures Raised(Raised(Raised(counts, DirectSet(fs, n, 7)), IndirectSet(fs, fs.inodes[n].zone[7])),
                   DoubleSet(fs, fs.inodes[n].zone[8])) == Raised(counts, TreeSet(fs, n))
  {
    var s, t, u := DirectSet(fs, n, 7), IndirectSet(fs, fs.inodes[n].zone[7]), DoubleSet(fs, fs.inodes[n].zone[8]);
    forall w: nat ensures !(w in s && w in t) && !(w in s + t && w in u) && (w in s + t + u <==> w in TreeSet(fs, n)) {
      PartsApart(fs, n, w);
      TreeParts(fs, n, w);
    }
    RaisedTwice(counts, s, t);
    RaisedTwice(counts, s + t, u);
    assert s + t + u == TreeSet(fs, n);
  }

  /** A block whose whole subtree can be given back: allocated data zones, none named twice. */
  ghost predicate FreeableBlock(fs: Fs, z: nat)
    requires Shape(fs)
  {
    fs.geo.InData(z) && Allocated(fs, z)
  }

  ghost predicate FreeableIndirect(fs: Fs, z: nat)
    requires Shape(fs) && z < ZONES
  {
    z != 0 ==>
      FreeableBlock(fs, z) &&
      (forall j: nat :: j < FANOUT && Entry(fs, z, j) != 0 ==>
        FreeableBlock(fs, Entry(fs, z, j)) && Entry(fs, z, j) != z) &&
      (forall j: nat, k: nat :: j < FANOUT && k < FANOUT && Entry(fs, z, j) == Entry(fs, z, k) != 0 ==> j == k)
  }

  ghost predicate FreeableDouble(fs: Fs, z: nat)
    requires Shape(fs) && z < ZONES
  {
    z != 0 ==>
      FreeableBlock(fs, z) &&
      (forall j: nat :: j < FANOUT ==> FreeableIndirect(fs, Entry(fs, z, j)) && !InIndirect(fs, Entry(fs, z, j), z)) &&
      (forall j: nat, k: nat, w: nat :: j < FANOUT && k < FANOUT && j != k && InIndirect(fs, Entry(fs, z, j), w) ==>
        !InIndirect(fs, Entry(fs, z, k), w))
  }

  /** The parts of the tree that `truncate` frees one after the other are freeable. */
  lemma TreeFreeable(fs: Fs, n: nat)
    requires Inv(fs) && n < |fs.inodes| && fs.inodes[n].tree
    ensures FreeableIndirect(fs, fs.inodes[n].zone[7]) && FreeableDouble(fs, fs.inodes[n].zone[8])
  {
    var a, b := fs.inodes[n].zone[7], fs.inodes[n].zone[8];
    assert Zone(fs, n, Ind) == a && Zone(fs, n, Dind) == b;
    forall j: nat | j < FANOUT ensures Entry(fs, a, j) == Zone(fs, n, IndLeaf(j)) {
    }
    forall j: nat | j < FANOUT
      ensures FreeableIndirect(fs, Entry(fs, b, j)) && (b != 0 ==> !InIndirect(fs, Entry(fs, b, j), b))
    {
      MiddleFreeable(fs, n, j);
    }
    forall j: nat, k: nat, w: nat | j < FANOUT && k < FANOUT && j != k && InIndirect(fs, Entry(fs, b, j), w)
      ensures !InIndirect(fs, Entry(fs, b, k), w)
    {
      MiddlePath(fs, n, j, w);
      MiddlePath(fs, n, k, w);
    }
  }

  lemma MiddleFreeable(fs: Fs, n: nat, j: nat)
    requires Inv(fs) && n < |fs.inodes| && fs.inodes[n].tree && j < FANOUT
    ensures var b := fs.inodes[n].zone[8];
            FreeableIndirect(fs, Entry(fs, b, j)) && (b != 0 ==> !InIndirect(fs, Entry(fs, b, j), b))
  {
    var b := fs.inodes[n].zone[8];
    var z := Entry(fs, b, j);
    assert Zone(fs, n, Dind) == b && Zone(fs, n, DindMid(j)) == z;
    forall k: nat | k < FANOUT ensures Entry(fs, z, k) == Zone(fs, n, DindLeaf(j, k)) {
    }
  }

  /** A zone under the `j`-th middle block is reached by a path through it. */
  lemma MiddlePath(fs: Fs, n: nat, j: nat, w: nat)
    requires Shape(fs) && n < |fs.inodes| && fs.inodes[n].tree && j < FANOUT
    ensures InIndirect(fs, Entry(fs, fs.inodes[n].zone[8], j), w) <==>
            w != 0 && (Zone(fs, n, DindMid(j)) == w || exists k: nat :: k < FANOUT && Zone(fs, n, DindLeaf(j, k)) == w)
  {
    var z := Entry(fs, fs.inodes[n].zone[8], j);
    forall k: nat | k < FANOUT ensures Entry(fs, z, k) == Zone(fs, n, DindLeaf(j, k)) {
    }
    if InIndirect(fs, z, w) && w != z {
      var k: nat :| k < FANOUT && Entry(fs, z, k) == w;
      assert Zone(fs, n, DindLeaf(j, k)) == w;
    }
    if k: nat :| k < FANOUT && Zone(fs, n, DindLeaf(j, k)) == w {
      assert Entry(fs, z, k) == w;
    }
  }

  /** The parts are pairwise disjoint. */
  lemma PartsApart(fs: Fs, n: nat, w: nat)
    requires Inv(fs) && n < |fs.inodes| && fs.inodes[n].tree
    ensures var a, b := fs.inodes[n].zone[7], fs.inodes[n].zone[8];
            !(InDirect(fs, n, 7, w) && InIndirect(fs, a, w)) &&
            !(InDirect(fs, n, 7, w) && InDouble(fs, b, w)) && !(InIndirect(fs, a, w) && InDouble(fs, b, w))
  {
    var a, b := fs.inodes[n].zone[7], fs.inodes[n].zone[8];
    ghost var d := InDirect(fs, n, 7, w);
    ghost var i := InIndirect(fs, a, w);
    ghost var m := InDouble(fs, b, w);
    assert d ==> exists p :: IsPath(p) && p.Direct? && Zone(fs, n, p) == w by {
      if d {
        var k: nat :| k < 7 && fs.inodes[n].zone[k] == w;
        assert Zone(fs, n, Direct(k)) == w;
      }
    }
    assert i ==> exists p :: IsPath(p) && (p.Ind? || p.IndLeaf?) && Zone(fs, n, p) == w by {
      if i {
        assert Zone(fs, n, Ind) == a;
        if w != a {
          var j: nat :| j < FANOUT && Entry(fs, a, j) == w;
          assert Zone(fs, n, IndLeaf(j)) == w;
        }
      }
    }
    assert m ==> w != 0 && exists p :: IsPath(p) && (p.Dind? || p.DindMid? || p.DindLeaf?) && Zone(fs, n, p) == w by {
      if m {
        assert Zone(fs, n, Dind) == b;
        if w != b {
          var j: nat :| j < FANOUT && InIndirect(fs, Entry(fs, b, j), w);
          MiddlePath(fs, n, j, w);
        }
      }
    }
  }

  function ClearDirect(inode: Inode, i: nat): Inode
    requires |inode.zone| == 9 && i <= 7
  {
    inode.(zone := seq(9, k requires 0 <= k < 9 => if k < i then 0 else inode.zone[k]))
  }

  lemma DirectStillAllocated(fs: Fs, n: nat, i: nat, busy: set<nat>)
    requires Inv(fs) && n < |fs.inodes| && fs.inodes[n].tree && i < 7 && fs.inodes[n].zone[i] != 0
    ensures fs.geo.InData(fs.inodes[n].zone[i])
    ensures Freed(fs, Unheld(DirectSet(fs, n, i), busy)).bits[fs.geo.Bit(fs.inodes[n].zone[i])]
  {
    var z := fs.inodes[n].zone[i];
    assert Zone(fs, n, Direct(i)) == z;
    forall j: nat | j < i ensures fs.inodes[n].zone[j] != z {
      assert Zone(fs, n, Direct(j)) == fs.inodes[n].zone[j];
    }
  }

  lemma DirectNext(fs: Fs, n: nat, i: nat, busy: set<nat>)
    requires Shape(fs) && n < |fs.inodes| && i < 7
    ensures Unheld(DirectSet(fs, n, i + 1), busy) == Unheld(DirectSet(fs, n, i), busy) +
            (if fs.inodes[n].zone[i] == 0 then iset{} else Unheld(iset{fs.inodes[n].zone[i]}, busy))
  {
    forall w: nat
      ensures InDirect(fs, n, i + 1, w) <==> InDirect(fs, n, i, w) || (w != 0 && w == fs.inodes[n].zone[i])
    {
      if InDirect(fs, n, i + 1, w) {
        var j: nat :| j < i + 1 && fs.inodes[n].zone[j] == w;
      }
    }
  }

  /** The state of `truncate` between its parts: some zones freed, the direct slots cleared. */
  ghost function Partly(fs: Fs, n: nat, s: iset<nat>): Fs
    requires Shape(fs) && n < |fs.inodes|
  {
    Freed(fs, s).(inodes := fs.inodes[n := ClearDirect(fs.inodes[n], 7)])
  }

  lemma SameEntries(fs: Fs, fs': Fs, z: nat)
    requires Shape(fs) && Shape(fs') && fs'.blocks == fs.blocks && z < ZONES
    ensures forall j: nat :: j < FANOUT ==> Entry(fs', z, j) == Entry(fs, z, j)
    ensures IndirectSet(fs', z) == IndirectSet(fs, z)
  {
  }

  lemma SameDouble(fs: Fs, fs': Fs, z: nat)
    requires Shape(fs) && Shape(fs') && fs'.blocks == fs.blocks && z < ZONES
    ensures DoubleSet(fs', z) == DoubleSet(fs, z)
  {
    SameEntries(fs, fs', z);
    forall w: nat ensures Under(fs', z, FANOUT, w) <==> Under(fs, z, FANOUT, w) {
      forall j: nat | j < FANOUT ensures InIndirect(fs', Entry(fs, z, j), w) == InIndirect(fs, Entry(fs, z, j), w) {
        SameEntries(fs, fs', Entry(fs, z, j));
      }
    }
  }

  /** After the direct zones the indirect part is still freeable. */
  lemma PartFreeable(fs: Fs, n: nat, busy: set<nat>)
    requires Inv(fs) && n < |fs.inodes| && fs.inodes[n].tree
    ensures var fs1 := Partly(fs, n, Unheld(DirectSet(fs, n, 7), busy)); var a := fs.inodes[n].zone[7];
            Shape(fs1) && FreeableIndirect(fs1, a) && IndirectSet(fs1, a) == IndirectSet(fs, a)
  {
    var fs1 := Partly(fs, n, Unheld(DirectSet(fs, n, 7), busy));
    var a := fs.inodes[n].zone[7];
    assert Shape(fs1);
    SameEntries(fs, fs1, a);
    TreeFreeable(fs, n);
    forall w: nat | InIndirect(fs, a, w) ensures !InDirect(fs, n, 7, w) {
      PartsApart(fs, n, w);
    }
    StaysFreeable(fs, fs1, a);
  }

  /** An indirect part stays freeable when none of its zones' bits changed. */
  lemma StaysFreeable(fs: Fs, fs': Fs, z: nat)
    requires Shape(fs) && Shape(fs') && fs'.blocks == fs.blocks && fs'.geo == fs.geo && z < ZONES
    requires FreeableIndirect(fs, z)
    requires forall w: nat :: InIndirect(fs, z, w) && fs.geo.InData(w) && Allocated(fs, w) ==> Allocated(fs', w)
    ensures FreeableIndirect(fs', z)
  {
    SameEntries(fs, fs', z);
    if z != 0 {
      assert InIndirect(fs, z, z);
      forall j: nat | j < FANOUT && Entry(fs, z, j) != 0 ensures InIndirect(fs, z, Entry(fs, z, j)) {
      }
    }
  }

  /** After the direct zones and the indirect part the double indirect part is still freeable. */
  lemma SecondPart(fs: Fs, n: nat, busy: set<nat>)
    requires Inv(fs) && n < |fs.inodes| && fs.inodes[n].tree
    ensures var s := Unheld(DirectSet(fs, n, 7), busy); var t := Unheld(IndirectSet(fs, fs.inodes[n].zone[7]), busy);
            var fs1 := Partly(fs, n, s); var fs2 := Partly(fs, n, s + t); var b := fs.inodes[n].zone[8];
            Shape(fs1) && Freed(fs1, t) == fs2 && Shape(fs2) && FreeableDouble(fs2, b) &&
              DoubleSet(fs2, b) == DoubleSet(fs, b)
  {
    var s := Unheld(DirectSet(fs, n, 7), busy);
    var t := Unheld(IndirectSet(fs, fs.inodes[n].zone[7]), busy);
    var fs2 := Partly(fs, n, s + t);
    var b := fs.inodes[n].zone[8];
    FreedTwice(fs, s, t);
    assert Freed(Partly(fs, n, s), t).bits == Freed(Freed(fs, s), t).bits;
    assert Shape(fs2);
    SameDouble(fs, fs2, b);
    SameEntries(fs, fs2, b);
    TreeFreeable(fs, n);
    forall w: nat | InDouble(fs, b, w) && fs.geo.InData(w) && Allocated(fs, w) ensures Allocated(fs2, w) {
      PartsApart(fs, n, w);
    }
    StaysFreeableDouble(fs, fs2, b);
  }

  lemma StaysFreeableDouble(fs: Fs, fs': Fs, z: nat)
    requires Shape(fs) && Shape(fs') && fs'.blocks == fs.blocks && fs'.geo == fs.geo && z < ZONES
    requires FreeableDouble(fs, z)
    requires forall w: nat :: InDouble(fs, z, w) && fs.geo.InData(w) && Allocated(fs, w) ==> Allocated(fs', w)
    ensures FreeableDouble(fs', z)
  {
    if z != 0 {
      SameEntries(fs, fs', z);
      assert InDouble(fs, z, z);
      forall j: nat | j < FANOUT
        ensures FreeableIndirect(fs', Entry(fs, z, j))
        ensures forall w: nat :: InIndirect(fs', Entry(fs, z, j), w) <==> InIndirect(fs, Entry(fs, z, j), w)
      {
        var p := Entry(fs, z, j);
        assert FreeableIndirect(fs, p);
        SameEntries(fs, fs', p);
        forall w: nat ensures InIndirect(fs', p, w) <==> InIndirect(fs, p, w) {
          assert w in IndirectSet(fs', p) <==> w in IndirectSet(fs, p);
        }
        forall w: nat | InIndirect(fs, p, w) ensures InDouble(fs, z, w) {
          assert Under(fs, z, FANOUT, w);
        }
        StaysFreeable(fs, fs', p);
      }
    }
  }

  /** The three parts together are the whole tree. */
  lemma AllParts(fs: Fs, n: nat, busy: set<nat>)
    requires Inv(fs) && n < |fs.inodes| && fs.inodes[n].tree
    ensures var s := Unheld(DirectSet(fs, n, 7), busy); var t := Unheld(IndirectSet(fs, fs.inodes[n].zone[7]), busy);
            var u := Unheld(DoubleSet(fs, fs.inodes[n].zone[8]), busy);
            Freed(Partly(fs, n, s + t), u).bits == Truncated(fs, n, busy).bits
  {
    var s := Unheld(DirectSet(fs, n, 7), busy);
    var t := Unheld(IndirectSet(fs, fs.inodes[n].zone[7]), busy);
    var u := Unheld(DoubleSet(fs, fs.inodes[n].zone[8]), busy);
    assert s + t + u == Unheld(TreeSet(fs, n), busy) by {
      forall w: nat ensures w in s + t + u <==> w in Unheld(TreeSet(fs, n), busy) {
        TreeParts(fs, n, w);
      }
    }
    FreedTwice(fs, s + t, u);
    assert Freed(Partly(fs, n, s + t), u).bits == Freed(Freed(fs, s + t), u).bits;
  }

  /** What `truncate` leaves: the tree's zones given back, except those another task holds, and an empty inode. */
  ghost function Truncated(fs: Fs, n: nat, busy: set<nat>): Fs
    requires Shape(fs) && n < |fs.inodes|
  {
    Freed(fs, Unheld(TreeSet(fs, n), busy))
      .(inodes := fs.inodes[n := Inode(true, seq(9, _ => 0), 0)])
  }

  /** Truncating empties one inode's tree and moves nothing in any other. */
  lemma TruncateZones(fs: Fs, n: nat, busy: set<nat>)
    requires Inv(fs) && n < |fs.inodes| && fs.inodes[n].tree
    ensures Inv(Truncated(fs, n, busy))
    ensures forall m: nat, q :: m < |fs.inodes| && IsPath(q) ==>
      Zone(Truncated(fs, n, busy), m, q) == if m == n then 0 else Zone(fs, m, q)
  {
    var fs' := Truncated(fs, n, busy);
    forall m: nat, q | m < |fs.inodes| && IsPath(q) ensures Zone(fs', m, q) == if m == n then 0 else Zone(fs, m, q) {
    }
    assert fs'.bits[0];
    forall m: nat, q | m < |fs.inodes| && IsPath(q) && Zone(fs', m, q) != 0
      ensures fs'.geo.InData(Zone(fs', m, q)) && Allocated(fs', Zone(fs', m, q))
    {
      assert !InTree(fs, n, Zone(fs, m, q));
    }
  }

  /** Exactly the zones of the tree that nobody holds are given back. */
  lemma TruncateFrees(fs: Fs, n: nat, busy: set<nat>, z: nat)
    requires Inv(fs) && n < |fs.inodes| && fs.inodes[n].tree && fs.geo.InData(z)
    ensures Shape(Truncated(fs, n, busy))
    ensures Allocated(Truncated(fs, n, busy), z) <==> Allocated(fs, z) && !(InTree(fs, n, z) && z !in busy)
  {
    TruncateZones(fs, n, busy);
  }

  /** No zone is lost by truncating exactly when no other task holds a buffer of the tree. */
  lemma TruncateConserves(fs: Fs, n: nat, busy: set<nat>)
    requires Inv(fs) && Conserved(fs) && n < |fs.inodes| && fs.inodes[n].tree
    ensures Shape(Truncated(fs, n, busy))
    ensures Conserved(Truncated(fs, n, busy)) <==> forall z: nat :: InTree(fs, n, z) ==> z !in busy
  {
    var fs' := Truncated(fs, n, busy);
    TruncateZones(fs, n, busy);
    forall z: nat | z in busy && InTree(fs, n, z) ensures !Conserved(fs') {
      var p :| IsPath(p) && Zone(fs, n, p) == z;
      TruncateFrees(fs, n, busy, z);
      forall m: nat, q | m < |fs.inodes| && IsPath(q) ensures Zone(fs', m, q) != z {
      }
    }
    if forall z: nat :: InTree(fs, n, z) ==> z !in busy {
      forall z: nat | fs.geo.InData(z) && Allocated(fs', z) ensures Reached(fs', z) {
        TruncateFrees(fs, n, busy, z);
        var m: nat, q :| m < |fs.inodes| && IsPath(q) && Zone(fs, m, q) == z;
        assert Zone(fs', m, q) == z;
      }
    }
  }

  /** The truncated file is empty; every other file is as it was. */
  lemma TruncateContent(fs: Fs, n: nat, busy: set<nat>)
    requires FileInv(fs) && n < |fs.inodes| && fs.inodes[n].tree
    ensures FileInv(Truncated(fs, n, busy)) && Content(Truncated(fs, n, busy), n) == []
    ensures forall m: nat :: m < |fs.inodes| && m != n ==> Content(Truncated(fs, n, busy), m) == Content(fs, m)
  {
    var fs' := Truncated(fs, n, busy);
    TruncateZones(fs, n, busy);
    forall m: nat, pos: nat | m < |fs.inodes| && pos < MAX_BYTES
      ensures ByteAt(fs', m, pos) == if m == n then 0 else ByteAt(fs, m, pos)
    {
      assert Zone(fs', m, PathOf(pos / BLOCK_SIZE)) == if m == n then 0 else Zone(fs, m, PathOf(pos / BLOCK_SIZE));
    }
    forall m: nat | m < |fs.inodes| && m != n ensures Content(fs', m) == Content(fs, m) {
    }
  }
}
