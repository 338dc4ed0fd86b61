/** How an inode reaches its blocks: seven direct zones, one indirect, one double indirect, over the zone bitmap. */
module BlockTree {

  const BLOCK_SIZE := 1024
  const FANOUT := 512                                       // zone numbers per index block
  const MAX_BLOCKS := 7 + FANOUT + FANOUT * FANOUT
  const ZONES := 0x10000                                    // zone numbers are unsigned shorts
  const MAP_BITS := 8192
  const MAP_SLOTS := 8

  type Block = seq<nat>

  ghost predicate IsBlock(b: Block) {
    |b| == BLOCK_SIZE && forall i :: 0 <= i < BLOCK_SIZE ==> b[i] < 256
  }

  function ZeroBlock(): (b: Block)
    ensures IsBlock(b) && forall i :: 0 <= i < BLOCK_SIZE ==> b[i] == 0
  {
    seq(BLOCK_SIZE, _ => 0)
  }

  /** ((unsigned short *) b)[i] */
  function Short(b: Block, i: nat): nat
    requires |b| == BLOCK_SIZE && i < FANOUT
  {
    b[2 * i] + 256 * b[2 * i + 1]
  }

  /** ((unsigned short *) b)[i] = v */
  function PutShort(b: Block, i: nat, v: nat): (b': Block)
    requires |b| == BLOCK_SIZE && i < FANOUT && v < ZONES
    ensures |b'| == BLOCK_SIZE
    ensures IsBlock(b) ==> IsBlock(b')
    ensures forall j: nat :: j < FANOUT ==> Short(b', j) == if j == i then v else Short(b, j)
  {
    b[2 * i := v % 256][2 * i + 1 := v / 256]
  }

  /** The super-block fields that number the zones. */
  datatype Geometry = Geometry(firstDataZone: nat, nZones: nat, mapBlocks: nat) {
    ghost predicate Valid() {
      1 <= firstDataZone <= nZones < ZONES && mapBlocks <= MAP_SLOTS && nZones - firstDataZone < mapBlocks * MAP_BITS
    }
    ghost predicate InData(z: int) { firstDataZone <= z < nZones }
    function Bit(z: int): int { z - (firstDataZone - 1) }
  }

  /** `tree` holds for regular files and directories: only their `zone` slots name data zones. */
  datatype Inode = Inode(tree: bool, zone: seq<nat>, size: nat)

  /** A device: bitmap, block contents as the buffer cache shows them, and its inodes. */
  datatype Fs = Fs(geo: Geometry, bits: seq<bool>, blocks: seq<Block>, inodes: seq<Inode>)

  /** Every place of an inode's tree that can hold a zone number. */
  datatype Path = Direct(i: nat) | Ind | IndLeaf(j: nat) | Dind | DindMid(j: nat) | DindLeaf(j: nat, k: nat)

  ghost predicate IsPath(p: Path) {
    match p
    case Direct(i) => i < 7
    case IndLeaf(j) => j < FANOUT
    case DindMid(j) => j < FANOUT
    case DindLeaf(j, k) => j < FANOUT && k < FANOUT
    case _ => true
  }

  ghost predicate IsIndex(p: Path) { p.Ind? || p.Dind? || p.DindMid? }

  ghost predicate Shape(fs: Fs) {
    fs.geo.Valid() && |fs.bits| == MAP_SLOTS * MAP_BITS && |fs.blocks| == ZONES &&
    (forall z :: 0 <= z < ZONES ==> IsBlock(fs.blocks[z])) &&
    (forall n :: 0 <= n < |fs.inodes| ==> IsInode(fs.inodes[n]))
  }

  ghost predicate IsInode(inode: Inode) {
    |inode.zone| == 9 && forall i :: 0 <= i < 9 ==> inode.zone[i] < ZONES
  }

  /** The zone number found in index block `z`, if there is such a block. */
  ghost function Entry(fs: Fs, z: nat, i: nat): (r: nat)
    requires Shape(fs) && i < FANOUT && z < ZONES
    ensures r < ZONES
  {
    if z == 0 then 0 else Short(fs.blocks[z], i)
  }

  /** The zone held at a place of the tree of inode `n`; 0 where there is none. */
  ghost function Zone(fs: Fs, n: nat, p: Path): (r: nat)
    requires Shape(fs) && n < |fs.inodes| && IsPath(p)
    ensures r < ZONES
  {
    var inode := fs.inodes[n];
    if !inode.tree then 0 else
    match p
    case Direct(i) => inode.zone[i]
    case Ind => inode.zone[7]
    case IndLeaf(j) => Entry(fs, inode.zone[7], j)
    case Dind => inode.zone[8]
    case DindMid(j) => Entry(fs, inode.zone[8], j)
    case DindLeaf(j, k) => Entry(fs, Entry(fs, inode.zone[8], j), k)
  }

  ghost predicate Allocated(fs: Fs, z: int)
    requires Shape(fs) && fs.geo.InData(z)
  {
    fs.bits[fs.geo.Bit(z)]
  }

  /** Every zone an inode reaches is an allocated data zone. */
  ghost predicate Owned(fs: Fs)
    requires Shape(fs)
  {
    forall n: nat, p :: n < |fs.inodes| && IsPath(p) && Zone(fs, n, p) != 0 ==>
      fs.geo.InData(Zone(fs, n, p)) && Allocated(fs, Zone(fs, n, p))
  }

  /** No zone is reached twice. */
  ghost predicate Distinct(fs: Fs)
    requires Shape(fs)
  {
    forall n: nat, p, m: nat, q ::
      n < |fs.inodes| && IsPath(p) && m < |fs.inodes| && IsPath(q) && Zone(fs, n, p) != 0 &&
        Zone(fs, n, p) == Zone(fs, m, q)
      ==> n == m && p == q
  }

  ghost predicate Inv(fs: Fs) {
    Shape(fs) && fs.bits[0] && Owned(fs) && Distinct(fs)
  }

  ghost predicate Reached(fs: Fs, z: nat)
    requires Shape(fs)
  {
    exists n: nat, p :: n < |fs.inodes| && IsPath(p) && Zone(fs, n, p) == z
  }

  /** No allocated data zone is lost: each is reached from some inode. */
  ghost predicate Conserved(fs: Fs)
    requires Shape(fs)
  {
    forall z: nat :: fs.geo.InData(z) && Allocated(fs, z) ==> Reached(fs, z)
  }

  /** The place of logical block `b`. */
  function PathOf(b: nat): (p: Path)
    requires b < MAX_BLOCKS
    ensures IsPath(p) && !IsIndex(p)
  {
    if b < 7 then Direct(b)
    else if b < 7 + FANOUT then IndLeaf(b - 7)
    else DindLeaf((b - 7 - FANOUT) / FANOUT, (b - 7 - FANOUT) % FANOUT)
  }

  /** Different logical blocks have different places. */
  lemma PathOfInjective(a: nat, b: nat)
    requires a < MAX_BLOCKS && b < MAX_BLOCKS && PathOf(a) == PathOf(b)
    ensures a == b
  {
  }

  ghost function Bmap(fs: Fs, n: nat, b: nat): (z: nat)
    requires Shape(fs) && n < |fs.inodes| && b < MAX_BLOCKS
    ensures z < ZONES
  {
    Zone(fs, n, PathOf(b))
  }

  function SetBlock(fs: Fs, z: nat, b: Block): Fs
    requires z < |fs.blocks|
  {
    fs.(blocks := fs.blocks[z := b])
  }

  /** Writing a block that holds no zone numbers moves no zone. */
  lemma ContentFrame(fs: Fs, z: nat, b: Block)
    requires Shape(fs) && z < ZONES && IsBlock(b)
    requires forall n: nat, p :: n < |fs.inodes| && IsPath(p) && IsIndex(p) && z != 0 ==> Zone(fs, n, p) != z
    ensures Shape(SetBlock(fs, z, b))
    ensures forall n: nat, p :: n < |fs.inodes| && IsPath(p) ==> Zone(SetBlock(fs, z, b), n, p) == Zone(fs, n, p)
  {
    var fs' := SetBlock(fs, z, b);
    forall n: nat, p | n < |fs.inodes| && IsPath(p) ensures Zone(fs', n, p) == Zone(fs, n, p) {
      match p
      case IndLeaf(j) => assert Zone(fs, n, Ind) != z || z == 0;
      case DindMid(j) => assert Zone(fs, n, Dind) != z || z == 0;
      case DindLeaf(j, k) =>
        assert Zone(fs, n, Dind) != z || z == 0;
        assert Zone(fs, n, DindMid(j)) != z || z == 0;
      case _ =>
    }
  }

  /** The index block that holds place `p`; 0 when `p` is in the inode itself. */
  ghost function Parent(fs: Fs, n: nat, p: Path): (r: nat)
    requires Shape(fs) && n < |fs.inodes| && IsPath(p)
    ensures r < ZONES
  {
    match p
    case IndLeaf(j) => Zone(fs, n, Ind)
    case DindMid(j) => Zone(fs, n, Dind)
    case DindLeaf(j, k) => Zone(fs, n, DindMid(j))
    case _ => 0
  }

  /** The place of that index block. */
  function Above(p: Path): Path {
    match p
    case IndLeaf(j) => Ind
    case DindMid(j) => Dind
    case DindLeaf(j, k) => DindMid(j)
    case _ => p
  }

  ghost predicate InInode(p: Path) { p.Direct? || p.Ind? || p.Dind? }

  /** The slot of place `p` in its inode, or in its index block. */
  function SlotOf(p: Path): nat {
    match p
    case Direct(i) => i
    case Ind => 7
    case IndLeaf(j) => j
    case Dind => 8
    case DindMid(j) => j
    case DindLeaf(j, k) => k
  }

  /** Storing zone `z` at place `p` of inode `n`. */
  ghost function Link(fs: Fs, n: nat, p: Path, z: nat): Fs
    requires Shape(fs) && n < |fs.inodes| && IsPath(p) && z < ZONES
  {
    if InInode(p) then
      var inode := fs.inodes[n];
      fs.(inodes := fs.inodes[n := inode.(zone := inode.zone[SlotOf(p) := z])])
    else
      SetBlock(fs, Parent(fs, n, p), PutShort(fs.blocks[Parent(fs, n, p)], SlotOf(p), z))
  }

  /** A place in an index block is a slot of its parent. */
  lemma LinkIsSlot(fs: Fs, n: nat, p: Path, parent: nat, k: nat, z: nat)
    requires Shape(fs) && n < |fs.inodes| && IsPath(p) && z < ZONES && !InInode(p)
    requires parent == Parent(fs, n, p) && k == SlotOf(p)
    ensures Link(fs, n, p, z) == fs.(blocks := fs.blocks[parent := PutShort(fs.blocks[parent], k, z)])
  {
  }

  lemma LinkShape(fs: Fs, n: nat, p: Path, z: nat)
    requires Shape(fs) && n < |fs.inodes| && IsPath(p) && z < ZONES
    ensures Shape(Link(fs, n, p, z))
  {
  }

  ghost predicate Linkable(fs: Fs, n: nat, p: Path, z: nat) {
    Inv(fs) && n < |fs.inodes| && IsPath(p) && 0 < z < ZONES && fs.inodes[n].tree &&
    Zone(fs, n, p) == 0 && (InInode(p) || Parent(fs, n, p) != 0) && !Reached(fs, z) && fs.blocks[z] == ZeroBlock()
  }

  /** Storing a fresh, zeroed zone at an empty place changes that place and no other. */
  lemma LinkZone(fs: Fs, n: nat, p: Path, z: nat, m: nat, q: Path)
    requires Linkable(fs, n, p, z) && m < |fs.inodes| && IsPath(q)
    ensures Shape(Link(fs, n, p, z))
    ensures Zone(Link(fs, n, p, z), m, q) == if m == n && q == p then z else Zone(fs, m, q)
  {
    LinkShape(fs, n, p, z);
    if InInode(p) {
      LinkInInode(fs, n, p, z, m, q);
    } else {
      LinkInBlock(fs, n, p, z, m, q);
    }
  }

  lemma LinkInInode(fs: Fs, n: nat, p: Path, z: nat, m: nat, q: Path)
    requires Linkable(fs, n, p, z) && m < |fs.inodes| && IsPath(q) && InInode(p)
    requires Shape(Link(fs, n, p, z))
    ensures Zone(Link(fs, n, p, z), m, q) == if m == n && q == p then z else Zone(fs, m, q)
  {
    forall j | 0 <= j < FANOUT ensures Short(fs.blocks[z], j) == 0 {
    }
  }

  lemma LinkInBlock(fs: Fs, n: nat, p: Path, z: nat, m: nat, q: Path)
    requires Linkable(fs, n, p, z) && m < |fs.inodes| && IsPath(q) && !InInode(p)
    requires Shape(Link(fs, n, p, z))
    ensures Zone(Link(fs, n, p, z), m, q) == if m == n && q == p then z else Zone(fs, m, q)
  {
    var par := Parent(fs, n, p);
    var up := Above(p);
    assert Zone(fs, n, up) == par;
    assert Zone(fs, m, Ind) == par ==> m == n && up == Ind;
    assert Zone(fs, m, Dind) == par ==> m == n && up == Dind;
    match q
    case DindLeaf(j, k) => DindLeafAfter(fs, n, p, z, m, j, k, up);
    case _ =>
  }

  lemma DindLeafAfter(fs: Fs, n: nat, p: Path, z: nat, m: nat, j: nat, k: nat, up: Path)
    requires Linkable(fs, n, p, z) && m < |fs.inodes| && j < FANOUT && k < FANOUT && !InInode(p)
    requires up == Above(p)
    requires Shape(Link(fs, n, p, z))
    ensures Zone(Link(fs, n, p, z), m, DindLeaf(j, k)) ==
      if m == n && p == DindLeaf(j, k) then z else Zone(fs, m, DindLeaf(j, k))
  {
    assert Zone(fs, n, up) == Parent(fs, n, p);
    assert Zone(fs, m, Dind) == Parent(fs, n, p) ==> m == n && up == Dind;
    assert Zone(fs, m, DindMid(j)) == Parent(fs, n, p) ==> m == n && up == DindMid(j);
    assert Short(fs.blocks[z], k) == 0;
  }

  /** Linking an allocated data zone keeps the invariant, and reaches exactly one zone more. */
  lemma LinkKeepsInv(fs: Fs, n: nat, p: Path, z: nat)
    requires Linkable(fs, n, p, z) && fs.geo.InData(z) && Allocated(fs, z)
    ensures Inv(Link(fs, n, p, z))
    ensures forall w: nat :: w != 0 ==> (Reached(Link(fs, n, p, z), w) <==> Reached(fs, w) || w == z)
  {
    var fs' := Link(fs, n, p, z);
    LinkShape(fs, n, p, z);
    forall m: nat, q | m < |fs.inodes| && IsPath(q)
      ensures Zone(fs', m, q) == if m == n && q == p then z else Zone(fs, m, q)
    {
      LinkZone(fs, n, p, z, m, q);
    }
    assert forall m: nat, q :: m < |fs.inodes| && IsPath(q) ==> Zone(fs, m, q) != z;
    LinkReaches(fs, fs', n, p, z);
  }

  lemma LinkReaches(fs: Fs, fs': Fs, n: nat, p: Path, z: nat)
    requires Shape(fs) && Shape(fs') && |fs'.inodes| == |fs.inodes| && n < |fs.inodes| && IsPath(p)
    requires Zone(fs, n, p) == 0
    requires forall m: nat, q :: m < |fs.inodes| && IsPath(q) ==>
      Zone(fs', m, q) == if m == n && q == p then z else Zone(fs, m, q)
    ensures forall w: nat :: w != 0 ==> (Reached(fs', w) <==> Reached(fs, w) || w == z)
  {
    forall w: nat | w != 0 ensures Reached(fs', w) <==> Reached(fs, w) || w == z {
      if Reached(fs, w) {
        var m: nat, q :| m < |fs.inodes| && IsPath(q) && Zone(fs, m, q) == w;
        assert Zone(fs', m, q) == w;
      }
      assert Zone(fs', n, p) == z;
      if Reached(fs', w) && w != z {
        var m: nat, q :| m < |fs.inodes| && IsPath(q) && Zone(fs', m, q) == w;
        assert Zone(fs, m, q) == w;
      }
    }
  }

  /** Bit `k` lies past the last zone and is now set. */
  ghost predicate LostBit(fs: Fs, fs': Fs, k: nat) {
    k < |fs.bits| && k + fs.geo.firstDataZone - 1 >= fs.geo.nZones && fs' == fs.(bits := fs.bits[k := true])
  }

  /** The effect of `new_block`: the lowest clear bit is set. Past the last zone, the bit is lost and nothing is
      allocated. */
  ghost predicate NewBlockStep(fs: Fs, fs': Fs, z: nat)
    requires Shape(fs)
  {
    if z == 0 then
      fs' == fs || exists k: nat :: LostBit(fs, fs', k)
    else
      fs.geo.InData(z) && !Allocated(fs, z) &&
      fs' == SetBlock(fs.(bits := fs.bits[fs.geo.Bit(z) := true]), z, ZeroBlock())
  }

  ghost predicate OnRoute(q: Path, p: Path) {
    q == p || (p.IndLeaf? && q == Ind) || (p.DindMid? && q == Dind) || (p.DindLeaf? && (q == Dind || q == DindMid(p.j)))
  }

  /** `fs'` is `fs` with some empty places on the way to place `p` of inode `n` filled by fresh zones;
      nothing else moved, and no block that held data changed. */
  ghost predicate Extends(fs: Fs, fs': Fs, n: nat, p: Path)
    requires Shape(fs)
  {
    Inv(fs') && fs'.geo == fs.geo && |fs'.inodes| == |fs.inodes| &&
    (forall m: nat :: m < |fs.inodes| ==>
      fs'.inodes[m].size == fs.inodes[m].size && fs'.inodes[m].tree == fs.inodes[m].tree) &&
    (forall m: nat, q :: m < |fs.inodes| && IsPath(q) ==>
      Zone(fs', m, q) == Zone(fs, m, q) || (m == n && OnRoute(q, p) && Zone(fs, m, q) == 0)) &&
    (forall m: nat, q :: m < |fs.inodes| && IsPath(q) && !IsIndex(q) && Zone(fs', m, q) != 0 ==>
      fs'.blocks[Zone(fs', m, q)] == if Zone(fs, m, q) != 0 then fs.blocks[Zone(fs, m, q)] else ZeroBlock()) &&
    (Conserved(fs) ==> Conserved(fs'))
  }

  lemma ExtendsRefl(fs: Fs, n: nat, p: Path)
    requires Inv(fs)
    ensures Extends(fs, fs, n, p)
  {
  }

  lemma ExtendsTrans(fs: Fs, fs1: Fs, fs2: Fs, n: nat, p: Path, q: Path)
    requires Inv(fs) && Extends(fs, fs1, n, q) && Extends(fs1, fs2, n, p) && OnRoute(q, p)
    requires forall r :: OnRoute(r, q) ==> OnRoute(r, p)
    ensures Extends(fs, fs2, n, p)
  {
    forall m: nat, r | m < |fs.inodes| && IsPath(r)
      ensures Zone(fs2, m, r) == Zone(fs, m, r) || (m == n && OnRoute(r, p) && Zone(fs, m, r) == 0)
      ensures !IsIndex(r) && Zone(fs2, m, r) != 0 ==>
        fs2.blocks[Zone(fs2, m, r)] == if Zone(fs, m, r) != 0 then fs.blocks[Zone(fs, m, r)] else ZeroBlock()
    {
      assert Zone(fs1, m, r) == Zone(fs, m, r) || (m == n && OnRoute(r, q) && Zone(fs, m, r) == 0);
      assert Zone(fs2, m, r) == Zone(fs1, m, r) || (m == n && OnRoute(r, p) && Zone(fs1, m, r) == 0);
    }
  }

  /** `new_block` hands out an unreached, zeroed, allocated data zone and moves nothing. */
  lemma NewBlockFresh(fs: Fs, fs': Fs, z: nat)
    requires Inv(fs) && NewBlockStep(fs, fs', z)
    ensures Inv(fs') && !(z != 0 && Reached(fs', z))
    ensures forall m: nat, q :: m < |fs.inodes| && IsPath(q) ==> Zone(fs', m, q) == Zone(fs, m, q)
    ensures forall m: nat, q :: m < |fs.inodes| && IsPath(q) && Zone(fs, m, q) != 0 ==>
      fs'.blocks[Zone(fs, m, q)] == fs.blocks[Zone(fs, m, q)]
    ensures forall w: nat :: Reached(fs', w) <==> Reached(fs, w)
    ensures Conserved(fs) ==> forall w: nat :: fs'.geo.InData(w) && Allocated(fs', w) && w != z ==> Reached(fs', w)
  {
    if z != 0 {
      var fs1 := fs.(bits := fs.bits[fs.geo.Bit(z) := true]);
      assert forall m: nat, q :: m < |fs.inodes| && IsPath(q) ==> Zone(fs1, m, q) == Zone(fs, m, q);
      assert !Reached(fs, z);
      ContentFrame(fs1, z, ZeroBlock());
    } else {
      assert forall m: nat, q :: m < |fs.inodes| && IsPath(q) ==> Zone(fs', m, q) == Zone(fs, m, q);
    }
    forall w: nat ensures Reached(fs', w) <==> Reached(fs, w) {
      if Reached(fs, w) {
        var m: nat, q :| m < |fs.inodes| && IsPath(q) && Zone(fs, m, q) == w;
        assert Zone(fs', m, q) == w;
      }
      if Reached(fs', w) {
        var m: nat, q :| m < |fs.inodes| && IsPath(q) && Zone(fs', m, q) == w;
        assert Zone(fs, m, q) == w;
      }
    }
  }

  lemma NoBlockExtends(fs: Fs, fs': Fs, n: nat, p: Path)
    requires Inv(fs) && NewBlockStep(fs, fs', 0)
    ensures Extends(fs, fs', n, p)
  {
    NewBlockFresh(fs, fs', 0);
  }

  /** One allocation on the way down: a fresh zone is stored at an empty place. */
  lemma AllocateExtends(fs: Fs, fs1: Fs, n: nat, p: Path, z: nat)
    requires Inv(fs) && NewBlockStep(fs, fs1, z) && z != 0
    requires n < |fs.inodes| && IsPath(p) && fs.inodes[n].tree && Zone(fs, n, p) == 0
    requires InInode(p) || Parent(fs, n, p) != 0
    ensures Shape(fs1) && z < ZONES && Extends(fs, Link(fs1, n, p, z), n, p)
    ensures Zone(Link(fs1, n, p, z), n, p) == z
  {
    NewBlockFresh(fs, fs1, z);
    assert Parent(fs1, n, p) == Parent(fs, n, p);
    LinkKeepsInv(fs1, n, p, z);
    var fs2 := Link(fs1, n, p, z);
    forall m: nat, q | m < |fs.inodes| && IsPath(q)
      ensures Zone(fs2, m, q) == if m == n && q == p then z else Zone(fs, m, q)
      ensures !IsIndex(q) && Zone(fs2, m, q) != 0 ==>
        fs2.blocks[Zone(fs2, m, q)] == if Zone(fs, m, q) != 0 then fs.blocks[Zone(fs, m, q)] else ZeroBlock()
    {
      LinkZone(fs1, n, p, z, m, q);
      if !IsIndex(q) {
        LinkTouches(fs1, n, p, z, m, q);
      }
    }
  }

  /** Linking writes only an index block or an inode, never a block that holds data. */
  lemma LinkTouches(fs: Fs, n: nat, p: Path, z: nat, m: nat, q: Path)
    requires Linkable(fs, n, p, z) && m < |fs.inodes| && IsPath(q) && !IsIndex(q)
    ensures Zone(fs, m, q) != 0 ==> Link(fs, n, p, z).blocks[Zone(fs, m, q)] == fs.blocks[Zone(fs, m, q)]
    ensures Link(fs, n, p, z).blocks[z] == fs.blocks[z]
  {
    if !InInode(p) {
      var up := Above(p);
      assert Zone(fs, n, up) == Parent(fs, n, p) && IsIndex(up);
    }
  }
}
