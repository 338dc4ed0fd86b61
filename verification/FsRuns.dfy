/** Whole histories of a device: allocations, block writes and truncations, in any order, on any files, by tasks that
    sleep inside `create_block`. */
module FsRuns {
  import opened BlockTree
  import opened FileBytes
  import opened Links
  import opened Truncation

  /** A task inside new_block, waiting for the buffer of zone `z`: it found place `p` of inode `n` empty, in the inode
      or in index block `parent`, and the zone's bit is set. */
  datatype Pending = Pending(n: nat, p: Path, parent: nat, z: nat)

  datatype Run = Run(fs: Fs, pending: seq<Pending>)

  datatype Event =
    | Allocate(n: nat, p: Path, z: nat)     // _bmap finds place p of inode n empty; new_block sets the bit of z
    | Waste(n: nat, bit: nat)                        // new_block takes a bit past the last zone
    | Store(n: nat, j: nat)                          // new_block has its buffer, clears it, and _bmap stores the zone
    | Fill(n: nat, pos: nat, data: seq<nat>)         // file_write copies into one mapped block
    | Cut(n: nat, busy: set<nat>)                    // truncate, while other tasks hold the buffers `busy`

  // ----- The invariant

  /** The zone of a pending allocation is a data zone, marked in use, that no inode reaches. */
  ghost predicate PendingOk(fs: Fs, q: Pending)
    requires Shape(fs)
  {
    q.n < |fs.inodes| && IsPath(q.p) && q.z != 0 && fs.geo.InData(q.z) && Allocated(fs, q.z) && !Reached(fs, q.z)
  }

  ghost predicate Apart(pending: seq<Pending>) {
    forall i, j :: 0 <= i < |pending| && 0 <= j < |pending| && pending[i].z == pending[j].z ==> i == j
  }

  ghost predicate RunInv(r: Run) {
    FileInv(r.fs) && Apart(r.pending) && forall j :: 0 <= j < |r.pending| ==> PendingOk(r.fs, r.pending[j])
  }

  ghost predicate IsPending(r: Run, z: nat) {
    exists j :: 0 <= j < |r.pending| && r.pending[j].z == z
  }

  /** Every allocated data zone is reached from some inode, or about to be. */
  ghost predicate NoneLost(r: Run)
    requires Shape(r.fs)
  {
    forall z: nat :: r.fs.geo.InData(z) && Allocated(r.fs, z) ==> Reached(r.fs, z) || IsPending(r, z)
  }

  // ----- The steps

  ghost predicate Vacant(fs: Fs, n: nat, p: Path)
    requires Shape(fs)
  {
    n < |fs.inodes| && IsPath(p) && fs.inodes[n].tree && Zone(fs, n, p) == 0 && (InInode(p) || Parent(fs, n, p) != 0)
  }

  /** The index block that the task found is still the one that the place is in. */
  ghost predicate SameParent(fs: Fs, q: Pending)
    requires Shape(fs)
  {
    q.n < |fs.inodes| && IsPath(q.p) && fs.inodes[q.n].tree &&
    (InInode(q.p) || (q.parent != 0 && q.parent == Parent(fs, q.n, q.p)))
  }

  ghost function SetBit(fs: Fs, k: nat): Fs
    requires k < |fs.bits|
  {
    fs.(bits := fs.bits[k := true])
  }

  ghost function Stored(fs: Fs, q: Pending): Fs
    requires Shape(fs) && q.n < |fs.inodes| && IsPath(q.p) && q.z < ZONES
  {
    Link(SetBlock(fs, q.z, ZeroBlock()), q.n, q.p, q.z)
  }

  ghost predicate Transition(r: Run, e: Event, r': Run)
    requires Shape(r.fs)
  {
    e.n < |r.fs.inodes| &&
    match e
    case Allocate(n, p, z) =>
      Vacant(r.fs, n, p) && r.fs.geo.InData(z) && !Allocated(r.fs, z) &&
      r' == Run(SetBit(r.fs, r.fs.geo.Bit(z)), r.pending + [Pending(n, p, Parent(r.fs, n, p), z)])
    case Waste(n, bit) => LostBit(r.fs, r'.fs, bit) && r'.pending == r.pending
    case Store(n, j) =>
      j < |r.pending| && r.pending[j].n == n && r.pending[j].z < ZONES && SameParent(r.fs, r.pending[j]) &&
      r' == Run(Stored(r.fs, r.pending[j]), Drop(r.pending, j))
    case Fill(n, pos, data) =>
      pos + |data| <= MAX_BYTES && data != [] && Bytes(data) && pos % BLOCK_SIZE + |data| <= BLOCK_SIZE &&
      Bmap(r.fs, n, pos / BLOCK_SIZE) != 0 && r' == Run(WriteChunk(r.fs, n, pos, data), r.pending)
    case Cut(n, busy) => r.fs.inodes[n].tree && r' == Run(Truncated(r.fs, n, busy), r.pending)
  }

  // ----- Marking a zone

  /** The bitmap does not show in the trees. */
  lemma BitsFrame(fs: Fs, k: nat)
    requires FileInv(fs) && 0 < k < |fs.bits|
    ensures FileInv(SetBit(fs, k))
    ensures forall m: nat, q :: m < |fs.inodes| && IsPath(q) ==> Zone(SetBit(fs, k), m, q) == Zone(fs, m, q)
    ensures forall m: nat :: m < |fs.inodes| ==> Content(SetBit(fs, k), m) == Content(fs, m)
    ensures forall w: nat :: Reached(SetBit(fs, k), w) <==> Reached(fs, w)
  {
    var fs' := SetBit(fs, k);
    assert forall m: nat, q :: m < |fs.inodes| && IsPath(q) ==> Zone(fs', m, q) == Zone(fs, m, q);
    StillReached(fs, fs');
    assert forall m: nat, pos: nat :: m < |fs.inodes| && pos < MAX_BYTES ==> ByteAt(fs', m, pos) == ByteAt(fs, m, pos);
    forall m: nat | m < |fs.inodes| ensures Content(fs', m) == Content(fs, m) {}
  }

  lemma AllocateKeepsInv(r: Run, n: nat, p: Path, z: nat)
    requires RunInv(r) && Vacant(r.fs, n, p) && r.fs.geo.InData(z) && !Allocated(r.fs, z)
    ensures var r' := Run(SetBit(r.fs, r.fs.geo.Bit(z)), r.pending + [Pending(n, p, Parent(r.fs, n, p), z)]);
      RunInv(r') && (NoneLost(r) ==> NoneLost(r'))
  {
    var fs', q := SetBit(r.fs, r.fs.geo.Bit(z)), Pending(n, p, Parent(r.fs, n, p), z);
    var r' := Run(fs', r.pending + [q]);
    BitsFrame(r.fs, r.fs.geo.Bit(z));
    assert !Reached(r.fs, z);
    forall j | 0 <= j < |r'.pending|
      ensures PendingOk(fs', r'.pending[j]) && (j < |r.pending| ==> r.pending[j].z != z)
    {
      if j < |r.pending| { assert PendingOk(r.fs, r.pending[j]); }
    }
    if NoneLost(r) {
      assert r'.pending[|r.pending|].z == z;
      forall w: nat | fs'.geo.InData(w) && Allocated(fs', w) ensures Reached(fs', w) || IsPending(r', w) {
        if w != z && IsPending(r, w) { StillPending(r, r', w); }
      }
    }
  }

  lemma StillPending(r: Run, r': Run, w: nat)
    requires IsPending(r, w) && |r'.pending| >= |r.pending| && r'.pending[..|r.pending|] == r.pending
    ensures IsPending(r', w)
  {
    var j :| 0 <= j < |r.pending| && r.pending[j].z == w;
    assert r'.pending[j] == r'.pending[..|r.pending|][j];
  }

  // ----- Storing a zone

  ghost predicate Below(q: Path, p: Path) {
    (p == Ind && q.IndLeaf?) || (p == Dind && (q.DindMid? || q.DindLeaf?)) || (p.DindMid? && q.DindLeaf? && q.j == p.j)
  }

  /** A place that is cleared, and all places below it, are empty; all others are as they were. */
  lemma ClearZone(fs: Fs, n: nat, p: Path, m: nat, q: Path)
    requires Inv(fs) && n < |fs.inodes| && IsPath(p) && fs.inodes[n].tree && (InInode(p) || Parent(fs, n, p) != 0)
    requires m < |fs.inodes| && IsPath(q)
    ensures Shape(Link(fs, n, p, 0))
    ensures Zone(Link(fs, n, p, 0), m, q) == if m == n && (q == p || Below(q, p)) then 0 else Zone(fs, m, q)
  {
    LinkShape(fs, n, p, 0);
    if !InInode(p) {
      ClearInBlock(fs, n, p, m, q);
    }
  }

  lemma ClearInBlock(fs: Fs, n: nat, p: Path, m: nat, q: Path)
    requires Inv(fs) && n < |fs.inodes| && IsPath(p) && fs.inodes[n].tree && !InInode(p) && Parent(fs, n, p) != 0
    requires m < |fs.inodes| && IsPath(q) && Shape(Link(fs, n, p, 0))
    ensures Zone(Link(fs, n, p, 0), m, q) == if m == n && (q == p || Below(q, p)) then 0 else Zone(fs, m, q)
  {
    var par := Parent(fs, n, p);
    var up := Above(p);
    assert Zone(fs, n, up) == par;
    assert Zone(fs, m, Ind) == par ==> m == n && up == Ind;
    assert Zone(fs, m, Dind) == par ==> m == n && up == Dind;
    match q
    case DindLeaf(j, k) => ClearedLeaf(fs, n, p, m, j, k, up);
    case _ =>
  }

  lemma ClearedLeaf(fs: Fs, n: nat, p: Path, m: nat, j: nat, k: nat, up: Path)
    requires Inv(fs) && n < |fs.inodes| && IsPath(p) && fs.inodes[n].tree && !InInode(p) && Parent(fs, n, p) != 0
    requires up == Above(p)
    requires m < |fs.inodes| && j < FANOUT && k < FANOUT && Shape(Link(fs, n, p, 0))
    ensures Zone(Link(fs, n, p, 0), m, DindLeaf(j, k)) ==
      if m == n && (p == DindLeaf(j, k) || p == DindMid(j)) then 0 else Zone(fs, m, DindLeaf(j, k))
  {
    assert Zone(fs, n, up) == Parent(fs, n, p);
    assert Zone(fs, m, Dind) == Parent(fs, n, p) ==> m == n && up == Dind;
    assert Zone(fs, m, DindMid(j)) == Parent(fs, n, p) ==> m == n && up == DindMid(j);
  }

  /** Clearing a place keeps the tree invariant; what was reached from there is reached no longer, and nothing more
      is. */
  lemma ClearKeepsInv(fs: Fs, n: nat, p: Path)
    requires Inv(fs) && n < |fs.inodes| && IsPath(p) && fs.inodes[n].tree && (InInode(p) || Parent(fs, n, p) != 0)
    ensures Inv(Link(fs, n, p, 0)) && Zone(Link(fs, n, p, 0), n, p) == 0
    ensures Parent(Link(fs, n, p, 0), n, p) == Parent(fs, n, p)
    ensures forall w: nat :: w != 0 && Reached(Link(fs, n, p, 0), w) ==> Reached(fs, w) && w != Zone(fs, n, p)
    ensures Zone(fs, n, p) == 0 ==> forall w: nat :: Reached(fs, w) ==> Reached(Link(fs, n, p, 0), w)
  {
    var fs' := Link(fs, n, p, 0);
    LinkShape(fs, n, p, 0);
    forall m: nat, q | m < |fs.inodes| && IsPath(q)
      ensures Zone(fs', m, q) == if m == n && (q == p || Below(q, p)) then 0 else Zone(fs, m, q)
    {
      ClearZone(fs, n, p, m, q);
    }
    ClearReached(fs, fs', n, p);
  }

  lemma ClearReached(fs: Fs, fs': Fs, n: nat, p: Path)
    requires Inv(fs) && Shape(fs') && |fs'.inodes| == |fs.inodes| && n < |fs.inodes| && IsPath(p)
    requires forall m: nat, q :: m < |fs.inodes| && IsPath(q) ==>
      Zone(fs', m, q) == if m == n && (q == p || Below(q, p)) then 0 else Zone(fs, m, q)
    ensures forall w: nat :: w != 0 && Reached(fs', w) ==> Reached(fs, w) && w != Zone(fs, n, p)
    ensures Zone(fs, n, p) == 0 ==> forall w: nat :: Reached(fs, w) ==> Reached(fs', w)
  {
    forall w: nat | w != 0 && Reached(fs', w) ensures Reached(fs, w) && w != Zone(fs, n, p) {
      var m: nat, q :| m < |fs.inodes| && IsPath(q) && Zone(fs', m, q) == w;
      assert Zone(fs, m, q) == w;
    }
    if Zone(fs, n, p) == 0 {
      forall w: nat | Reached(fs, w) ensures Reached(fs', w) {
        var m: nat, q :| m < |fs.inodes| && IsPath(q) && Zone(fs, m, q) == w;
        assert Zone(fs', m, q) == w;
      }
    }
  }

  /** Storing over whatever a place holds is clearing it first. */
  lemma StoreIsClearAndLink(fs: Fs, n: nat, p: Path, z: nat)
    requires Inv(fs) && n < |fs.inodes| && IsPath(p) && fs.inodes[n].tree && z < ZONES
    requires (InInode(p) || Parent(fs, n, p) != 0)
    ensures Shape(Link(fs, n, p, 0)) && Link(Link(fs, n, p, 0), n, p, z) == Link(fs, n, p, z)
  {
    ClearKeepsInv(fs, n, p);
    var once, twice := Link(fs, n, p, z), Link(Link(fs, n, p, 0), n, p, z);
    if InInode(p) {
      assert twice.inodes[n].zone == once.inodes[n].zone;
      assert twice.inodes == once.inodes;
    } else {
      var b := fs.blocks[Parent(fs, n, p)];
      assert PutShort(PutShort(b, SlotOf(p), 0), SlotOf(p), z) == PutShort(b, SlotOf(p), z);
      assert twice.blocks == once.blocks;
    }
  }

  /** The zone is cleared before it is stored: nobody reaches it, so nothing shows. */
  lemma ClearedZone(fs: Fs, z: nat)
    requires FileInv(fs) && 0 < z < ZONES && !Reached(fs, z)
    ensures FileInv(SetBlock(fs, z, ZeroBlock())) && !Reached(SetBlock(fs, z, ZeroBlock()), z)
    ensures forall m: nat, q :: m < |fs.inodes| && IsPath(q) ==>
      Zone(SetBlock(fs, z, ZeroBlock()), m, q) == Zone(fs, m, q)
    ensures forall m: nat, x: nat :: m < |fs.inodes| && x < MAX_BYTES ==>
      ByteAt(SetBlock(fs, z, ZeroBlock()), m, x) == ByteAt(fs, m, x)
    ensures forall w: nat :: Reached(SetBlock(fs, z, ZeroBlock()), w) <==> Reached(fs, w)
  {
    var fs' := SetBlock(fs, z, ZeroBlock());
    ContentFrame(fs, z, ZeroBlock());
    StillReached(fs, fs');
    forall m: nat, x: nat | m < |fs.inodes| && x < MAX_BYTES ensures ByteAt(fs', m, x) == ByteAt(fs, m, x) {
      assert Zone(fs, m, PathOf(x / BLOCK_SIZE)) != z;
    }
  }

  /** Linking shows no byte but zeros. */
  lemma LinkBytes(fs: Fs, n: nat, p: Path, z: nat, m: nat, x: nat)
    requires Linkable(fs, n, p, z) && m < |fs.inodes| && x < MAX_BYTES
    ensures Shape(Link(fs, n, p, z)) && ByteAt(Link(fs, n, p, z), m, x) == ByteAt(fs, m, x)
  {
    var q := PathOf(x / BLOCK_SIZE);
    LinkZone(fs, n, p, z, m, q);
    LinkTouches(fs, n, p, z, m, q);
  }

  /** The byte at `x` of a file is in the block at place `p`, or in one found through it. */
  ghost predicate Within(p: Path, x: nat)
    requires x < MAX_BYTES
  {
    PathOf(x / BLOCK_SIZE) == p || Below(PathOf(x / BLOCK_SIZE), p)
  }

  /** Clearing a place makes the bytes under it zero, and leaves all others as they were. */
  lemma ClearBytes(fs: Fs, n: nat, p: Path, m: nat, x: nat)
    requires Inv(fs) && n < |fs.inodes| && IsPath(p) && fs.inodes[n].tree && (InInode(p) || Parent(fs, n, p) != 0)
    requires m < |fs.inodes| && x < MAX_BYTES
    ensures Shape(Link(fs, n, p, 0))
    ensures ByteAt(Link(fs, n, p, 0), m, x) == if m == n && Within(p, x) then 0 else ByteAt(fs, m, x)
  {
    var q := PathOf(x / BLOCK_SIZE);
    ClearZone(fs, n, p, m, q);
    if !InInode(p) {
      var up := Above(p);
      assert Zone(fs, n, up) == Parent(fs, n, p) && IsIndex(up);
    }
  }

  lemma BelowNothing(fs: Fs, n: nat, p: Path, q: Path)
    requires Inv(fs) && n < |fs.inodes| && IsPath(p) && IsPath(q) && Zone(fs, n, p) == 0 && Below(q, p)
    ensures Zone(fs, n, q) == 0
  {
  }

  /** What `Stored` comes to: the zone cleared, the place cleared, and the zone linked there. */
  lemma StoredInSteps(r: Run, j: nat)
    requires RunInv(r) && j < |r.pending| && SameParent(r.fs, r.pending[j])
    ensures var q := r.pending[j]; var fs1 := SetBlock(r.fs, q.z, ZeroBlock()); var fs0 := Link(fs1, q.n, q.p, 0);
      FileInv(fs1) && Linkable(fs0, q.n, q.p, q.z) && fs0.geo.InData(q.z) && Allocated(fs0, q.z) &&
      Stored(r.fs, q) == Link(fs0, q.n, q.p, q.z)
  {
    var q := r.pending[j];
    assert PendingOk(r.fs, q);
    ClearedZone(r.fs, q.z);
    var fs1 := SetBlock(r.fs, q.z, ZeroBlock());
    assert Parent(fs1, q.n, q.p) == Parent(r.fs, q.n, q.p);
    ClearKeepsInv(fs1, q.n, q.p);
    StoreIsClearAndLink(fs1, q.n, q.p, q.z);
    if !InInode(q.p) {
      var up := Above(q.p);
      assert Zone(fs1, q.n, up) == Parent(fs1, q.n, q.p) != q.z;
    }
  }

  /** Storing the zone never breaks the trees, not even over another zone. */
  lemma StoreKeepsInv(r: Run, j: nat)
    requires RunInv(r) && j < |r.pending| && SameParent(r.fs, r.pending[j])
    ensures RunInv(Run(Stored(r.fs, r.pending[j]), Drop(r.pending, j)))
    ensures forall w: nat :: Reached(Stored(r.fs, r.pending[j]), w) && w != 0 && w != r.pending[j].z ==>
      Reached(r.fs, w)
    ensures Reached(Stored(r.fs, r.pending[j]), r.pending[j].z)
  {
    var q := r.pending[j];
    StoredInSteps(r, j);
    assert PendingOk(r.fs, q);
    ClearedZone(r.fs, q.z);
    var fs1 := SetBlock(r.fs, q.z, ZeroBlock());
    var fs0 := Link(fs1, q.n, q.p, 0);
    ClearKeepsInv(fs1, q.n, q.p);
    LinkKeepsInv(fs0, q.n, q.p, q.z);
    var fs' := Stored(r.fs, q);
    StoredBytes(r, j);
    PendingAfter(r, j, fs');
  }

  /** A store makes the bytes under its place zero, and leaves all others as they were. */
  lemma StoredBytes(r: Run, j: nat)
    requires RunInv(r) && j < |r.pending| && SameParent(r.fs, r.pending[j])
    ensures Shape(Stored(r.fs, r.pending[j])) && |Stored(r.fs, r.pending[j]).inodes| == |r.fs.inodes|
    ensures forall m: nat, x: nat :: m < |r.fs.inodes| && x < MAX_BYTES ==>
      ByteAt(Stored(r.fs, r.pending[j]), m, x) ==
        if m == r.pending[j].n && Within(r.pending[j].p, x) then 0 else ByteAt(r.fs, m, x)
  {
    var q := r.pending[j];
    StoredInSteps(r, j);
    assert PendingOk(r.fs, q);
    ClearedZone(r.fs, q.z);
    var fs1 := SetBlock(r.fs, q.z, ZeroBlock());
    var fs0 := Link(fs1, q.n, q.p, 0);
    LinkShape(fs0, q.n, q.p, q.z);
    forall m: nat, x: nat | m < |r.fs.inodes| && x < MAX_BYTES
      ensures ByteAt(Stored(r.fs, q), m, x) == if m == q.n && Within(q.p, x) then 0 else ByteAt(r.fs, m, x)
    {
      ClearBytes(fs1, q.n, q.p, m, x);
      LinkBytes(fs0, q.n, q.p, q.z, m, x);
    }
  }

  /** Under an empty place there are only zeros. */
  lemma NothingUnder(fs: Fs, n: nat, p: Path, x: nat)
    requires Inv(fs) && n < |fs.inodes| && IsPath(p) && Zone(fs, n, p) == 0 && x < MAX_BYTES && Within(p, x)
    ensures ByteAt(fs, n, x) == 0
  {
    if Below(PathOf(x / BLOCK_SIZE), p) {
      BelowNothing(fs, n, p, PathOf(x / BLOCK_SIZE));
    }
  }

  /** The other pending zones are still unreached. */
  lemma PendingAfter(r: Run, j: nat, fs': Fs)
    requires RunInv(r) && j < |r.pending| && Shape(fs') && fs'.geo == r.fs.geo && fs'.bits == r.fs.bits
    requires |fs'.inodes| == |r.fs.inodes|
    requires forall w: nat :: Reached(fs', w) && w != 0 && w != r.pending[j].z ==> Reached(r.fs, w)
    ensures Apart(Drop(r.pending, j))
    ensures forall i :: 0 <= i < |Drop(r.pending, j)| ==> PendingOk(fs', Drop(r.pending, j)[i])
  {
    var left := Drop(r.pending, j);
    forall i | 0 <= i < |left| ensures PendingOk(fs', left[i]) && left[i] == r.pending[if i < j then i else i + 1] {
      assert PendingOk(r.fs, r.pending[if i < j then i else i + 1]);
    }
  }

  /** What a store reaches: what was reached before, except the zone it is stored over, if any, and what is below. */
  lemma StoredReaches(r: Run, j: nat)
    requires RunInv(r) && j < |r.pending| && SameParent(r.fs, r.pending[j])
    ensures Shape(Stored(r.fs, r.pending[j])) && Stored(r.fs, r.pending[j]).geo == r.fs.geo
    ensures Stored(r.fs, r.pending[j]).bits == r.fs.bits
    ensures var w := Zone(r.fs, r.pending[j].n, r.pending[j].p); w != 0 ==> !Reached(Stored(r.fs, r.pending[j]), w)
    ensures Zone(r.fs, r.pending[j].n, r.pending[j].p) == 0 ==>
      forall w: nat :: w != 0 && Reached(r.fs, w) ==> Reached(Stored(r.fs, r.pending[j]), w)
  {
    var q := r.pending[j];
    StoredInSteps(r, j);
    assert PendingOk(r.fs, q);
    ClearedZone(r.fs, q.z);
    var fs1 := SetBlock(r.fs, q.z, ZeroBlock());
    var fs0 := Link(fs1, q.n, q.p, 0);
    ClearKeepsInv(fs1, q.n, q.p);
    LinkKeepsInv(fs0, q.n, q.p, q.z);
    assert Zone(fs1, q.n, q.p) != 0 ==> Reached(fs1, Zone(fs1, q.n, q.p));
  }

  /** Main result on a store: it conserves the zones if and only if the place is still empty. Otherwise the zone stored
      there meanwhile is lost: it stays allocated, and no inode reaches it. */
  lemma StoreConserves(r: Run, j: nat)
    requires RunInv(r) && NoneLost(r) && j < |r.pending| && SameParent(r.fs, r.pending[j])
    ensures Shape(Stored(r.fs, r.pending[j]))
    ensures NoneLost(Run(Stored(r.fs, r.pending[j]), Drop(r.pending, j))) <==>
      Zone(r.fs, r.pending[j].n, r.pending[j].p) == 0
  {
    var q := r.pending[j];
    var r', w := Run(Stored(r.fs, q), Drop(r.pending, j)), Zone(r.fs, q.n, q.p);
    StoreKeepsInv(r, j);
    StoredReaches(r, j);
    if w != 0 {
      assert Reached(r.fs, w);
      forall i | 0 <= i < |r'.pending| ensures r'.pending[i].z != w {
        assert PendingOk(r.fs, r.pending[if i < j then i else i + 1]);
      }
    } else {
      forall z: nat | r'.fs.geo.InData(z) && Allocated(r'.fs, z) ensures Reached(r'.fs, z) || IsPending(r', z) {
        if !Reached(r.fs, z) && z != q.z {
          PendingStays(r, j, z);
        }
      }
    }
  }

  lemma PendingStays(r: Run, j: nat, z: nat)
    requires j < |r.pending| && IsPending(r, z) && z != r.pending[j].z
    ensures forall fs :: IsPending(Run(fs, Drop(r.pending, j)), z)
  {
    var i :| 0 <= i < |r.pending| && r.pending[i].z == z;
    assert Drop(r.pending, j)[if i < j then i else i - 1] == r.pending[i];
  }

  /** After a store the place holds the zone, and is where it was. */
  lemma StoredAt(r: Run, j: nat)
    requires RunInv(r) && j < |r.pending| && SameParent(r.fs, r.pending[j])
    ensures var q := r.pending[j]; var fs' := Stored(r.fs, q);
      Shape(fs') && |fs'.inodes| == |r.fs.inodes| && fs'.inodes[q.n].tree && Zone(fs', q.n, q.p) == q.z &&
      (InInode(q.p) || Parent(fs', q.n, q.p) == Parent(r.fs, q.n, q.p))
  {
    var q := r.pending[j];
    StoredInSteps(r, j);
    assert PendingOk(r.fs, q);
    ClearedZone(r.fs, q.z);
    var fs1 := SetBlock(r.fs, q.z, ZeroBlock());
    var fs0 := Link(fs1, q.n, q.p, 0);
    ClearKeepsInv(fs1, q.n, q.p);
    LinkZone(fs0, q.n, q.p, q.z, q.n, q.p);
    if !InInode(q.p) {
      var up := Above(q.p);
      LinkZone(fs0, q.n, q.p, q.z, q.n, up);
    }
  }

  /** Two tasks each about to store a zone at the same empty place: the second store loses the zone of the first. */
  lemma SecondStoreLoses(r: Run, n: nat) returns (r3: Run, r4: Run)
    requires RunInv(r) && NoneLost(r) && |r.pending| == 2 && r.pending[0].n == n == r.pending[1].n
    requires r.pending[0] == r.pending[1].(z := r.pending[0].z)
    requires SameParent(r.fs, r.pending[0]) && Zone(r.fs, n, r.pending[0].p) == 0
    ensures Transition(r, Store(n, 0), r3) && RunInv(r3) && Transition(r3, Store(n, 0), r4)
    ensures RunInv(r4) && r4.pending == [] && !NoneLost(r4)
  {
    assert Drop(r.pending, 0) == [r.pending[1]];
    StoreKeepsInv(r, 0);
    StoreConserves(r, 0);
    StoredAt(r, 0);
    assert PendingOk(r.fs, r.pending[0]);
    r3 := Run(Stored(r.fs, r.pending[0]), [r.pending[1]]);
    assert Drop(r3.pending, 0) == [];
    StoreKeepsInv(r3, 0);
    StoreConserves(r3, 0);
    r4 := Run(Stored(r3.fs, r3.pending[0]), []);
  }

  lemma AllocateOnce(r: Run, n: nat, p: Path, z: nat) returns (r': Run)
    requires RunInv(r) && NoneLost(r) && Vacant(r.fs, n, p) && r.fs.geo.InData(z) && !Allocated(r.fs, z)
    ensures Transition(r, Allocate(n, p, z), r') && RunInv(r') && NoneLost(r') && Vacant(r'.fs, n, p)
    ensures Parent(r'.fs, n, p) == Parent(r.fs, n, p)
    ensures r'.pending == r.pending + [Pending(n, p, Parent(r.fs, n, p), z)]
    ensures r'.fs.geo == r.fs.geo
    ensures forall y :: r.fs.geo.InData(y) && y != z ==> (Allocated(r'.fs, y) <==> Allocated(r.fs, y))
  {
    AllocateKeepsInv(r, n, p, z);
    BitsFrame(r.fs, r.fs.geo.Bit(z));
    r' := Run(SetBit(r.fs, r.fs.geo.Bit(z)), r.pending + [Pending(n, p, Parent(r.fs, n, p), z)]);
  }

  lemma AllocateTwice(r: Run, n: nat, p: Path, y: nat, z: nat) returns (r1: Run, r2: Run)
    requires RunInv(r) && NoneLost(r) && r.pending == [] && Vacant(r.fs, n, p) && y != z
    requires r.fs.geo.InData(y) && !Allocated(r.fs, y) && r.fs.geo.InData(z) && !Allocated(r.fs, z)
    ensures Transition(r, Allocate(n, p, y), r1) && RunInv(r1) && Transition(r1, Allocate(n, p, z), r2)
    ensures RunInv(r2) && NoneLost(r2) && |r2.pending| == 2 && r2.pending[0].n == n == r2.pending[1].n
    ensures r2.pending[0] == r2.pending[1].(z := r2.pending[0].z)
    ensures SameParent(r2.fs, r2.pending[0]) && Zone(r2.fs, n, r2.pending[0].p) == 0
  {
    r1 := AllocateOnce(r, n, p, y);
    r2 := AllocateOnce(r1, n, p, z);
  }

  /** Two tasks write to the same missing block: each finds its place empty and takes a zone, the second stores its zone
      over that of the first, and the first zone is lost, though nothing was ever truncated. */
  lemma TwoWritersLoseAZone(r: Run, n: nat, p: Path, y: nat, z: nat) returns (r1: Run, r2: Run, r3: Run, r4: Run)
    requires RunInv(r) && NoneLost(r) && r.pending == [] && Vacant(r.fs, n, p) && y != z
    requires r.fs.geo.InData(y) && !Allocated(r.fs, y) && r.fs.geo.InData(z) && !Allocated(r.fs, z)
    ensures Transition(r, Allocate(n, p, y), r1) && RunInv(r1) && Transition(r1, Allocate(n, p, z), r2) && RunInv(r2)
    ensures Transition(r2, Store(n, 0), r3) && RunInv(r3) && Transition(r3, Store(n, 0), r4) && RunInv(r4)
    ensures r4.pending == [] && !NoneLost(r4)
  {
    r1, r2 := AllocateTwice(r, n, p, y, z);
    r3, r4 := SecondStoreLoses(r2, n);
  }

  // ----- The other steps

  lemma FillKeepsInv(r: Run, n: nat, pos: nat, data: seq<nat>)
    requires RunInv(r) && n < |r.fs.inodes| && pos + |data| <= MAX_BYTES && data != [] && Bytes(data)
    requires pos % BLOCK_SIZE + |data| <= BLOCK_SIZE && Bmap(r.fs, n, pos / BLOCK_SIZE) != 0
    ensures var r' := Run(WriteChunk(r.fs, n, pos, data), r.pending); RunInv(r') && (NoneLost(r) ==> NoneLost(r'))
  {
    var fs' := WriteChunk(r.fs, n, pos, data);
    WriteChunkContent(r.fs, n, pos, data);
    WriteChunkZones(r.fs, n, pos, data);
    StillReached(r.fs, fs');
    forall j | 0 <= j < |r.pending| ensures PendingOk(fs', r.pending[j]) {
      assert PendingOk(r.fs, r.pending[j]);
    }
    if NoneLost(r) {
      forall z: nat | fs'.geo.InData(z) && Allocated(fs', z)
        ensures Reached(fs', z) || IsPending(Run(fs', r.pending), z)
      {
        if !Reached(r.fs, z) { StillPending(r, Run(fs', r.pending), z); }
      }
    }
  }

  lemma CutKeepsInv(r: Run, n: nat, busy: set<nat>)
    requires RunInv(r) && n < |r.fs.inodes| && r.fs.inodes[n].tree
    ensures RunInv(Run(Truncated(r.fs, n, busy), r.pending))
    ensures NoneLost(r) && (forall z: nat :: InTree(r.fs, n, z) ==> z !in busy) ==>
      NoneLost(Run(Truncated(r.fs, n, busy), r.pending))
  {
    var fs' := Truncated(r.fs, n, busy);
    TruncateContent(r.fs, n, busy);
    TruncateZones(r.fs, n, busy);
    forall j | 0 <= j < |r.pending| ensures PendingOk(fs', r.pending[j]) {
      CutPending(r, n, busy, j);
    }
    if NoneLost(r) && forall z: nat :: InTree(r.fs, n, z) ==> z !in busy {
      forall z: nat | fs'.geo.InData(z) && Allocated(fs', z)
        ensures Reached(fs', z) || IsPending(Run(fs', r.pending), z)
      {
        TruncateFrees(r.fs, n, busy, z);
        if Reached(r.fs, z) {
          var m: nat, q :| m < |r.fs.inodes| && IsPath(q) && Zone(r.fs, m, q) == z;
          assert Zone(fs', m, q) == z;
        } else {
          StillPending(r, Run(fs', r.pending), z);
        }
      }
    }
  }

  /** A pending zone is in no tree, so truncating leaves it alone. */
  lemma CutPending(r: Run, n: nat, busy: set<nat>, j: nat)
    requires RunInv(r) && n < |r.fs.inodes| && r.fs.inodes[n].tree && j < |r.pending|
    ensures Shape(Truncated(r.fs, n, busy)) && PendingOk(Truncated(r.fs, n, busy), r.pending[j])
  {
    var fs', z := Truncated(r.fs, n, busy), r.pending[j].z;
    assert PendingOk(r.fs, r.pending[j]);
    TruncateFrees(r.fs, n, busy, z);
    TruncateZones(r.fs, n, busy);
    assert !InTree(r.fs, n, z);
    forall m: nat, q | m < |r.fs.inodes| && IsPath(q) ensures Zone(fs', m, q) != z {
      assert Zone(r.fs, m, q) != z;
    }
  }

  lemma WasteKeepsInv(r: Run, bit: nat, fs': Fs)
    requires RunInv(r) && LostBit(r.fs, fs', bit)
    ensures RunInv(Run(fs', r.pending)) && (NoneLost(r) ==> NoneLost(Run(fs', r.pending)))
  {
    BitsFrame(r.fs, bit);
    forall j | 0 <= j < |r.pending| ensures PendingOk(fs', r.pending[j]) {
      assert PendingOk(r.fs, r.pending[j]);
    }
    if NoneLost(r) {
      forall z: nat | fs'.geo.InData(z) && Allocated(fs', z)
        ensures Reached(fs', z) || IsPending(Run(fs', r.pending), z)
      {
        if !Reached(r.fs, z) { StillPending(r, Run(fs', r.pending), z); }
      }
    }
  }

  lemma TransitionKeepsInv(r: Run, e: Event, r': Run)
    requires RunInv(r) && Transition(r, e, r')
    ensures RunInv(r') && |r'.fs.inodes| == |r.fs.inodes|
  {
    match e
    case Allocate(n, p, z) => AllocateKeepsInv(r, n, p, z);
    case Waste(n, bit) => WasteKeepsInv(r, bit, r'.fs);
    case Store(n, j) => StoreKeepsInv(r, j); StoredInSteps(r, j);
    case Fill(n, pos, data) => FillKeepsInv(r, n, pos, data);
    case Cut(n, busy) => CutKeepsInv(r, n, busy);
  }
}
