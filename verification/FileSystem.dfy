/** The block layer of a device: `new_block`, `free_block`, `_bmap`, `truncate`, and file reads and writes on top. */
module FileSystem {
  import opened BlockLayout
  import opened BlockTree
  import opened FileBytes
  import opened Truncation

  /** An open file: its position, and whether O_APPEND is set. */
  class File {
    var pos: nat
    const append: bool
    constructor (append: bool)
      ensures pos == 0 && this.append == append
    {
      pos, this.append := 0, append;
    }
  }

  /** Bytes taken from the block at a position are the file's bytes there. */
  lemma ChunkBytes(fs: Fs, n: nat, pos: nat, got: seq<nat>)
    requires Shape(fs) && n < |fs.inodes| && pos + |got| <= MAX_BYTES && pos % BLOCK_SIZE + |got| <= BLOCK_SIZE
    requires got != []
    requires var z := Bmap(fs, n, pos / BLOCK_SIZE); var c := pos % BLOCK_SIZE;
             got == if z != 0 then fs.blocks[z][c..c + |got|] else seq(|got|, _ => 0)
    ensures forall k :: 0 <= k < |got| ==> got[k] == ByteAt(fs, n, pos + k)
  {
    forall k | 0 <= k < |got| ensures got[k] == ByteAt(fs, n, pos + k) {
      assert (pos + k) / BLOCK_SIZE == pos / BLOCK_SIZE && (pos + k) % BLOCK_SIZE == pos % BLOCK_SIZE + k;
    }
  }

  /** What one turn of the write loop adds. */
  lemma TurnWritten(fs: Fs, fs1: Fs, fs2: Fs, n: nat, pos: nat, buf: seq<nat>, i: nat, len: nat, ok: bool)
    requires FileInv(fs) && n < |fs.inodes| && i + len <= |buf|
    requires FileInv(fs1) && n < |fs1.inodes| && Written(fs1, fs2, n, pos + i, if ok then buf[i..i + len] else [])
    ensures Written(fs, fs1, n, pos, buf[..i]) ==> Written(fs, fs2, n, pos, buf[..i + if ok then len else 0])
  {
    if Written(fs, fs1, n, pos, buf[..i]) {
      WrittenOn(fs, fs1, fs2, n, pos, buf[..i], if ok then buf[i..i + len] else []);
      assert buf[..i] + buf[i..i + len] == buf[..i + len] && buf[..i] + [] == buf[..i];
    }
  }

  /** What a read of `count` bytes at a position yields: that slice of the contents, up to the end of the file. */
  ghost predicate ReadResult(fs: Fs, n: nat, pos: nat, count: nat, out: seq<nat>)
    requires FileInv(fs) && n < |fs.inodes|
  {
    |out| == (if pos >= fs.inodes[n].size then 0
              else if pos + count > fs.inodes[n].size then fs.inodes[n].size - pos else count) &&
    (out != [] ==> out == Content(fs, n)[pos..pos + |out|])
  }

  /** Reading at the position of a write, in any part of it, gives back what was written there, and behind it, and
      before it, what the file held. */
  lemma ReadAfterWrite(fs: Fs, fs': Fs, n: nat, start: nat, data: seq<nat>, pos: nat, count: nat, out: seq<nat>)
    requires FileInv(fs) && n < |fs.inodes| && Written(fs, fs', n, start, data) && ReadResult(fs', n, pos, count, out)
    ensures pos == start && count == |data| ==> out == data
    ensures forall i :: 0 <= i < |out| ==>
      out[i] == if start <= pos + i < start + |data| then data[pos + i - start]
        else if pos + i < fs.inodes[n].size then Content(fs, n)[pos + i] else 0
  {
    if out != [] {
      assert Content(fs', n) == Splice(Content(fs, n), start, data);
      forall i | 0 <= i < |out| ensures out[i] == Content(fs', n)[pos + i] {}
    }
  }

  class Device {
    const geo: Geometry
    const bits: array<bool>       // the zone map, eight slots of 8192 bits
    const blocks: array<Block>    // block contents as `bread` shows them
    const inodes: array<Inode>
    const counts: array<nat>      // b_count of the zone's buffer, as others hold it; 0 also when there is none

    /** A device as mkfs leaves it, in what the model keeps: empty files, and only bit 0 of the zone map set. */
    constructor (geo: Geometry, files: nat)
      requires geo.Valid()
      ensures FilesValid() && Contents() == seq(files, _ => []) && Busy(counts[..]) == {} && counts.Length == ZONES
      ensures forall z :: geo.firstDataZone <= z < geo.nZones ==> !bits[geo.Bit(z)]
    {
      this.geo := geo;
      bits := new bool[MAP_SLOTS * MAP_BITS](k => k == 0);
      blocks := new Block[ZONES](_ => ZeroBlock());
      inodes := new Inode[files](_ => Inode(true, seq(9, _ => 0), 0));
      counts := new nat[ZONES](_ => 0);
      new;
      EmptyFiles(View());
    }

    ghost function Contents(): seq<seq<nat>>
      requires FilesValid()
      reads this, bits, blocks, inodes
    {
      seq(inodes.Length, n requires 0 <= n < inodes.Length &&
        FileInv(View()) reads this, bits, blocks, inodes => Content(View(), n))
    }

    ghost predicate Valid()
      reads this, bits, blocks, inodes
    {
      Inv(View())
    }

    ghost function View(): Fs
      reads this, bits, blocks, inodes
    {
      Fs(geo, bits[..], blocks[..], inodes[..])
    }

    /** find_first_zero: the first clear bit of one map block, or 8192. */
    method FindFirstZero(slot: nat) returns (j: nat)
      requires slot < MAP_SLOTS && bits.Length == MAP_SLOTS * MAP_BITS
      ensures j <= MAP_BITS && (j < MAP_BITS ==> !bits[slot * MAP_BITS + j])
      ensures forall k :: slot * MAP_BITS <= k < slot * MAP_BITS + j ==> bits[k]
    {
      j := 0;
      while j < MAP_BITS && bits[slot * MAP_BITS + j]
        invariant j <= MAP_BITS
        invariant forall k :: slot * MAP_BITS <= k < slot * MAP_BITS + j ==> bits[k]
      {
        j := j + 1;
      }
    }

    /** new_block: allocate and clear the lowest free zone; 0 when there is none. */
    method NewBlock() returns (z: nat)
      requires Valid()
      modifies bits, blocks
      ensures z < ZONES && NewBlockStep(old(View()), View(), z)
      ensures z == 0 ==> forall k :: geo.firstDataZone <= k < geo.nZones ==> old(bits[geo.Bit(k)])
      ensures z != 0 ==> forall k :: geo.firstDataZone <= k < z ==> old(bits[geo.Bit(k)])
    {
      ghost var fs := View();
      var i, j := 0, MAP_BITS;
      while i < MAP_SLOTS
        invariant i <= MAP_SLOTS && j == MAP_BITS && View() == fs
        invariant forall k :: 0 <= k < i * MAP_BITS && k < geo.mapBlocks * MAP_BITS ==> bits[k]
      {
        if i < geo.mapBlocks {
          j := FindFirstZero(i);
          if j < MAP_BITS {
            break;
          }
        }
        i := i + 1;
      }
      if i >= MAP_SLOTS || j >= MAP_BITS {
        return 0;
      }
      bits[i * MAP_BITS + j] := true;
      assert bits[..] == fs.bits[i * MAP_BITS + j := true];
      var k := j + i * MAP_BITS + geo.firstDataZone - 1;
      if k >= geo.nZones {
        assert LostBit(fs, View(), i * MAP_BITS + j);
        return 0;
      }
      blocks[k] := ZeroBlock();
      assert blocks[..] == fs.blocks[k := ZeroBlock()];
      return k;
    }

    ghost predicate Full()
      reads this, bits
      requires bits.Length == MAP_SLOTS * MAP_BITS && geo.Valid()
    {
      forall k :: geo.firstDataZone <= k < geo.nZones ==> bits[geo.Bit(k)]
    }

    /** Read, and on request fill, slot `k` of the inode's own zone array. */
    method SlotInInode(n: nat, ghost p: Path, k: nat, create: bool) returns (z: nat)
      requires Valid() && n < inodes.Length && inodes[n].tree
      requires IsPath(p) && InInode(p) && k == SlotOf(p)
      modifies bits, blocks, inodes
      ensures Extends(old(View()), View(), n, p) && z == Zone(View(), n, p)
      ensures !create || old(Zone(View(), n, p)) != 0 ==> View() == old(View())
      ensures create && z == 0 ==> Full()
    {
      ghost var fs := View();
      z := inodes[n].zone[k];
      if create && z == 0 {
        z := NewBlock();
        ghost var fs1 := View();
        if z != 0 {
          AllocateExtends(fs, fs1, n, p, z);
          inodes[n] := inodes[n].(zone := inodes[n].zone[k := z]);
          assert inodes[..] == fs1.inodes[n := fs1.inodes[n].(zone := fs1.inodes[n].zone[k := z])];
          assert View() == Link(fs1, n, p, z);
        } else {
          NoBlockExtends(fs, fs1, n, p);
        }
      }
    }

    /** Read, and on request fill, slot `k` of index block `parent`. */
    method SlotInBlock(n: nat, ghost p: Path, parent: nat, k: nat, create: bool) returns (z: nat)
      requires Valid() && n < inodes.Length && inodes[n].tree
      requires IsPath(p) && !InInode(p) && k == SlotOf(p) && parent == Parent(View(), n, p) != 0
      modifies bits, blocks
      ensures Extends(old(View()), View(), n, p) && z == Zone(View(), n, p)
      ensures !create || old(Zone(View(), n, p)) != 0 ==> View() == old(View())
      ensures create && z == 0 ==> Full()
    {
      ghost var fs := View();
      z := Short(blocks[parent], k);
      if create && z == 0 {
        z := FillSlot(n, p, parent, k);
      }
    }

    /** Store a zone number in index block `parent`. */
    method EnterSlot(n: nat, ghost p: Path, parent: nat, k: nat, z: nat)
      requires Shape(View()) && n < inodes.Length && IsPath(p) && !InInode(p) && z < ZONES
      requires k == SlotOf(p) && parent == Parent(View(), n, p)
      modifies blocks
      ensures View() == Link(old(View()), n, p, z)
    {
      ghost var fs := View();
      LinkIsSlot(fs, n, p, parent, k, z);
      blocks[parent] := PutShort(blocks[parent], k, z);
      assert blocks[..] == fs.blocks[parent := PutShort(fs.blocks[parent], k, z)];
    }

    /** An empty slot of index block `parent` gets a new block. */
    method FillSlot(n: nat, ghost p: Path, parent: nat, k: nat) returns (z: nat)
      requires Valid() && n < inodes.Length && inodes[n].tree
      requires IsPath(p) && !InInode(p) && k == SlotOf(p) && parent == Parent(View(), n, p) != 0
      requires Zone(View(), n, p) == 0
      modifies bits, blocks
      ensures Extends(old(View()), View(), n, p) && z == Zone(View(), n, p)
      ensures z == 0 ==> Full()
    {
      ghost var fs := View();
      z := NewBlock();
      ghost var fs1 := View();
      if z != 0 {
        AllocateExtends(fs, fs1, n, p, z);
        EnterSlot(n, p, parent, k, z);
      } else {
        NoBlockExtends(fs, fs1, n, p);
      }
    }

    /** _bmap: the zone of logical block `b`, allocated on the way when `create` is set. */
    method MapBlock(n: nat, b: nat, create: bool) returns (z: nat)
      requires Valid() && n < inodes.Length && inodes[n].tree && b < MAX_BLOCKS
      modifies bits, blocks, inodes
      ensures Extends(old(View()), View(), n, PathOf(b))
      ensures z == Bmap(View(), n, b) == OnDevice(View(), n, b)
      ensures !create || old(Bmap(View(), n, b)) != 0 ==> View() == old(View())
      ensures create && z == 0 ==> Full()
    {
      if b < 7 {
        z := SlotInInode(n, Direct(b), b, create);
      } else if b - 7 < FANOUT {
        z := MapIndirect(n, b - 7, create);
      } else {
        z := MapDouble(n, b - 7 - FANOUT, create);
      }
      BmapIsOnDevice(View(), n, b);
    }

    method MapIndirect(n: nat, block: nat, create: bool) returns (z: nat)
      requires Valid() && n < inodes.Length && inodes[n].tree && block < FANOUT
      modifies bits, blocks, inodes
      ensures Extends(old(View()), View(), n, IndLeaf(block))
      ensures z == Zone(View(), n, IndLeaf(block))
      ensures !create || old(Zone(View(), n, IndLeaf(block))) != 0 ==> View() == old(View())
      ensures create && z == 0 ==> Full()
    {
      ghost var fs := View();
      z := SlotInInode(n, Ind, 7, create);
      ghost var fs1 := View();
      if z == 0 {
        ExtendsRefl(fs1, n, IndLeaf(block));
        ExtendsTrans(fs, fs1, fs1, n, IndLeaf(block), Ind);
        return;
      }
      z := SlotInBlock(n, IndLeaf(block), z, block, create);
      ExtendsTrans(fs, fs1, View(), n, IndLeaf(block), Ind);
    }

    method MapDouble(n: nat, block: nat, create: bool) returns (z: nat)
      requires Valid() && n < inodes.Length && inodes[n].tree && block < FANOUT * FANOUT
      modifies bits, blocks, inodes
      ensures Extends(old(View()), View(), n, DindLeaf(block / FANOUT, block % FANOUT))
      ensures z == Zone(View(), n, DindLeaf(block / FANOUT, block % FANOUT))
      ensures !create || old(Zone(View(), n, DindLeaf(block / FANOUT, block % FANOUT))) != 0 ==> View() == old(View())
      ensures create && z == 0 ==> Full()
    {
      ghost var fs, p := View(), DindLeaf(block / FANOUT, block % FANOUT);
      z := MapMiddle(n, block / FANOUT, create);
      ghost var fs1 := View();
      if z == 0 {
        ExtendsRefl(fs1, n, p);
        ExtendsTrans(fs, fs1, fs1, n, p, DindMid(block / FANOUT));
        return;
      }
      z := SlotInBlock(n, p, z, block % FANOUT, create);
      ExtendsTrans(fs, fs1, View(), n, p, DindMid(block / FANOUT));
    }

    method MapMiddle(n: nat, j: nat, create: bool) returns (z: nat)
      requires Valid() && n < inodes.Length && inodes[n].tree && j < FANOUT
      modifies bits, blocks, inodes
      ensures Extends(old(View()), View(), n, DindMid(j))
      ensures z == Zone(View(), n, DindMid(j))
      ensures !create || old(Zone(View(), n, DindMid(j))) != 0 ==> View() == old(View())
      ensures create && z == 0 ==> Full()
    {
      ghost var fs := View();
      z := SlotInInode(n, Dind, 8, create);
      ghost var fs1 := View();
      if z == 0 {
        ExtendsRefl(fs1, n, DindMid(j));
        ExtendsTrans(fs, fs1, fs1, n, DindMid(j), Dind);
        return;
      }
      z := SlotInBlock(n, DindMid(j), z, j, create);
      ExtendsTrans(fs, fs1, View(), n, DindMid(j), Dind);
    }

    /** free_block: clear the zone's bit, unless another task holds its buffer. In that case the count that
        get_hash_table raised is never lowered again. */
    method FreeBlock(z: nat, ghost busy: set<nat>)
      requires Shape(View()) && geo.InData(z) && Allocated(View(), z)
      requires counts.Length == ZONES && busy == Busy(counts[..])
      modifies bits, counts
      ensures View() == Freed(old(View()), Unheld(iset{z}, busy))
      ensures counts[..] == Raised(old(counts[..]), iset{z}) && busy == Busy(counts[..])
      ensures counts[..] == old(counts[..])[z := old(counts[z]) + if old(counts[z]) > 0 then 1 else 0]
      ensures bits[..] == old(bits[..])[z - geo.firstDataZone + 1 := old(counts[z]) > 0]
    {
      ghost var fs, was := View(), counts[..];
      RaisedBusy(was, iset{z});
      counts[z] := counts[z] + 1;
      if counts[z] != 1 {
        assert Unheld(iset{z}, busy) == iset{};
        assert counts[..] == Raised(was, iset{z});
        FreedNone(fs);
        return;
      }
      counts[z] := counts[z] - 1;
      bits[geo.Bit(z)] := false;
      assert counts[..] == Raised(was, iset{z});
      assert bits[..] == Freed(fs, Unheld(iset{z}, busy)).bits;
    }

    /** free_ind: free every zone an index block names, then the block itself. */
    method FreeIndirect(z: nat, ghost busy: set<nat>)
      requires Shape(View()) && z < ZONES && FreeableIndirect(View(), z)
      requires counts.Length == ZONES && busy == Busy(counts[..])
      modifies bits, counts
      ensures View() == Freed(old(View()), Unheld(IndirectSet(old(View()), z), busy))
      ensures counts[..] == Raised(old(counts[..]), IndirectSet(old(View()), z)) && busy == Busy(counts[..])
    {
      ghost var fs, was := View(), counts[..];
      RaisedNone(was);
      if z == 0 {
        assert IndirectSet(fs, z) == iset{} == Unheld(IndirectSet(fs, z), busy);
        FreedNone(fs);
        return;
      }
      var i := 0;
      FreedNone(fs);
      assert NamedSet(fs, z, 0) == iset{} == Unheld(NamedSet(fs, z, 0), busy);
      while i < FANOUT
        invariant i <= FANOUT
        invariant View() == Freed(fs, Unheld(NamedSet(fs, z, i), busy))
        invariant counts[..] == Raised(was, NamedSet(fs, z, i)) && busy == Busy(counts[..])
      {
        FreeNamed(z, i, fs, was, busy);
        i := i + 1;
      }
      assert !Named(fs, z, FANOUT, z);
      FreeBlock(z, busy);
      FreedTwice(fs, Unheld(NamedSet(fs, z, FANOUT), busy), Unheld(iset{z}, busy));
      RaisedTwice(was, NamedSet(fs, z, FANOUT), iset{z});
      assert NamedSet(fs, z, FANOUT) + iset{z} == IndirectSet(fs, z);
      assert Unheld(NamedSet(fs, z, FANOUT), busy) + Unheld(iset{z}, busy)
          == Unheld(IndirectSet(fs, z), busy);
    }

    /** One turn of its loop. */
    method FreeNamed(z: nat, i: nat, ghost fs: Fs, ghost was: seq<nat>, ghost busy: set<nat>)
      requires Shape(fs) && 0 < z < ZONES && FreeableIndirect(fs, z) && i < FANOUT && counts.Length == ZONES
      requires View() == Freed(fs, Unheld(NamedSet(fs, z, i), busy))
      requires counts[..] == Raised(was, NamedSet(fs, z, i)) && busy == Busy(counts[..])
      modifies bits, counts
      ensures View() == Freed(fs, Unheld(NamedSet(fs, z, i + 1), busy))
      ensures counts[..] == Raised(was, NamedSet(fs, z, i + 1)) && busy == Busy(counts[..])
    {
      var p := Short(blocks[z], i);
      assert p == Entry(fs, z, i);
      if p != 0 {
        assert !Named(fs, z, i, p);
        FreeBlock(p, busy);
        FreedTwice(fs, Unheld(NamedSet(fs, z, i), busy), Unheld(iset{p}, busy));
        RaisedTwice(was, NamedSet(fs, z, i), iset{p});
      }
      NamedNext(fs, z, i, busy);
      NamedNext(fs, z, i, {});
      AllUnheld(NamedSet(fs, z, i), NamedSet(fs, z, i + 1), iset{p});
    }

    /** free_dind: free the subtree of every entry of a double index block, then the block itself. */
    method FreeDouble(z: nat, ghost busy: set<nat>)
      requires Shape(View()) && z < ZONES && FreeableDouble(View(), z)
      requires counts.Length == ZONES && busy == Busy(counts[..])
      modifies bits, counts
      ensures View() == Freed(old(View()), Unheld(DoubleSet(old(View()), z), busy))
      ensures counts[..] == Raised(old(counts[..]), DoubleSet(old(View()), z)) && busy == Busy(counts[..])
    {
      ghost var fs, was := View(), counts[..];
      RaisedNone(was);
      if z == 0 {
        assert DoubleSet(fs, z) == iset{} == Unheld(DoubleSet(fs, z), busy);
        FreedNone(fs);
        return;
      }
      var i := 0;
      FreedNone(fs);
      assert UnderSet(fs, z, 0) == iset{} == Unheld(UnderSet(fs, z, 0), busy);
      while i < FANOUT
        invariant i <= FANOUT
        invariant View() == Freed(fs, Unheld(UnderSet(fs, z, i), busy))
        invariant counts[..] == Raised(was, UnderSet(fs, z, i)) && busy == Busy(counts[..])
      {
        FreeMiddle(z, i, fs, was, busy);
        i := i + 1;
      }
      assert !Under(fs, z, FANOUT, z);
      FreeBlock(z, busy);
      FreedTwice(fs, Unheld(UnderSet(fs, z, FANOUT), busy), Unheld(iset{z}, busy));
      RaisedTwice(was, UnderSet(fs, z, FANOUT), iset{z});
      assert UnderSet(fs, z, FANOUT) + iset{z} == DoubleSet(fs, z);
      assert Unheld(UnderSet(fs, z, FANOUT), busy) + Unheld(iset{z}, busy)
          == Unheld(DoubleSet(fs, z), busy);
    }

    /** One turn of its loop. */
    method FreeMiddle(z: nat, i: nat, ghost fs: Fs, ghost was: seq<nat>, ghost busy: set<nat>)
      requires Shape(fs) && 0 < z < ZONES && FreeableDouble(fs, z) && i < FANOUT && counts.Length == ZONES
      requires View() == Freed(fs, Unheld(UnderSet(fs, z, i), busy))
      requires counts[..] == Raised(was, UnderSet(fs, z, i)) && busy == Busy(counts[..])
      modifies bits, counts
      ensures View() == Freed(fs, Unheld(UnderSet(fs, z, i + 1), busy))
      ensures counts[..] == Raised(was, UnderSet(fs, z, i + 1)) && busy == Busy(counts[..])
    {
      var p := Short(blocks[z], i);
      assert p == Entry(fs, z, i);
      if p != 0 {
        StillFreeable(fs, z, i, busy);
        FreeIndirect(p, busy);
        FreedSubtree(fs, z, i, busy);
        SubtreeApart(fs, z, i, busy);
        RaisedTwice(was, UnderSet(fs, z, i), IndirectSet(fs, p));
      }
      UnderNext(fs, z, i, busy);
      UnderNext(fs, z, i, {});
      AllUnheld(UnderSet(fs, z, i), UnderSet(fs, z, i + 1), IndirectSet(fs, p));
    }

    /** truncate: give back the whole tree of a file or directory. */
    method Truncate(n: nat, ghost busy: set<nat>)
      requires Valid() && n < inodes.Length
      requires counts.Length == ZONES && busy == Busy(counts[..])
      modifies bits, inodes, counts
      ensures Valid()
      ensures View() == if old(inodes[n].tree) then Truncated(old(View()), n, busy) else old(View())
      ensures counts[..] == if old(inodes[n].tree) then Raised(old(counts[..]), TreeSet(old(View()), n))
        else old(counts[..])
      ensures old(inodes[n].tree) ==> forall w :: 0 <= w < ZONES ==>
        counts[w] == old(counts[w]) + if old(InTree(View(), n, w)) && old(counts[w]) > 0 then 1 else 0
      ensures inodes[..] == if old(inodes[n].tree) then
        old(inodes[..])[n := Inode(true, [0, 0, 0, 0, 0, 0, 0, 0, 0], 0)] else old(inodes[..])
    {
      if !inodes[n].tree {
        return;
      }
      ghost var fs, was := View(), counts[..];
      var inode := inodes[n];
      TreeFreeable(fs, n);
      FreeDirect(n, busy);
      PartFreeable(fs, n, busy);
      FreeIndirect(inode.zone[7], busy);
      SecondPart(fs, n, busy);
      FreeDouble(inode.zone[8], busy);
      AllParts(fs, n, busy);
      AllRaised(fs, n, was);
      inodes[n] := Inode(true, seq(9, _ => 0), 0);
      assert inodes[..] == fs.inodes[n := Inode(true, seq(9, _ => 0), 0)];
      assert inodes[n].zone == [0, 0, 0, 0, 0, 0, 0, 0, 0];
      TruncateZones(fs, n, busy);
    }

    /** The loop of `truncate` over the seven direct slots. */
    method FreeDirect(n: nat, ghost busy: set<nat>)
      requires Valid() && n < inodes.Length && inodes[n].tree
      requires counts.Length == ZONES && busy == Busy(counts[..])
      modifies bits, inodes, counts
      ensures View() == Freed(old(View()), Unheld(DirectSet(old(View()), n, 7), busy))
        .(inodes := old(inodes[..])[n := ClearDirect(old(inodes[n]), 7)])
      ensures counts[..] == Raised(old(counts[..]), DirectSet(old(View()), n, 7)) && busy == Busy(counts[..])
    {
      ghost var fs, was := View(), counts[..];
      RaisedNone(was);
      var i := 0;
      FreedNone(fs);
      assert DirectSet(fs, n, 0) == iset{} == Unheld(DirectSet(fs, n, 0), busy);
      assert ClearDirect(fs.inodes[n], 0).zone == fs.inodes[n].zone;
      assert inodes[..] == fs.inodes[n := ClearDirect(fs.inodes[n], 0)];
      while i < 7
        invariant i <= 7 && counts[..] == Raised(was, DirectSet(fs, n, i)) && busy == Busy(counts[..])
        invariant View() ==
          Freed(fs, Unheld(DirectSet(fs, n, i), busy)).(inodes := fs.inodes[n := ClearDirect(fs.inodes[n], i)])
      {
        var z := inodes[n].zone[i];
        assert z == fs.inodes[n].zone[i] == Zone(fs, n, Direct(i));
        if z != 0 {
          DirectStillAllocated(fs, n, i, busy);
          FreeBlock(z, busy);
          FreedTwice(fs, Unheld(DirectSet(fs, n, i), busy), Unheld(iset{z}, busy));
          DirectApart(fs, n, i);
          RaisedTwice(was, DirectSet(fs, n, i), iset{z});
          inodes[n] := inodes[n].(zone := inodes[n].zone[i := 0]);
        }
        DirectNext(fs, n, i, busy);
        DirectNext(fs, n, i, {});
        AllUnheld(DirectSet(fs, n, i), DirectSet(fs, n, i + 1), iset{z});
        assert ClearDirect(fs.inodes[n], i + 1).zone == ClearDirect(fs.inodes[n], i).zone[i := 0];
        assert z == 0 ==> ClearDirect(fs.inodes[n], i).zone[i := 0] == ClearDirect(fs.inodes[n], i).zone;
        assert inodes[..] == fs.inodes[n := ClearDirect(fs.inodes[n], i + 1)];
        i := i + 1;
      }
    }

    ghost predicate FilesValid()
      reads this, bits, blocks, inodes
    {
      FileInv(View())
    }

    /** One turn of the loop of `file_read`: the bytes of one block. */
    method ReadChunk(n: nat, pos: nat, left: nat) returns (got: seq<nat>)
      requires Valid() && n < inodes.Length && inodes[n].tree && left > 0 && pos + left <= MAX_BYTES
      modifies bits, blocks, inodes
      ensures View() == old(View()) && 0 < |got| <= left
      ensures forall k :: 0 <= k < |got| ==> got[k] == ByteAt(View(), n, pos + k)
    {
      var nr := MapBlock(n, pos / BLOCK_SIZE, false);
      var c := pos % BLOCK_SIZE;
      var chars := if BLOCK_SIZE - c < left then BLOCK_SIZE - c else left;
      got := if nr != 0 then blocks[nr][c..c + chars] else seq(chars, _ => 0);
      ChunkBytes(View(), n, pos, got);
    }

    /** One turn of the loop of `file_write`: copy `data` into the block at `pos`, growing the file; false when no block
        could be had. */
    method WriteOne(n: nat, pos: nat, data: seq<nat>) returns (ok: bool)
      requires FilesValid() && n < inodes.Length && inodes[n].tree && Bytes(data) && data != []
      requires pos + |data| <= MAX_BYTES && pos % BLOCK_SIZE + |data| <= BLOCK_SIZE
      modifies bits, blocks, inodes
      ensures FilesValid() && Written(old(View()), View(), n, pos, if ok then data else [])
      ensures !ok ==> Full()
    {
      ghost var fs1 := View();
      var block := MapBlock(n, pos / BLOCK_SIZE, true);
      ghost var fs2 := View();
      ExtendsKeepsBytes(fs1, fs2, n, PathOf(pos / BLOCK_SIZE));
      if block == 0 {
        return false;
      }
      WriteChunkContent(fs2, n, pos, data);
      WriteChunkZones(fs2, n, pos, data);
      CopyChunk(n, block, pos, data);
      return true;
    }

    /** The copy itself: the inode grows, and the bytes go into the block. */
    method CopyChunk(n: nat, block: nat, pos: nat, data: seq<nat>)
      requires Valid() && n < inodes.Length && data != [] && pos + |data| <= MAX_BYTES
      requires pos % BLOCK_SIZE + |data| <= BLOCK_SIZE
      requires block == Bmap(View(), n, pos / BLOCK_SIZE) != 0 && Bytes(data)
      modifies blocks, inodes
      ensures View() == WriteChunk(old(View()), n, pos, data)
    {
      ghost var fs := View();
      inodes[n] := Grow(inodes[n], pos + |data|);
      blocks[block] := Patch(blocks[block], pos % BLOCK_SIZE, data);
      assert inodes[..] == fs.inodes[n := Grow(fs.inodes[n], pos + |data|)];
      assert blocks[..] == fs.blocks[block := Patch(fs.blocks[block], pos % BLOCK_SIZE, data)];
    }

    /** file_read, for a device that reads without error: the bytes at the file position, holes as zeros. */
    method FileRead(n: nat, f: File, count: int) returns (r: int, out: seq<nat>)
      requires FilesValid() && n < inodes.Length && inodes[n].tree
      requires count > 0 ==> f.pos + count <= MAX_BYTES
      modifies f, bits, blocks, inodes
      ensures View() == old(View())
      ensures |out| == (if count <= 0 then 0 else count) && r == |out| && f.pos == old(f.pos) + |out|
      ensures forall k :: 0 <= k < |out| ==> out[k] == ByteAt(View(), n, old(f.pos) + k)
    {
      out := [];
      if count <= 0 {
        return 0, out;
      }
      ghost var fs, start := View(), f.pos;
      var left := count;
      while left > 0
        invariant 0 <= left <= count && View() == fs
        invariant |out| == count - left && f.pos == start + |out|
        invariant forall k :: 0 <= k < |out| ==> out[k] == ByteAt(fs, n, start + k)
      {
        var got := ReadChunk(n, f.pos, left);
        out := out + got;
        f.pos := f.pos + |got|;
        left := left - |got|;
      }
      return count, out;
    }

    /** The clamp of `sys_read`: never past the end of the file. */
    method SysRead(n: nat, f: File, count: nat) returns (r: int, out: seq<nat>)
      requires FilesValid() && n < inodes.Length && inodes[n].tree
      modifies f, bits, blocks, inodes
      ensures View() == old(View())
      ensures r == |out| && f.pos == old(f.pos) + |out|
      ensures ReadResult(View(), n, old(f.pos), count, out)
    {
      var c: int := if count + f.pos > inodes[n].size then inodes[n].size - f.pos else count;
      if c <= 0 {
        return 0, [];
      }
      r, out := FileRead(n, f, c);
    }

    /** file_write: splice the buffer in at the file position, or at the end when appending;
        when the device fills up, the part that fitted. */
    method FileWrite(n: nat, f: File, buf: seq<nat>) returns (r: int)
      requires FilesValid() && n < inodes.Length && inodes[n].tree && Bytes(buf)
      requires (if f.append then inodes[n].size else f.pos) + |buf| <= MAX_BYTES
      modifies f, bits, blocks, inodes
      ensures FilesValid()
      ensures r == -1 || 0 < r <= |buf|
      ensures var start := if f.append then old(inodes[n].size) else old(f.pos);
              var done := if r == -1 then 0 else r;
              Written(old(View()), View(), n, start, buf[..done]) &&
              f.pos == (if f.append then old(f.pos) else start + done) &&
              (done < |buf| ==> Full())
    {
      var pos := if f.append then inodes[n].size else f.pos;
      var i := WriteFrom(n, pos, buf);
      if !f.append {
        f.pos := pos + i;
      }
      r := if i > 0 then i else -1;
    }

    /** The loop of `file_write`, from position `start`; the number of bytes copied. */
    method WriteFrom(n: nat, start: nat, buf: seq<nat>) returns (i: nat)
      requires FilesValid() && n < inodes.Length && inodes[n].tree && Bytes(buf) && start + |buf| <= MAX_BYTES
      modifies bits, blocks, inodes
      ensures FilesValid() && i <= |buf| && (i < |buf| ==> Full())
      ensures Written(old(View()), View(), n, start, buf[..i])
    {
      ghost var fs := View();
      i := 0;
      assert buf[..0] == [];
      while i < |buf|
        invariant i <= |buf| && Written(fs, View(), n, start, buf[..i])
      {
        var more := WriteTurn(n, start, buf, i, fs);
        if more == 0 {
          break;
        }
        i := i + more;
      }
    }

    /** One turn of that loop: as much as goes into one block, or nothing when no block could be had. */
    method WriteTurn(n: nat, start: nat, buf: seq<nat>, i: nat, ghost fs: Fs) returns (len: nat)
      requires FilesValid() && n < inodes.Length && inodes[n].tree && Bytes(buf) && start + |buf| <= MAX_BYTES
      requires i < |buf|
      requires FileInv(fs) && n < |fs.inodes| && Written(fs, View(), n, start, buf[..i])
      modifies bits, blocks, inodes
      ensures FilesValid() && i + len <= |buf| && (len == 0 ==> Full())
      ensures Written(fs, View(), n, start, buf[..i + len])
    {
      ghost var fs1 := View();
      var c := (start + i) % BLOCK_SIZE;
      len := if BLOCK_SIZE - c > |buf| - i then |buf| - i else BLOCK_SIZE - c;
      var data := buf[i..i + len];
      var ok := WriteOne(n, start + i, data);
      TurnWritten(fs, fs1, View(), n, start, buf, i, len, ok);
      len := if ok then len else 0;
    }
  }
}
