/** Where the bytes of a file are on the device, in the numbers of the file system's own layout. */
module BlockLayout {
  import opened BlockTree
  import opened FileBytes

  /** Entry `i` of index block `z`: two bytes, low byte first; nothing where there is no block. */
  ghost function NumberIn(fs: Fs, z: nat, i: nat): nat
    requires |fs.blocks| == 65536 && (forall y :: 0 <= y < 65536 ==> |fs.blocks[y]| == 1024) && i < 512
  {
    if z == 0 || z >= 65536 then 0 else fs.blocks[z][2 * i] + 256 * fs.blocks[z][2 * i + 1]
  }

  /** The zone of logical block `b`: in the inode for the first 7; then through the index block in its slot 7, for 512
      more; and then through the blocks of index blocks in its slot 8. */
  ghost function OnDevice(fs: Fs, n: nat, b: nat): nat
    requires Shape(fs) && n < |fs.inodes| && b < 7 + 512 + 512 * 512
  {
    var zone := fs.inodes[n].zone;
    if b < 7 then zone[b]
    else if b < 519 then NumberIn(fs, zone[7], b - 7)
    else NumberIn(fs, NumberIn(fs, zone[8], (b - 519) / 512), (b - 519) % 512)
  }

  /** `bmap` follows that layout. */
  lemma BmapIsOnDevice(fs: Fs, n: nat, b: nat)
    requires Shape(fs) && n < |fs.inodes| && fs.inodes[n].tree && b < MAX_BLOCKS
    ensures MAX_BLOCKS == 7 + 512 + 512 * 512 && Bmap(fs, n, b) == OnDevice(fs, n, b)
  {
  }

  /** Byte `i` of a file is byte `i % 1024` of the zone of its block `i / 1024`; a block without a zone reads as
      zeros. */
  lemma ContentOnDevice(fs: Fs, n: nat, i: nat)
    requires FileInv(fs) && n < |fs.inodes| && fs.inodes[n].tree && i < fs.inodes[n].size
    ensures i / 1024 < 7 + 512 + 512 * 512
    ensures |Content(fs, n)| == fs.inodes[n].size && OnDevice(fs, n, i / 1024) < 65536
    ensures Content(fs, n)[i] ==
      if OnDevice(fs, n, i / 1024) == 0 then 0 else fs.blocks[OnDevice(fs, n, i / 1024)][i % 1024]
  {
    BmapIsOnDevice(fs, n, i / BLOCK_SIZE);
  }

  /** The bit of a data zone: the first data zone has bit 1 of the map, the next bit 2, and so on. */
  lemma BitOnDevice(fs: Fs, z: nat)
    requires Shape(fs) && fs.geo.firstDataZone <= z < fs.geo.nZones
    ensures fs.geo.InData(z) && (Allocated(fs, z) <==> fs.bits[z - fs.geo.firstDataZone + 1])
  {
  }

  /** A zone stored at the place of block `b` is found there from then on, wherever the layout keeps it. */
  lemma LinkedOnDevice(fs: Fs, n: nat, b: nat, z: nat)
    requires b < MAX_BLOCKS && Linkable(fs, n, PathOf(b), z)
    ensures Shape(Link(fs, n, PathOf(b), z)) && n < |Link(fs, n, PathOf(b), z).inodes|
    ensures OnDevice(Link(fs, n, PathOf(b), z), n, b) == z
  {
    LinkZone(fs, n, PathOf(b), z, n, PathOf(b));
    LinkShape(fs, n, PathOf(b), z);
    LinkKeepsTree(fs, n, PathOf(b), z);
    BmapIsOnDevice(Link(fs, n, PathOf(b), z), n, b);
  }

  lemma LinkKeepsTree(fs: Fs, n: nat, p: Path, z: nat)
    requires Shape(fs) && n < |fs.inodes| && IsPath(p) && z < ZONES
    ensures var fs' := Link(fs, n, p, z); |fs'.inodes| == |fs.inodes| && fs'.inodes[n].tree == fs.inodes[n].tree
  {
  }
}
