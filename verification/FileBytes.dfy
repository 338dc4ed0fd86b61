/** The byte sequence a regular file stands for, read through its block tree. */
module FileBytes {
  import opened BlockTree

  const MAX_BYTES := MAX_BLOCKS * BLOCK_SIZE

  /** The byte at a position; a hole reads as zero. */
  ghost function ByteAt(fs: Fs, n: nat, pos: nat): nat
    requires Shape(fs) && n < |fs.inodes| && pos < MAX_BYTES
  {
    var z := Bmap(fs, n, pos / BLOCK_SIZE);
    if z == 0 then 0 else fs.blocks[z][pos % BLOCK_SIZE]
  }

  /** The tree invariant, and: past its end a file holds only zeros. */
  ghost predicate FileInv(fs: Fs) {
    Inv(fs) &&
    (forall n: nat :: n < |fs.inodes| ==> fs.inodes[n].size <= MAX_BYTES) &&
    (forall n: nat, pos: nat :: n < |fs.inodes| && fs.inodes[n].size <= pos < MAX_BYTES ==> ByteAt(fs, n, pos) == 0)
  }

  /** What a file contains. */
  ghost function Content(fs: Fs, n: nat): (s: seq<nat>)
    requires FileInv(fs) && n < |fs.inodes|
    ensures |s| == fs.inodes[n].size
    ensures forall i :: 0 <= i < |s| ==> s[i] == ByteAt(fs, n, i)
  {
    seq(fs.inodes[n].size, i requires 0 <= i < fs.inodes[n].size => ByteAt(fs, n, i))
  }

  /** `s` with `data` written over it at `pos`; a gap before `pos` fills with zeros. */
  function Splice(s: seq<nat>, pos: nat, data: seq<nat>): (r: seq<nat>)
    ensures data == [] ==> r == s
    ensures data != [] ==> |r| == (if pos + |data| > |s| then pos + |data| else |s|)
    ensures data != [] ==> forall i :: 0 <= i < |r| ==>
      r[i] == SpliceByte(s, pos, data, i)
  {
    if data == [] then s else
    seq(if pos + |data| > |s| then pos + |data| else |s|, i requires 0 <= i => SpliceByte(s, pos, data, i))
  }

  function SpliceByte(s: seq<nat>, pos: nat, data: seq<nat>, i: nat): nat {
    if pos <= i < pos + |data| then data[i - pos] else if i < |s| then s[i] else 0
  }

  lemma SpliceByteCompose(s: seq<nat>, pos: nat, a: seq<nat>, b: seq<nat>, mid: seq<nat>, i: nat)
    requires a != [] && |mid| == if pos + |a| > |s| then pos + |a| else |s|
    requires i < |mid| ==> mid[i] == SpliceByte(s, pos, a, i)
    ensures SpliceByte(mid, pos + |a|, b, i) == SpliceByte(s, pos, a + b, i)
  {
  }

  /** Writing on where the last write ended is one longer write. */
  lemma SpliceCompose(s: seq<nat>, pos: nat, a: seq<nat>, b: seq<nat>)
    ensures Splice(Splice(s, pos, a), pos + |a|, b) == Splice(s, pos, a + b)
  {
    if b == [] {
      assert a + b == a;
    } else if a == [] {
      assert a + b == b && pos + |a| == pos && Splice(s, pos, a) == s;
    } else {
      SpliceBoth(s, pos, a, b);
    }
  }

  lemma SpliceBoth(s: seq<nat>, pos: nat, a: seq<nat>, b: seq<nat>)
    requires a != [] && b != []
    ensures Splice(Splice(s, pos, a), pos + |a|, b) == Splice(s, pos, a + b)
  {
    var mid, ab := Splice(s, pos, a), a + b;
    var one, two := Splice(s, pos, ab), Splice(mid, pos + |a|, b);
    assert |one| == |two|;
    forall i | 0 <= i < |one| ensures one[i] == two[i] {
      SpliceByteCompose(s, pos, a, b, mid, i);
    }
  }

  /** Inodes without zones are empty files. */
  lemma EmptyFiles(fs: Fs)
    requires Shape(fs) && fs.bits[0]
    requires forall n :: 0 <= n < |fs.inodes| ==> fs.inodes[n].size == 0 && fs.inodes[n].zone == seq(9, _ => 0)
    ensures FileInv(fs) && forall n: nat, p :: n < |fs.inodes| && IsPath(p) ==> Zone(fs, n, p) == 0
  {
    forall n: nat, p | n < |fs.inodes| && IsPath(p) ensures Zone(fs, n, p) == 0 {}
    forall n: nat, x: nat | n < |fs.inodes| && x < MAX_BYTES ensures ByteAt(fs, n, x) == 0 {
      assert Zone(fs, n, PathOf(x / BLOCK_SIZE)) == 0;
    }
  }

  /** Allocating on the way to a block changes no byte of any file. */
  lemma ExtendsKeepsBytes(fs: Fs, fs': Fs, n: nat, p: Path)
    requires FileInv(fs) && Extends(fs, fs', n, p)
    ensures FileInv(fs')
    ensures forall m: nat :: m < |fs.inodes| ==> Content(fs', m) == Content(fs, m)
  {
    forall m: nat, pos: nat | m < |fs.inodes| && pos < MAX_BYTES
      ensures ByteAt(fs', m, pos) == ByteAt(fs, m, pos)
    {
      var q := PathOf(pos / BLOCK_SIZE);
      assert Zone(fs', m, q) == Zone(fs, m, q) || Zone(fs, m, q) == 0;
    }
    forall m: nat | m < |fs.inodes| ensures Content(fs', m) == Content(fs, m) {
    }
  }

  function Patch(b: Block, c: nat, data: seq<nat>): (b': Block)
    requires c + |data| <= |b|
    ensures |b'| == |b|
    ensures forall i :: 0 <= i < |b| ==> b'[i] == if c <= i < c + |data| then data[i - c] else b[i]
  {
    b[..c] + data + b[c + |data|..]
  }

  function Grow(inode: Inode, end: nat): Inode {
    if end > inode.size then inode.(size := end) else inode
  }

  /** The state after copying `data` into the one block that holds position `pos`. */
  ghost function WriteChunk(fs: Fs, n: nat, pos: nat, data: seq<nat>): Fs
    requires Shape(fs) && n < |fs.inodes| && pos + |data| <= MAX_BYTES && data != []
    requires pos % BLOCK_SIZE + |data| <= BLOCK_SIZE
  {
    var z := Bmap(fs, n, pos / BLOCK_SIZE);
    SetBlock(fs, z, Patch(fs.blocks[z], pos % BLOCK_SIZE, data))
      .(inodes := fs.inodes[n := Grow(fs.inodes[n], pos + |data|)])
  }

  ghost predicate Bytes(data: seq<nat>) {
    forall i :: 0 <= i < |data| ==> data[i] < 256
  }

  lemma WriteChunkZones(fs: Fs, n: nat, pos: nat, data: seq<nat>)
    requires Inv(fs) && n < |fs.inodes| && pos + |data| <= MAX_BYTES && data != [] && Bytes(data)
    requires pos % BLOCK_SIZE + |data| <= BLOCK_SIZE && Bmap(fs, n, pos / BLOCK_SIZE) != 0
    ensures Inv(WriteChunk(fs, n, pos, data))
    ensures forall m: nat, q :: m < |fs.inodes| && IsPath(q) ==>
      Zone(WriteChunk(fs, n, pos, data), m, q) == Zone(fs, m, q)
    ensures Conserved(fs) ==> Conserved(WriteChunk(fs, n, pos, data))
  {
    var z, p := Bmap(fs, n, pos / BLOCK_SIZE), PathOf(pos / BLOCK_SIZE);
    var fs1 := SetBlock(fs, z, Patch(fs.blocks[z], pos % BLOCK_SIZE, data));
    var fs2 := WriteChunk(fs, n, pos, data);
    assert Zone(fs, n, p) == z;
    ContentFrame(fs, z, Patch(fs.blocks[z], pos % BLOCK_SIZE, data));
    forall m: nat, q | m < |fs.inodes| && IsPath(q) ensures Zone(fs2, m, q) == Zone(fs, m, q) {
      assert Zone(fs2, m, q) == Zone(fs1, m, q);
    }
    StillReached(fs, fs2);
  }

  lemma StillReached(fs: Fs, fs': Fs)
    requires Shape(fs) && Shape(fs') && |fs'.inodes| == |fs.inodes|
    requires forall m: nat, q :: m < |fs.inodes| && IsPath(q) ==> Zone(fs', m, q) == Zone(fs, m, q)
    ensures forall w: nat :: Reached(fs', w) <==> Reached(fs, w)
  {
    forall w: nat ensures Reached(fs', w) <==> Reached(fs, w) {
      if Reached(fs, w) {
        var m: nat, q :| m < |fs.inodes| && IsPath(q) && Zone(fs, m, q) == w;
        assert Zone(fs', m, q) == w;
      }
      if Reached(fs', w) {
        var m: nat, q :| m < |fs.inodes| && IsPath(q) && Zone(fs', m, q) == w;
        assert Zone(fs, m, q) == w;
      }
    }
  }

  /** Copying into one block splices exactly those bytes into exactly that file. */
  lemma WriteChunkContent(fs: Fs, n: nat, pos: nat, data: seq<nat>)
    requires FileInv(fs) && n < |fs.inodes| && pos + |data| <= MAX_BYTES && data != [] && Bytes(data)
    requires pos % BLOCK_SIZE + |data| <= BLOCK_SIZE && Bmap(fs, n, pos / BLOCK_SIZE) != 0
    ensures FileInv(WriteChunk(fs, n, pos, data))
    ensures Content(WriteChunk(fs, n, pos, data), n) == Splice(Content(fs, n), pos, data)
    ensures forall m: nat :: m < |fs.inodes| && m != n ==> Content(WriteChunk(fs, n, pos, data), m) == Content(fs, m)
  {
    var fs' := WriteChunk(fs, n, pos, data);
    WriteChunkZones(fs, n, pos, data);
    forall m: nat, x: nat | m < |fs.inodes| && x < MAX_BYTES
      ensures ByteAt(fs', m, x) == if m == n && pos <= x < pos + |data| then data[x - pos] else ByteAt(fs, m, x)
    {
      WriteChunkByte(fs, n, pos, data, m, x);
    }
    assert forall m: nat :: m < |fs.inodes| && m != n ==> fs'.inodes[m] == fs.inodes[m];
    assert FileInv(fs');
    forall m: nat | m < |fs.inodes| && m != n ensures Content(fs', m) == Content(fs, m) {
    }
    var was, now := Splice(Content(fs, n), pos, data), Content(fs', n);
    forall i | 0 <= i < |now| ensures now[i] == was[i] {
    }
  }

  lemma WriteChunkByte(fs: Fs, n: nat, pos: nat, data: seq<nat>, m: nat, x: nat)
    requires Inv(fs) && n < |fs.inodes| && pos + |data| <= MAX_BYTES && data != [] && Bytes(data)
    requires pos % BLOCK_SIZE + |data| <= BLOCK_SIZE && Bmap(fs, n, pos / BLOCK_SIZE) != 0
    requires m < |fs.inodes| && x < MAX_BYTES && Shape(WriteChunk(fs, n, pos, data))
    requires Bmap(WriteChunk(fs, n, pos, data), m, x / BLOCK_SIZE) == Bmap(fs, m, x / BLOCK_SIZE)
    ensures ByteAt(WriteChunk(fs, n, pos, data), m, x)
            == if m == n && pos <= x < pos + |data| then data[x - pos] else ByteAt(fs, m, x)
  {
    var a, b := pos / BLOCK_SIZE, x / BLOCK_SIZE;
    assert Zone(fs, n, PathOf(a)) == Bmap(fs, n, a) && Zone(fs, m, PathOf(b)) == Bmap(fs, m, b);
    if Bmap(fs, m, b) == Bmap(fs, n, a) {
      assert m == n;
      PathOfInjective(a, b);
    } else if m == n {
      assert a != b;
    }
  }

  /** `fs'` is `fs` with `data` spliced into file `n` at `pos`, every other file the same, and no zone lost on the
      way. */
  ghost predicate Written(fs: Fs, fs': Fs, n: nat, pos: nat, data: seq<nat>)
    requires FileInv(fs) && n < |fs.inodes|
  {
    FileInv(fs') && |fs'.inodes| == |fs.inodes| && fs'.inodes[n].tree == fs.inodes[n].tree &&
    Content(fs', n) == Splice(Content(fs, n), pos, data) &&
    (forall m: nat :: m < |fs.inodes| && m != n ==> Content(fs', m) == Content(fs, m)) &&
    (Conserved(fs) ==> Conserved(fs'))
  }

  lemma WrittenOn(fs: Fs, fs1: Fs, fs2: Fs, n: nat, pos: nat, a: seq<nat>, b: seq<nat>)
    requires FileInv(fs) && n < |fs.inodes| && Written(fs, fs1, n, pos, a) && Written(fs1, fs2, n, pos + |a|, b)
    ensures Written(fs, fs2, n, pos, a + b)
  {
    SpliceCompose(Content(fs, n), pos, a, b);
    forall m: nat | m < |fs.inodes| && m != n ensures Content(fs2, m) == Content(fs, m) {
      assert Content(fs1, m) == Content(fs, m);
    }
  }
}
