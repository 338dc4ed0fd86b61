/** What the cache shows its clients, over whole runs: a plain disk. */
module BufferRuns {
  import opened Elevator
  import opened BufferCache
  import opened BufferSteps

  /** Buffer `b` is up to date for block `k`. */
  ghost predicate Shows(c: Cache, b: nat, k: Key) {
    Named(c, b, k) && k.dev != 0 && c.bufs[b].uptodate
  }

  ghost predicate IsShown(c: Cache, k: Key) {
    exists b: nat :: Shows(c, b, k)
  }

  ghost function ShownIn(c: Cache, k: Key): (b: nat)
    requires IsShown(c, k)
    ensures Shows(c, b, k)
  {
    var b: nat :| Shows(c, b, k); b
  }

  /** A block as the cache shows it: an up-to-date buffer wins over what is on disk. */
  ghost function ShownAt(c: Cache, k: Key): Data {
    if IsShown(c, k) then c.bufs[ShownIn(c, k)].data else if k in c.disk then c.disk[k] else []
  }

  ghost function Shown(c: Cache): (m: imap<Key, Data>)
    ensures Total(m) && forall k: Key :: m[k] == ShownAt(c, k)
  {
    imap k: Key :: ShownAt(c, k)
  }

  lemma ShownByBuffer(c: Cache, b: nat, k: Key)
    requires Unique(c) && Shows(c, b, k)
    ensures ShownAt(c, k) == c.bufs[b].data
  {
    assert Shows(c, ShownIn(c, k), k);
  }

  /** The same blocks are shown, with the same data. */
  lemma SameShown(c: Cache, c': Cache, k: Key)
    requires Unique(c) && Unique(c') && Total(c.disk) && Total(c'.disk) && |c'.bufs| == |c.bufs|
    requires forall b: nat :: b < |c.bufs| && (c.bufs[b].key == k || c'.bufs[b].key == k) ==>
      var x, x' := c.bufs[b], c'.bufs[b];
      x'.key == x.key && x'.uptodate == x.uptodate && x'.data == x.data
    requires IsShown(c, k) || c'.disk[k] == c.disk[k]
    ensures ShownAt(c', k) == ShownAt(c, k)
  {
    if IsShown(c, k) {
      var b := ShownIn(c, k);
      assert Shows(c', b, k);
      ShownByBuffer(c', b, k);
    } else {
      if IsShown(c', k) {
        var b := ShownIn(c', k);
        assert Shows(c, b, k);
      }
    }
  }

  /** Renaming a clean unused buffer loses nothing: what it showed is on disk. */
  lemma RenameLosesNothing(c: Cache, t: nat, b: nat, k: Key)
    requires Inv(c) && t < |c.pcs| && b < |c.bufs| && k.dev != 0
    requires c.bufs[b].count == 0 && !c.bufs[b].dirt && !c.bufs[b].lock && !Cached(c, k)
    ensures Shown(Rename(c, t, b, k)) == Shown(c)
    ensures Shows(c, b, c.bufs[b].key) ==> c.disk[c.bufs[b].key] == Shown(c)[c.bufs[b].key]
  {
    var c', was := Rename(c, t, b, k), c.bufs[b].key;
    RenameKeepsInv(c, t, b, k);
    if Shows(c, b, was) {
      assert BufferCoherent(c, b);
      forall i | 0 <= i < |c.queue| ensures c.queue[i].buf != b { assert Matches(c, c.queue[i]); }
      ShownByBuffer(c, b, was);
    }
    forall m: Key ensures ShownAt(c', m) == ShownAt(c, m) {
      if m == k {
        forall a: nat ensures !Shows(c, a, m) && !Shows(c', a, m) { assert !Named(c, a, m); assert Unique(c'); }
      } else if m == was {
        forall a: nat ensures !Shows(c', a, m) && (Shows(c, a, m) ==> a == b) { assert Unique(c); }
      } else {
        SameShown(c, c', m);
      }
    }
  }

  /** What one step does to the disk the clients see: only their own stores change it, and `free_block` gives a block
      up to whatever is on disk. */
  ghost function Effect(c: Cache, s: Event): imap<Key, Data>
  {
    match s
    case Modify(h, v) => if h < |c.holds| then Shown(c)[c.holds[h].key := v] else Shown(c)
    case Fill(h, v) => if h < |c.holds| then Shown(c)[c.holds[h].key := v] else Shown(c)
    case Forget(h) =>
      if h < |c.holds| && c.holds[h].key in c.disk then Shown(c)[c.holds[h].key := c.disk[c.holds[h].key]]
      else Shown(c)
    case _ => Shown(c)
  }

  lemma StoreShows(c: Cache, h: nat, x: Buf)
    requires Inv(c) && Holding(c, h) && x.key == c.bufs[c.holds[h].b].key && x.uptodate
    requires Inv(SetBuf(c, c.holds[h].b, x))
    ensures Shown(SetBuf(c, c.holds[h].b, x)) == Shown(c)[c.holds[h].key := x.data]
  {
    var b, k := c.holds[h].b, c.holds[h].key;
    assert Named(c, b, k);
    var c' := SetBuf(c, b, x);
    assert Shows(c', b, k);
    ShownByBuffer(c', b, k);
    forall m: Key | m != k ensures ShownAt(c', m) == ShownAt(c, m) {
      SameShown(c, c', m);
    }
  }

  lemma ForgetShows(c: Cache, h: nat)
    requires Inv(c) && Enabled(c, Forget(h))
    ensures Inv(Forgotten(c, c.holds[h].b)) && Shown(Forgotten(c, c.holds[h].b)) == Effect(c, Forget(h))
  {
    var b, k := c.holds[h].b, c.holds[h].key;
    assert Named(c, b, k);
    var c' := Forgotten(c, b);
    StoreKeepsInv(c, b, c'.bufs[b]);
    forall a: nat ensures !Shows(c', a, k) { assert Unique(c'); }
    forall m: Key | m != k ensures ShownAt(c', m) == ShownAt(c, m) {
      SameShown(c, c', m);
    }
  }

  /** The disk completing a read brings in what was shown already; completing a write shows the same data from disk. */
  lemma FinishShows(c: Cache, torn: Data)
    requires Inv(c) && Enabled(c, Finish(torn))
    ensures Inv(FinishStep(c, torn)) && Shown(FinishStep(c, torn)) == Shown(c)
  {
    FinishKeepsInv(c, torn);
    var r, b := c.queue[0], c.queue[0].buf;
    assert Matches(c, r);
    var k, c' := c.bufs[b].key, FinishStep(c, torn);
    assert Shows(c', b, k);
    ShownByBuffer(c', b, k);
    if r.cmd == WRITE {
      assert Shows(c, b, k);
      ShownByBuffer(c, b, k);
    } else {
      forall a: nat ensures !Shows(c, a, k) { assert Unique(c); }
    }
    forall m: Key | m != k ensures ShownAt(c', m) == ShownAt(c, m) {
      SameShown(c, c', m);
    }
  }

  ghost predicate SameContents(c: Cache, c': Cache) {
    |c'.bufs| == |c.bufs| && c'.disk == c.disk &&
    forall b: nat :: b < |c.bufs| ==>
      c'.bufs[b].key == c.bufs[b].key && c'.bufs[b].uptodate == c.bufs[b].uptodate && c'.bufs[b].data == c.bufs[b].data
  }

  lemma QuietShows(c: Cache, c': Cache)
    requires Inv(c) && Inv(c') && SameContents(c, c')
    ensures Shown(c') == Shown(c)
  {
    forall m: Key ensures ShownAt(c', m) == ShownAt(c, m) {
      SameShown(c, c', m);
    }
  }

  /** The steps that change no buffer's name, contents or validity. */
  lemma QuietStep(c: Cache, s: Event, c': Cache)
    requires Inv(c) && Next(c, s, c') && !s.Take? && !s.Finish? && !s.Modify? && !s.Fill? && !s.Forget?
    ensures SameContents(c, c')
  {
    if s.Lookup? && Cached(c, c.pcs[s.t].key) {
      var b: nat :| Named(c, b, c.pcs[s.t].key) && c' == CountIn(c, s.t, b, c.pcs[s.t].key);
    }
  }

  lemma TakeShows(c: Cache, t: nat)
    requires Inv(c) && Enabled(c, Take(t))
    ensures Inv(TakeStep(c, t)) && Shown(TakeStep(c, t)) == Shown(c)
  {
    TakeKeepsInv(c, t);
    var k, b := c.pcs[t].key, c.pcs[t].b;
    if c.bufs[b].count == 0 && !c.bufs[b].dirt && !Cached(c, k) {
      assert PcOk(c, t, c.pcs[t]);
      RenameLosesNothing(c, t, b, k);
    } else {
      QuietShows(c, TakeStep(c, t));
    }
  }

  /** Main result, one step: the clients see a plain disk. */
  lemma StepShows(c: Cache, s: Event, c': Cache)
    requires Inv(c) && Next(c, s, c')
    ensures Inv(c') && Shown(c') == Effect(c, s)
  {
    StepKeepsInv(c, s, c');
    if s.Modify? || s.Fill? || s.Forget? {
      ClientShows(c, s, c');
    } else {
      OthersShow(c, s, c');
    }
  }

  lemma ClientShows(c: Cache, s: Event, c': Cache)
    requires Inv(c) && Inv(c') && Next(c, s, c') && (s.Modify? || s.Fill? || s.Forget?)
    ensures Shown(c') == Effect(c, s)
  {
    if s.Forget? {
      ForgetShows(c, s.h);
    } else {
      StoreShows(c, s.h, c'.bufs[c.holds[s.h].b]);
    }
  }

  lemma OthersShow(c: Cache, s: Event, c': Cache)
    requires Inv(c) && Inv(c') && Next(c, s, c') && !s.Modify? && !s.Fill? && !s.Forget?
    ensures Shown(c') == Shown(c)
  {
    match s
    case Take(t) => TakeShows(c, t);
    case Finish(torn) => FinishShows(c, torn);
    case _ =>
      QuietStep(c, s, c');
      QuietShows(c, c');
  }

  // ----- Whole runs

  /** A run: `states` has one more element than `events`. */
  ghost predicate History(states: seq<Cache>, events: seq<Event>) {
    |states| == |events| + 1 && forall i :: 0 <= i < |events| ==> Next(states[i], events[i], states[i + 1])
  }

  lemma {:induction false} HistoryKeepsInv(states: seq<Cache>, events: seq<Event>, n: nat)
    requires History(states, events) && Inv(states[0]) && n <= |events|
    ensures Inv(states[n])
  {
    if n > 0 {
      HistoryKeepsInv(states, events, n - 1);
      assert Next(states[n - 1], events[n - 1], states[n - 1 + 1]);
      StepKeepsInv(states[n - 1], events[n - 1], states[n]);
    }
  }

  /** The event stores `v` in block `k`. */
  ghost predicate Stores(c: Cache, s: Event, k: Key, v: Data) {
    (s.Modify? || s.Fill?) && s.h < |c.holds| && c.holds[s.h].key == k && s.data == v
  }

  /** The event stores in block `k`, or frees it. */
  ghost predicate Touches(c: Cache, s: Event, k: Key) {
    (s.Modify? || s.Fill? || s.Forget?) && s.h < |c.holds| && c.holds[s.h].key == k
  }

  lemma UntouchedStep(c: Cache, s: Event, c': Cache, k: Key)
    requires Inv(c) && Next(c, s, c') && !Touches(c, s, k)
    ensures Inv(c') && Shown(c')[k] == Shown(c)[k]
  {
    StepShows(c, s, c');
  }

  lemma StoreStep(c: Cache, s: Event, c': Cache, k: Key, v: Data)
    requires Inv(c) && Next(c, s, c') && Stores(c, s, k, v)
    ensures Inv(c') && Shown(c')[k] == v
  {
    StepShows(c, s, c');
  }

  /** A block nobody stores in or frees is shown unchanged, whatever is evicted, written back, or read in again. */
  lemma {:induction false} UntouchedStays(states: seq<Cache>, events: seq<Event>, i: nat, n: nat, k: Key)
    requires History(states, events) && Inv(states[0]) && i <= n <= |events|
    requires forall j :: i <= j < n ==> !Touches(states[j], events[j], k)
    ensures Shown(states[n])[k] == Shown(states[i])[k]
    decreases n - i
  {
    hide Inv, Next, Shown, Touches;
    if i < n {
      UntouchedStays(states, events, i, n - 1, k);
      HistoryKeepsInv(states, events, n - 1);
      assert Next(states[n - 1], events[n - 1], states[n - 1 + 1]);
      UntouchedStep(states[n - 1], events[n - 1], states[n], k);
    }
  }

  /** Main result, over runs: whoever holds an up-to-date buffer of a block -- what bread returns -- sees the last data
      stored in that block, by whichever task, however often the block left the cache in between. */
  lemma ReadersSeeTheLastStore(states: seq<Cache>, events: seq<Event>, i: nat, n: nat, k: Key, v: Data, h: nat)
    requires History(states, events) && Inv(states[0]) && i < n <= |events|
    requires Stores(states[i], events[i], k, v)
    requires forall j :: i < j < n ==> !Touches(states[j], events[j], k)
    requires h < |states[n].holds| && states[n].holds[h].key == k
    ensures states[n].holds[h].b < |states[n].bufs|
    ensures states[n].bufs[states[n].holds[h].b].uptodate ==> states[n].bufs[states[n].holds[h].b].data == v
  {
    UntouchedStays(states, events, i + 1, n, k);
    HistoryKeepsInv(states, events, n);
    HistoryKeepsInv(states, events, i);
    assert Next(states[i], events[i], states[i + 1]);
    StoreStep(states[i], events[i], states[i + 1], k, v);
    var c, b := states[n], states[n].holds[h].b;
    assert Named(c, b, c.holds[h].key);
    if c.bufs[b].uptodate {
      ShownByBuffer(c, b, k);
    }
  }

  /** The same for a block that nobody stored in: readers see what the run started with. */
  lemma ReadersSeeTheFirstContents(states: seq<Cache>, events: seq<Event>, n: nat, k: Key, h: nat)
    requires History(states, events) && Inv(states[0]) && n <= |events|
    requires forall j :: 0 <= j < n ==> !Touches(states[j], events[j], k)
    requires h < |states[n].holds| && states[n].holds[h].key == k
    ensures states[n].holds[h].b < |states[n].bufs|
    ensures states[n].bufs[states[n].holds[h].b].uptodate ==>
      states[n].bufs[states[n].holds[h].b].data == Shown(states[0])[k]
  {
    UntouchedStays(states, events, 0, n, k);
    HistoryKeepsInv(states, events, n);
    var c, b := states[n], states[n].holds[h].b;
    assert Named(c, b, c.holds[h].key);
    if c.bufs[b].uptodate {
      ShownByBuffer(c, b, k);
    }
  }

  /** Nothing dirty and nothing on its way to the device. */
  ghost predicate Settled(c: Cache) {
    c.queue == [] && forall b: nat :: b < |c.bufs| ==> !c.bufs[b].dirt
  }

  /** Once everything is written back, the disk itself holds what the clients saw: the last store into each block. */
  lemma SettledDiskIsShown(c: Cache)
    requires Inv(c) && Settled(c)
    ensures c.disk == Shown(c)
  {
    forall k: Key ensures c.disk[k] == ShownAt(c, k) {
      if IsShown(c, k) {
        assert BufferCoherent(c, ShownIn(c, k));
      }
    }
  }

  lemma SettledDiskHasTheLastStore(states: seq<Cache>, events: seq<Event>, i: nat, n: nat, k: Key, v: Data)
    requires History(states, events) && Inv(states[0]) && i < n <= |events|
    requires Stores(states[i], events[i], k, v)
    requires forall j :: i < j < n ==> !Touches(states[j], events[j], k)
    requires Settled(states[n])
    ensures k in states[n].disk && states[n].disk[k] == v
  {
    UntouchedStays(states, events, i + 1, n, k);
    HistoryKeepsInv(states, events, n);
    HistoryKeepsInv(states, events, i);
    assert Next(states[i], events[i], states[i + 1]);
    StoreStep(states[i], events[i], states[i + 1], k, v);
    SettledDiskIsShown(states[n]);
  }

  /** An unlocked, clean, up-to-date buffer of a block equals the disk. */
  lemma CleanBufferIsOnDisk(c: Cache, b: nat)
    requires Inv(c) && b < |c.bufs| && c.bufs[b].key.dev != 0
    requires c.bufs[b].uptodate && !c.bufs[b].dirt && !c.bufs[b].lock
    ensures c.disk[c.bufs[b].key] == c.bufs[b].data
  {
    assert BufferCoherent(c, b);
    forall i | 0 <= i < |c.queue| ensures c.queue[i].buf != b { assert Matches(c, c.queue[i]); }
  }

  /** getblk's two ways out: the task then holds an unlocked buffer of the block it asked for, and no other buffer
      carries that block.  In the first, get_hash_table's second look at the name never fails. */
  lemma GetblkReturnsTheBlock(c: Cache, s: Event, c': Cache, t: nat)
    requires Inv(c) && Next(c, s, c') && t < |c.pcs| && t < |c'.pcs|
    requires s == Claim(t) || (s == Take(t) && c'.pcs[t].Outside?)
    ensures var k, b := c.pcs[t].key, c.pcs[t].b;
      Hold(t, b, k) in c'.holds && Named(c', b, k) && !c'.bufs[b].lock && c'.bufs[b].count > 0 &&
      forall a: nat :: Named(c', a, k) ==> a == b
  {
    var k, b := c.pcs[t].key, c.pcs[t].b;
    StepKeepsInv(c, s, c');
    assert PcOk(c, t, c.pcs[t]);
    if s == Claim(t) {
      var h :| 0 <= h < |c.holds| && c.holds[h] == Hold(t, b, k);
      assert Named(c, c.holds[h].b, c.holds[h].key);
      HeldZero(c.holds, h);
    } else {
      assert c'.holds[|c.holds|] == Hold(t, b, k);
    }
  }

  /** As long as somebody holds a buffer, nobody renames it. */
  lemma HeldBuffersKeepTheirName(c: Cache, s: Event, c': Cache, b: nat)
    requires Inv(c) && Next(c, s, c') && b < |c.bufs| && c.bufs[b].count > 0
    ensures b < |c'.bufs| && c'.bufs[b].key == c.bufs[b].key
  {
    if s.Lookup? {
      var k := c.pcs[s.t].key;
      if Cached(c, k) {
        var a: nat :| Named(c, a, k) && c' == CountIn(c, s.t, a, k);
      }
    }
  }

  /** The cache as buffer_init leaves it: no buffer has a device. */
  lemma FreshCacheInv(c: Cache)
    requires Total(c.disk) && c.queue == [] && c.pending == map[] && c.holds == []
    requires forall b: nat :: b < |c.bufs| ==> c.bufs[b].key.dev == 0 && c.bufs[b].count == 0 && !c.bufs[b].dirt
    requires forall t: nat :: t < |c.pcs| ==> c.pcs[t].Outside?
    ensures Inv(c) && Shown(c) == c.disk
  {
    forall k: Key ensures ShownAt(c, k) == c.disk[k] {
      forall b: nat ensures !Shows(c, b, k) {}
    }
  }
}
