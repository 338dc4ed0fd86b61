/** What every history of a device keeps, and what it shows of the files. */
module FsHistories {
  import opened BlockTree
  import opened FileBytes
  import opened FsRuns
  import opened Links
  import opened Truncation

  /** A history: each state follows from the one before by the event between them. */
  ghost predicate History(states: seq<Run>, events: seq<Event>) {
    |states| == |events| + 1 && RunInv(states[0]) &&
    forall i :: 0 <= i < |events| ==> StepOf(states[i], events[i], states[i + 1])
  }

  ghost predicate StepOf(r: Run, e: Event, r': Run) {
    Shape(r.fs) && Transition(r, e, r')
  }

  lemma {:induction false} HistoryKeepsInv(states: seq<Run>, events: seq<Event>, k: nat)
    requires History(states, events) && k <= |events|
    ensures RunInv(states[k])
  {
    if k > 0 {
      HistoryKeepsInv(states, events, k - 1);
      assert StepOf(states[k - 1], events[k - 1], states[k - 1 + 1]);
      TransitionKeepsInv(states[k - 1], events[k - 1], states[k]);
    }
  }

  /** No second task filled the place meanwhile, and nobody else holds a buffer of a tree while it is truncated. */
  ghost predicate Clean(r: Run, e: Event)
    requires Shape(r.fs)
  {
    (e.Cut? && e.n < |r.fs.inodes| ==> forall z: nat :: InTree(r.fs, e.n, z) ==> z !in e.busy) &&
    (e.Store? && e.j < |r.pending| && SameParent(r.fs, r.pending[e.j]) ==>
      Zone(r.fs, r.pending[e.j].n, r.pending[e.j].p) == 0)
  }

  ghost predicate AllClean(states: seq<Run>, events: seq<Event>)
    requires History(states, events)
  {
    forall i :: 0 <= i < |events| ==> StepOf(states[i], events[i], states[i + 1]) && Clean(states[i], events[i])
  }

  lemma TransitionConserves(r: Run, e: Event, r': Run)
    requires RunInv(r) && Transition(r, e, r') && NoneLost(r) && Clean(r, e)
    ensures RunInv(r') && NoneLost(r')
  {
    TransitionKeepsInv(r, e, r');
    match e
    case Allocate(n, p, z) => AllocateKeepsInv(r, n, p, z);
    case Waste(n, bit) => WasteKeepsInv(r, bit, r'.fs);
    case Store(n, j) => StoreConserves(r, j);
    case Fill(n, pos, data) => FillKeepsInv(r, n, pos, data);
    case Cut(n, busy) => CutKeepsInv(r, n, busy);
  }

  /** Over every clean history, whenever nobody is inside new_block the allocated data zones are the disjoint union of
      all inode trees. */
  lemma {:induction false} HistoryConserves(states: seq<Run>, events: seq<Event>)
    requires History(states, events) && NoneLost(states[0]) && AllClean(states, events)
    ensures RunInv(states[|events|]) && NoneLost(states[|events|])
    ensures states[|events|].pending == [] ==> var last := states[|events|].fs;
      Distinct(last) && forall z: nat :: last.geo.InData(z) ==> (Allocated(last, z) <==> Reached(last, z))
  {
    HistoryLosesNone(states, events, |events|);
  }

  lemma {:induction false} HistoryLosesNone(states: seq<Run>, events: seq<Event>, k: nat)
    requires History(states, events) && NoneLost(states[0]) && AllClean(states, events) && k <= |events|
    ensures RunInv(states[k]) && NoneLost(states[k])
  {
    if k > 0 {
      HistoryLosesNone(states, events, k - 1);
      assert StepOf(states[k - 1], events[k - 1], states[k - 1 + 1]);
      TransitionConserves(states[k - 1], events[k - 1], states[k]);
    }
  }

  /** The plain file store: allocation is invisible, a write splices, a truncation empties. */
  function Plain(files: seq<seq<nat>>, e: Event): seq<seq<nat>> {
    if e.n >= |files| then files else
    match e
    case Fill(n, pos, data) => files[n := Splice(files[n], pos, data)]
    case Cut(n, busy) => files[n := []]
    case _ => files
  }

  function PlainRun(files: seq<seq<nat>>, events: seq<Event>): seq<seq<nat>> {
    if events == [] then files else Plain(PlainRun(files, events[..|events| - 1]), events[|events| - 1])
  }

  ghost function Contents(fs: Fs): (files: seq<seq<nat>>)
    requires FileInv(fs)
    ensures |files| == |fs.inodes| && forall n :: 0 <= n < |files| ==> files[n] == Content(fs, n)
  {
    seq(|fs.inodes|, n requires 0 <= n < |fs.inodes| => Content(fs, n))
  }

  /** A store finds only zeros under its place: it is empty, or what is there is a hole still. */
  ghost predicate Quiet(r: Run, e: Event)
    requires Shape(r.fs)
  {
    e.Store? && e.j < |r.pending| && r.pending[e.j].n < |r.fs.inodes| ==>
      forall x: nat :: x < MAX_BYTES && Within(r.pending[e.j].p, x) ==> ByteAt(r.fs, r.pending[e.j].n, x) == 0
  }

  ghost predicate AllQuiet(states: seq<Run>, events: seq<Event>)
    requires History(states, events)
  {
    forall i :: 0 <= i < |events| ==> StepOf(states[i], events[i], states[i + 1]) && Quiet(states[i], events[i])
  }

  /** Every quiet history of the device shows the files that the same history of the plain store shows. */
  lemma {:induction false} HistoryRefinesPlainFiles(states: seq<Run>, events: seq<Event>)
    requires History(states, events) && AllQuiet(states, events)
    ensures RunInv(states[|events|])
    ensures Contents(states[|events|].fs) == PlainRun(Contents(states[0].fs), events)
  {
    RefinesUpTo(states, events, |events|);
    assert events[..|events|] == events;
  }

  lemma {:induction false} RefinesUpTo(states: seq<Run>, events: seq<Event>, k: nat)
    requires History(states, events) && AllQuiet(states, events) && k <= |events|
    ensures RunInv(states[k])
    ensures Contents(states[k].fs) == PlainRun(Contents(states[0].fs), events[..k])
  {
    HistoryKeepsInv(states, events, k);
    if k > 0 {
      RefinesUpTo(states, events, k - 1);
      assert StepOf(states[k - 1], events[k - 1], states[k - 1 + 1]) && Quiet(states[k - 1], events[k - 1]);
      QuietIsExact(states[k - 1], events[k - 1], states[k]);
      assert events[..k][..k - 1] == events[..k - 1];
    }
  }

  /** A step does to the files what the plain step does if and only if it is quiet. */
  lemma QuietIsExact(r: Run, e: Event, r': Run)
    requires RunInv(r) && Transition(r, e, r')
    ensures RunInv(r') && (Contents(r'.fs) == Plain(Contents(r.fs), e) <==> Quiet(r, e))
  {
    TransitionKeepsInv(r, e, r');
    match e
    case Allocate(n, p, z) => BitsFrame(r.fs, r.fs.geo.Bit(z));
    case Waste(n, bit) => BitsFrame(r.fs, bit);
    case Store(n, j) => StoreShows(r, n, j);
    case Fill(n, pos, data) => WriteChunkContent(r.fs, n, pos, data);
    case Cut(n, busy) => TruncateContent(r.fs, n, busy);
  }

  /** A store shows in no file if and only if the bytes under its place were zeros, as they are if it was empty;
      otherwise they are lost. */
  lemma StoreShows(r: Run, n: nat, j: nat)
    requires RunInv(r) && j < |r.pending| && n == r.pending[j].n && SameParent(r.fs, r.pending[j])
    ensures FileInv(Stored(r.fs, r.pending[j]))
    ensures Contents(Stored(r.fs, r.pending[j])) == Contents(r.fs) <==> Quiet(r, Store(n, j))
    ensures Zone(r.fs, n, r.pending[j].p) == 0 ==> Quiet(r, Store(n, j))
  {
    var fs' := Stored(r.fs, r.pending[j]);
    StoreKeepsInv(r, j);
    StoredBytes(r, j);
    StoredSizes(r, j);
    if Quiet(r, Store(n, j)) {
      forall m: nat | m < |r.fs.inodes| ensures Content(fs', m) == Content(r.fs, m) {}
    } else {
      var x: nat :| x < MAX_BYTES && Within(r.pending[j].p, x) && ByteAt(r.fs, n, x) != 0;
      assert Contents(fs')[n][x] != Contents(r.fs)[n][x];
    }
    if Zone(r.fs, n, r.pending[j].p) == 0 {
      forall x: nat | x < MAX_BYTES && Within(r.pending[j].p, x) ensures ByteAt(r.fs, n, x) == 0 {
        NothingUnder(r.fs, n, r.pending[j].p, x);
      }
    }
  }

  lemma StoredSizes(r: Run, j: nat)
    requires RunInv(r) && j < |r.pending| && SameParent(r.fs, r.pending[j])
    ensures |Stored(r.fs, r.pending[j]).inodes| == |r.fs.inodes|
    ensures forall m :: 0 <= m < |r.fs.inodes| ==> Stored(r.fs, r.pending[j]).inodes[m].size == r.fs.inodes[m].size
  {
    assert PendingOk(r.fs, r.pending[j]);
  }

  /** Two tasks write to the same missing block. The first has stored its zone and copied its bytes into it when the
      second stores its own: the bytes read as zeros. */
  lemma TwoWritersLoseBytes(r: Run, n: nat, pos: nat, data: seq<nat>, y: nat, z: nat)
    returns (r1: Run, r2: Run, r3: Run, r4: Run, r5: Run)
    requires RunInv(r) && NoneLost(r) && r.pending == [] && y != z && pos + |data| <= MAX_BYTES && data != []
    requires Bytes(data)
    requires pos % BLOCK_SIZE + |data| <= BLOCK_SIZE && Vacant(r.fs, n, PathOf(pos / BLOCK_SIZE))
    requires r.fs.geo.InData(y) && !Allocated(r.fs, y) && r.fs.geo.InData(z) && !Allocated(r.fs, z)
    ensures var p := PathOf(pos / BLOCK_SIZE);
      StepOf(r, Allocate(n, p, y), r1) && StepOf(r1, Allocate(n, p, z), r2) && StepOf(r2, Store(n, 0), r3) &&
      StepOf(r3, Fill(n, pos, data), r4) && StepOf(r4, Store(n, 0), r5)
    ensures RunInv(r4) && Content(r4.fs, n)[pos..pos + |data|] == data
    ensures RunInv(r5) && r5.pending == [] && |Content(r5.fs, n)| == |Content(r4.fs, n)|
    ensures Content(r5.fs, n)[pos..pos + |data|] == seq(|data|, _ => 0)
  {
    r1, r2 := AllocateTwice(r, n, PathOf(pos / BLOCK_SIZE), y, z);
    r3, r4 := FirstStoreAndFill(r2, n, pos, data);
    r5 := LateStore(r4, n, pos, data);
  }

  lemma FirstStoreAndFill(r2: Run, n: nat, pos: nat, data: seq<nat>) returns (r3: Run, r4: Run)
    requires RunInv(r2) && |r2.pending| == 2 && r2.pending[0].n == n
    requires r2.pending[0] == r2.pending[1].(z := r2.pending[0].z)
    requires pos + |data| <= MAX_BYTES && data != [] && Bytes(data) && pos % BLOCK_SIZE + |data| <= BLOCK_SIZE
    requires r2.pending[0].p == PathOf(pos / BLOCK_SIZE) && SameParent(r2.fs, r2.pending[0])
    ensures StepOf(r2, Store(n, 0), r3) && StepOf(r3, Fill(n, pos, data), r4) && RunInv(r4) && n < |r4.fs.inodes|
    ensures r4.pending == [r2.pending[1]] && SameParent(r4.fs, r2.pending[1])
    ensures pos + |data| <= r4.fs.inodes[n].size && Content(r4.fs, n)[pos..pos + |data|] == data
  {
    r3 := FirstStore(r2, n, pos);
    r4 := Run(WriteChunk(r3.fs, n, pos, data), r3.pending);
    FillKeepsInv(r3, n, pos, data);
    WriteChunkContent(r3.fs, n, pos, data);
    FilledParent(r3, n, pos, data, r2.pending[1]);
  }

  lemma FirstStore(r2: Run, n: nat, pos: nat) returns (r3: Run)
    requires RunInv(r2) && |r2.pending| == 2 && r2.pending[0].n == n
    requires r2.pending[0] == r2.pending[1].(z := r2.pending[0].z)
    requires pos < MAX_BYTES && r2.pending[0].p == PathOf(pos / BLOCK_SIZE) && SameParent(r2.fs, r2.pending[0])
    ensures StepOf(r2, Store(n, 0), r3) && RunInv(r3) && r3.pending == [r2.pending[1]] && n < |r3.fs.inodes|
    ensures SameParent(r3.fs, r2.pending[1]) && Bmap(r3.fs, n, pos / BLOCK_SIZE) != 0
  {
    var q := r2.pending[0];
    assert PendingOk(r2.fs, q) && Drop(r2.pending, 0) == [r2.pending[1]];
    StoreKeepsInv(r2, 0);
    StoredAt(r2, 0);
    r3 := Run(Stored(r2.fs, q), [r2.pending[1]]);
  }

  lemma FilledParent(r: Run, n: nat, pos: nat, data: seq<nat>, q: Pending)
    requires RunInv(r) && n < |r.fs.inodes| && pos + |data| <= MAX_BYTES && data != [] && Bytes(data)
    requires pos % BLOCK_SIZE + |data| <= BLOCK_SIZE && Bmap(r.fs, n, pos / BLOCK_SIZE) != 0 && SameParent(r.fs, q)
    ensures Shape(WriteChunk(r.fs, n, pos, data)) && SameParent(WriteChunk(r.fs, n, pos, data), q)
  {
    WriteChunkZones(r.fs, n, pos, data);
  }

  lemma LateStore(r4: Run, n: nat, pos: nat, data: seq<nat>) returns (r5: Run)
    requires RunInv(r4) && |r4.pending| == 1 && r4.pending[0].n == n && SameParent(r4.fs, r4.pending[0])
    requires data != [] && pos + |data| <= MAX_BYTES && pos % BLOCK_SIZE + |data| <= BLOCK_SIZE
    requires r4.pending[0].p == PathOf(pos / BLOCK_SIZE) && n < |r4.fs.inodes| && pos + |data| <= r4.fs.inodes[n].size
    ensures StepOf(r4, Store(n, 0), r5) && RunInv(r5) && r5.pending == [] && n < |r5.fs.inodes|
    ensures |Content(r5.fs, n)| == |Content(r4.fs, n)| && Content(r5.fs, n)[pos..pos + |data|] == seq(|data|, _ => 0)
  {
    assert PendingOk(r4.fs, r4.pending[0]) && Drop(r4.pending, 0) == [];
    StoreKeepsInv(r4, 0);
    StoredSizes(r4, 0);
    r5 := Run(Stored(r4.fs, r4.pending[0]), []);
    ZerosThere(r4, r5, n, pos, |data|);
  }

  lemma ZerosThere(r4: Run, r5: Run, n: nat, pos: nat, len: nat)
    requires RunInv(r4) && |r4.pending| == 1 && r4.pending[0].n == n && SameParent(r4.fs, r4.pending[0])
    requires len > 0 && pos + len <= MAX_BYTES && pos % BLOCK_SIZE + len <= BLOCK_SIZE
    requires r4.pending[0].p == PathOf(pos / BLOCK_SIZE)
    requires RunInv(r5) && r5.fs == Stored(r4.fs, r4.pending[0]) && n < |r5.fs.inodes|
    requires pos + len <= r5.fs.inodes[n].size
    ensures Content(r5.fs, n)[pos..pos + len] == seq(len, _ => 0)
  {
    StoredBytes(r4, 0);
    hide Stored, Zone, ByteAt, SameParent;
    var c := Content(r5.fs, n)[pos..pos + len];
    forall i | 0 <= i < len ensures c[i] == 0 {
      SameBlock(pos, i, len);
      assert Within(r4.pending[0].p, pos + i);
    }
  }

  lemma SameBlock(pos: nat, i: nat, len: nat)
    requires i < len && pos % BLOCK_SIZE + len <= BLOCK_SIZE
    ensures (pos + i) / BLOCK_SIZE == pos / BLOCK_SIZE
  {
  }

  /** A device as mkfs leaves it, in what the model keeps: no file has a zone, and only bit 0 of the zone map is set. */
  lemma FreshDeviceInv(fs: Fs)
    requires Shape(fs) && fs.bits[0] && forall k :: 0 < k < |fs.bits| ==> !fs.bits[k]
    requires forall n :: 0 <= n < |fs.inodes| ==> fs.inodes[n].size == 0 && fs.inodes[n].zone == seq(9, _ => 0)
    ensures RunInv(Run(fs, [])) && NoneLost(Run(fs, []))
  {
    EmptyFiles(fs);
  }
}
