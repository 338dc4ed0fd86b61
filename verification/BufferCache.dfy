/** The buffer cache over the request queue: every interleaving of getblk, bread, brelse, sync and the disk. */
module BufferCache {
  import opened Elevator

  type Data = seq<nat>

  /** A block's name; device 0 means no block. */
  datatype Key = Key(dev: nat, block: nat)

  datatype Buf = Buf(key: Key, uptodate: bool, dirt: bool, count: nat, lock: bool, data: Data)

  /** Where a task stands inside getblk. */
  datatype Pc =
    | Outside                          // not in getblk
    | Looking(key: Key)                // at `repeat:`
    | Asleep(key: Key)                 // no free buffer: sleeping on buffer_wait
    | Claiming(key: Key, b: nat)       // get_hash_table counted itself in and waits for the lock
    | Chosen(key: Key, b: nat)         // waiting for a victim to be unlocked
    | Syncing(key: Key, b: nat)        // the victim was dirty: inside sync_dev

  /** One unit of a buffer's count: who took it, and for which block. */
  datatype Hold = Hold(task: nat, b: nat, key: Key)

  datatype Cache = Cache(
    bufs: seq<Buf>,
    queue: seq<Request>,               // issued to the device
    pending: map<nat, int>,            // locked by make_request, still waiting for a request slot: the command
    disk: imap<Key, Data>,
    pcs: seq<Pc>,
    holds: seq<Hold>)

  ghost predicate Total(m: imap<Key, Data>) { forall k: Key :: k in m }

  // ----- The invariant

  /** Buffer `b` is named `k`. */
  ghost predicate Named(c: Cache, b: nat, k: Key) {
    b < |c.bufs| && c.bufs[b].key == k
  }

  /** No two buffers carry the same block. */
  ghost predicate Unique(c: Cache) {
    forall a: nat, b: nat ::
      a < |c.bufs| && b < |c.bufs| && c.bufs[a].key == c.bufs[b].key && c.bufs[a].key.dev != 0 ==> a == b
  }

  /** The request is for its buffer as it is named now, and holds its lock. */
  ghost predicate Matches(c: Cache, r: Request) {
    r.buf < |c.bufs| && c.bufs[r.buf].lock && r.dev == c.bufs[r.buf].key.dev &&
      r.sector == 2 * c.bufs[r.buf].key.block &&
    r.dev != 0 &&
    ((r.cmd == READ && !c.bufs[r.buf].uptodate) || (r.cmd == WRITE && c.bufs[r.buf].uptodate))
  }

  ghost predicate InQueue(q: seq<Request>, b: nat) {
    exists i :: 0 <= i < |q| && q[i].buf == b
  }

  ghost predicate WriteIssued(q: seq<Request>, b: nat) {
    exists i :: 0 <= i < |q| && q[i].buf == b && q[i].cmd == WRITE
  }

  ghost predicate OnePerBuffer(q: seq<Request>) {
    forall i, j :: 0 <= i < |q| && 0 <= j < |q| && q[i].buf == q[j].buf ==> i == j
  }

  /** A buffer locked by make_request before a request slot was found. */
  ghost predicate PendingOk(c: Cache, b: nat)
    requires b in c.pending
  {
    b < |c.bufs| && c.bufs[b].lock && c.bufs[b].key.dev != 0 && !InQueue(c.queue, b) &&
    ((c.pending[b] == READ && !c.bufs[b].uptodate) || (c.pending[b] == WRITE && c.bufs[b].dirt))
  }

  /** Every issued request holds the lock of its own buffer; no buffer has two; one not yet issued also holds the
      lock. */
  ghost predicate RequestsOk(c: Cache) {
    (forall i :: 0 <= i < |c.queue| ==> Matches(c, c.queue[i])) &&
    OnePerBuffer(c.queue) &&
    (forall b: nat :: b in c.pending ==> PendingOk(c, b))
  }

  /** A clean up-to-date buffer with no write on its way shows what is on disk; a dirty one is up to date. */
  ghost predicate BufferCoherent(c: Cache, b: nat)
    requires Total(c.disk) && b < |c.bufs|
  {
    (c.bufs[b].dirt ==> c.bufs[b].uptodate) &&
    (c.bufs[b].key.dev != 0 && c.bufs[b].uptodate && !c.bufs[b].dirt && !WriteIssued(c.queue, b) ==>
       c.disk[c.bufs[b].key] == c.bufs[b].data)
  }

  ghost predicate Coherent(c: Cache) {
    Total(c.disk) && forall b: nat :: b < |c.bufs| ==> BufferCoherent(c, b)
  }

  /** How many units of buffer `b`'s count are held. */
  function Held(holds: seq<Hold>, b: nat): nat {
    if holds == [] then 0 else Held(holds[1..], b) + (if holds[0].b == b then 1 else 0)
  }

  /** b_count counts the holds, and a held buffer keeps its name. */
  ghost predicate CountsOk(c: Cache) {
    (forall b: nat :: b < |c.bufs| ==> c.bufs[b].count == Held(c.holds, b)) &&
    (forall h :: 0 <= h < |c.holds| ==> Named(c, c.holds[h].b, c.holds[h].key) && c.holds[h].key.dev != 0)
  }

  /** A task in getblk asks for a real block; one that is claiming a buffer holds it. */
  ghost predicate PcOk(c: Cache, t: nat, p: Pc) {
    p.Outside? ||
    (p.key.dev != 0 &&
     (p.Claiming? ==> Hold(t, p.b, p.key) in c.holds) &&
     (p.Chosen? || p.Syncing? ==> p.b < |c.bufs|))
  }

  ghost predicate PcsOk(c: Cache) {
    forall t: nat :: t < |c.pcs| ==> PcOk(c, t, c.pcs[t])
  }

  ghost predicate Inv(c: Cache) {
    Unique(c) && RequestsOk(c) && Coherent(c) && CountsOk(c) && PcsOk(c)
  }

  // ----- The steps

  datatype Event =
    | Begin(t: nat, key: Key)          // a task calls getblk
    | Lookup(t: nat)                   // get_hash_table hits; or it misses, and the free list is scanned
    | Rouse(t: nat)                    // wake_up(&buffer_wait)
    | Claim(t: nat)                    // the lock of a hit is free: getblk returns it
    | Take(t: nat)                     // the lock of the victim is free: check it again, and rename it
    | Synced(t: nat)                   // sync_dev returns
    | LockRead(h: nat)                 // bread: ll_rw_block(READ) gets the lock of a held buffer
    | LockWrite(b: nat)                // sync_dev, sys_sync: ll_rw_block(WRITE) gets the lock of a dirty buffer
    | Issue(b: nat)                    // a request slot is found: add_request
    | Finish(torn: Data)               // the device completes its head request: end_request(1)
    | Modify(h: nat, data: Data)       // a holder changes an up-to-date buffer and marks it dirty
    | Fill(h: nat, data: Data)         // new_block: the only holder fills a whole block
    | Forget(h: nat)                   // free_block: the only holder invalidates the buffer
    | Release(h: nat)                  // brelse

  /** Step `s` is about hold `h`, whose buffer is there. */
  ghost predicate Holding(c: Cache, h: nat) {
    h < |c.holds| && c.holds[h].b < |c.bufs|
  }

  /** The only hold on its buffer, which nobody has locked. */
  ghost predicate Sole(c: Cache, h: nat) {
    Holding(c, h) && c.bufs[c.holds[h].b].count == 1 && !c.bufs[c.holds[h].b].lock
  }

  /** Task `t` waits for its buffer, and the lock is free. */
  ghost predicate LockFree(c: Cache, t: nat)
    requires t < |c.pcs| && (c.pcs[t].Claiming? || c.pcs[t].Chosen?)
  {
    c.pcs[t].b < |c.bufs| && !c.bufs[c.pcs[t].b].lock
  }

  /** brelse waits for the lock; the holder is not still waiting inside getblk for this very buffer. */
  ghost predicate MayRelease(c: Cache, h: Hold) {
    h.b < |c.bufs| && !c.bufs[h.b].lock && c.bufs[h.b].count > 0 &&
    (h.task < |c.pcs| ==> c.pcs[h.task] != Claiming(h.key, h.b))
  }

  ghost predicate Enabled(c: Cache, s: Event) {
    match s
    case Begin(t, k) => t < |c.pcs| && c.pcs[t].Outside? && k.dev != 0
    case Lookup(t) => t < |c.pcs| && c.pcs[t].Looking?
    case Rouse(t) => t < |c.pcs| && c.pcs[t].Asleep?
    case Claim(t) => t < |c.pcs| && c.pcs[t].Claiming? && LockFree(c, t)
    case Take(t) => t < |c.pcs| && c.pcs[t].Chosen? && LockFree(c, t)
    case Synced(t) => t < |c.pcs| && c.pcs[t].Syncing?
    case LockRead(h) => Holding(c, h) && !c.bufs[c.holds[h].b].lock && !c.bufs[c.holds[h].b].uptodate
    case LockWrite(b) => b < |c.bufs| && !c.bufs[b].lock && c.bufs[b].dirt && c.bufs[b].key.dev != 0
    case Issue(b) => b in c.pending && b < |c.bufs|
    case Finish(torn) => c.queue != [] && c.queue[0].buf < |c.bufs| && Total(c.disk)
    case Modify(h, v) => Holding(c, h) && c.bufs[c.holds[h].b].uptodate
    case Fill(h, v) => Sole(c, h)
    case Forget(h) => Sole(c, h)
    case Release(h) => h < |c.holds| && MayRelease(c, c.holds[h])
  }

  function SetBuf(c: Cache, b: nat, x: Buf): Cache
    requires b < |c.bufs|
  {
    c.(bufs := c.bufs[b := x])
  }

  function SetPc(c: Cache, t: nat, p: Pc): Cache
    requires t < |c.pcs|
  {
    c.(pcs := c.pcs[t := p])
  }

  /** Some buffer carries `k`: what find_buffer finds along the hash chain. */
  ghost predicate Cached(c: Cache, k: Key) {
    exists b: nat :: Named(c, b, k)
  }

  /** BADNESS. */
  function Badness(x: Buf): nat {
    (if x.dirt then 2 else 0) + (if x.lock then 1 else 0)
  }

  predicate Idle(bufs: seq<Buf>, b: nat) {
    b < |bufs| && bufs[b].count == 0
  }

  /** The free-list scan may settle on `b`: an unused buffer, and none unused is better. */
  ghost predicate Victim(bufs: seq<Buf>, b: nat) {
    Idle(bufs, b) && forall a: nat :: Idle(bufs, a) ==> Badness(bufs[b]) <= Badness(bufs[a])
  }

  /** get_hash_table finds the block in `b`, and counts itself in before waiting for the lock. */
  function CountIn(c: Cache, t: nat, b: nat, k: Key): Cache
    requires t < |c.pcs| && b < |c.bufs|
  {
    SetPc(SetBuf(c, b, c.bufs[b].(count := c.bufs[b].count + 1)), t,
      Claiming(k, b)).(holds := c.holds + [Hold(t, b, k)])
  }

  /** One turn of getblk from `repeat:` to its first sleep. */
  ghost predicate LooksUp(c: Cache, t: nat, k: Key, c': Cache)
    requires t < |c.pcs|
  {
    if Cached(c, k) then exists b: nat :: Named(c, b, k) && c' == CountIn(c, t, b, k)
    else
      (exists b: nat :: Victim(c.bufs, b) && c' == SetPc(c, t, Chosen(k, b))) ||
      ((forall b: nat :: !Idle(c.bufs, b)) && c' == SetPc(c, t, Asleep(k)))
  }

  /** A buffer as getblk hands it out for block `k`. */
  function Renamed(x: Buf, k: Key): Buf {
    x.(key := k, uptodate := false, dirt := false, count := 1)
  }

  /** The last lines of getblk: the clean, unlocked, unused buffer `b` becomes block `k`, held once by task `t`. */
  function Rename(c: Cache, t: nat, b: nat, k: Key): Cache
    requires t < |c.pcs| && b < |c.bufs|
  {
    SetPc(SetBuf(c, b, Renamed(c.bufs[b], k)), t, Outside).(holds := c.holds + [Hold(t, b, k)])
  }

  /** getblk once the victim is unlocked. */
  ghost function TakeStep(c: Cache, t: nat): Cache
    requires Enabled(c, Take(t))
  {
    var k, b := c.pcs[t].key, c.pcs[t].b;
    if c.bufs[b].count > 0 then SetPc(c, t, Looking(k))
    else if c.bufs[b].dirt then SetPc(c, t, Syncing(k, b))
    else if Cached(c, k) then SetPc(c, t, Looking(k))
    else Rename(c, t, b, k)
  }

  function RequestFor(c: Cache, b: nat, cmd: int): Request
    requires b < |c.bufs|
  {
    Request(cmd, c.bufs[b].key.dev, 2 * c.bufs[b].key.block, b)
  }

  /** The block a request is about. */
  function KeyOf(r: Request): Key {
    Key(if r.dev < 0 then 0 else r.dev, if r.sector < 0 then 0 else r.sector / 2)
  }

  /** The device carries out its head request, and `end_request` marks the buffer up to date and unlocks it.
      A buffer modified while its write was under way may reach the disk torn; it is dirty again. */
  function FinishStep(c: Cache, torn: Data): Cache
    requires c.queue != [] && c.queue[0].buf < |c.bufs| && KeyOf(c.queue[0]) in c.disk
  {
    var r := c.queue[0];
    var x := c.bufs[r.buf];
    if r.cmd == READ then
      SetBuf(c, r.buf, x.(uptodate := true, lock := false, data := c.disk[KeyOf(r)])).(queue := c.queue[1..])
    else
      SetBuf(c, r.buf, x.(uptodate := true, lock := false))
        .(queue := c.queue[1..], disk := c.disk[KeyOf(r) := if x.dirt then torn else x.data])
  }

  /** brelse: one hold fewer. */
  function Released(c: Cache, h: nat): Cache
    requires h < |c.holds| && c.holds[h].b < |c.bufs| && c.bufs[c.holds[h].b].count > 0
  {
    var b := c.holds[h].b;
    SetBuf(c, b, c.bufs[b].(count := c.bufs[b].count - 1)).(holds := c.holds[..h] + c.holds[h + 1..])
  }

  /** make_request holds the lock and looks for a request slot. */
  function Locked(c: Cache, b: nat, cmd: int): Cache
    requires b < |c.bufs|
  {
    SetBuf(c, b, c.bufs[b].(lock := true)).(pending := c.pending[b := cmd])
  }

  /** add_request: the dirty mark goes as the request joins the queue. */
  function Issued(c: Cache, b: nat): Cache
    requires b < |c.bufs| && b in c.pending
  {
    SetBuf(c, b, c.bufs[b].(dirt := false))
      .(pending := c.pending - {b}, queue := Insert(c.queue, RequestFor(c, b, c.pending[b])))
  }

  /** free_block: the buffer's contents no longer count. */
  function Forgotten(c: Cache, b: nat): Cache
    requires b < |c.bufs|
  {
    SetBuf(c, b, c.bufs[b].(uptodate := false, dirt := false))
  }

  ghost predicate Next(c: Cache, s: Event, c': Cache) {
    Enabled(c, s) &&
    match s
    case Begin(t, k) => c' == SetPc(c, t, Looking(k))
    case Lookup(t) => LooksUp(c, t, c.pcs[t].key, c')
    case Rouse(t) => c' == SetPc(c, t, Looking(c.pcs[t].key))
    case Claim(t) => c' == SetPc(c, t, Outside)
    case Take(t) => c' == TakeStep(c, t)
    case Synced(t) => c' == SetPc(c, t, Chosen(c.pcs[t].key, c.pcs[t].b))
    case LockRead(h) => c' == Locked(c, c.holds[h].b, READ)
    case LockWrite(b) => c' == Locked(c, b, WRITE)
    case Issue(b) => c' == Issued(c, b)
    case Finish(torn) => c' == FinishStep(c, torn)
    case Modify(h, v) => c' == SetBuf(c, c.holds[h].b, c.bufs[c.holds[h].b].(data := v, dirt := true))
    case Fill(h, v) => c' == SetBuf(c, c.holds[h].b, c.bufs[c.holds[h].b].(data := v, uptodate := true, dirt := true))
    case Forget(h) => c' == Forgotten(c, c.holds[h].b)
    case Release(h) => c' == Released(c, h)
  }
}
