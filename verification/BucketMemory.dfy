/** malloc and free_s over memory words and bucket descriptors. */
module BucketMemory {
  import opened Bucket
  import opened BucketRuns
  import opened BucketLinks
  import opened Links

  class Allocator {
    const mem: array<int>        // one cell for the word at each address
    const dir: array<int>        // bucket_dir: the chain of each size
    var descs: seq<Desc>
    var freeDesc: int            // free_bucket_desc
    var pool: set<nat>           // the free pages, for get_free_page
    ghost var heap: Heap
    ghost var lists: seq<seq<nat>>

    ghost function Heads(): (s: seq<int>)
      requires dir.Length == SPARE
      reads this, dir
      ensures |s| == 10
    {
      dir[..] + [freeDesc]
    }

    /** The words and descriptors represent `heap`. */
    ghost predicate Represents()
      reads this, mem, dir
    {
      mem != dir && dir.Length == SPARE && Rep(mem[..], descs, Heads(), lists, heap)
    }

    ghost predicate Valid()
      reads this, mem, dir
    {
      Represents() && Inv(heap) && pool == heap.pool
    }

    /** Before the first malloc: no buckets, no descriptors, `pages` free. */
    constructor (words: nat, pages: set<nat>)
      requires forall b :: b in pages ==> 0 < b && b % PAGE_SIZE == 0 && b + PAGE_SIZE <= words
      ensures Valid() && fresh(mem) && fresh(dir) && mem.Length == words && heap == Empty(pages)
    {
      mem := new int[words](_ => 0);
      dir := new int[SPARE](_ => NULL);
      descs, freeDesc, pool := [], NULL, pages;
      lists, heap := NoLists(), Empty(pages);
      new;
      EmptyInv(pages);
      EmptyRep(mem[..], Heads(), pages);
    }

    /** get_free_page: some free page, or 0. */
    method GetFreePage() returns (p: nat)
      modifies this`pool
      ensures if old(pool) == {} then p == 0 && pool == {} else p in old(pool) && pool == old(pool) - {p}
    {
      if pool == {} {
        return 0;
      }
      p :| p in pool;
      pool := pool - {p};
    }

    /** init_bucket_desc: fails exactly when there is no free page. */
    method InitBucketDesc() returns (ok: bool, ghost d: nat)
      requires Valid()
      modifies this
      ensures Valid() && d !in heap.pool
      ensures ok <==> old(heap.pool) != {}
      ensures ok ==> d in old(heap.pool) && heap == MoreDescs(old(heap), d)
      ensures !ok ==> heap == old(heap) && lists == old(lists)
    {
      var page := GetFreePage();
      d, ok := page, page != 0;
      if ok {
        ghost var was, heads := descs, Heads();
        var first, i := |descs|, DESCS_PER_PAGE;
        while i > 1
          invariant 1 <= i <= DESCS_PER_PAGE && |descs| == first + DESCS_PER_PAGE - i && was <= descs
          invariant forall e :: first <= e < |descs| ==> descs[e].next == e + 1
          invariant freeDesc == old(freeDesc) && heap == old(heap) && lists == old(lists) && pool == old(pool) - {page}
        {
          descs := descs + [Desc(0, |descs| + 1, 0, 0, 0)];
          i := i - 1;
        }
        descs := descs + [Desc(0, freeDesc, 0, 0, 0)];
        freeDesc := first;
        MoreDescsRep(mem[..], was, heads, lists, heap, page, descs);
        MoreDescsKeepsInv(heap, page);
        lists := lists[SPARE := Numbers(first, DESCS_PER_PAGE) + lists[SPARE]];
        heap := MoreDescs(heap, page);
        assert Heads() == heads[SPARE := first];
      }
    }

    /** The loop that chains the objects of a new page. */
    method ThreadPage(page: nat, k: nat)
      requires k < |SIZES| && 0 < page && page + PAGE_SIZE <= mem.Length
      modifies mem
      ensures FreeList(mem[..], page, Slots(page, k, 0))
      ensures forall a :: 0 <= a < mem.Length && !(page <= a < page + PAGE_SIZE) ==> mem[a] == old(mem[a])
    {
      var cp, i := page, Capacity(k);
      ghost var j: nat := 0;
      InSlots(page, k);
      while i > 1
        invariant 1 <= i && i + j == Capacity(k) && cp == Slot(page, k, j)
        invariant forall l: nat :: l < j ==> ThreadedAt(mem[..], page, k, l)
        invariant forall a :: 0 <= a < mem.Length && !(page <= a < page + PAGE_SIZE) ==> mem[a] == old(mem[a])
      {
        ghost var was := mem[..];
        NextSlot(page, k, j);
        mem[cp] := cp + SIZES[k];
        ThreadedFrame(was, mem[..], page, k, j);
        cp := cp + SIZES[k];
        i, j := i - 1, j + 1;
      }
      ghost var was := mem[..];
      mem[cp] := 0;
      ThreadedFrame(was, mem[..], page, k, j);
      ThreadedIsFreeList(mem[..], page, k, 0);
    }

    /** A spare descriptor and a free page become a bucket in front of chain `k`; fails exactly when there is no
        page. */
    method OpenBucket(k: nat) returns (ok: bool, ghost p: nat)
      requires Valid() && k < |SIZES| && heap.spare > 0
      modifies this, mem, dir
      ensures ok <==> old(heap.pool) != {}
      ensures if ok then p in old(heap.pool) && Represents() && heap == NewBucket(old(heap), k, p) &&
        pool == heap.pool &&
                         lists[k] == [old(lists[SPARE][0])] + old(lists[k])
              else Valid() && heap == old(heap)
      ensures ok ==> dir[k] == lists[k][0]
      ensures forall a: nat, n: nat :: Live(old(heap), a, n) && a + n <= mem.Length ==>
        mem[a..a + n] == old(mem[a..a + n])
    {
      assert Linked(descs, Heads()[SPARE], lists[SPARE]) && LinkAt(descs, lists[SPARE], 0);
      hide Described, LinksOk, Apart;
      var page := GetFreePage();
      p, ok := page, page != 0;
      if ok {
        ghost var words, was, heads, h := mem[..], descs, Heads(), heap;
        assert Known(heap, page);
        ThreadPage(page, k);
        NewBucketRep(words, was, heads, lists, heap, k, page, mem[..]);
        var d := freeDesc;
        freeDesc := descs[d].next;
        descs := descs[d := Desc(page, dir[k], page, 0, SIZES[k])];
        dir[k] := d;
        lists := lists[SPARE := lists[SPARE][1..]][k := [d as nat] + lists[k]];
        heap := NewBucket(heap, k, page);
        assert Heads() == heads[SPARE := was[d].next][k := d];
        ClientsOffPool(h, page, words, mem[..]);
      }
    }

    /** Take the first free object of a bucket. */
    method TakeObject(k: nat, d: nat, ghost i: nat) returns (a: nat)
      requires Represents() && k < |SIZES| && i < |heap.chains[k]| && lists[k][i] == d && heap.chains[k][i].free != []
      modifies this`descs, this`heap
      ensures Represents() && heap == TakeFrom(old(heap), k, i) && a == old(heap).chains[k][i].free[0]
    {
      ghost var p := heap.chains[k][i];
      assert DescFor(mem[..], descs, d, k, p) && PageFits(k, p);
      ghost var was := descs;
      TailDistinct(p.free);
      ghost var p' := p.(free := p.free[1..]);
      a := descs[d].freeptr;
      descs := descs[d := descs[d].(freeptr := mem[a], refcnt := descs[d].refcnt + 1)];
      ReplaceRep(mem[..], was, Heads(), lists, heap, k, i, p', mem[..], descs[d]);
      heap := TakeFrom(heap, k, i);
    }

    /** The search of malloc along one chain for a bucket with a free object. */
    method FindRoom(k: nat) returns (d: int)
      requires Represents() && k < |SIZES|
      ensures var i := Room(heap.chains[k], 0); if i < |heap.chains[k]| then d == lists[k][i] else d == NULL
    {
      ghost var i: nat := 0;
      assert Linked(descs, Heads()[k], lists[k]);
      d := dir[k];
      while d != NULL && descs[d].freeptr == 0
        invariant i <= |lists[k]| && d == (if i < |lists[k]| then lists[k][i] else NULL)
        invariant 0 <= d < |descs| || d == NULL
        invariant Room(heap.chains[k], 0) == Room(heap.chains[k], i)
        decreases |lists[k]| - i
      {
        assert DescFor(mem[..], descs, lists[k][i], k, heap.chains[k][i]) && LinkAt(descs, lists[k], i);
        assert i + 1 < |lists[k]| ==> LinkAt(descs, lists[k], i + 1);
        d := descs[d].next;
        i := i + 1;
      }
      if d != NULL {
        assert DescFor(mem[..], descs, lists[k][i], k, heap.chains[k][i]);
      }
    }

    /** malloc when no bucket of the size has room: 0 stands for its panics, for want of one page, or of two. */
    method MallocNew(k: nat) returns (a: nat, ghost d: nat, ghost p: nat)
      requires Valid() && k < |SIZES|
      modifies this, mem, dir
      ensures Valid()
      ensures a == 0 <==> |old(heap.pool)| < if old(heap.spare) == 0 then 2 else 1
      ensures var h := old(heap); var h1 := if h.spare == 0 then MoreDescs(h, d) else h;
        a != 0 ==>
          (h.spare == 0 ==> d in h.pool) && p in h1.pool && a == p && heap == TakeFrom(NewBucket(h1, k, p), k, 0)
      ensures forall b: nat, n: nat :: Live(old(heap), b, n) && b + n <= mem.Length ==>
        mem[b..b + n] == old(mem[b..b + n])
    {
      a, d, p := 0, 0, 0;
      var ok := true;
      SpareEmpty();
      if freeDesc == NULL {
        ghost var h := heap;
        ok, d := InitBucketDesc();
        if !ok { return; }
        MoreDescsKeepsInv(h, d);
      }
      ghost var h1 := heap;
      assert |h1.pool| == |old(heap.pool)| - if old(heap.spare) == 0 then 1 else 0;
      ok, p := OpenBucket(k);
      if !ok { return; }
      OpenedIsNewTaken(h1, k, p);
      OpenedKeepsInv(h1, k, p);
      a := TakeObject(k, dir[k], 0);
    }

    /** malloc for objects of the `k`-th size. */
    method MallocSized(k: nat) returns (a: nat, ghost d: nat, ghost p: nat)
      requires Valid() && k < |SIZES|
      modifies this, mem, dir
      ensures Valid()
      ensures a == 0 <==> |old(heap.pool)| < PagesWanted(old(heap), k)
      ensures a != 0 ==> Allocates(old(heap), k, d, p, a, heap)
      ensures forall b: nat, n: nat :: Live(old(heap), b, n) && b + n <= mem.Length ==>
        mem[b..b + n] == old(mem[b..b + n])
    {
      d, p := 0, 0;
      var b := FindRoom(k);
      if b == NULL {
        a, d, p := MallocNew(k);
      } else {
        ghost var i := Room(heap.chains[k], 0);
        TakeKeepsInv(heap, k, i);
        FreeNotNull(heap, k, i);
        a := TakeObject(k, b, i);
      }
    }

    /** malloc: 0 stands for its panics, for more than a page, or when there are not the pages it needs. Objects in use
        keep their contents. */
    method MallocObject(len: nat) returns (a: nat, ghost d: nat, ghost p: nat)
      requires Valid()
      modifies this, mem, dir
      ensures Valid()
      ensures a == 0 <==> len > 4096 || NoRoomFor(old(heap), len)
      ensures a != 0 ==> Malloc(old(heap), len, d, p) == Got(a, heap)
      ensures forall b: nat, n: nat :: Live(old(heap), b, n) && b + n <= mem.Length ==>
        mem[b..b + n] == old(mem[b..b + n])
    {
      a, d, p := 0, 0, 0;
      var k := 0;
      while k < |SIZES| && SIZES[k] < len
        invariant 0 <= k <= |SIZES| && Fit(len, 0) == Fit(len, k)
      {
        k := k + 1;
      }
      FitsAPage(len);
      if k < |SIZES| {
        ghost var h := heap;
        a, d, p := MallocSized(k);
        WantsPages(h, k);
        AllocatedIsMalloc(h, len, k, d, p, a, heap);
      }
    }

    /** There are spare descriptors exactly when the list of them is not empty. */
    lemma SpareEmpty()
      requires Represents()
      ensures heap.spare == 0 <==> freeDesc == NULL
    {
      assert Linked(descs, Heads()[SPARE], lists[SPARE]);
      if lists[SPARE] != [] {
        assert LinkAt(descs, lists[SPARE], 0);
      }
    }

    /** Descriptor `d` is that of the `i`-th bucket of chain `k`, and `prev` the one before it. */
    ghost predicate Placed(k: nat, i: nat, d: int, prev: int)
      requires Represents()
      reads this, mem, dir
    {
      k < |SIZES| && i < |heap.chains[k]| && 0 <= d < |descs| && d == lists[k][i] &&
      prev == (if i > 0 then lists[k][i - 1] else NULL)
    }

    /** The search of free_s along one chain. */
    method SearchChain(k: nat, page: nat) returns (d: int, prev: int, ghost i: nat)
      requires Represents() && k < |SIZES|
      ensures i == InChain(heap.chains[k], page, 0)
      ensures if i < |heap.chains[k]| then Placed(k, i, d, prev) else d == NULL
    {
      i := 0;
      assert Linked(descs, Heads()[k], lists[k]);
      d, prev := dir[k], NULL;
      while d != NULL && descs[d].page != page
        invariant i <= |lists[k]| && d == (if i < |lists[k]| then lists[k][i] else NULL)
        invariant 0 <= d < |descs| || d == NULL
        invariant prev == (if i > 0 then lists[k][i - 1] else NULL)
        invariant InChain(heap.chains[k], page, 0) == InChain(heap.chains[k], page, i)
        decreases |lists[k]| - i
      {
        assert DescFor(mem[..], descs, lists[k][i], k, heap.chains[k][i]) && LinkAt(descs, lists[k], i);
        assert i + 1 < |lists[k]| ==> LinkAt(descs, lists[k], i + 1);
        d, prev := descs[d].next, d;
        i := i + 1;
      }
      if d != NULL {
        assert DescFor(mem[..], descs, lists[k][i], k, heap.chains[k][i]);
      }
    }

    /** The search of free_s over all chains whose size is not below the hint. */
    method FindBucket(page: nat, size: int) returns (k: nat, d: int, prev: int, ghost i: nat)
      requires Represents()
      ensures k == Find(heap, page, size, 0).0 && k <= |SIZES|
      ensures k < |SIZES| ==> i == Find(heap, page, size, 0).1 && Placed(k, i, d, prev)
    {
      k, d, prev, i := 0, NULL, NULL, 0;
      assert |heap.chains| == |SIZES|;
      hide Rep, Represents, Placed;
      while k < |SIZES|
        invariant 0 <= k <= |SIZES| && Find(heap, page, size, 0) == Find(heap, page, size, k)
      {
        if SIZES[k] >= size {
          d, prev, i := SearchChain(k, page);
          if d != NULL {
            return;
          }
        }
        k := k + 1;
      }
    }

    /** An object goes on its bucket's free list; one object fewer is in use. */
    method ReturnObject(a: nat, k: nat, d: nat, ghost i: nat)
      requires Represents() && k < |SIZES| && i < |heap.chains[k]| && lists[k][i] == d
      requires LiveIn(heap, a, k, i) && PageOk(k, heap.chains[k][i]) && 0 < a < mem.Length
      modifies this`descs, this`heap, mem
      ensures Represents() && d < |descs|
      ensures var p := old(heap).chains[k][i];
        heap == Replace(old(heap), k, i, p.(free := [a] + p.free)) && descs[d].refcnt == Refcnt(k, p) - 1 &&
          descs[d].page == p.base
      ensures forall b :: 0 <= b < mem.Length && b != a ==> mem[b] == old(mem[b])
    {
      ghost var p := heap.chains[k][i];
      ghost var p' := p.(free := [a] + p.free);
      ghost var words, was := mem[..], descs;
      assert DescFor(words, descs, d, k, p);
      mem[a] := descs[d].freeptr;
      FreeListFrame(words, mem[..], descs[d].freeptr, p.free);
      descs := descs[d := descs[d].(freeptr := a, refcnt := descs[d].refcnt - 1)];
      assert p'.free[1..] == p.free;
      ReplaceRep(words, was, Heads(), lists, heap, k, i, p', mem[..], descs[d]);
      heap := Replace(heap, k, i, p');
    }

    /** The bucket's page goes back to the pool and its descriptor to the spare ones. */
    method CloseBucket(k: nat, d: nat, prev: int, ghost i: nat)
      requires Represents() && pool == heap.pool && k < |SIZES| && i < |heap.chains[k]| && lists[k][i] == d
      requires prev == (if i > 0 then lists[k][i - 1] else NULL)
      requires d < |descs| && descs[d].page == heap.chains[k][i].base
      modifies this, dir
      ensures Represents() && heap == Without(old(heap), k, i) && pool == heap.pool
    {
      ghost var was, heads := descs, Heads();
      WithoutRep(mem[..], descs, heads, lists, heap, k, i);
      if prev != NULL {
        descs := descs[prev := descs[prev].(next := descs[d].next)];
      } else {
        dir[k] := descs[d].next;
      }
      pool := pool + {descs[d].page};
      descs := descs[d := descs[d].(next := freeDesc)];
      freeDesc := d;
      lists := lists[k := Drop(lists[k], i)][SPARE := [d] + lists[SPARE]];
      heap := Without(heap, k, i);
      assert Heads() == HeadsWithout(was, heads, k, i, d)[SPARE := d];
    }

    /** free_s once the bucket is found. */
    method FreeFound(a: nat, k: nat, d: nat, prev: int, ghost i: nat)
      requires Valid() && Placed(k, i, d, prev) && LiveIn(heap, a, k, i)
      modifies this, mem, dir
      ensures Represents() && pool == heap.pool && heap == PutBack(old(heap), k, i, a)
      ensures forall b :: 0 <= b < mem.Length && b != a ==> mem[b] == old(mem[b])
    {
      ghost var h := heap;
      assert PageOk(k, h.chains[k][i]);
      LiveInMemory(h, a, k, i, mem.Length);
      ReturnObject(a, k, d, i);
      if descs[d].refcnt == 0 {
        WithoutReplaced(h, k, i, heap.chains[k][i]);
        CloseBucket(k, d, prev, i);
      }
    }

    /** free_s of an object in use; false stands for its panic.  Other objects in use keep their contents. */
    method FreeObject(a: nat, size: int, ghost n: nat) returns (ok: bool)
      requires Valid() && Live(heap, a, n)
      modifies this, mem, dir
      ensures Valid()
      ensures ok ==> Free(old(heap), a, size) == Got(a, heap)
      ensures !ok ==> Free(old(heap), a, size).Panic? && heap == old(heap)
      ensures forall b :: 0 <= b < mem.Length && b != a ==> mem[b] == old(mem[b])
    {
      var page := a - a % PAGE_SIZE;
      var k, d, prev, i := FindBucket(page, size);
      FreeOutcome(heap, a, page, n, size, k, i);
      ok := k < |SIZES|;
      if ok {
        FreeFound(a, k, d, prev, i);
      }
    }

    /** A client may store any bytes of its own object, aligned or not, without disturbing the allocator. `words` are
        the words at the addresses that some byte written belongs to, from three before the first byte on. */
    method ClientStore(ghost a: nat, ghost n: nat, at: nat, len: nat, words: seq<int>)
      requires Valid() && Live(heap, a, n) && a <= at && at + len <= a + n && 3 <= at && at + len <= mem.Length
      requires |words| == len + 3
      modifies mem
      ensures Valid() && mem[..] == old(mem[..])[..at - 3] + words + old(mem[..])[at + len..]
    {
      ghost var was := mem[..];
      WriteWords(at - 3, words);
      ClientStoreRep(was, mem[..], descs, Heads(), lists, heap, a, n, at, at + len);
    }

    method WriteWords(from: nat, words: seq<int>)
      requires from + |words| <= mem.Length
      modifies mem
      ensures mem[..] == old(mem[..])[..from] + words + old(mem[..])[from + |words|..]
    {
      ghost var was := mem[..];
      var i := 0;
      while i < |words|
        invariant 0 <= i <= |words|
        invariant forall x :: 0 <= x < mem.Length ==> mem[x] == if from <= x < from + i then words[x - from] else was[x]
      {
        mem[from + i] := words[i];
        i := i + 1;
      }
    }
  }

  function NoLists(): seq<seq<nat>> {
    [[], [], [], [], [], [], [], [], [], []]
  }

  lemma EmptyRep(mem: seq<int>, heads: seq<int>, pages: set<nat>)
    requires |heads| == 10 && forall i :: 0 <= i < 10 ==> heads[i] == NULL
    requires forall b :: b in pages ==> b + PAGE_SIZE <= |mem|
    ensures Rep(mem, [], heads, NoLists(), Empty(pages))
  {
  }

  /** The free pages that malloc of the `k`-th size needs: none if some bucket has room, or else one, and another if
      there is no spare descriptor. */
  function PagesWanted(h: Heap, k: nat): nat
    requires k < |h.chains|
  {
    if Room(h.chains[k], 0) < |h.chains[k]| then 0 else if h.spare == 0 then 2 else 1
  }

  /** Every bucket of the size for `len` bytes is full, and the free pages do not make another: one, and one for more
      descriptors if none is spare. */
  ghost predicate NoRoomFor(h: Heap, len: nat)
    requires Fit(len, 0) < |h.chains|
  {
    (forall i :: 0 <= i < |h.chains[Fit(len, 0)]| ==> h.chains[Fit(len, 0)][i].free == []) &&
    |h.pool| < if h.spare == 0 then 2 else 1
  }

  lemma WantsPages(h: Heap, k: nat)
    requires k < |h.chains|
    ensures PagesWanted(h, k) ==
      if forall i :: 0 <= i < |h.chains[k]| ==> h.chains[k][i].free == [] then (if h.spare == 0 then 2 else 1) else 0
  {
    var i := Room(h.chains[k], 0);
    assert i < |h.chains[k]| ==> h.chains[k][i].free != [];
  }

  lemma FitsAPage(len: nat)
    ensures Fit(len, 0) < |SIZES| <==> len <= 4096
  {
    assert SIZES[8] == 4096;
    var k := Fit(len, 0);
    assert k < |SIZES| ==> SIZES[k] <= 4096;
  }

  /** `a` comes from the first bucket with room, or from a new one. */
  ghost predicate Allocates(h: Heap, k: nat, d: nat, p: nat, a: nat, h': Heap)
    requires k < |h.chains| && k < |SIZES|
  {
    var i := Room(h.chains[k], 0);
    if i < |h.chains[k]| then a == h.chains[k][i].free[0] && h' == TakeFrom(h, k, i)
    else
      var h1 := if h.spare == 0 then MoreDescs(h, d) else h;
      (h.spare == 0 ==> d in h.pool) && p in h1.pool && a == p && h' == TakeFrom(NewBucket(h1, k, p), k, 0)
  }

  lemma AllocatedIsMalloc(h: Heap, len: nat, k: nat, d: nat, p: nat, a: nat, h': Heap)
    requires |h.chains| == |SIZES| && k < |SIZES| && k == Fit(len, 0)
    ensures Allocates(h, k, d, p, a, h') ==> Malloc(h, len, d, p) == Got(a, h')
  {
    OpenedIsNewTaken(if h.spare == 0 then MoreDescs(h, d) else h, k, p);
  }

  lemma InSlots(page: nat, k: nat)
    requires k < |SIZES|
    ensures forall j: nat :: j < Capacity(k) ==> page <= Slot(page, k, j) < page + PAGE_SIZE
  {
    forall j: nat | j < Capacity(k) ensures page <= Slot(page, k, j) < page + PAGE_SIZE {
      Multiples(j, Capacity(k), SIZES[k]);
    }
  }

  lemma NextSlot(page: nat, k: nat, j: nat)
    requires k < |SIZES|
    ensures Slot(page, k, j + 1) == Slot(page, k, j) + SIZES[k]
  {
  }

  /** Writing an object's link leaves the links of those before it. */
  lemma ThreadedFrame(mem: seq<int>, mem': seq<int>, page: nat, k: nat, j: nat)
    requires k < |SIZES| && Slot(page, k, j) < |mem| == |mem'|
    requires mem' == mem[Slot(page, k, j) := mem'[Slot(page, k, j)]]
    requires forall l: nat :: l < j ==> ThreadedAt(mem, page, k, l)
    ensures forall l: nat :: l < j ==> ThreadedAt(mem', page, k, l)
  {
    forall l: nat | l < j ensures ThreadedAt(mem', page, k, l) {
      Multiples(l, j, SIZES[k]);
      assert ThreadedAt(mem, page, k, l);
    }
  }

  /** Objects in use are not on a page of the pool. */
  lemma ClientsOffPool(h: Heap, page: nat, mem: seq<int>, mem': seq<int>)
    requires Inv(h) && page in h.pool && |mem'| == |mem|
    requires forall a :: 0 <= a < |mem| && !(page <= a < page + PAGE_SIZE) ==> mem'[a] == mem[a]
    ensures forall a: nat, n: nat :: Live(h, a, n) && a + n <= |mem| ==> mem'[a..a + n] == mem[a..a + n]
  {
    forall a: nat, n: nat | Live(h, a, n) && a + n <= |mem| ensures mem'[a..a + n] == mem[a..a + n] {
      var k: nat, i: nat :| LiveIn(h, a, k, i) && SIZES[k] == n;
      LiveInPage(h, a, k, i);
      assert PageOk(k, h.chains[k][i]);
      PagesAreApart(page, h.chains[k][i].base);
    }
  }

  lemma FreeNotNull(h: Heap, k: nat, i: nat)
    requires Inv(h) && k < |h.chains| && i < |h.chains[k]| && h.chains[k][i].free != []
    ensures h.chains[k][i].free[0] > 0
  {
    var p := h.chains[k][i];
    assert PageOk(k, p);
    InsidePage(p.base, k, p.free[0]);
  }

  /** The bucket that free_s finds is the one the object is in. */
  lemma LiveHere(h: Heap, a: nat, n: nat, k: nat, i: nat)
    requires Inv(h) && Live(h, a, n) && k < |h.chains| && i < |h.chains[k]| && h.chains[k][i].base == a - a % PAGE_SIZE
    ensures LiveIn(h, a, k, i) && SIZES[k] == n
  {
    var l: nat, j: nat :| LiveIn(h, a, l, j) && SIZES[l] == n;
    LiveInPage(h, a, l, j);
    SameBucket(h, k, i, l, j);
  }

  /** What free_s does, by what its search finds. */
  lemma FreeOutcome(h: Heap, a: nat, page: nat, n: nat, size: int, k: nat, i: nat)
    requires Inv(h) && Live(h, a, n) && page == a - a % PAGE_SIZE && k == Find(h, page, size, 0).0
    requires k < |SIZES| ==> i == Find(h, page, size, 0).1
    ensures if k == |SIZES| then Free(h, a, size).Panic?
            else k < |h.chains| && i < |h.chains[k]| && LiveIn(h, a, k, i) && Inv(PutBack(h, k, i, a)) &&
                 Free(h, a, size) == Got(a, PutBack(h, k, i, a))
  {
    FreeKeepsInv(h, a, n, size);
    if k < |SIZES| {
      LiveHere(h, a, n, k, i);
    }
  }

  lemma LiveInMemory(h: Heap, a: nat, k: nat, i: nat, n: nat)
    requires Inv(h) && LiveIn(h, a, k, i) && InMemory(h, n)
    ensures 0 < a < n
  {
    LiveInPage(h, a, k, i);
    assert PageOk(k, h.chains[k][i]);
    assert Bucketed(h, k, i, h.chains[k][i].base) && UsesPage(h, h.chains[k][i].base) && Known(h, h.chains[k][i].base);
  }

  lemma WithoutReplaced(h: Heap, k: nat, i: nat, p: Page)
    requires k < |h.chains| && i < |h.chains[k]| && p.base == h.chains[k][i].base
    ensures Without(Replace(h, k, i, p), k, i) == Without(h, k, i)
  {
    var c := h.chains[k];
    assert c[i := p][..i] == c[..i] && c[i := p][i + 1..] == c[i + 1..];
    assert h.chains[k := c[i := p]][k := c[..i] + c[i + 1..]] == h.chains[k := c[..i] + c[i + 1..]];
  }
}
