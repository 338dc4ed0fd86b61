/** Bucket descriptors and free objects as linked lists. */
module BucketLinks {
  import opened Bucket
  import opened BucketRuns
  import opened Links

  const SPARE := 9        // the list of free descriptors, after the nine chains

  /** struct bucket_desc; `next` is a descriptor's number, `freeptr` an address, 0 for none. */
  datatype Desc = Desc(page: nat, next: int, freeptr: int, refcnt: int, size: nat)

  // ----- Lists of descriptors

  ghost predicate LinkAt(descs: seq<Desc>, ids: seq<nat>, i: int) {
    0 <= i < |ids| && ids[i] < |descs| && descs[ids[i]].next == (if i + 1 < |ids| then ids[i + 1] else NULL)
  }

  ghost predicate Linked(descs: seq<Desc>, head: int, ids: seq<nat>) {
    head == (if ids == [] then NULL else ids[0]) && forall i :: 0 <= i < |ids| ==> LinkAt(descs, ids, i)
  }

  ghost predicate IdAt(lists: seq<seq<nat>>, k: nat, i: nat, d: nat) {
    k < |lists| && i < |lists[k]| && lists[k][i] == d
  }

  ghost predicate Listed(lists: seq<seq<nat>>, d: nat) {
    exists k: nat, i: nat :: IdAt(lists, k, i, d)
  }

  /** No descriptor is in two places. */
  ghost predicate Apart(lists: seq<seq<nat>>) {
    forall k: nat, i: nat, l: nat, j: nat, d: nat :: IdAt(lists, k, i, d) && IdAt(lists, l, j, d) ==> k == l && i == j
  }

  ghost predicate LinksOk(descs: seq<Desc>, heads: seq<int>, lists: seq<seq<nat>>) {
    |heads| == |lists| == 10 && Apart(lists) && forall k: nat :: k < 10 ==> Linked(descs, heads[k], lists[k])
  }

  /** Only `next` fields matter. */
  lemma LinksFrame(descs: seq<Desc>, descs': seq<Desc>, heads: seq<int>, lists: seq<seq<nat>>)
    requires LinksOk(descs, heads, lists) && |descs'| >= |descs|
    requires forall d: nat :: d < |descs| && Listed(lists, d) ==> descs'[d].next == descs[d].next
    ensures LinksOk(descs', heads, lists)
  {
    forall k: nat | k < 10 ensures Linked(descs', heads[k], lists[k]) {
      ListFrame(descs, descs', heads, lists, k);
    }
  }

  lemma ListFrame(descs: seq<Desc>, descs': seq<Desc>, heads: seq<int>, lists: seq<seq<nat>>, k: nat)
    requires k < |heads| == |lists| && Linked(descs, heads[k], lists[k]) && |descs'| >= |descs|
    requires forall d: nat :: d < |descs| && d in lists[k] ==> Listed(lists, d) ==> descs'[d].next == descs[d].next
    ensures Linked(descs', heads[k], lists[k])
  {
    forall i | 0 <= i < |lists[k]| ensures LinkAt(descs', lists[k], i) {
      assert LinkAt(descs, lists[k], i) && IdAt(lists, k, i, lists[k][i]);
    }
  }

  /** The descriptor before the `i`-th, if any, is linked past it. */
  function Unlinked(descs: seq<Desc>, ids: seq<nat>, i: nat): (r: seq<Desc>)
    requires i < |ids| && ids[i] < |descs| && (i > 0 ==> ids[i - 1] < |descs|)
    ensures |r| == |descs|
  {
    if i > 0 then descs[ids[i - 1] := descs[ids[i - 1]].(next := descs[ids[i]].next)] else descs
  }

  lemma LinksRemove(descs: seq<Desc>, heads: seq<int>, lists: seq<seq<nat>>, k: nat, i: nat)
    requires LinksOk(descs, heads, lists) && k < 10 && i < |lists[k]|
    ensures lists[k][i] < |descs| && (i > 0 ==> lists[k][i - 1] < |descs| && lists[k][i - 1] != lists[k][i])
    ensures var lists', d := lists[k := Drop(lists[k], i)], lists[k][i];
      LinksOk(Unlinked(descs, lists[k], i), if i > 0 then heads else heads[k := descs[d].next], lists') &&
        !Listed(lists', d)
  {
    var ids := lists[k];
    assert Linked(descs, heads[k], ids) && LinkAt(descs, ids, i);
    assert i > 0 ==> LinkAt(descs, ids, i - 1) && IdAt(lists, k, i - 1, ids[i - 1]);
    assert IdAt(lists, k, i, ids[i]);
    var descs', ids', lists' := Unlinked(descs, ids, i), Drop(ids, i), lists[k := Drop(ids, i)];
    forall j: nat | j < |ids'| ensures LinkAt(descs', ids', j) {
      var j0 := if j < i then j else j + 1;
      assert ids'[j] == ids[j0] && LinkAt(descs, ids, j0) && IdAt(lists, k, j0, ids[j0]);
    }
    forall l: nat | l < 10 && l != k ensures Linked(descs', heads[l], lists[l]) {
      assert Linked(descs, heads[l], lists[l]);
      forall j | 0 <= j < |lists[l]| ensures LinkAt(descs', lists[l], j) {
        assert LinkAt(descs, lists[l], j) && IdAt(lists, l, j, lists[l][j]);
      }
    }
    DropApart(lists, k, i);
  }

  lemma DropApart(lists: seq<seq<nat>>, k: nat, i: nat)
    requires Apart(lists) && k < |lists| && i < |lists[k]|
    ensures var lists' := lists[k := Drop(lists[k], i)];
      Apart(lists') && !Listed(lists', lists[k][i]) && forall d: nat :: Listed(lists', d) ==> Listed(lists, d)
  {
    var lists' := lists[k := Drop(lists[k], i)];
    assert IdAt(lists, k, i, lists[k][i]);
    forall l: nat, j: nat, d: nat | IdAt(lists', l, j, d)
      ensures IdAt(lists, l, if l == k && j >= i then j + 1 else j, d) {}
    forall l: nat, j: nat, m: nat, n: nat, d: nat | IdAt(lists', l, j, d) && IdAt(lists', m, n, d)
      ensures l == m && j == n
    {
      assert IdAt(lists, l, if l == k && j >= i then j + 1 else j, d);
      assert IdAt(lists, m, if m == k && n >= i then n + 1 else n, d);
    }
    forall d: nat | Listed(lists', d) ensures Listed(lists, d) && d != lists[k][i] {
      var l: nat, j: nat :| IdAt(lists', l, j, d);
      assert IdAt(lists, l, if l == k && j >= i then j + 1 else j, d);
    }
  }

  lemma LinksPush(descs: seq<Desc>, heads: seq<int>, lists: seq<seq<nat>>, k: nat, d: nat)
    requires LinksOk(descs, heads, lists) && k < 10 && d < |descs| && !Listed(lists, d)
    ensures LinksOk(descs[d := descs[d].(next := heads[k])], heads[k := d], lists[k := [d] + lists[k]])
  {
    var descs', ids', lists' := descs[d := descs[d].(next := heads[k])], [d] + lists[k], lists[k := [d] + lists[k]];
    LinksFrame(descs, descs', heads, lists);
    assert Linked(descs', heads[k], lists[k]);
    forall j: nat | j < |ids'| ensures LinkAt(descs', ids', j) {
      assert j > 0 ==> LinkAt(descs', lists[k], j - 1);
    }
    PushApart(lists, k, d);
  }

  lemma PushApart(lists: seq<seq<nat>>, k: nat, d: nat)
    requires Apart(lists) && k < |lists| && !Listed(lists, d)
    ensures Apart(lists[k := [d] + lists[k]])
  {
    var lists' := lists[k := [d] + lists[k]];
    forall l: nat, j: nat, m: nat, n: nat, e: nat | IdAt(lists', l, j, e) && IdAt(lists', m, n, e)
      ensures l == m && j == n
    {
      assert (l != k || j > 0) ==> IdAt(lists, l, if l == k then j - 1 else j, e);
      assert (m != k || n > 0) ==> IdAt(lists, m, if m == k then n - 1 else n, e);
      assert !Listed(lists, d);
    }
  }

  // ----- Free objects, linked through their first word

  ghost predicate FreeList(mem: seq<int>, ptr: int, s: seq<nat>)
    decreases |s|
  {
    if s == [] then ptr == 0 else ptr == s[0] && 0 < s[0] < |mem| && FreeList(mem, mem[s[0]], s[1..])
  }

  lemma {:induction false} FreeListFrame(mem: seq<int>, mem': seq<int>, ptr: int, s: seq<nat>)
    requires FreeList(mem, ptr, s) && |mem'| == |mem|
    requires forall a :: a in s && a < |mem| ==> mem'[a] == mem[a]
    ensures FreeList(mem', ptr, s)
    decreases |s|
  {
    if s != [] {
      FreeListFrame(mem, mem', mem[s[0]], s[1..]);
    }
  }

  /** The `j`-th object of a page links to the next, and the last to nothing. */
  ghost predicate ThreadedAt(mem: seq<int>, base: nat, k: nat, j: nat)
    requires k < |SIZES|
  {
    Slot(base, k, j) < |mem| && mem[Slot(base, k, j)] == (if j + 1 < Capacity(k) then Slot(base, k, j + 1) else 0)
  }

  lemma {:induction false} ThreadedIsFreeList(mem: seq<int>, base: nat, k: nat, j: nat)
    requires k < |SIZES| && j < Capacity(k) && base > 0
    requires forall i: nat :: i < Capacity(k) ==> ThreadedAt(mem, base, k, i)
    ensures FreeList(mem, Slot(base, k, j), Slots(base, k, j))
    decreases Capacity(k) - j
  {
    assert ThreadedAt(mem, base, k, j);
    assert Slots(base, k, j)[1..] == Slots(base, k, j + 1);
    if j + 1 < Capacity(k) {
      ThreadedIsFreeList(mem, base, k, j + 1);
    }
  }

  // ----- The heap they represent

  ghost predicate DescFor(mem: seq<int>, descs: seq<Desc>, d: nat, k: nat, p: Page)
    requires k < |SIZES|
  {
    d < |descs| && descs[d].page == p.base && descs[d].size == SIZES[k] && descs[d].refcnt == Refcnt(k, p) &&
    FreeList(mem, descs[d].freeptr, p.free)
  }

  /** Pages are well formed, but one may have nothing in use. */
  ghost predicate Fits(h: Heap) {
    |h.chains| == |SIZES| && PagesApart(h) &&
    forall k: nat, i: nat :: k < |h.chains| && i < |h.chains[k]| ==> PageFits(k, h.chains[k][i])
  }

  ghost predicate InMemory(h: Heap, n: nat) {
    forall b: nat :: Known(h, b) ==> b + PAGE_SIZE <= n
  }

  ghost predicate Lengths(lists: seq<seq<nat>>, h: Heap) {
    |lists| == 10 && |h.chains| == |SIZES| && |lists[SPARE]| == h.spare &&
    forall k: nat :: k < |SIZES| ==> |lists[k]| == |h.chains[k]|
  }

  ghost predicate Described(mem: seq<int>, descs: seq<Desc>, lists: seq<seq<nat>>, h: Heap)
    requires Lengths(lists, h)
  {
    forall k: nat, i: nat :: k < |SIZES| && i < |h.chains[k]| ==> DescFor(mem, descs, lists[k][i], k, h.chains[k][i])
  }

  ghost predicate Rep(mem: seq<int>, descs: seq<Desc>, heads: seq<int>, lists: seq<seq<nat>>, h: Heap) {
    Fits(h) && InMemory(h, |mem|) && Lengths(lists, h) && LinksOk(descs, heads, lists) &&
      Described(mem, descs, lists, h)
  }

  /** Objects of whatever buckets, free or in use, do not overlap. */
  lemma ObjectsApart(h: Heap, a: nat, k: nat, i: nat, b: nat, l: nat, j: nat)
    requires Fits(h) && k < |SIZES| && l < |SIZES| && i < |h.chains[k]| && j < |h.chains[l]|
    requires OnPage(h.chains[k][i].base, k, a) && OnPage(h.chains[l][j].base, l, b) && a != b
    ensures a + SIZES[k] <= b || b + SIZES[l] <= a
  {
    var p, q := h.chains[k][i], h.chains[l][j];
    assert PageFits(k, p) && PageFits(l, q);
    InsidePage(p.base, k, a);
    InsidePage(q.base, l, b);
    if p.base == q.base {
      SameBucket(h, k, i, l, j);
      SlotsApart(p.base, k, a, b);
    } else {
      PagesAreApart(p.base, q.base);
    }
  }

  /** A free object of another bucket is another object. */
  lemma OtherBucketsFree(h: Heap, a: nat, k: nat, i: nat, l: nat, j: nat)
    requires Fits(h) && k < |SIZES| && l < |SIZES| && i < |h.chains[k]| && j < |h.chains[l]| && (l != k || j != i)
    requires OnPage(h.chains[k][i].base, k, a)
    ensures a !in h.chains[l][j].free
  {
    var p, q := h.chains[k][i], h.chains[l][j];
    assert PageFits(k, p) && PageFits(l, q);
    if a in q.free {
      InsidePage(p.base, k, a);
      InsidePage(q.base, l, a);
      SameBucket(h, k, i, l, j);
    }
  }

  lemma ReplaceFits(h: Heap, k: nat, i: nat, p: Page)
    requires Fits(h) && k < |h.chains| && i < |h.chains[k]| && p.base == h.chains[k][i].base && PageFits(k, p)
    ensures Fits(Replace(h, k, i, p)) && forall b: nat :: Known(Replace(h, k, i, p), b) <==> Known(h, b)
  {
    var h' := Replace(h, k, i, p);
    assert forall l: nat, j: nat, b: nat :: Bucketed(h', l, j, b) <==> Bucketed(h, l, j, b);
    SameUses(h, h');
    forall l: nat, j: nat | l < |h'.chains| && j < |h'.chains[l]| ensures PageFits(l, h'.chains[l][j]) {
      assert l != k || j != i ==> h'.chains[l][j] == h.chains[l][j];
    }
  }

  /** One bucket's free list changes, in memory and in its descriptor. */
  lemma ReplaceRep(mem: seq<int>, descs: seq<Desc>, heads: seq<int>, lists: seq<seq<nat>>, h: Heap,
                   k: nat, i: nat, p: Page, mem': seq<int>, x: Desc)
    requires Rep(mem, descs, heads, lists, h) && k < |SIZES| && i < |h.chains[k]|
    requires p.base == h.chains[k][i].base && PageFits(k, p) && |mem'| == |mem|
    requires lists[k][i] < |descs| && x.next == descs[lists[k][i]].next
    requires DescFor(mem', descs[lists[k][i] := x], lists[k][i], k, p)
    requires forall a :: 0 <= a < |mem| && !OnPage(p.base, k, a) ==> mem'[a] == mem[a]
    ensures Rep(mem', descs[lists[k][i] := x], heads, lists, Replace(h, k, i, p))
  {
    var d, h' := lists[k][i], Replace(h, k, i, p);
    var descs' := descs[d := x];
    ReplaceFits(h, k, i, p);
    LinksFrame(descs, descs', heads, lists);
    assert IdAt(lists, k, i, d);
    forall l: nat, j: nat | l < |SIZES| && j < |h'.chains[l]|
      ensures DescFor(mem', descs', lists[l][j], l, h'.chains[l][j])
    {
      if l != k || j != i {
        assert DescFor(mem, descs, lists[l][j], l, h.chains[l][j]) && IdAt(lists, l, j, lists[l][j]);
        forall a | a in h.chains[l][j].free && a < |mem| ensures mem'[a] == mem[a] {
          if OnPage(p.base, k, a) { OtherBucketsFree(h, a, k, i, l, j); }
        }
        FreeListFrame(mem, mem', descs[lists[l][j]].freeptr, h.chains[l][j].free);
      }
    }
  }

  // ----- A new page of descriptors

  function Numbers(first: nat, n: nat): (s: seq<nat>)
    ensures |s| == n && forall i :: 0 <= i < n ==> s[i] == first + i
  {
    seq(n, i requires 0 <= i => first + i)
  }

  lemma MoreDescsRep(mem: seq<int>, descs: seq<Desc>, heads: seq<int>, lists: seq<seq<nat>>, h: Heap, d: nat,
    descs': seq<Desc>)
    requires Rep(mem, descs, heads, lists, h) && d in h.pool
    requires |descs'| == |descs| + DESCS_PER_PAGE && descs <= descs'
    requires forall e :: |descs| <= e < |descs'| ==>
      descs'[e].next == (if e + 1 < |descs'| then e + 1 else heads[SPARE])
    ensures Rep(mem, descs', heads[SPARE := |descs|], lists[SPARE := Numbers(|descs|, DESCS_PER_PAGE) + lists[SPARE]],
                MoreDescs(h, d))
  {
    var n := |descs|;
    var more, h' := Numbers(n, DESCS_PER_PAGE) + lists[SPARE], MoreDescs(h, d);
    var lists', heads' := lists[SPARE := more], heads[SPARE := n];
    MoreLinks(descs, descs', heads, lists);
    assert forall l: nat, j: nat, b: nat :: Bucketed(h', l, j, b) <==> Bucketed(h, l, j, b);
    SameUses(h, h');
    assert forall b: nat :: Known(h', b) ==> Known(h, b);
    forall l: nat, j: nat | l < |SIZES| && j < |h'.chains[l]|
      ensures DescFor(mem, descs', lists'[l][j], l, h'.chains[l][j])
    {
      assert DescFor(mem, descs, lists[l][j], l, h.chains[l][j]);
    }
  }

  lemma MoreLinks(descs: seq<Desc>, descs': seq<Desc>, heads: seq<int>, lists: seq<seq<nat>>)
    requires LinksOk(descs, heads, lists)
    requires |descs'| == |descs| + DESCS_PER_PAGE && descs <= descs'
    requires forall e :: |descs| <= e < |descs'| ==>
      descs'[e].next == (if e + 1 < |descs'| then e + 1 else heads[SPARE])
    ensures LinksOk(descs', heads[SPARE := |descs|], lists[SPARE := Numbers(|descs|, DESCS_PER_PAGE) + lists[SPARE]])
  {
    var n := |descs|;
    var more, lists' := Numbers(n, DESCS_PER_PAGE) + lists[SPARE],
      lists[SPARE := Numbers(n, DESCS_PER_PAGE) + lists[SPARE]];
    LinksFrame(descs, descs', heads, lists);
    assert Linked(descs', heads[SPARE], lists[SPARE]);
    forall i: nat | i < |more| ensures LinkAt(descs', more, i) {
      if i < DESCS_PER_PAGE {
        assert more[i] == n + i;
      } else {
        assert LinkAt(descs', lists[SPARE], i - DESCS_PER_PAGE);
      }
    }
    forall l: nat, j: nat, m: nat, q: nat, e: nat | IdAt(lists', l, j, e) && IdAt(lists', m, q, e)
      ensures l == m && j == q
    {
      IdOld(descs, heads, lists, l, j, e);
      IdOld(descs, heads, lists, m, q, e);
    }
  }

  /** Ids in the lists with a page of new ones: new ones are above the old ones. */
  lemma IdOld(descs: seq<Desc>, heads: seq<int>, lists: seq<seq<nat>>, l: nat, j: nat, e: nat)
    requires LinksOk(descs, heads, lists)
    requires IdAt(lists[SPARE := Numbers(|descs|, DESCS_PER_PAGE) + lists[SPARE]], l, j, e)
    ensures if l == SPARE && j < DESCS_PER_PAGE then e == |descs| + j
            else e < |descs| && IdAt(lists, l, if l == SPARE then j - DESCS_PER_PAGE else j, e)
  {
    if !(l == SPARE && j < DESCS_PER_PAGE) {
      var j0 := if l == SPARE then j - DESCS_PER_PAGE else j;
      assert Linked(descs, heads[l], lists[l]) && LinkAt(descs, lists[l], j0);
    }
  }

  // ----- A new bucket

  lemma NewBucketFits(h: Heap, k: nat, page: nat)
    requires Inv(h) && k < |h.chains| && h.spare > 0 && page in h.pool
    ensures Fits(NewBucket(h, k, page)) && forall b: nat :: Known(NewBucket(h, k, page), b) <==> Known(h, b)
  {
    var h', o := NewBucket(h, k, page), Opened(h, k, page);
    OpenedKeepsInv(h, k, page);
    SlotsOk(page, k);
    assert forall l: nat, j: nat, b: nat :: Bucketed(h', l, j, b) <==> Bucketed(o, l, j, b);
    SameUses(o, h');
    forall l: nat, j: nat | l < |h'.chains| && j < |h'.chains[l]| ensures PageFits(l, h'.chains[l][j]) {
      if l != k || j > 0 {
        assert h'.chains[l][j] == o.chains[l][j];
        assert PageOk(l, o.chains[l][j]);
      }
    }
  }

  lemma NewBucketLinks(descs: seq<Desc>, heads: seq<int>, lists: seq<seq<nat>>, k: nat, x: Desc)
    requires LinksOk(descs, heads, lists) && k < SPARE && lists[SPARE] != [] && x.next == heads[k]
    ensures lists[SPARE][0] < |descs|
    ensures var d := lists[SPARE][0];
      LinksOk(descs[d := x], heads[SPARE := descs[d].next][k := d],
        lists[SPARE := lists[SPARE][1..]][k := [d] + lists[k]])
  {
    LinksRemove(descs, heads, lists, SPARE, 0);
    var d := lists[SPARE][0];
    assert Drop(lists[SPARE], 0) == lists[SPARE][1..];
    var heads1, lists1 := heads[SPARE := descs[d].next], lists[SPARE := lists[SPARE][1..]];
    LinksPush(descs, heads1, lists1, k, d);
    var descs1 := descs[d := descs[d].(next := heads1[k])];
    LinksFrame(descs1, descs[d := x], heads1[k := d], lists1[k := [d] + lists1[k]]);
  }

  lemma NewBucketRep(mem: seq<int>, descs: seq<Desc>, heads: seq<int>, lists: seq<seq<nat>>, h: Heap,
                     k: nat, page: nat, mem': seq<int>)
    requires Rep(mem, descs, heads, lists, h) && Inv(h) && k < SPARE && h.spare > 0 && page in h.pool
    requires |mem'| == |mem| && FreeList(mem', page, Slots(page, k, 0))
    requires forall a :: 0 <= a < |mem| && !(page <= a < page + PAGE_SIZE) ==> mem'[a] == mem[a]
    ensures lists[SPARE] != [] && lists[SPARE][0] < |descs|
    ensures var d := lists[SPARE][0];
      Rep(mem', descs[d := Desc(page, heads[k], page, 0, SIZES[k])], heads[SPARE := descs[d].next][k := d],
          lists[SPARE := lists[SPARE][1..]][k := [d] + lists[k]], NewBucket(h, k, page))
  {
    var d, x := lists[SPARE][0], Desc(page, heads[k], page, 0, SIZES[k]);
    NewBucketLinks(descs, heads, lists, k, x);
    NewBucketFits(h, k, page);
    NewBucketDescribed(mem, descs, heads, lists, h, k, page, mem', x);
  }

  lemma NewBucketDescribed(mem: seq<int>, descs: seq<Desc>, heads: seq<int>, lists: seq<seq<nat>>, h: Heap,
                           k: nat, page: nat, mem': seq<int>, x: Desc)
    requires Rep(mem, descs, heads, lists, h) && Inv(h) && k < SPARE && h.spare > 0 && page in h.pool
    requires |mem'| == |mem| && FreeList(mem', page, Slots(page, k, 0)) && x == Desc(page, heads[k], page, 0, SIZES[k])
    requires forall a :: 0 <= a < |mem| && !(page <= a < page + PAGE_SIZE) ==> mem'[a] == mem[a]
    requires lists[SPARE] != [] && lists[SPARE][0] < |descs|
    ensures var lists' := lists[SPARE := lists[SPARE][1..]][k := [lists[SPARE][0]] + lists[k]];
      Lengths(lists', NewBucket(h, k, page)) &&
      Described(mem', descs[lists[SPARE][0] := x], lists', NewBucket(h, k, page))
  {
    var d := lists[SPARE][0];
    var h', lists', descs' := NewBucket(h, k, page), lists[SPARE := lists[SPARE][1..]][k := [d] + lists[k]],
      descs[d := x];
    assert IdAt(lists, SPARE, 0, d);
    forall l: nat, j: nat | l < |SIZES| && j < |h'.chains[l]|
      ensures DescFor(mem', descs', lists'[l][j], l, h'.chains[l][j])
    {
      if l != k || j > 0 {
        var j0 := if l == k then j - 1 else j;
        assert lists'[l][j] == lists[l][j0] && h'.chains[l][j] == h.chains[l][j0];
        assert DescFor(mem, descs, lists[l][j0], l, h.chains[l][j0]) && IdAt(lists, l, j0, lists[l][j0]);
        OtherPagesFree(h, l, j0, page);
        FreeListFrame(mem, mem', descs[lists[l][j0]].freeptr, h.chains[l][j0].free);
      }
    }
  }

  /** No free object lies on a page of the pool. */
  lemma OtherPagesFree(h: Heap, l: nat, j: nat, page: nat)
    requires Fits(h) && l < |SIZES| && j < |h.chains[l]| && page in h.pool && page % PAGE_SIZE == 0
    ensures forall a :: a in h.chains[l][j].free ==> !(page <= a < page + PAGE_SIZE)
  {
    var q := h.chains[l][j];
    assert PageFits(l, q) && Bucketed(h, l, j, q.base) && UsesPage(h, q.base);
    forall a | a in q.free ensures !(page <= a < page + PAGE_SIZE) {
      InsidePage(q.base, l, a);
      PagesAreApart(page, q.base);
    }
  }

  // ----- A bucket goes

  lemma WithoutFits(h: Heap, k: nat, i: nat)
    requires Fits(h) && k < |h.chains| && i < |h.chains[k]|
    ensures Fits(Without(h, k, i)) && forall b: nat :: Known(Without(h, k, i), b) <==> Known(h, b)
  {
    var h', base := Without(h, k, i), h.chains[k][i].base;
    assert Bucketed(h, k, i, base) && UsesPage(h, base);
    WithoutBuckets(h, k, i);
    forall b: nat ensures UsesPage(h', b) <==> UsesPage(h, b) && b != base {
      if UsesPage(h, b) && b != base {
        var l: nat, j: nat :| Bucketed(h, l, j, b);
        assert Bucketed(h', l, To(k, i, l, j), b);
      }
      if l: nat, j: nat :| Bucketed(h', l, j, b) {
        assert Bucketed(h, l, From(k, i, l, j), b);
      }
    }
    forall l: nat, j: nat, m: nat, n: nat, b: nat | Bucketed(h', l, j, b) && Bucketed(h', m, n, b)
      ensures l == m && j == n
    {
      assert Bucketed(h, l, From(k, i, l, j), b) && Bucketed(h, m, From(k, i, m, n), b);
    }
    forall l: nat, j: nat | l < |h'.chains| && j < |h'.chains[l]| ensures PageFits(l, h'.chains[l][j]) {
      assert h'.chains[l][j] == h.chains[l][From(k, i, l, j)];
    }
  }

  function HeadsWithout(descs: seq<Desc>, heads: seq<int>, k: nat, i: nat, d: nat): seq<int>
    requires k < |heads| && d < |descs|
  {
    if i > 0 then heads else heads[k := descs[d].next]
  }

  lemma WithoutLinks(descs: seq<Desc>, heads: seq<int>, lists: seq<seq<nat>>, k: nat, i: nat)
    requires LinksOk(descs, heads, lists) && k < SPARE && i < |lists[k]|
    ensures lists[k][i] < |descs| && (i > 0 ==> lists[k][i - 1] < |descs| && lists[k][i - 1] != lists[k][i])
    ensures var d := lists[k][i]; var descs1 := Unlinked(descs, lists[k], i);
      LinksOk(descs1[d := descs1[d].(next := heads[SPARE])], HeadsWithout(descs, heads, k, i, d)[SPARE := d],
              lists[k := Drop(lists[k], i)][SPARE := [d] + lists[SPARE]])
  {
    LinksRemove(descs, heads, lists, k, i);
    var d := lists[k][i];
    LinksPush(Unlinked(descs, lists[k], i), HeadsWithout(descs, heads, k, i, d),
      lists[k := Drop(lists[k], i)], SPARE, d);
  }

  /** Taking a bucket out leaves the others described. */
  lemma WithoutDescribed(mem: seq<int>, descs: seq<Desc>, lists: seq<seq<nat>>, h: Heap, k: nat, i: nat,
                         descs': seq<Desc>, lists': seq<seq<nat>>)
    requires Lengths(lists, h) && Described(mem, descs, lists, h) && k < |SIZES| && i < |h.chains[k]|
    requires |descs'| == |descs| && forall d :: 0 <= d < |descs| ==> descs'[d].(next := descs[d].next) == descs[d]
    requires |lists'| == 10 && lists'[k] == Drop(lists[k], i) && |lists'[SPARE]| == |lists[SPARE]| + 1
    requires forall l :: 0 <= l < SPARE && l != k ==> lists'[l] == lists[l]
    ensures Lengths(lists', Without(h, k, i)) && Described(mem, descs', lists', Without(h, k, i))
  {
    var h' := Without(h, k, i);
    forall l: nat, j: nat | l < |SIZES| && j < |h'.chains[l]|
      ensures DescFor(mem, descs', lists'[l][j], l, h'.chains[l][j])
    {
      var j0 := From(k, i, l, j);
      assert lists'[l][j] == lists[l][j0] && h'.chains[l][j] == h.chains[l][j0];
      assert DescFor(mem, descs, lists[l][j0], l, h.chains[l][j0]);
    }
  }

  /** The bucket's descriptor leaves its chain and becomes the first spare one. */
  lemma WithoutRep(mem: seq<int>, descs: seq<Desc>, heads: seq<int>, lists: seq<seq<nat>>, h: Heap, k: nat, i: nat)
    requires Rep(mem, descs, heads, lists, h) && k < |SIZES| && i < |h.chains[k]|
    ensures lists[k][i] < |descs| && (i > 0 ==> lists[k][i - 1] < |descs| && lists[k][i - 1] != lists[k][i])
    ensures var d := lists[k][i]; var descs1 := Unlinked(descs, lists[k], i);
      Rep(mem, descs1[d := descs1[d].(next := heads[SPARE])], HeadsWithout(descs, heads, k, i, d)[SPARE := d],
          lists[k := Drop(lists[k], i)][SPARE := [d] + lists[SPARE]], Without(h, k, i))
  {
    WithoutLinks(descs, heads, lists, k, i);
    WithoutFits(h, k, i);
    var d, descs1 := lists[k][i], Unlinked(descs, lists[k], i);
    WithoutDescribed(mem, descs, lists, h, k, i, descs1[d := descs1[d].(next := heads[SPARE])],
                     lists[k := Drop(lists[k], i)][SPARE := [d] + lists[SPARE]]);
  }

  /** Bytes `lo` up to `hi` were written: the words at other addresses, none of whose four bytes is there, are as they
      were. */
  ghost predicate BytesWritten(mem: seq<int>, mem': seq<int>, lo: int, hi: int) {
    |mem'| == |mem| && forall x :: 0 <= x < |mem| && !(lo - 4 < x < hi) ==> mem'[x] == mem[x]
  }

  /** A client may write any bytes of its own object, aligned or not: no list runs through it, and no link starts close
      enough before it. */
  lemma ClientStoreRep(mem: seq<int>, mem': seq<int>, descs: seq<Desc>, heads: seq<int>, lists: seq<seq<nat>>, h: Heap,
                       a: nat, size: nat, lo: int, hi: int)
    requires Rep(mem, descs, heads, lists, h) && Live(h, a, size) && a <= lo <= hi <= a + size
    requires BytesWritten(mem, mem', lo, hi)
    ensures Rep(mem', descs, heads, lists, h)
  {
    var k: nat, i: nat :| LiveIn(h, a, k, i) && SIZES[k] == size;
    forall l: nat, j: nat | l < |SIZES| && j < |h.chains[l]|
      ensures DescFor(mem', descs, lists[l][j], l, h.chains[l][j])
    {
      var q := h.chains[l][j];
      assert DescFor(mem, descs, lists[l][j], l, q) && PageFits(l, q);
      forall b | b in q.free ensures !(lo - 4 < b < hi) {
        SizesAscend(l, l);
        assert OnPage(q.base, l, b);
        if b == a { OtherOrNotFree(h, a, k, i, l, j); }
        else { ObjectsApart(h, a, k, i, b, l, j); }
      }
      FreeListFrame(mem, mem', descs[lists[l][j]].freeptr, q.free);
    }
  }

  lemma OtherOrNotFree(h: Heap, a: nat, k: nat, i: nat, l: nat, j: nat)
    requires Fits(h) && LiveIn(h, a, k, i) && l < |SIZES| && j < |h.chains[l]|
    ensures a !in h.chains[l][j].free
  {
    if l != k || j != i {
      OtherBucketsFree(h, a, k, i, l, j);
    }
  }
}
