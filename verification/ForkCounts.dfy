/** Whether the counts of shared frames have room for a whole fork. */
module ForkCounts {
  import opened Paging
  import opened PagingOps
  import opened PagingRuns
  import opened PagingViews

  /** The pages showing frame `f` that a fork has still to copy: page `i` and those behind it in directory `x`, and all
      pages of the directories behind `x` up to `hi`. */
  ghost function ToCopy(s: Mem, x: nat, i: nat, hi: nat, f: nat): (t: set<(nat, nat)>)
    requires Shape(s)
    ensures t <= Entries(s, f)
  {
    set p | p in Entries(s, f) && p.0 < hi && (x < p.0 || (p.0 == x && i <= p.1))
  }

  /** Each frame to be shared can be counted once more for each of its pages to be copied. */
  ghost predicate RoomFor(s: Mem, x: nat, i: nat, hi: nat)
    requires Shape(s)
  {
    forall f: nat :: LOW <= f < FRAMES && ToCopy(s, x, i, hi, f) != {} ==>
      CountAt(s, f) + |ToCopy(s, x, i, hi, f)| < BYTE
  }

  /** copy_page_tables made the count of a frame wrap at page `i` of directory `fd`; `mid` is memory just before. */
  ghost predicate CountOver(mid: Mem, s': Mem, fd: nat, td: nat, i: nat) {
    CopyReady(mid, fd, i, td, i) && fd < PTRS && Wraps(mid, fd, i) && s' == CopyEntry(mid, fd, i, td, i)
  }

  lemma SmallerSet(a: set<(nat, nat)>, b: set<(nat, nat)>)
    requires a <= b
    ensures |a| <= |b|
  {
    assert b == a + (b - a);
  }

  /** With no more pages to copy, and no count that matters higher, there is still room. */
  lemma RoomKept(s: Mem, s': Mem, x: nat, i: nat, x': nat, i': nat, hi: nat)
    requires Shape(s) && Shape(s') && RoomFor(s, x, i, hi)
    requires forall f: nat {:trigger ToCopy(s', x', i', hi, f)} ::
      LOW <= f < FRAMES && ToCopy(s', x', i', hi, f) != {} ==>
      ToCopy(s', x', i', hi, f) <= ToCopy(s, x, i, hi, f) && CountAt(s', f) <= CountAt(s, f)
    ensures RoomFor(s', x', i', hi)
  {
    forall f: nat | LOW <= f < FRAMES && ToCopy(s', x', i', hi, f) != {}
      ensures CountAt(s', f) + |ToCopy(s', x', i', hi, f)| < BYTE
    {
      SmallerSet(ToCopy(s', x', i', hi, f), ToCopy(s, x, i, hi, f));
    }
  }

  /** Eviction takes entries away and lowers counts. */
  lemma RoomReclaimed(s: Mem, mid: Mem, x: nat, i: nat, hi: nat)
    requires Reclaimed(s, mid) && RoomFor(s, x, i, hi)
    ensures RoomFor(mid, x, i, hi)
  {
    forall f: nat | LOW <= f < FRAMES
      ensures ToCopy(mid, x, i, hi, f) <= ToCopy(s, x, i, hi, f) && CountAt(mid, f) <= CountAt(s, f)
    {
      assert forall d: nat, j: nat :: Maps(mid, d, j, f) ==> Maps(s, d, j, f);
    }
    RoomKept(s, mid, x, i, x, i, hi);
  }

  /** A fresh table has nothing in it, and its frame is shown nowhere. */
  lemma RoomFreshTable(s: Mem, mid: Mem, f: nat, td: nat, x: nat, i: nat, hi: nat)
    requires Reclaimed(s, mid) && f == FreeFrame(mid) && f != 0 && IsUser(td) && mid.dir[td] == 0
    requires RoomFor(s, x, i, hi)
    ensures Shape(GiveTable(Take(mid, f), td, f)) && RoomFor(GiveTable(Take(mid, f), td, f), x, i, hi)
  {
    RoomReclaimed(s, mid, x, i, hi);
    FreshTableSeen(s, mid, f, td);
    var s1 := GiveTable(Take(mid, f), td, f);
    forall g: nat | LOW <= g < FRAMES && ToCopy(s1, x, i, hi, g) != {}
      ensures ToCopy(s1, x, i, hi, g) <= ToCopy(mid, x, i, hi, g) && CountAt(s1, g) <= CountAt(mid, g)
    {
      assert forall d: nat, j: nat :: Maps(s1, d, j, g) ==> Maps(mid, d, j, g) && g != f;
      var p :| p in ToCopy(s1, x, i, hi, g);
      assert Maps(s1, p.0, p.1, g);
    }
    RoomKept(mid, s1, x, i, x, i, hi);
  }

  /** One page copied: its frame's count is one higher, and one page less is to be copied. */
  lemma RoomCopied(s: Mem, x: nat, i: nat, td: nat, hi: nat)
    requires CopyReady(s, x, i, td, i) && RoomFor(s, x, i, hi) && !(x <= td < hi) && x < hi
    ensures !Wraps(s, x, i)
    ensures Shape(CopyEntry(s, x, i, td, i)) && RoomFor(CopyEntry(s, x, i, td, i), x, i + 1, hi)
  {
    var s', e := CopyEntry(s, x, i, td, i), At(s, x, i);
    CopyEntryAt(s, x, i, td, i);
    if Wraps(s, x, i) {
      NextToCopy(s, x, i, td, hi, e.frame);
    }
    forall f: nat | LOW <= f < FRAMES && ToCopy(s', x, i + 1, hi, f) != {}
      ensures CountAt(s', f) + |ToCopy(s', x, i + 1, hi, f)| < BYTE
    {
      OneCountHigher(s, x, i, td, f);
      OneLessToCopy(s, s', x, i, td, hi, f);
      NextToCopy(s, x, i, td, hi, f);
      OneFewer(ToCopy(s, x, i, hi, f), (x, i));
    }
  }

  lemma OneFewer(a: set<(nat, nat)>, p: (nat, nat))
    ensures |a - {p}| == |a| - if p in a then 1 else 0
  {
    if p !in a { assert a - {p} == a; }
  }

  lemma OneCountHigher(s: Mem, x: nat, i: nat, td: nat, f: nat)
    requires CopyReady(s, x, i, td, i) && LOW <= f < FRAMES
    ensures Shape(CopyEntry(s, x, i, td, i))
    ensures CountAt(CopyEntry(s, x, i, td, i), f) <=
      CountAt(s, f) + if At(s, x, i).Present? && At(s, x, i).frame == f then 1 else 0
  {
    CopyEntryAt(s, x, i, td, i);
  }

  lemma NextToCopy(s: Mem, x: nat, i: nat, td: nat, hi: nat, f: nat)
    requires CopyReady(s, x, i, td, i) && x < hi && LOW <= f < FRAMES
    ensures (x, i) in ToCopy(s, x, i, hi, f) <==> At(s, x, i).Present? && At(s, x, i).frame == f
    ensures At(s, x, i).Present? ==> At(s, x, i).frame < FRAMES
  {
    assert At(s, x, i).Present? && IsUser(x) ==> Maps(s, x, i, At(s, x, i).frame);
    assert Maps(s, x, i, f) <==> IsUser(x) && At(s, x, i).Present? && At(s, x, i).frame == f;
  }

  lemma OneLessToCopy(s: Mem, s': Mem, x: nat, i: nat, td: nat, hi: nat, f: nat)
    requires Shape(s) && Shape(s') && x < PTRS && i < PTRS && !(x <= td < hi) && f >= LOW
    requires forall y: nat, j: nat :: IsUser(y) && j < PTRS && (y, j) != (td, i) && (y, j) != (x, i) ==>
      At(s', y, j) == At(s, y, j)
    ensures ToCopy(s', x, i + 1, hi, f) == ToCopy(s, x, i, hi, f) - {(x, i)}
  {
    forall p ensures p in ToCopy(s', x, i + 1, hi, f) <==> p in ToCopy(s, x, i, hi, f) && p != (x, i) {
      assert p.0 != td || !(x <= p.0 < hi);
    }
  }

  /** The end of one table is the start of the next. */
  lemma RoomInNext(s: Mem, x: nat, i: nat, hi: nat)
    requires Shape(s) && RoomFor(s, x, i, hi)
    ensures RoomFor(s, x + 1, 0, hi)
  {
    forall f: nat | LOW <= f < FRAMES ensures ToCopy(s, x + 1, 0, hi, f) <= ToCopy(s, x, i, hi, f) {
    }
    RoomKept(s, s, x, i, x + 1, 0, hi);
  }
}
