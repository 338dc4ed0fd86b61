/** The request array shared by all block devices, threaded into one singly linked list per major number. */
module RequestTable {
  import opened Elevator
  import opened Links

  const NR_REQUEST := 32
  const NR_BLK_DEV := 7

  /** The linked list that starts at slot `head` runs through the slots `o`, in order. */
  ghost predicate LinkedFrom(o: seq<int>, next: seq<int>, head: int) {
    (forall i :: 0 <= i < |o| ==> 0 <= o[i] < |next|) &&
    head == (if o == [] then NULL else o[0]) &&
    (forall i :: 0 <= i < |o| ==> next[o[i]] == Follower(o, i))
  }

  /** Where a slot is listed: nowhere, or at one place in one list. */
  datatype Place = Free | In(m: nat, i: nat)

  /** Each listed slot is at that place. */
  ghost predicate Listed(order: seq<seq<int>>, at: seq<Place>) {
    |at| == NR_REQUEST && |order| == NR_BLK_DEV &&
    forall m: nat, i: nat :: m < NR_BLK_DEV && i < |order[m]| ==>
      0 <= order[m][i] < NR_REQUEST && at[order[m][i]] == In(m, i)
  }

  /** Each place that is given is real. */
  ghost predicate PlacesReal(order: seq<seq<int>>, at: seq<Place>) {
    |order| == NR_BLK_DEV &&
    forall s :: 0 <= s < |at| && at[s].In? ==>
      at[s].m < NR_BLK_DEV && at[s].i < |order[at[s].m]| && order[at[s].m][at[s].i] == s
  }

  /** `at` gives each slot its one place; a slot is free exactly when its `dev` is negative. */
  ghost predicate Placed(order: seq<seq<int>>, at: seq<Place>, reqs: seq<Request>) {
    Listed(order, at) && PlacesReal(order, at) && |reqs| == NR_REQUEST &&
    (forall s :: 0 <= s < NR_REQUEST ==> (at[s].Free? <==> reqs[s].dev < 0))
  }

  /** Every list is linked from its head. */
  ghost predicate Threaded(order: seq<seq<int>>, next: seq<int>, heads: seq<int>) {
    |order| == NR_BLK_DEV == |heads| && forall m :: 0 <= m < NR_BLK_DEV ==> LinkedFrom(order[m], next, heads[m])
  }

  /** The requests found in the listed slots. */
  ghost function Pick(list: seq<int>, reqs: seq<Request>): (q: seq<Request>)
    requires forall i :: 0 <= i < |list| ==> 0 <= list[i] < |reqs|
    ensures |q| == |list| && forall i :: 0 <= i < |list| ==> q[i] == reqs[list[i]]
  {
    seq(|list|, i requires 0 <= i < |list| => reqs[list[i]])
  }

  /** The places after slot `s` was put into list `m` at index `k`. */
  ghost function Shift(at: seq<Place>, m: nat, k: nat, s: nat): (at': seq<Place>)
    requires s < |at|
    ensures |at'| == |at|
  {
    seq(|at|, t requires 0 <= t < |at| =>
      if t == s then In(m, k) else if at[t].In? && at[t].m == m && at[t].i >= k then In(m, at[t].i + 1) else at[t])
  }

  /** The places after the first slot `s` of list `m` was taken out. */
  ghost function Unshift(at: seq<Place>, m: nat, s: nat): (at': seq<Place>)
    requires s < |at|
    ensures |at'| == |at|
  {
    seq(|at|, t requires 0 <= t < |at| =>
      if t == s then Free else if at[t].In? && at[t].m == m && at[t].i > 0 then In(m, at[t].i - 1) else at[t])
  }

  lemma ChainSplice(o: seq<int>, next: seq<int>, head: int, i: nat, s: nat)
    requires LinkedFrom(o, next, head) && i < |o| && s < |next| && s !in o
    requires forall j :: 0 <= j < |o| && o[j] == o[i] ==> j == i
    ensures LinkedFrom(o[..i + 1] + [s] + o[i + 1..], next[s := next[o[i]]][o[i] := s], head)
  {
    var o' := o[..i + 1] + [s] + o[i + 1..];
    var next' := next[s := next[o[i]]][o[i] := s];
    assert o'[0] == o[0];
    forall j | 0 <= j < |o'| ensures 0 <= o'[j] < |next| && next'[o'[j]] == Follower(o', j) {
      if j <= i {
        assert o'[j] == o[j] && next[o[j]] == Follower(o, j);
      } else if j > i + 1 {
        assert o'[j] == o[j - 1] && next[o[j - 1]] == Follower(o, j - 1);
      } else {
        assert next[o[i]] == Follower(o, i);
      }
    }
  }

  lemma ChainFrame(o: seq<int>, next: seq<int>, head: int, s: nat, v: int)
    requires LinkedFrom(o, next, head) && s < |next| && s !in o
    ensures LinkedFrom(o, next[s := v], head)
  {
  }

  lemma ChainPop(o: seq<int>, next: seq<int>, head: int)
    requires LinkedFrom(o, next, head) && o != []
    ensures LinkedFrom(o[1..], next, next[head])
  {
    assert next[o[0]] == Follower(o, 0);
    forall j | 0 <= j < |o[1..]| ensures 0 <= o[1..][j] < |next| && next[o[1..][j]] == Follower(o[1..], j) {
      assert o[1..][j] == o[j + 1] && next[o[j + 1]] == Follower(o, j + 1);
    }
  }

  lemma SpliceListed(order: seq<seq<int>>, at: seq<Place>, m: nat, k: nat, s: nat)
    requires Listed(order, at) && m < NR_BLK_DEV && k <= |order[m]| && s < NR_REQUEST && at[s].Free?
    ensures Listed(order[m := order[m][..k] + [s] + order[m][k..]], Shift(at, m, k, s))
  {
    var o := order[m];
    var order' := order[m := o[..k] + [s] + o[k..]];
    var at' := Shift(at, m, k, s);
    forall n: nat, j: nat | n < NR_BLK_DEV && j < |order'[n]|
      ensures 0 <= order'[n][j] < NR_REQUEST && at'[order'[n][j]] == In(n, j)
    {
      if n != m || j < k {
        assert at[order[n][j]] == In(n, j);
      } else if j > k {
        assert order'[n][j] == o[j - 1] && at[o[j - 1]] == In(m, j - 1);
      }
    }
  }

  lemma SplicePlaces(order: seq<seq<int>>, at: seq<Place>, m: nat, k: nat, s: nat)
    requires PlacesReal(order, at) && m < NR_BLK_DEV && k <= |order[m]| && s < |at|
    ensures PlacesReal(order[m := order[m][..k] + [s] + order[m][k..]], Shift(at, m, k, s))
  {
  }

  lemma SplicePlaced(order: seq<seq<int>>, at: seq<Place>, reqs: seq<Request>, m: nat, k: nat, s: nat, r: Request)
    requires Placed(order, at, reqs)
    requires m < NR_BLK_DEV && k <= |order[m]| && s < NR_REQUEST && at[s].Free? && r.dev >= 0
    ensures Placed(order[m := order[m][..k] + [s] + order[m][k..]], Shift(at, m, k, s), reqs[s := r])
  {
    SpliceListed(order, at, m, k, s);
    SplicePlaces(order, at, m, k, s);
  }

  /** A free slot is in no list, so filling it changes no queue. */
  lemma FreeUnlisted(order: seq<seq<int>>, at: seq<Place>, reqs: seq<Request>, s: nat, r: Request, n: nat)
    requires Placed(order, at, reqs) && s < NR_REQUEST && at[s].Free? && n < NR_BLK_DEV
    ensures s !in order[n] && Pick(order[n], reqs[s := r]) == Pick(order[n], reqs)
  {
    forall i | 0 <= i < |order[n]| ensures order[n][i] != s {
      assert at[order[n][i]] == In(n, i);
    }
    UnaffectedQueue(order[n], reqs, s, r);
  }

  /** A listed slot is at no other place. */
  lemma Unshared(order: seq<seq<int>>, at: seq<Place>, reqs: seq<Request>, m: nat, i: nat)
    requires Placed(order, at, reqs) && m < NR_BLK_DEV && i < |order[m]|
    ensures forall j :: 0 <= j < |order[m]| && order[m][j] == order[m][i] ==> j == i
    ensures forall n :: 0 <= n < NR_BLK_DEV && n != m ==> order[m][i] !in order[n]
  {
    assert at[order[m][i]] == In(m, i);
    forall n: nat, j: nat | n < NR_BLK_DEV && j < |order[n]| && (n != m || j != i)
      ensures order[n][j] != order[m][i]
    {
      assert at[order[n][j]] == In(n, j);
    }
  }

  lemma PickSplice(o: seq<int>, reqs: seq<Request>, k: nat, s: nat, r: Request)
    requires forall i :: 0 <= i < |o| ==> 0 <= o[i] < |reqs|
    requires s < |reqs| && k <= |o| && s !in o
    ensures Pick(o[..k] + [s] + o[k..], reqs[s := r]) == Pick(o, reqs)[..k] + [r] + Pick(o, reqs)[k..]
  {
  }

  lemma UnaffectedQueue(o: seq<int>, reqs: seq<Request>, s: nat, r: Request)
    requires forall i :: 0 <= i < |o| ==> 0 <= o[i] < |reqs|
    requires s < |reqs| && s !in o
    ensures Pick(o, reqs[s := r]) == Pick(o, reqs)
  {
  }

  lemma PickPop(o: seq<int>, reqs: seq<Request>, r: Request)
    requires o != [] && forall i :: 0 <= i < |o| ==> 0 <= o[i] < |reqs|
    requires forall j :: 0 <= j < |o| && o[j] == o[0] ==> j == 0
    ensures [reqs[o[0]]] + Pick(o[1..], reqs[o[0] := r]) == Pick(o, reqs)
  {
  }

  lemma PopListed(order: seq<seq<int>>, at: seq<Place>, m: nat)
    requires Listed(order, at) && m < NR_BLK_DEV && order[m] != []
    ensures Listed(order[m := order[m][1..]], Unshift(at, m, order[m][0]))
  {
    var order' := order[m := order[m][1..]];
    var at' := Unshift(at, m, order[m][0]);
    assert at[order[m][0]] == In(m, 0);
    forall n: nat, j: nat | n < NR_BLK_DEV && j < |order'[n]|
      ensures 0 <= order'[n][j] < NR_REQUEST && at'[order'[n][j]] == In(n, j)
    {
      var j' := if n == m then j + 1 else j;
      assert order'[n][j] == order[n][j'] && at[order[n][j']] == In(n, j');
    }
  }

  lemma PopPlaced(order: seq<seq<int>>, at: seq<Place>, reqs: seq<Request>, m: nat)
    requires Placed(order, at, reqs) && m < NR_BLK_DEV && order[m] != []
    ensures var h := order[m][0];
            Placed(order[m := order[m][1..]], Unshift(at, m, h), reqs[h := reqs[h].(dev := -1)])
  {
    assert at[order[m][0]] == In(m, 0);
    PopListed(order, at, m);
  }

  /** Splicing slot `s` in after the `i`-th slot of list `m`: every list stays linked, and only queue `m` changes. */
  lemma SpliceKeepsLists(order: seq<seq<int>>, at: seq<Place>, reqs: seq<Request>, next: seq<int>, heads: seq<int>,
                         m: nat, i: nat, s: nat, r: Request)
    requires Placed(order, at, reqs) && |next| == NR_REQUEST && Threaded(order, next, heads)
    requires m < NR_BLK_DEV && i < |order[m]| && s < NR_REQUEST && at[s].Free? && r.dev >= 0
    ensures var o := order[m]; var order' := order[m := o[..i + 1] + [s] + o[i + 1..]];
            Placed(order', Shift(at, m, i + 1, s), reqs[s := r]) &&
            Threaded(order', next[s := next[o[i]]][o[i] := s], heads) &&
            (forall n :: 0 <= n < NR_BLK_DEV && n != m ==> Pick(order'[n], reqs[s := r]) == Pick(order[n], reqs)) &&
            Pick(order'[m], reqs[s := r]) == Pick(o, reqs)[..i + 1] + [r] + Pick(o, reqs)[i + 1..]
  {
    var o := order[m];
    Unshared(order, at, reqs, m, i);
    SplicePlaced(order, at, reqs, m, i + 1, s, r);
    FreeUnlisted(order, at, reqs, s, r, m);
    ChainSplice(o, next, heads[m], i, s);
    PickSplice(o, reqs, i + 1, s, r);
    forall n: nat | n < NR_BLK_DEV && n != m
      ensures LinkedFrom(order[n], next[s := next[o[i]]][o[i] := s], heads[n])
      ensures Pick(order[n], reqs[s := r]) == Pick(order[n], reqs)
    {
      FreeUnlisted(order, at, reqs, s, r, n);
      ChainFrame(order[n], next, heads[n], s, next[o[i]]);
      ChainFrame(order[n], next[s := next[o[i]]], heads[n], o[i], s);
    }
  }

  /** Taking the head of list `m` off: every list stays linked, and only queue `m` changes. */
  lemma PopKeepsLists(order: seq<seq<int>>, at: seq<Place>, reqs: seq<Request>, next: seq<int>, heads: seq<int>, m: nat)
    requires Placed(order, at, reqs) && |next| == NR_REQUEST && Threaded(order, next, heads)
    requires m < NR_BLK_DEV && order[m] != []
    ensures var h := order[m][0]; var order' := order[m := order[m][1..]]; var reqs' := reqs[h := reqs[h].(dev := -1)];
            Placed(order', Unshift(at, m, h), reqs') &&
            Threaded(order', next, heads[m := next[h]]) &&
            (forall n :: 0 <= n < NR_BLK_DEV && n != m ==> Pick(order'[n], reqs') == Pick(order[n], reqs)) &&
            [reqs[h]] + Pick(order'[m], reqs') == Pick(order[m], reqs)
  {
    var h := order[m][0];
    var r := reqs[h].(dev := -1);
    PopPlaced(order, at, reqs, m);
    Unshared(order, at, reqs, m, 0);
    forall n: nat | n < NR_BLK_DEV && n != m ensures Pick(order[n], reqs[h := r]) == Pick(order[n], reqs) {
      UnaffectedQueue(order[n], reqs, h, r);
    }
    PickPop(order[m], reqs, r);
    ChainPop(order[m], next, h);
    assert LinkedFrom(order[m], next, heads[m]);
  }

  class Table {
    const reqs: array<Request>   // a slot with dev < 0 is free
    const next: array<int>
    const current: array<int>    // per major: the head of its list, or NULL
    ghost var order: seq<seq<int>>
    ghost var at: seq<Place>

    ghost predicate Valid()
      reads this, reqs, next, current
    {
      next.Length == NR_REQUEST && current.Length == NR_BLK_DEV && next != current &&
      Placed(order, at, reqs[..]) && Threaded(order, next[..], current[..])
    }

    /** The requests queued for a major number, in service order. */
    ghost function Queue(m: nat): seq<Request>
      requires Valid() && m < NR_BLK_DEV
      reads this, reqs, next, current
    {
      Pick(order[m], reqs[..])
    }

    /** blk_dev_init */
    constructor ()
      ensures Valid() && fresh(reqs) && fresh(next) && fresh(current)
      ensures forall m: nat :: m < NR_BLK_DEV ==> Queue(m) == []
    {
      reqs := new Request[NR_REQUEST](_ => Request(READ, -1, 0, 0));
      next := new int[NR_REQUEST](_ => NULL);
      current := new int[NR_BLK_DEV](_ => NULL);
      order := seq(NR_BLK_DEV, _ => []);
      at := seq(NR_REQUEST, _ => Free);
    }

    /** The slot search of `make_request`: reads may take any slot, writes only the low two thirds. */
    method FindSlot(rw: int) returns (s: int)
      requires reqs.Length == NR_REQUEST
      ensures -1 <= s < (if rw == READ then NR_REQUEST else NR_REQUEST * 2 / 3)
      ensures s >= 0 ==> reqs[s].dev < 0
      ensures forall k :: s < k < (if rw == READ then NR_REQUEST else NR_REQUEST * 2 / 3) ==> reqs[k].dev >= 0
    {
      s := if rw == READ then NR_REQUEST else NR_REQUEST * 2 / 3;
      var limit := s;
      s := s - 1;
      while s >= 0 && reqs[s].dev >= 0
        invariant -1 <= s < limit
        invariant forall k :: s < k < limit ==> reqs[k].dev >= 0
      {
        s := s - 1;
      }
    }

    /** Fill a free slot and splice it into the list of major `m`. */
    method AddRequest(m: nat, s: nat, r: Request)
      requires Valid() && m < NR_BLK_DEV && s < NR_REQUEST
      requires reqs[s].dev < 0 && r.dev >= 0
      modifies this, reqs, next, current
      ensures Valid()
      ensures Queue(m) == Insert(old(Queue(m)), r)
      ensures forall n: nat :: n < NR_BLK_DEV && n != m ==> Queue(n) == old(Queue(n))
      ensures reqs[..] == old(reqs[..])[s := r]
    {
      if current[m] == NULL {
        StartList(m, s, r);
      } else {
        ghost var i;
        var tmp;
        tmp, i := Walk(m, r);
        SpliceAfter(m, s, r, tmp, i);
      }
    }

    method StartList(m: nat, s: nat, r: Request)
      requires Valid() && m < NR_BLK_DEV && s < NR_REQUEST
      requires reqs[s].dev < 0 && r.dev >= 0 && order[m] == []
      modifies this, reqs, next, current
      ensures Valid()
      ensures Queue(m) == [r]
      ensures forall n: nat :: n < NR_BLK_DEV && n != m ==> Queue(n) == old(Queue(n))
      ensures reqs[..] == old(reqs[..])[s := r]
    {
      ghost var regs, nexts := reqs[..], next[..];
      forall n: nat | n < NR_BLK_DEV
        ensures Pick(order[n], regs[s := r]) == Pick(order[n], regs)
        ensures LinkedFrom(order[n], nexts[s := NULL], current[n])
      {
        FreeUnlisted(order, at, regs, s, r, n);
        ChainFrame(order[n], nexts, current[n], s, NULL);
      }
      SplicePlaced(order, at, regs, m, 0, s, r);
      reqs[s] := r;
      next[s] := NULL;
      current[m] := s;
      order, at := order[m := order[m][..0] + [s] + order[m][0..]], Shift(at, m, 0, s);
      assert order[m] == [s];
      assert reqs[..] == regs[s := r];
      assert next[..] == nexts[s := NULL];
    }

    method SpliceAfter(m: nat, s: nat, r: Request, tmp: int, ghost i: nat)
      requires Valid() && m < NR_BLK_DEV && s < NR_REQUEST
      requires reqs[s].dev < 0 && r.dev >= 0 && i < |order[m]| && order[m][i] == tmp
      modifies this, reqs, next
      ensures Valid()
      ensures Queue(m) == old(Queue(m))[..i + 1] + [r] + old(Queue(m))[i + 1..]
      ensures forall n: nat :: n < NR_BLK_DEV && n != m ==> Queue(n) == old(Queue(n))
      ensures reqs[..] == old(reqs[..])[s := r]
    {
      SpliceKeepsLists(order, at, reqs[..], next[..], current[..], m, i, s, r);
      Link(s, r, tmp);
      order, at := order[m := order[m][..i + 1] + [s] + order[m][i + 1..]], Shift(at, m, i + 1, s);
    }

    /** Slot `s` takes the request and the place after slot `tmp`. */
    method Link(s: nat, r: Request, tmp: int)
      requires reqs.Length == next.Length == NR_REQUEST && s < NR_REQUEST && 0 <= tmp < NR_REQUEST
      requires next != current
      modifies reqs, next
      ensures reqs[..] == old(reqs[..])[s := r]
      ensures next[..] == old(next[..])[s := old(next[tmp])][tmp := s]
      ensures current[..] == old(current[..])
    {
      reqs[s] := r;
      next[s] := next[tmp];
      next[tmp] := s;
    }

    /** The loop of `add_request`: the listed slot after which `r` belongs. */
    method Walk(m: nat, r: Request) returns (tmp: int, ghost i: nat)
      requires Valid() && m < NR_BLK_DEV && current[m] != NULL
      ensures i < |order[m]| && tmp == order[m][i] && i == SplicePoint(Queue(m), r, 0)
    {
      ghost var q, o := Queue(m), order[m];
      tmp, i := current[m], 0;
      while next[tmp] != NULL &&
            !((InOrder(reqs[tmp], r) || !InOrder(reqs[tmp], reqs[next[tmp]])) && InOrder(r, reqs[next[tmp]]))
        invariant 0 <= i < |o| && tmp == o[i]
        invariant SplicePoint(q, r, 0) == SplicePoint(q, r, i)
        decreases |o| - i
      {
        tmp := next[tmp];
        i := i + 1;
      }
    }

    /** `end_request` on the head of major `m`: free its slot and advance the list. */
    method EndRequest(m: nat) returns (r: Request)
      requires Valid() && m < NR_BLK_DEV && current[m] != NULL
      modifies this, reqs, current
      ensures Valid()
      ensures [r] + Queue(m) == old(Queue(m))
      ensures forall n: nat :: n < NR_BLK_DEV && n != m ==> Queue(n) == old(Queue(n))
    {
      ghost var regs, heads := reqs[..], current[..];
      PopKeepsLists(order, at, regs, next[..], heads, m);
      var h := current[m];
      r := reqs[h];
      reqs[h] := r.(dev := -1);
      current[m] := next[h];
      order, at := order[m := order[m][1..]], Unshift(at, m, h);
      assert reqs[..] == regs[h := r.(dev := -1)];
      assert current[..] == heads[m := next[h]];
    }
  }
}
