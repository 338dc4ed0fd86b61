/** What the calls on names do, and where paths lead, in terms of the entries. */
module NameLaws {
  import opened Directory
  import opened NameTree
  import opened Paths

  // ----- When a call succeeds, and what it leaves

  /** The entries are as before, but for these places. */
  ghost predicate OtherNames(t: Tree, t': Tree, changed: set<Place>) {
    forall p :: p !in changed ==> (p in t'.names <==> p in t.names) && (p in t.names ==> t'.names[p] == t.names[p])
  }

  /** The link counts are as before, but for these inodes. */
  ghost predicate OtherLinks(t: Tree, t': Tree, changed: set<nat>) {
    forall i :: i !in changed ==> (i in t'.links <==> i in t.links) && (i in t.links ==> t'.links[i] == t.links[i])
  }

  ghost predicate Shows(t: Tree, p: Place, i: nat) {
    p in t.names && t.names[p] == i
  }

  /** creat and mknod: there is one more entry, for a file with one link; and not if the name exists or room lacks. */
  lemma Creates(t: Tree, d: nat, k: Key, i: nat, full: bool, busy: set<nat>)
    requires Inv(t) && Sensible(t, Create(d, k, i))
    ensures Answer(t, Create(d, k, i), full, busy) == OK <==> Place(d, k) !in t.names && !full
    ensures var t' := After(t, Create(d, k, i), full, busy);
      if Place(d, k) !in t.names && !full then
        Shows(t', Place(d, k), i) && i in t'.links && t'.links[i] == 1 && t'.dirs == t.dirs &&
        OtherNames(t, t', {Place(d, k)}) && OtherLinks(t, t', {i})
      else t' == t
  {
  }

  /** link: refused for directories; otherwise a second entry for the same inode, with one link more. */
  lemma Links(t: Tree, file: nat, d: nat, k: Key, full: bool, busy: set<nat>)
    requires Inv(t) && Sensible(t, Link(file, d, k)) && t.links[file] < MAX_LINKS
    ensures var t' := After(t, Link(file, d, k), full, busy);
      if file !in t.dirs && Place(d, k) !in t.names && !full then
        Shows(t', Place(d, k), file) && file in t'.links && t'.links[file] == t.links[file] + 1 &&
        t'.dirs == t.dirs && OtherNames(t, t', {Place(d, k)}) && OtherLinks(t, t', {file})
      else t' == t
  {
  }

  /** unlink succeeds exactly for the name of a file: that entry goes, and one link of its inode. */
  lemma Unlinks(t: Tree, d: nat, k: Key, full: bool, busy: set<nat>)
    requires Inv(t) && Sensible(t, Unlink(d, k))
    ensures Answer(t, Unlink(d, k), full, busy) == OK <==> Place(d, k) in t.names && t.names[Place(d, k)] !in t.dirs
    ensures var t' := After(t, Unlink(d, k), full, busy);
      if Place(d, k) in t.names && t.names[Place(d, k)] !in t.dirs then
        var i := t.names[Place(d, k)];
        Place(d, k) !in t'.names && i in t'.links && t'.links[i] + 1 == t.links[i] && t'.dirs == t.dirs &&
        OtherNames(t, t', {Place(d, k)}) && OtherLinks(t, t', {i})
      else t' == t
  {
    if Place(d, k) in t.names {
      assert Place(d, k) in Uses(t.names, t.names[Place(d, k)]);
    }
  }

  /** mkdir: a directory with its two entries, whose parent has one link more. */
  lemma MakesDirectory(t: Tree, d: nat, k: Key, i: nat, full: bool, busy: set<nat>)
    requires Inv(t) && Sensible(t, Mkdir(d, k, i)) && t.links[d] < MAX_LINKS
    ensures var t' := After(t, Mkdir(d, k, i), full, busy);
      if Place(d, k) !in t.names && !full then
        Shows(t', Place(d, k), i) && Shows(t', Place(i, DOT), i) && Shows(t', Place(i, DOTDOT), d) &&
        t'.dirs == t.dirs + {i} && EmptyDirectory(t', i) &&
        i in t'.links && t'.links[i] == 2 && d in t'.links && t'.links[d] == t.links[d] + 1 &&
        OtherNames(t, t', {Place(d, k), Place(i, DOT), Place(i, DOTDOT)}) && OtherLinks(t, t', {i, d})
      else t' == t
  {
    assert forall p :: p in t.names ==> p.dir != i;
  }

  /** rmdir succeeds exactly for the name of an empty directory that nobody holds and that is not the one the name is
      in. */
  lemma RemovesDirectory(t: Tree, d: nat, k: Key, full: bool, busy: set<nat>)
    requires Inv(t) && Sensible(t, Rmdir(d, k))
    ensures Answer(t, Rmdir(d, k), full, busy) == OK <==> Removable(t, d, k) && t.names[Place(d, k)] !in busy
    ensures !(Removable(t, d, k) && t.names[Place(d, k)] !in busy) ==> After(t, Rmdir(d, k), full, busy) == t
    ensures Removable(t, d, k) && t.names[Place(d, k)] !in busy ==>
      Proper(k) && Gone(t, After(t, Rmdir(d, k), full, busy), d, k, t.names[Place(d, k)])
  {
    if Removable(t, d, k) && t.names[Place(d, k)] !in busy {
      RemovedIsGone(t, d, k);
    }
  }

  /** What rmdir leaves: the entries of directory `i` are gone, its inode is out of use, and its parent has one link
      less. */
  ghost predicate Gone(t: Tree, t': Tree, d: nat, k: Key, i: nat) {
    i !in t'.links && t'.dirs == t.dirs - {i} && Place(d, k) !in t'.names &&
      (forall p :: p in t'.names ==> p.dir != i) &&
    OtherNames(t, t', {Place(d, k), Place(i, DOT), Place(i, DOTDOT)}) &&
    d in t'.links && d in t.links && t'.links[d] + 1 == t.links[d] && OtherLinks(t, t', {i, d})
  }

  lemma RemovedIsGone(t: Tree, d: nat, k: Key)
    requires Inv(t) && Removable(t, d, k)
    ensures Proper(k) && Gone(t, Done(t, Rmdir(d, k)), d, k, t.names[Place(d, k)])
  {
    RmdirTarget(t, d, k);
    var i := t.names[Place(d, k)];
    assert Place(i, DOTDOT) in Uses(t.names, d);
    assert d in t.links && t.links[d] > 0;
    DotsOnlyGone(t, d, k, i);
  }

  lemma DotsOnlyGone(t: Tree, d: nat, k: Key, i: nat)
    requires Place(d, k) in t.names && t.names[Place(d, k)] == i && i != d && EmptyDirectory(t, i)
    requires d in t.links && t.links[d] > 0
    ensures Gone(t, Done(t, Rmdir(d, k)), d, k, i)
  {
    var t' := Done(t, Rmdir(d, k));
    assert t'.names == t.names - {Place(d, k), Place(i, DOT), Place(i, DOTDOT)};
    assert forall p :: p in t'.names ==> p.dir != i;
  }

  /** The error of each refused call. */
  lemma Refusals(t: Tree, c: Call, full: bool, busy: set<nat>)
    requires Inv(t) && Sensible(t, c)
    ensures (c.Create? || c.Mkdir?) && Place(c.d, c.k) in t.names ==> Answer(t, c, full, busy) == EEXIST
    ensures (c.Create? || c.Mkdir?) && Place(c.d, c.k) !in t.names && full ==> Answer(t, c, full, busy) == ENOSPC
    ensures c.Link? && c.file in t.dirs ==> Answer(t, c, full, busy) == EPERM
    ensures c.Link? && c.file !in t.dirs && Place(c.d, c.k) in t.names ==> Answer(t, c, full, busy) == EEXIST
    ensures (c.Unlink? || c.Rmdir?) && Place(c.d, c.k) !in t.names ==> Answer(t, c, full, busy) == ENOENT
    ensures c.Unlink? && Place(c.d, c.k) in t.names && t.names[Place(c.d, c.k)] in t.dirs ==>
      Answer(t, c, full, busy) == EPERM
    ensures c.Rmdir? && c.k == DOT ==> Answer(t, c, full, busy) == EPERM
    ensures c.Rmdir? && c.k == DOTDOT && c.d != ROOT && Place(c.d, c.k) in t.names ==>
      t.names[Place(c.d, DOTDOT)] !in busy ==>
      Answer(t, c, full, busy) == ENOTEMPTY
    ensures c.Rmdir? && Place(c.d, c.k) in t.names && t.names[Place(c.d, c.k)] !in t.dirs + busy ==>
      Answer(t, c, full, busy) == ENOTDIR
  {
    if c.Rmdir? {
      assert DirOk(t, c.d);
      if c.k == DOTDOT && c.d != ROOT {
        var p := NamedInParent(t, c.d);
        var n: nat :| Climbs(t, c.d, n);
        NotOwnParent(t, c.d, n);
      }
    }
  }

  /** No directory but the root is its own parent. */
  lemma {:induction false} NotOwnParent(t: Tree, d: nat, n: nat)
    requires Inv(t) && Climbs(t, d, n) && d != ROOT
    ensures t.names[Place(d, DOTDOT)] != d
    decreases n
  {
    if n > 0 && t.names[Place(d, DOTDOT)] == d {
      NotOwnParent(t, d, n - 1);
    }
  }

  // ----- One call undoes another

  ghost predicate SameName(t: Tree, t': Tree, p: Place) {
    (p in t'.names <==> p in t.names) && (p in t.names ==> t'.names[p] == t.names[p])
  }

  ghost predicate SameCount(t: Tree, t': Tree, i: nat) {
    (i in t'.links <==> i in t.links) && (i in t.links ==> t'.links[i] == t.links[i])
  }

  /** Two calls that touch the same places and inodes, and leave those as they were, leave everything as it was. */
  lemma Undone(t: Tree, mid: Tree, t': Tree, places: set<Place>, inodes: set<nat>)
    requires OtherNames(t, mid, places) && OtherNames(mid, t', places) && OtherLinks(t, mid, inodes)
    requires OtherLinks(mid, t', inodes) && t'.dirs == t.dirs
    requires forall p :: p in places ==> SameName(t, t', p)
    requires forall i :: i in inodes ==> SameCount(t, t', i)
    ensures t' == t
  {
    forall p ensures SameName(t, t', p) {}
    forall i ensures SameCount(t, t', i) {}
    assert t'.names.Keys == t.names.Keys && t'.links.Keys == t.links.Keys;
    assert t'.names == t.names && t'.links == t.links;
  }

  /** unlink takes back link. */
  lemma UnlinkUndoesLink(t: Tree, file: nat, d: nat, k: Key, busy: set<nat>)
    requires Inv(t) && Sensible(t, Link(file, d, k)) && t.links[file] < MAX_LINKS
    requires file !in t.dirs && Place(d, k) !in t.names
    ensures Typed(After(t, Link(file, d, k), false, busy))
    ensures After(After(t, Link(file, d, k), false, busy), Unlink(d, k), false, busy) == t
  {
    CallKeepsInv(t, Link(file, d, k), false, busy);
    var t' := After(t, Link(file, d, k), false, busy);
    Links(t, file, d, k, false, busy);
    Unlinks(t', d, k, false, busy);
    var t'' := After(t', Unlink(d, k), false, busy);
    assert t'.names[Place(d, k)] == file;
    hide Inv, After, Answer, Typed, OtherNames, OtherLinks, Sensible, KeyOk;
    Undone(t, t', t'', {Place(d, k)}, {file});
  }

  /** unlink, and the last iput, take back creat. */
  lemma UnlinkUndoesCreate(t: Tree, d: nat, k: Key, i: nat, busy: set<nat>)
    requires Inv(t) && Sensible(t, Create(d, k, i)) && Place(d, k) !in t.names
    ensures Typed(After(t, Create(d, k, i), false, busy))
    ensures var t' := After(After(t, Create(d, k, i), false, busy), Unlink(d, k), false, busy);
      Typed(t') && Sensible(t', Reclaim(i)) && After(t', Reclaim(i), false, busy) == t
  {
    var t' := After(t, Create(d, k, i), false, busy);
    CallKeepsInv(t, Create(d, k, i), false, busy);
    Creates(t, d, k, i, false, busy);
    CallKeepsInv(t', Unlink(d, k), false, busy);
    Unlinks(t', d, k, false, busy);
    var t'' := After(t', Unlink(d, k), false, busy);
    CreatedAndUnlinked(t, t', t'', d, k, i);
    assert After(t'', Reclaim(i), false, busy) == t''.(links := t''.links - {i});
  }

  lemma CreatedAndUnlinked(t: Tree, mid: Tree, t': Tree, d: nat, k: Key, i: nat)
    requires i !in t.links && i !in t.dirs && Place(d, k) !in t.names && mid.dirs == t.dirs && t'.dirs == t.dirs
    requires Shows(mid, Place(d, k), i) && i in mid.links && mid.links[i] == 1
    requires OtherNames(t, mid, {Place(d, k)}) && OtherLinks(t, mid, {i})
    requires Place(d, k) !in t'.names && i in t'.links && t'.links[i] + 1 == mid.links[i]
    requires OtherNames(mid, t', {Place(d, k)}) && OtherLinks(mid, t', {i})
    ensures Sensible(t', Reclaim(i)) && t'.(links := t'.links - {i}) == t
  {
    Undone(t, mid, t'.(links := t'.links - {i}), {Place(d, k)}, {i});
  }

  /** rmdir takes back mkdir. */
  lemma RmdirUndoesMkdir(t: Tree, d: nat, k: Key, i: nat)
    requires Inv(t) && Sensible(t, Mkdir(d, k, i)) && t.links[d] < MAX_LINKS && Place(d, k) !in t.names
    ensures Typed(After(t, Mkdir(d, k, i), false, {}))
    ensures After(After(t, Mkdir(d, k, i), false, {}), Rmdir(d, k), false, {}) == t
  {
    CallKeepsInv(t, Mkdir(d, k, i), false, {});
    MakesDirectory(t, d, k, i, false, {});
    var t' := After(t, Mkdir(d, k, i), false, {});
    RemovesDirectory(t', d, k, false, {});
    var t'' := After(t', Rmdir(d, k), false, {});
    MadeAndRemoved(t, t', t'', d, k, i);
  }

  lemma MadeAndRemoved(t: Tree, mid: Tree, t': Tree, d: nat, k: Key, i: nat)
    requires i !in t.links && i !in t.dirs && Place(d, k) !in t.names && (forall p :: p in t.names ==> p.dir != i)
    requires d in t.links && d in mid.links && mid.links[d] == t.links[d] + 1 && mid.dirs == t.dirs + {i}
    requires OtherNames(t, mid, {Place(d, k), Place(i, DOT), Place(i, DOTDOT)}) && OtherLinks(t, mid, {i, d})
    requires Gone(mid, t', d, k, i)
    ensures t' == t
  {
    assert forall p :: p in t'.names ==> p.dir != i;
    Undone(t, mid, t', {Place(d, k), Place(i, DOT), Place(i, DOTDOT)}, {i, d});
  }

  /** A file moved by link and unlink: the new name shows it, the old one nothing, and its links are as many. */
  lemma LinkThenUnlinkMoves(t: Tree, i: nat, d: nat, k: Key, d': nat, k': Key)
    requires Inv(t) && Shows(t, Place(d, k), i) && i !in t.dirs && d' in t.dirs && KeyOk(k')
    requires Place(d', k') !in t.names && t.links[i] < MAX_LINKS
    ensures Typed(After(t, Link(i, d', k'), false, {}))
    ensures Moved(t, After(After(t, Link(i, d', k'), false, {}), Unlink(d, k), false, {}), i, Place(d, k),
      Place(d', k'))
  {
    CallKeepsInv(t, Link(i, d', k'), false, {});
    Links(t, i, d', k', false, {});
    var t' := After(t, Link(i, d', k'), false, {});
    Unlinks(t', d, k, false, {});
    LinkedAndUnlinked(t, t', After(t', Unlink(d, k), false, {}), i, Place(d, k), Place(d', k'));
  }

  /** Inode `i` has lost the one entry and got the other; everything else is as it was. */
  ghost predicate Moved(t: Tree, t': Tree, i: nat, old_place: Place, new_place: Place) {
    Shows(t', new_place, i) && old_place !in t'.names && t'.links == t.links && t'.dirs == t.dirs &&
    OtherNames(t, t', {old_place, new_place})
  }

  lemma LinkedAndUnlinked(t: Tree, mid: Tree, t': Tree, i: nat, p: Place, q: Place)
    requires Shows(t, p, i) && q !in t.names && i in t.links && mid.dirs == t.dirs && t'.dirs == t.dirs
    requires Shows(mid, q, i) && i in mid.links && mid.links[i] == t.links[i] + 1
    requires OtherNames(t, mid, {q}) && OtherLinks(t, mid, {i})
    requires p !in t'.names && i in t'.links && t'.links[i] + 1 == mid.links[i]
    requires OtherNames(mid, t', {p}) && OtherLinks(mid, t', {i})
    ensures Moved(t, t', i, p, q)
  {
    assert t'.links.Keys == t.links.Keys;
  }

  // ----- Where paths lead

  /** A path of one component names the entry of the first 14 characters in the working directory, if that may be
      searched; '..' in the task's root is the root. */
  lemma OneComponent(t: Tree, v: View, name: string)
    requires name != "" && SLASH !in name
    ensures var key := if name == ".." && v.pwd == v.root then "." else if |name| > 14 then name[..14] else name;
      Lookup(t, v, name) ==
        if v.pwd in t.dirs && v.pwd in v.search && Place(v.pwd, key) in t.names
        then Inode(t.names[Place(v.pwd, key)]) else None
  {
    NextName(name, 0, |name|);
    assert name[0] in name && name[0..|name|] == name;
  }

  /** The working directory does not matter to a path that starts with a slash, ... */
  lemma AbsoluteFromRoot(t: Tree, v: View, path: string, pwd: nat)
    requires path != "" && path[0] == SLASH
    ensures Lookup(t, v, path) == Lookup(t, v.(pwd := pwd), path)
  {
    SamePlaces(t, v, v.(pwd := pwd), v.root, Components(path));
  }

  /** ... and one that does leads where the rest leads from the root. */
  lemma AbsoluteIsRelativeToRoot(t: Tree, v: View, path: string)
    requires path != "" && path[0] != SLASH
    ensures Lookup(t, v, [SLASH] + path) == Lookup(t, v.(pwd := v.root), path)
  {
    var whole := [SLASH] + path;
    assert whole[1..] == path;
    Behind(whole, 1, path, 0);
    SamePlaces(t, v, v.(pwd := v.root), v.root, Components(path));
  }

  /** A lone slash is the root. */
  lemma RootPath(t: Tree, v: View)
    ensures Lookup(t, v, "/") == if v.root in t.dirs && v.root in v.search then Inode(v.root) else None
  {
    assert Split("/", 1) == Last("");
  }

  lemma {:induction false} SamePlaces(t: Tree, v: View, w: View, d: nat, names: Route)
    requires v.root == w.root && v.search == w.search
    ensures Walk(t, v, d, names) == Walk(t, w, d, names)
    ensures forall e, name :: Enter(t, v, e, name) == Enter(t, w, e, name)
    decreases names
  {
    if names.More? && MaySearch(t, v, d) && Enter(t, v, d, names.name) != None {
      SamePlaces(t, v, w, Enter(t, v, d, names.name).i, names.rest);
    }
  }

  /** The components depend on what is behind the index only. */
  lemma {:induction false} Behind(a: string, i: nat, b: string, j: nat)
    requires i <= |a| && j <= |b| && a[i..] == b[j..]
    ensures Split(a, i) == Split(b, j)
    decreases |a| - i
  {
    assert |a[i..]| == |b[j..]|;
    if i < |a| {
      assert a[i] == a[i..][0] && b[j] == b[j..][0];
      assert a[i + 1..] == a[i..][1..] && b[j + 1..] == b[j..][1..];
      Behind(a, i + 1, b, j + 1);
    }
  }

  /** The components of the one, then those of the other. */
  ghost function Chain(a: Route, b: Route): Route {
    match a
    case Last(_) => b
    case More(name, rest) => More(name, Chain(rest, b))
  }

  lemma {:induction false} SplitChain(p: string, q: string, at: nat)
    requires at < |p| && p[|p| - 1] == SLASH
    ensures Split(p + q, at) == Chain(Split(p, at), Split(q, 0))
    decreases |p| - at
  {
    assert (p + q)[at] == p[at];
    if at + 1 == |p| {
      assert (p + q)[at + 1..] == q[0..];
      Behind(p + q, at + 1, q, 0);
      assert Split(p, at + 1) == Last("");
    } else {
      SplitChain(p, q, at + 1);
      ChainPrepend(p[at], Split(p, at + 1), Split(q, 0), p, at + 1);
    }
  }

  lemma ChainPrepend(c: char, a: Route, b: Route, p: string, at: nat)
    requires at < |p| && p[|p| - 1] == SLASH && a == Split(p, at)
    ensures Chain(Prepend(c, a), b) == Prepend(c, Chain(a, b))
  {
    MoreBefore(p, at);
  }

  lemma {:induction false} MoreBefore(p: string, at: nat)
    requires at < |p| && p[|p| - 1] == SLASH
    ensures Split(p, at).More? && Final(Split(p, at)) == ""
    decreases |p| - at
  {
    if at + 1 < |p| {
      MoreBefore(p, at + 1);
    } else {
      assert Split(p, at + 1) == Last("");
    }
  }

  lemma {:induction false} WalkChain(t: Tree, v: View, d: nat, a: Route, b: Route)
    ensures Final(Chain(a, b)) == Final(b)
    ensures Walk(t, v, d, Chain(a, b)) ==
      match Walk(t, v, d, a) case None => None case Inode(e) => Walk(t, v, e, b)
    decreases a
  {
    match a
    case Last(_) =>
    case More(name, rest) =>
      WalkChain(t, v, d, rest, b);
      if Enter(t, v, d, name) != None {
        WalkChain(t, v, Enter(t, v, d, name).i, rest, b);
      }
  }

  /** Main result: a path through a directory leads where the rest leads from that directory, and nowhere if the
      directory is not found. */
  lemma Composed(t: Tree, v: View, p: string, q: string)
    requires p != "" && p[|p| - 1] == SLASH && q != "" && q[0] != SLASH
    ensures Lookup(t, v, p + q) ==
      match Lookup(t, v, p) case None => None case Inode(d) => Lookup(t, v.(pwd := d), q)
  {
    var at, start := if p[0] == SLASH then 1 else 0, Start(v, p);
    assert (p + q)[0] == p[0];
    if at == |p| {
      assert (p + q)[1..] == q[0..];
      Behind(p + q, 1, q, 0);
      assert Split(p, 1) == Last("");
    } else {
      SplitChain(p, q, at);
      MoreBefore(p, at);
    }
    WalkChain(t, v, start, Components(p), Split(q, 0));
    var r := Walk(t, v, start, Components(p));
    if r != None {
      SamePlaces(t, v, v.(pwd := r.i), r.i, Split(q, 0));
    }
  }

  /** A directory that may not be searched leads nowhere, and nor does a file. */
  lemma NotSearched(t: Tree, v: View, path: string)
    requires path != "" && path[0] != SLASH && (v.pwd !in v.search || v.pwd !in t.dirs)
    ensures Lookup(t, v, path) == None
  {
  }

  /** A slash behind a path asks for a directory that may be searched. */
  lemma TrailingSlash(t: Tree, v: View, name: string)
    requires name != "" && SLASH !in name
    ensures Lookup(t, v, name + [SLASH]) ==
      match Lookup(t, v, name)
      case None => None
      case Inode(i) => if i in t.dirs && i in v.search then Inode(i) else None
  {
    var path := name + [SLASH];
    NextName(name, 0, |name|);
    NextName(path, 0, |name|);
    assert name[0] in name && name[0..|name|] == name && path[0..|name|] == name && path[|name|] == SLASH;
    assert Split(path, |path|) == Last("");
    assert Components(path) == More(name, Last("")) && Components(name) == Last(name);
    assert Final(Components(path)) == Final(Last("")) == "";
    var e := Enter(t, v, v.pwd, name);
    assert e != None ==> Walk(t, v, e.i, Last("")) == if MaySearch(t, v, e.i) then Inode(e.i) else None;
  }

  /** In a valid tree, down into a directory and up again is where one was. */
  lemma DownAndUp(t: Tree, v: View, name: Key)
    requires Inv(t) && v.pwd in t.dirs && t.dirs <= v.search && KeyOk(name) && Proper(name)
    requires Place(v.pwd, name) in t.names && t.names[Place(v.pwd, name)] in t.dirs
    requires t.names[Place(v.pwd, name)] != v.root
    ensures Lookup(t, v, name + "/..") == Inode(v.pwd)
  {
    var i := t.names[Place(v.pwd, name)];
    assert DirOk(t, i) && Names(t, Place(v.pwd, name), i);
    OneComponent(t, v, name);
    TrailingSlash(t, v, name);
    OneComponent(t, v.(pwd := i), "..");
    Composed(t, v, name + [SLASH], "..");
    assert name + [SLASH] + ".." == name + "/..";
  }
}
