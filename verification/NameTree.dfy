/** The tree of names, and the link counts, over any run of creat, mknod, link, unlink, mkdir and rmdir. */
module NameTree {
  import opened Directory

  const ROOT := 1
  const MAX_LINKS := 255   // i_nlinks is an unsigned char

  datatype Place = Place(dir: nat, key: Key)

  datatype Tree = Tree(
    names: map<Place, nat>,    // every directory's entries
    dirs: set<nat>,            // the directories
    links: map<nat, nat>)      // i_nlinks of every inode in use

  datatype Errno = OK | ENOENT | EEXIST | EPERM | ENOTDIR | ENOTEMPTY | ENOSPC

  const SLASH := '/'

  /** A name as it comes out of a path: cut to 14 characters, none of them a slash or a null. */
  predicate KeyOk(k: Key) { 0 < |k| <= NAME_LEN && '\0' !in k && SLASH !in k }

  predicate Proper(k: Key) { k != DOT && k != DOTDOT }

  ghost function Uses(names: map<Place, nat>, i: nat): set<Place> {
    set p | p in names && names[p] == i
  }

  // ----- The invariant

  /** The link count of an inode is the number of entries that name it. */
  ghost predicate LinksOk(t: Tree) {
    forall i :: i in t.links ==> t.links[i] == |Uses(t.names, i)| <= MAX_LINKS
  }

  /** Entries are in directories, and name inodes in use. */
  ghost predicate Typed(t: Tree) {
    ROOT in t.dirs && t.dirs <= t.links.Keys &&
    forall p :: p in t.names ==> p.dir in t.dirs && t.names[p] in t.links && KeyOk(p.key)
  }

  ghost predicate DotsOk(t: Tree, d: nat) {
    Place(d, DOT) in t.names && t.names[Place(d, DOT)] == d &&
    Place(d, DOTDOT) in t.names && t.names[Place(d, DOTDOT)] in t.dirs
  }

  /** An entry other than '.' and '..' that names directory `d`. */
  ghost predicate Names(t: Tree, p: Place, d: nat) {
    p in t.names && Proper(p.key) && t.names[p] == d
  }

  /** Every directory but the root has one name, in the directory that its '..' names; the root has none. */
  ghost predicate OneName(t: Tree, d: nat) {
    Place(d, DOTDOT) in t.names &&
    (forall p :: Names(t, p, d) ==> d != ROOT && p.dir == t.names[Place(d, DOTDOT)]) &&
    (forall p, q :: Names(t, p, d) && Names(t, q, d) ==> p == q) &&
    (d != ROOT ==> exists p :: Names(t, p, d)) &&
    (d == ROOT ==> t.names[Place(d, DOTDOT)] == ROOT)
  }

  /** `n` steps of '..' lead from `d` to the root. */
  ghost predicate Climbs(t: Tree, d: nat, n: nat)
    decreases n
  {
    d in t.dirs &&
    if n == 0 then d == ROOT else Place(d, DOTDOT) in t.names && Climbs(t, t.names[Place(d, DOTDOT)], n - 1)
  }

  ghost predicate Rooted(t: Tree, d: nat) {
    exists n: nat :: Climbs(t, d, n)
  }

  ghost predicate DirOk(t: Tree, d: nat) {
    DotsOk(t, d) && OneName(t, d) && Rooted(t, d)
  }

  ghost predicate DirsOk(t: Tree) {
    forall d {:trigger DirOk(t, d)} :: d in t.dirs ==> DirOk(t, d)
  }

  ghost predicate Inv(t: Tree) {
    LinksOk(t) && Typed(t) && DirsOk(t)
  }

  // ----- The calls, from where they have found the directory

  datatype Call =
    | Create(d: nat, k: Key, i: nat)      // open with O_CREAT, mknod: new_inode gave inode i
    | Link(file: nat, d: nat, k: Key)      // a further name for inode `file`
    | Unlink(d: nat, k: Key)
    | Mkdir(d: nat, k: Key, i: nat)
    | Rmdir(d: nat, k: Key)
    | Reclaim(i: nat)                     // the last iput of an inode without links

  /** The calls come with a directory and a name; new_inode gives a number not in use; the file a name is added to was
      found through another. */
  ghost predicate Sensible(t: Tree, c: Call) {
    match c
    case Create(d, k, i) => d in t.dirs && KeyOk(k) && i !in t.links && i != 0
    case Link(file, d, k) => d in t.dirs && KeyOk(k) && file in t.links
    case Unlink(d, k) => d in t.dirs
    case Mkdir(d, k, i) => d in t.dirs && KeyOk(k) && i !in t.links && i != 0
    case Rmdir(d, k) => d in t.dirs
    case Reclaim(i) => i in t.links && t.links[i] == 0 && i !in t.dirs
  }

  ghost predicate EmptyDirectory(t: Tree, d: nat) {
    forall p :: p in t.names && p.dir == d ==> !Proper(p.key)
  }

  /** How a call ends. `full` is whether an inode, a block or an entry it needs cannot be had; `busy` are the inodes
      that others hold. */
  ghost function Answer(t: Tree, c: Call, full: bool, busy: set<nat>): Errno
    requires Typed(t)
  {
    match c
    case Create(d, k, i) => if Place(d, k) in t.names then EEXIST else if full then ENOSPC else OK
    case Link(file, d, k) =>
      if file in t.dirs then EPERM else if Place(d, k) in t.names then EEXIST else if full then ENOSPC else OK
    case Unlink(d, k) =>
      if Place(d, k) !in t.names then ENOENT else if t.names[Place(d, k)] in t.dirs then EPERM else OK
    case Mkdir(d, k, i) => if Place(d, k) in t.names then EEXIST else if full then ENOSPC else OK
    case Rmdir(d, k) =>
      if Place(d, k) !in t.names then ENOENT
      else
        var i := t.names[Place(d, k)];
        if i in busy || i == d then EPERM else if i !in t.dirs then ENOTDIR
        else if !EmptyDirectory(t, i) then ENOTEMPTY else OK
    case Reclaim(i) => OK
  }

  /** i_nlinks++ and i_nlinks--, in an unsigned char. */
  function Inc(links: map<nat, nat>, i: nat): map<nat, nat> {
    if i !in links then links else links[i := if links[i] >= MAX_LINKS then 0 else links[i] + 1]
  }

  function Dec(links: map<nat, nat>, i: nat): map<nat, nat> {
    if i !in links then links else links[i := if links[i] == 0 then MAX_LINKS else links[i] - 1]
  }

  /** A call that ends well. An unlinked inode whose count was 0 is given a link first, with a warning. */
  function Done(t: Tree, c: Call): Tree {
    match c
    case Create(d, k, i) => t.(names := t.names[Place(d, k) := i], links := t.links[i := 1])
    case Link(file, d, k) => t.(names := t.names[Place(d, k) := file], links := Inc(t.links, file))
    case Unlink(d, k) =>
      if Place(d, k) !in t.names then t
      else
        var i := t.names[Place(d, k)];
        t.(names := t.names - {Place(d, k)},
           links := if i in t.links && t.links[i] == 0 then t.links else Dec(t.links, i))
    case Mkdir(d, k, i) =>
      Tree(t.names[Place(d, k) := i][Place(i, DOT) := i][Place(i, DOTDOT) := d], t.dirs + {i}, Inc(t.links[i := 2], d))
    case Rmdir(d, k) =>
      if Place(d, k) !in t.names then t
      else
        var i := t.names[Place(d, k)];
        Tree(t.names - {Place(d, k), Place(i, DOT), Place(i, DOTDOT)}, t.dirs - {i}, Dec(t.links - {i}, d))
    case Reclaim(i) => t.(links := t.links - {i})
  }

  ghost function After(t: Tree, c: Call, full: bool, busy: set<nat>): Tree
    requires Typed(t)
  {
    if Answer(t, c, full, busy).OK? then Done(t, c) else t
  }

  /** The count that the call is about to raise has room. */
  predicate RoomToCount(t: Tree, c: Call) {
    match c
    case Link(file, d, k) => file in t.links ==> t.links[file] < MAX_LINKS
    case Mkdir(d, k, i) => d in t.links ==> t.links[d] < MAX_LINKS
    case _ => true
  }

  // ----- Counting

  lemma UsesAdd(names: map<Place, nat>, p: Place, i: nat, j: nat)
    requires p !in names
    ensures Uses(names[p := i], j) == if i == j then Uses(names, j) + {p} else Uses(names, j)
    ensures |Uses(names[p := i], j)| == |Uses(names, j)| + if i == j then 1 else 0
  {
    assert p !in Uses(names, j);
    if i == j {
      assert Uses(names[p := i], j) == Uses(names, j) + {p};
    } else {
      assert Uses(names[p := i], j) == Uses(names, j);
    }
  }

  lemma UsesDrop(names: map<Place, nat>, p: Place, j: nat)
    requires p in names
    ensures Uses(names - {p}, j) == Uses(names, j) - {p}
    ensures |Uses(names - {p}, j)| == |Uses(names, j)| - if names[p] == j then 1 else 0
  {
    assert Uses(names - {p}, j) == Uses(names, j) - {p};
    if names[p] == j {
      assert p in Uses(names, j);
    } else {
      assert p !in Uses(names, j);
    }
  }

  lemma Unnamed(t: Tree, i: nat)
    requires Typed(t) && i !in t.links
    ensures Uses(t.names, i) == {}
  {
  }

  // ----- One more or one less proper name of something that is no directory

  /** The entries that name directories are the same. */
  ghost predicate SameDirEntries(t: Tree, t': Tree) {
    t'.dirs == t.dirs && (forall p :: p in t.names && t.names[p] in t.dirs ==>
      p in t'.names && t'.names[p] == t.names[p]) &&
    (forall p :: p in t'.names && t'.names[p] in t.dirs ==> p in t.names && t'.names[p] == t.names[p])
  }

  lemma DirFrame(t: Tree, t': Tree, d: nat)
    requires SameDirEntries(t, t') && d in t.dirs && DirsOk(t)
    ensures DirOk(t', d)
  {
    assert DirOk(t, d);
    forall p ensures Names(t', p, d) <==> Names(t, p, d) {}
    if d != ROOT {
      var p :| Names(t, p, d);
      assert Names(t', p, d);
    }
    RootedFrame(t, t', d);
  }

  /** The same '..' everywhere: the same way up. */
  lemma RootedFrame(t: Tree, t': Tree, d: nat)
    requires SameDirEntries(t, t') && DirsOk(t) && Rooted(t, d)
    ensures Rooted(t', d)
  {
    var n: nat :| Climbs(t, d, n);
    forall e | e in t.dirs && Place(e, DOTDOT) in t.names
      ensures Place(e, DOTDOT) in t'.names && t'.names[Place(e, DOTDOT)] == t.names[Place(e, DOTDOT)]
    {
      assert DirOk(t, e);
    }
    ClimbsFrame(t, t', d, n);
  }

  lemma DirsFrame(t: Tree, t': Tree)
    requires SameDirEntries(t, t') && DirsOk(t)
    ensures DirsOk(t')
  {
    forall d | d in t'.dirs ensures DirOk(t', d) {
      DirFrame(t, t', d);
    }
  }

  lemma {:induction false} ClimbsFrame(t: Tree, t': Tree, d: nat, n: nat)
    requires Climbs(t, d, n) && t.dirs <= t'.dirs
    requires forall e {:trigger t.names[Place(e, DOTDOT)]} :: e in t.dirs && Place(e, DOTDOT) in t.names ==>
      Place(e, DOTDOT) in t'.names && t'.names[Place(e, DOTDOT)] == t.names[Place(e, DOTDOT)]
    ensures Climbs(t', d, n)
    decreases n
  {
    if n > 0 {
      ClimbsFrame(t, t', t.names[Place(d, DOTDOT)], n - 1);
    }
  }

  /** A file gets a name: a new one, or one more. */
  lemma NamedKeepsInv(t: Tree, p: Place, i: nat, links: map<nat, nat>)
    requires Inv(t) && p.dir in t.dirs && KeyOk(p.key) && p !in t.names && i !in t.dirs
    requires i in t.links ==> t.links[i] < MAX_LINKS
    requires links == t.links[i := if i in t.links then t.links[i] + 1 else 1]
    ensures Inv(Tree(t.names[p := i], t.dirs, links))
  {
    var t' := Tree(t.names[p := i], t.dirs, links);
    LinksAdd(t, p, i, t');
    DirsFrame(t, t');
  }

  lemma LinksAdd(t: Tree, p: Place, i: nat, t': Tree)
    requires LinksOk(t) && Typed(t) && p !in t.names && (i in t.links ==> t.links[i] < MAX_LINKS)
    requires t'.names == t.names[p := i] && t'.links == t.links[i := if i in t.links then t.links[i] + 1 else 1]
    ensures LinksOk(t')
  {
    if i !in t.links { Unnamed(t, i); }
    forall j | j in t'.links ensures t'.links[j] == |Uses(t'.names, j)| <= MAX_LINKS {
      UsesAdd(t.names, p, i, j);
    }
  }

  lemma UnlinkKeepsInv(t: Tree, p: Place)
    requires Inv(t) && p in t.names && t.names[p] !in t.dirs
    ensures t.links[t.names[p]] > 0
    ensures Inv(Tree(t.names - {p}, t.dirs, t.links[t.names[p] := t.links[t.names[p]] - 1]))
  {
    LinksDrop(t, p);
    DirsFrame(t, Tree(t.names - {p}, t.dirs, t.links[t.names[p] := t.links[t.names[p]] - 1]));
  }

  lemma LinksDrop(t: Tree, p: Place)
    requires LinksOk(t) && Typed(t) && p in t.names
    ensures t.links[t.names[p]] > 0
    ensures LinksOk(Tree(t.names - {p}, t.dirs, t.links[t.names[p] := t.links[t.names[p]] - 1]))
  {
    var i := t.names[p];
    assert p in Uses(t.names, i);
    var t' := Tree(t.names - {p}, t.dirs, t.links[i := t.links[i] - 1]);
    forall j | j in t'.links ensures t'.links[j] == |Uses(t'.names, j)| <= MAX_LINKS {
      UsesDrop(t.names, p, j);
    }
  }

  /** An inode without links is named by no entry. */
  lemma NoLinksNoName(t: Tree, i: nat, p: Place)
    requires LinksOk(t) && i in t.links && t.links[i] == 0 && p in t.names
    ensures t.names[p] != i
  {
    assert t.names[p] == i ==> p in Uses(t.names, i);
  }

  lemma ReclaimKeepsInv(t: Tree, i: nat)
    requires Inv(t) && i in t.links && t.links[i] == 0
    ensures i !in t.dirs && Inv(t.(links := t.links - {i}))
  {
    forall p | p in t.names ensures t.names[p] != i {
      NoLinksNoName(t, i, p);
    }
    assert i in t.dirs ==> DirOk(t, i);
    DirsFrame(t, t.(links := t.links - {i}));
  }

  // ----- Directories come and go

  /** What makes a directory's one name look at: its names, and its '..'. */
  lemma OneNameFrame(t: Tree, t': Tree, d: nat)
    requires OneName(t, d) && Place(d, DOTDOT) in t'.names && t'.names[Place(d, DOTDOT)] == t.names[Place(d, DOTDOT)]
    requires forall p :: Names(t', p, d) <==> Names(t, p, d)
    ensures OneName(t', d)
  {
    if d != ROOT {
      var p :| Names(t, p, d);
      assert Names(t', p, d);
    }
  }

  lemma AddThree(names: map<Place, nat>, p: Place, i: nat, q: Place, r: Place, d: nat, j: nat)
    requires p !in names && q !in names && r !in names && p != q && q != r && p != r
    ensures |Uses(names[p := i][q := i][r := d], j)| ==
      |Uses(names, j)| + (if i == j then 2 else 0) + (if d == j then 1 else 0)
  {
    var a, b := names[p := i], names[p := i][q := i];
    assert q !in a && r !in b;
    UsesAdd(names, p, i, j);
    UsesAdd(a, q, i, j);
    UsesAdd(b, r, d, j);
  }

  lemma MkdirLinks(t: Tree, d: nat, k: Key, i: nat)
    requires LinksOk(t) && Typed(t) && d in t.dirs && i !in t.links && Place(d, k) !in t.names && t.links[d] < MAX_LINKS
    ensures LinksOk(Done(t, Mkdir(d, k, i)))
  {
    var t' := Done(t, Mkdir(d, k, i));
    Unnamed(t, i);
    forall j | j in t'.links ensures t'.links[j] == |Uses(t'.names, j)| <= MAX_LINKS {
      AddThree(t.names, Place(d, k), i, Place(i, DOT), Place(i, DOTDOT), d, j);
    }
  }

  lemma MkdirOthers(t: Tree, d: nat, k: Key, i: nat, e: nat)
    requires Inv(t) && d in t.dirs && i !in t.links && Place(d, k) !in t.names && e in t.dirs
    ensures DirOk(Done(t, Mkdir(d, k, i)), e)
  {
    var t' := Done(t, Mkdir(d, k, i));
    assert DirOk(t, e) && e != i;
    forall p ensures Names(t', p, e) <==> Names(t, p, e) {}
    OneNameFrame(t, t', e);
    var n: nat :| Climbs(t, e, n);
    ClimbsFrame(t, t', e, n);
  }

  lemma MkdirNew(t: Tree, d: nat, k: Key, i: nat)
    requires Inv(t) && d in t.dirs && i !in t.links && Place(d, k) !in t.names
    ensures DirOk(Done(t, Mkdir(d, k, i)), i)
  {
    var t' := Done(t, Mkdir(d, k, i));
    assert DirOk(t, d);
    MkdirOthers(t, d, k, i, d);
    assert Names(t', Place(d, k), i);
    var n: nat :| Climbs(t', d, n);
    assert Climbs(t', i, n + 1);
  }

  lemma MkdirTyped(t: Tree, d: nat, k: Key, i: nat)
    requires Typed(t) && d in t.dirs && KeyOk(k) && i !in t.links
    ensures Typed(Done(t, Mkdir(d, k, i)))
  {
    var t' := Done(t, Mkdir(d, k, i));
    forall p | p in t'.names ensures p.dir in t'.dirs && t'.names[p] in t'.links && KeyOk(p.key) {
      assert p == Place(d, k) || p.dir == i || p in t.names;
    }
  }

  lemma MkdirKeepsInv(t: Tree, d: nat, k: Key, i: nat)
    requires Inv(t) && d in t.dirs && KeyOk(k) && i !in t.links && Place(d, k) !in t.names && t.links[d] < MAX_LINKS
    ensures Inv(Done(t, Mkdir(d, k, i)))
  {
    MkdirLinks(t, d, k, i);
    MkdirTyped(t, d, k, i);
    MkdirDirs(t, d, k, i);
  }

  lemma MkdirDirs(t: Tree, d: nat, k: Key, i: nat)
    requires Inv(t) && d in t.dirs && i !in t.links && Place(d, k) !in t.names
    ensures DirsOk(Done(t, Mkdir(d, k, i)))
  {
    var t' := Done(t, Mkdir(d, k, i));
    forall e | e in t'.dirs ensures DirOk(t', e) {
      if e == i {
        MkdirNew(t, d, k, i);
      } else {
        MkdirOthers(t, d, k, i, e);
      }
    }
  }

  /** A directory's name stands in the directory that its '..' names. */
  lemma NamedInParent(t: Tree, d: nat) returns (p: Place)
    requires Inv(t) && d in t.dirs && d != ROOT
    ensures Names(t, p, d) && Place(d, DOTDOT) in t.names && p.dir == t.names[Place(d, DOTDOT)]
  {
    assert DirOk(t, d);
    p :| Names(t, p, d);
  }

  /** An empty directory is nobody's parent. */
  lemma EmptyHasNoChild(t: Tree, i: nat, c: nat)
    requires Inv(t) && EmptyDirectory(t, i) && i != ROOT && c in t.dirs
    ensures Place(c, DOTDOT) in t.names && t.names[Place(c, DOTDOT)] != i
  {
    assert DirOk(t, c);
    if c != ROOT {
      var p := NamedInParent(t, c);
    }
  }

  /** What rmdir has made sure of when it clears the entry. */
  ghost predicate Removable(t: Tree, d: nat, k: Key) {
    d in t.dirs && Place(d, k) in t.names &&
    t.names[Place(d, k)] in t.dirs && t.names[Place(d, k)] != d && EmptyDirectory(t, t.names[Place(d, k)])
  }

  /** What rmdir gets past its checks is neither the root nor called '.' or '..'. */
  lemma RmdirTarget(t: Tree, d: nat, k: Key)
    requires Inv(t) && Removable(t, d, k)
    ensures var i := t.names[Place(d, k)]; Names(t, Place(d, k), i) && i != ROOT
    ensures var i := t.names[Place(d, k)]; Place(i, DOT) in t.names && t.names[Place(i, DOT)] == i
    ensures var i := t.names[Place(d, k)]; Place(i, DOTDOT) in t.names && t.names[Place(i, DOTDOT)] == d
  {
    var i := t.names[Place(d, k)];
    assert DirOk(t, d) && DirOk(t, i);
    if k == DOTDOT && d != ROOT {
      var p := NamedInParent(t, d);
    }
    assert Names(t, Place(d, k), i);
  }

  lemma {:induction false} ClimbsWithout(t: Tree, t': Tree, e: nat, n: nat, i: nat)
    requires Climbs(t, e, n) && e != i && t'.dirs == t.dirs - {i}
    requires forall c {:trigger Place(c, DOTDOT)} :: c in t.dirs && c != i ==>
      Place(c, DOTDOT) in t.names && t.names[Place(c, DOTDOT)] != i &&
      Place(c, DOTDOT) in t'.names && t'.names[Place(c, DOTDOT)] == t.names[Place(c, DOTDOT)]
    ensures Climbs(t', e, n)
    decreases n
  {
    if n > 0 {
      ClimbsWithout(t, t', t.names[Place(e, DOTDOT)], n - 1, i);
    }
  }

  /** After rmdir no entry names the directory any more. */
  lemma RmdirUnnamed(t: Tree, d: nat, k: Key, q: Place)
    requires Inv(t) && Removable(t, d, k)
    requires q in t.names && t.names[q] == t.names[Place(d, k)]
    ensures q == Place(d, k) || q == Place(t.names[Place(d, k)], DOT)
  {
    var i := t.names[Place(d, k)];
    RmdirTarget(t, d, k);
    assert DirOk(t, i) && DirOk(t, q.dir);
    if q.key == DOTDOT {
      EmptyHasNoChild(t, i, q.dir);
    } else if Proper(q.key) {
      assert Names(t, q, i);
    }
  }

  lemma OneByOne(names: map<Place, nat>, p: Place, q: Place, r: Place)
    ensures names - {p, q, r} == names - {p} - {q} - {r}
  {
  }

  lemma DropThree(names: map<Place, nat>, p: Place, q: Place, r: Place, j: nat)
    requires p in names && q in names && r in names && p != q && q != r && p != r
    ensures |Uses(names - {p, q, r}, j)| ==
      |Uses(names, j)| - (if names[p] == j then 1 else 0) - (if names[q] == j then 1 else 0) -
        (if names[r] == j then 1 else 0)
  {
    OneByOne(names, p, q, r);
    var a, b := names - {p}, names - {p} - {q};
    assert q in a && a[q] == names[q] && r in b && b[r] == names[r];
    UsesDrop(names, p, j);
    UsesDrop(a, q, j);
    UsesDrop(b, r, j);
  }

  /** The warning about an empty directory with other than two links is never printed. */
  lemma EmptyHasTwoLinks(t: Tree, d: nat, k: Key)
    requires Inv(t) && Removable(t, d, k)
    ensures t.links[t.names[Place(d, k)]] == 2
  {
    var i := t.names[Place(d, k)];
    RmdirTarget(t, d, k);
    forall x | x in Uses(t.names, i) ensures x == Place(d, k) || x == Place(i, DOT) {
      RmdirUnnamed(t, d, k, x);
    }
    assert Uses(t.names, i) == {Place(d, k), Place(i, DOT)};
  }

  lemma RmdirLinks(t: Tree, d: nat, k: Key)
    requires Inv(t) && Removable(t, d, k)
    ensures LinksOk(Done(t, Rmdir(d, k)))
  {
    var i, t' := t.names[Place(d, k)], Done(t, Rmdir(d, k));
    RmdirTarget(t, d, k);
    assert Place(i, DOTDOT) in Uses(t.names, d);
    assert t.links[d] > 0;
    forall j | j in t'.links ensures t'.links[j] == |Uses(t'.names, j)| <= MAX_LINKS {
      DropThree(t.names, Place(d, k), Place(i, DOT), Place(i, DOTDOT), j);
      assert j != i && j in t.links && t.links[j] == |Uses(t.names, j)|;
    }
  }

  lemma RmdirRooted(t: Tree, d: nat, k: Key, e: nat)
    requires Inv(t) && Removable(t, d, k) && e in t.dirs && e != t.names[Place(d, k)]
    ensures Rooted(Done(t, Rmdir(d, k)), e)
  {
    var i, t' := t.names[Place(d, k)], Done(t, Rmdir(d, k));
    RmdirTarget(t, d, k);
    assert DirOk(t, e);
    var n: nat :| Climbs(t, e, n);
    forall c | c in t.dirs && c != i
      ensures Place(c, DOTDOT) in t.names && t.names[Place(c, DOTDOT)] != i
      ensures Place(c, DOTDOT) in t'.names && t'.names[Place(c, DOTDOT)] == t.names[Place(c, DOTDOT)]
    {
      RmdirParent(t, d, k, c);
    }
    ClimbsWithout(t, t', e, n, i);
  }

  lemma RmdirParent(t: Tree, d: nat, k: Key, c: nat)
    requires Inv(t) && Removable(t, d, k) && c in t.dirs && c != t.names[Place(d, k)]
    ensures Place(c, DOTDOT) in t.names && t.names[Place(c, DOTDOT)] != t.names[Place(d, k)]
    ensures var t' := Done(t, Rmdir(d, k));
      Place(c, DOTDOT) in t'.names && t'.names[Place(c, DOTDOT)] == t.names[Place(c, DOTDOT)]
  {
    RmdirTarget(t, d, k);
    EmptyHasNoChild(t, t.names[Place(d, k)], c);
  }

  lemma RmdirDots(t: Tree, d: nat, k: Key, e: nat)
    requires Inv(t) && Removable(t, d, k) && e in t.dirs && e != t.names[Place(d, k)]
    ensures DotsOk(Done(t, Rmdir(d, k)), e)
    ensures Done(t, Rmdir(d, k)).names[Place(e, DOTDOT)] == t.names[Place(e, DOTDOT)]
  {
    RmdirTarget(t, d, k);
    RmdirParent(t, d, k, e);
    RmdirDot(t, d, k, e);
  }

  lemma RmdirDot(t: Tree, d: nat, k: Key, e: nat)
    requires Inv(t) && Removable(t, d, k) && e in t.dirs && e != t.names[Place(d, k)]
    ensures var t' := Done(t, Rmdir(d, k)); Place(e, DOT) in t'.names && t'.names[Place(e, DOT)] == e
    ensures Place(e, DOTDOT) in t.names && t.names[Place(e, DOTDOT)] in t.dirs
  {
    assert DirOk(t, e);
    RmdirTarget(t, d, k);
  }

  lemma RmdirNames(t: Tree, d: nat, k: Key, e: nat)
    requires Inv(t) && Removable(t, d, k) && e in t.dirs && e != t.names[Place(d, k)]
    ensures OneName(Done(t, Rmdir(d, k)), e)
  {
    var t' := Done(t, Rmdir(d, k));
    assert DirOk(t, e);
    RmdirDots(t, d, k, e);
    forall p ensures Names(t', p, e) <==> Names(t, p, e) {
      RmdirName(t, d, k, e, p);
    }
    OneNameFrame(t, t', e);
  }

  lemma RmdirName(t: Tree, d: nat, k: Key, e: nat, p: Place)
    requires Removable(t, d, k) && e != t.names[Place(d, k)]
    ensures Names(Done(t, Rmdir(d, k)), p, e) <==> Names(t, p, e)
  {
  }

  lemma RmdirOthers(t: Tree, d: nat, k: Key, e: nat)
    requires Inv(t) && Removable(t, d, k) && e in t.dirs && e != t.names[Place(d, k)]
    ensures DirOk(Done(t, Rmdir(d, k)), e)
  {
    RmdirDots(t, d, k, e);
    RmdirNames(t, d, k, e);
    RmdirRooted(t, d, k, e);
  }

  lemma RmdirTyped(t: Tree, d: nat, k: Key)
    requires Inv(t) && Removable(t, d, k)
    ensures Typed(Done(t, Rmdir(d, k)))
  {
    var i, t' := t.names[Place(d, k)], Done(t, Rmdir(d, k));
    RmdirTarget(t, d, k);
    forall p | p in t'.names ensures p.dir in t'.dirs && t'.names[p] in t'.links {
      if t.names[p] == i { RmdirUnnamed(t, d, k, p); }
      assert p.dir != i;
    }
  }

  lemma RmdirKeepsInv(t: Tree, d: nat, k: Key)
    requires Inv(t) && Removable(t, d, k)
    ensures Inv(Done(t, Rmdir(d, k)))
  {
    RmdirTarget(t, d, k);
    RmdirLinks(t, d, k);
    RmdirTyped(t, d, k);
    var t' := Done(t, Rmdir(d, k));
    forall e | e in t'.dirs ensures DirOk(t', e) {
      RmdirOthers(t, d, k, e);
    }
  }

  // ----- Runs

  /** Main result, one step: every call keeps the tree and the link counts, unless it raises a count past 255. */
  lemma CallKeepsInv(t: Tree, c: Call, full: bool, busy: set<nat>)
    requires Inv(t) && Sensible(t, c) && RoomToCount(t, c)
    ensures Inv(After(t, c, full, busy))
  {
    if Answer(t, c, full, busy).OK? {
      match c
      case Create(d, k, i) => NamedKeepsInv(t, Place(d, k), i, t.links[i := 1]);
      case Link(file, d, k) => NamedKeepsInv(t, Place(d, k), file, Inc(t.links, file));
      case Unlink(d, k) => UnlinkKeepsInv(t, Place(d, k));
      case Mkdir(d, k, i) => MkdirKeepsInv(t, d, k, i);
      case Rmdir(d, k) => RmdirKeepsInv(t, d, k);
      case Reclaim(i) => ReclaimKeepsInv(t, i);
    }
  }

  /** The link count is a byte: with 255 links one more makes it 0, and the inode counts as deleted while 256 entries
      name it. */
  lemma LinkWraps(t: Tree, file: nat, d: nat, k: Key)
    requires Inv(t) && Sensible(t, Link(file, d, k)) && file !in t.dirs && Place(d, k) !in t.names
    requires t.links[file] == MAX_LINKS
    ensures var t' := After(t, Link(file, d, k), false, {});
      t'.links[file] == 0 && |Uses(t'.names, file)| == 256 && Sensible(t', Reclaim(file))
  {
    UsesAdd(t.names, Place(d, k), file, file);
  }

  /** A call that succeeds keeps the counts right exactly when the count it raises was below 255. */
  lemma RoomToCountIsExact(t: Tree, c: Call, full: bool, busy: set<nat>)
    requires Inv(t) && Sensible(t, c) && Answer(t, c, full, busy).OK?
    ensures Inv(After(t, c, full, busy)) <==> RoomToCount(t, c)
  {
    if RoomToCount(t, c) {
      CallKeepsInv(t, c, full, busy);
    } else if c.Link? {
      LinkWraps(t, c.file, c.d, c.k);
    } else {
      AddThree(t.names, Place(c.d, c.k), c.i, Place(c.i, DOT), Place(c.i, DOTDOT), c.d, c.d);
    }
  }

  datatype Step = Step(call: Call, full: bool, busy: set<nat>)

  ghost predicate History(trees: seq<Tree>, steps: seq<Step>) {
    |trees| == |steps| + 1 &&
    forall n :: 0 <= n < |steps| ==>
      Typed(trees[n]) && Sensible(trees[n], steps[n].call) && RoomToCount(trees[n], steps[n].call) &&
      trees[n + 1] == After(trees[n], steps[n].call, steps[n].full, steps[n].busy)
  }

  /** Main result, over runs. */
  lemma {:induction false} HistoryKeepsInv(trees: seq<Tree>, steps: seq<Step>, n: nat)
    requires History(trees, steps) && Inv(trees[0]) && n <= |steps|
    ensures Inv(trees[n])
  {
    if n > 0 {
      HistoryKeepsInv(trees, steps, n - 1);
      var s := steps[n - 1];
      CallKeepsInv(trees[n - 1], s.call, s.full, s.busy);
      assert trees[n - 1 + 1] == After(trees[n - 1], s.call, s.full, s.busy);
    }
  }

  /** The root directory of a new file system. */
  ghost function FreshTree(): Tree {
    Tree(map[Place(ROOT, DOT) := ROOT, Place(ROOT, DOTDOT) := ROOT], {ROOT}, map[ROOT := 2])
  }

  lemma FreshTreeInv()
    ensures Inv(FreshTree())
  {
    var t := FreshTree();
    assert Uses(t.names, ROOT) == {Place(ROOT, DOT), Place(ROOT, DOTDOT)};
    assert Climbs(t, ROOT, 0);
    assert DirOk(t, ROOT);
  }

  /** An inode may be reclaimed exactly when no entry names it. */
  lemma ReclaimedWhenUnnamed(t: Tree, i: nat)
    requires Inv(t) && i in t.links
    ensures Sensible(t, Reclaim(i)) <==> forall p :: p in t.names ==> t.names[p] != i
  {
    if t.links[i] == 0 {
      forall p | p in t.names ensures t.names[p] != i { NoLinksNoName(t, i, p); }
      assert i in t.dirs ==> DirOk(t, i);
    } else {
      assert |Uses(t.names, i)| > 0;
      var p :| p in Uses(t.names, i);
    }
  }

  ghost function Subdirs(t: Tree, d: nat): set<Place> {
    set p | p in t.names && p.dir == d && Proper(p.key) && t.names[p] in t.dirs
  }

  ghost function Children(t: Tree, d: nat): set<Place> {
    set p | p in t.names && p.key == DOTDOT && t.names[p] == d && p.dir != ROOT
  }

  /** A directory has two links, and one for each directory in it. */
  lemma DirectoryLinks(t: Tree, d: nat)
    requires Inv(t) && d in t.dirs
    ensures t.links[d] == 2 + |Children(t, d)|
    ensures forall p :: p in Subdirs(t, d) ==> Place(t.names[p], DOTDOT) in Children(t, d)
    ensures forall c :: c in Children(t, d) ==> exists p :: p in Subdirs(t, d) && t.names[p] == c.dir
    ensures forall p, q :: p in Subdirs(t, d) && q in Subdirs(t, d) && t.names[p] == t.names[q] ==> p == q
  {
    var up := OwnLinks(t, d);
    assert Uses(t.names, d) == Children(t, d) + {Place(d, DOT)} + {up};
    forall p | p in Subdirs(t, d) ensures Place(t.names[p], DOTDOT) in Children(t, d) {
      assert DirOk(t, t.names[p]) && Names(t, p, t.names[p]);
    }
    forall c | c in Children(t, d) ensures exists p :: p in Subdirs(t, d) && t.names[p] == c.dir {
      var p := NamedInParent(t, c.dir);
      assert p in Subdirs(t, d);
    }
    forall p, q | p in Subdirs(t, d) && q in Subdirs(t, d) && t.names[p] == t.names[q] ensures p == q {
      assert DirOk(t, t.names[p]) && Names(t, p, t.names[p]) && Names(t, q, t.names[p]);
    }
  }

  /** The two: its '.', and its name; for the root its '..'. */
  lemma OwnLinks(t: Tree, d: nat) returns (up: Place)
    requires Inv(t) && d in t.dirs
    ensures Place(d, DOT) in Uses(t.names, d) && up in Uses(t.names, d) && up != Place(d, DOT)
    ensures up !in Children(t, d) && Place(d, DOT) !in Children(t, d)
    ensures forall p :: p in Uses(t.names, d) ==> p == up || p == Place(d, DOT) || p in Children(t, d)
  {
    assert DirOk(t, d);
    if d == ROOT { up := Place(ROOT, DOTDOT); } else { up := NamedInParent(t, d); }
    forall p | p in Uses(t.names, d) ensures p == up || p == Place(d, DOT) || p in Children(t, d) {
      assert DirOk(t, p.dir);
      if Proper(p.key) {
        assert Names(t, p, d);
        assert d != ROOT ==> Names(t, up, d);
      }
    }
  }
}
