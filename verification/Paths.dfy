/** Path names: get_dir, dir_namei and namei, and the way from the root to every directory. */
module Paths {
  import opened Directory
  import opened NameTree

  datatype Found = None | Inode(i: nat)

  /** What a lookup depends on: the task's root and working directory, and the directories it may search. */
  datatype View = View(root: nat, pwd: nat, search: set<nat>)

  /** The components of a path, one more than it has slashes. */
  datatype Route = Last(name: string) | More(name: string, rest: Route)

  /** find_entry and iget of one component: '..' in the task's root is '.'. */
  function Enter(t: Tree, v: View, d: nat, name: string): Found {
    var p := Place(d, if name == DOTDOT && d == v.root then DOT else Cut(name));
    if name == "" || p !in t.names then None else Inode(t.names[p])
  }

  predicate MaySearch(t: Tree, v: View, d: nat) {
    d in t.dirs && d in v.search
  }

  /** From directory `d` through every component but the last; each must be a directory that may be searched. */
  function Walk(t: Tree, v: View, d: nat, names: Route): Found
    decreases names
  {
    if !MaySearch(t, v, d) then None
    else match names
      case Last(_) => Inode(d)
      case More(name, rest) =>
        match Enter(t, v, d, name)
        case None => None
        case Inode(i) => Walk(t, v, i, rest)
  }

  function Final(names: Route): string {
    match names
    case Last(name) => name
    case More(_, rest) => Final(rest)
  }

  // ----- Cutting a path at its slashes

  function Prepend(c: char, names: Route): Route {
    if c == SLASH then More("", names) else names.(name := [c] + names.name)
  }

  /** The components of what is behind index `at`. */
  function Split(path: string, at: nat): (names: Route)
    requires at <= |path|
    decreases |path| - at
  {
    if at == |path| then Last("") else Prepend(path[at], Split(path, at + 1))
  }

  function Join(names: Route): string {
    match names
    case Last(name) => name
    case More(name, rest) => name + [SLASH] + Join(rest)
  }

  predicate NoSlashes(names: Route) {
    SLASH !in names.name && (names.More? ==> NoSlashes(names.rest))
  }

  lemma JoinPrepend(c: char, names: Route)
    ensures Join(Prepend(c, names)) == [c] + Join(names)
  {
    match names
    case Last(_) =>
    case More(name, rest) => assert [c] + name + [SLASH] + Join(rest) == [c] + (name + [SLASH] + Join(rest));
  }

  /** Nothing of the path is lost. */
  lemma {:induction false} JoinSplit(path: string, at: nat)
    requires at <= |path|
    ensures Join(Split(path, at)) == path[at..]
    decreases |path| - at
  {
    if at < |path| {
      JoinPrepend(path[at], Split(path, at + 1));
      JoinSplit(path, at + 1);
    }
  }

  /** Up to the next slash, or the end, there is one component. */
  lemma {:induction false} NextName(path: string, at: nat, n: nat)
    requires at + n <= |path| && forall i :: at <= i < at + n ==> path[i] != SLASH
    ensures at + n == |path| ==> Split(path, at) == Last(path[at..at + n])
    ensures at + n < |path| && path[at + n] == SLASH ==>
      Split(path, at) == More(path[at..at + n], Split(path, at + n + 1))
    decreases n
  {
    if n > 0 {
      NextName(path, at + 1, n - 1);
      assert path[at..at + n] == [path[at]] + path[at + 1..at + n];
    }
  }

  /** The first character of what was joined, and the components without it. */
  lemma Peel(names: Route) returns (c: char, names': Route)
    requires NoSlashes(names) && names != Last("")
    ensures names == Prepend(c, names') && NoSlashes(names')
  {
    if names.name == "" {
      c, names' := SLASH, names.rest;
    } else {
      c, names' := names.name[0], names.(name := names.name[1..]);
      assert c in names.name && [c] + names'.name == names.name;
    }
  }

  /** And the components are those it was made of. */
  lemma {:induction false} SplitJoin(path: string, at: nat, names: Route)
    requires at <= |path| && path[at..] == Join(names) && NoSlashes(names)
    ensures Split(path, at) == names
    decreases |path| - at
  {
    if names == Last("") {
      assert at == |path|;
    } else {
      var c, names' := Peel(names);
      JoinPrepend(c, names');
      assert path[at] == path[at..][0] && path[at + 1..] == path[at..][1..];
      SplitJoin(path, at + 1, names');
    }
  }

  // ----- The calls

  function Start(v: View, path: string): nat
    requires path != ""
  {
    if path[0] == SLASH then v.root else v.pwd
  }

  function Components(path: string): Route
    requires path != ""
  {
    Split(path, if path[0] == SLASH then 1 else 0)
  }

  /** What namei finds: the directory by all components but the last, and in it the last, unless that is empty. */
  function Lookup(t: Tree, v: View, path: string): Found {
    if path == "" then None
    else match Walk(t, v, Start(v, path), Components(path))
      case None => None
      case Inode(d) => if Final(Components(path)) == "" then Inode(d) else Enter(t, v, d, Final(Components(path)))
  }

  /** The inner loop of get_dir. */
  method ScanName(path: string, at: nat) returns (n: nat)
    requires at <= |path|
    ensures at + n <= |path| && (at + n < |path| ==> path[at + n] == SLASH)
    ensures Split(path, at) ==
      if at + n == |path| then Last(path[at..at + n]) else More(path[at..at + n], Split(path, at + n + 1))
  {
    n := 0;
    while at + n < |path| && path[at + n] != SLASH
      invariant at + n <= |path| && forall i :: at <= i < at + n ==> path[i] != SLASH
    {
      n := n + 1;
    }
    NextName(path, at, n);
  }

  /** get_dir: the inode of the directory that all components but the last lead to. */
  method GetDir(t: Tree, v: View, path: string) returns (r: Found)
    ensures r == if path == "" then None else Walk(t, v, Start(v, path), Components(path))
  {
    if path == "" {
      return None;
    }
    var inode, at: nat := Start(v, path), if path[0] == SLASH then 1 else 0;
    ghost var goal := Walk(t, v, inode, Components(path));
    while true
      invariant at <= |path| && goal == Walk(t, v, inode, Split(path, at))
      decreases |path| - at
    {
      if !MaySearch(t, v, inode) {
        return None;
      }
      var n := ScanName(path, at);
      if at + n == |path| {
        return Inode(inode);
      }
      var e := Enter(t, v, inode, path[at..at + n]);
      if e == None {
        return None;
      }
      inode, at := e.i, at + n + 1;
    }
  }

  /** The last component of a path is the last of what follows a slash. */
  lemma LastBehind(path: string, base: nat, at: nat)
    requires base <= at < |path| && path[at] == SLASH && forall i :: base <= i < at ==> path[i] != SLASH
    ensures Final(Split(path, at + 1)) == Final(Split(path, base))
  {
    NextName(path, base, at - base);
  }

  /** dir_namei's own loop: what comes behind the last slash. */
  method BaseName(path: string) returns (name: string)
    ensures name == Final(Split(path, 0))
  {
    var base: nat, at: nat := 0, 0;
    while at < |path|
      invariant base <= at <= |path| && forall i :: base <= i < at ==> path[i] != SLASH
      invariant Final(Split(path, base)) == Final(Split(path, 0))
    {
      if path[at] == SLASH {
        LastBehind(path, base, at);
        base := at + 1;
      }
      at := at + 1;
    }
    NextName(path, base, |path| - base);
    name := path[base..at];
  }

  /** dir_namei: the directory, and the last component. */
  method DirNamei(t: Tree, v: View, path: string) returns (dir: Found, name: string)
    ensures dir == if path == "" then None else Walk(t, v, Start(v, path), Components(path))
    ensures dir != None ==> name == Final(Components(path))
  {
    dir := GetDir(t, v, path);
    name := "";
    if dir != None {
      name := BaseName(path);
      if path[0] == SLASH {
        LastBehind(path, 0, 0);
      }
    }
  }

  /** namei */
  method Namei(t: Tree, v: View, path: string) returns (r: Found)
    ensures r == Lookup(t, v, path)
  {
    var dir, name := DirNamei(t, v, path);
    if dir == None {
      return None;
    }
    if name == "" {
      return dir;
    }
    r := Enter(t, v, dir.i, name);
  }

  // ----- Every directory has a path

  /** All components but the last are names of entries, and neither '.' nor '..'. */
  predicate AllProper(names: Route) {
    names.Last? || (KeyOk(names.name) && Proper(names.name) && AllProper(names.rest))
  }

  lemma {:induction false} ProperNoSlashes(names: Route)
    requires AllProper(names) && SLASH !in Final(names)
    ensures NoSlashes(names)
  {
    if names.More? {
      ProperNoSlashes(names.rest);
    }
  }

  /** A directory's name is in its parent, one step nearer to the root, and leads down from there. */
  lemma UpOne(t: Tree, v: View, d: nat, n: nat, names: Route) returns (up: nat, more: Route)
    requires Inv(t) && Climbs(t, d, n) && d != ROOT && t.dirs <= v.search && AllProper(names)
    ensures n > 0 && Climbs(t, up, n - 1) && AllProper(more) && Final(more) == Final(names)
    ensures Walk(t, v, up, more) == Walk(t, v, d, names)
  {
    var p := NamedInParent(t, d);
    up, more := p.dir, More(p.key, names);
    assert Enter(t, v, p.dir, p.key) == Inode(d);
  }

  /** Climbing the '..' from a directory collects the names on the way down to it. */
  lemma {:induction false} WayDown(t: Tree, v: View, d: nat, n: nat, names: Route) returns (all: Route)
    requires Inv(t) && Climbs(t, d, n) && v.root == ROOT && t.dirs <= v.search && AllProper(names)
    ensures Walk(t, v, ROOT, all) == Walk(t, v, d, names)
    ensures AllProper(all) && Final(all) == Final(names)
    decreases n
  {
    if d == ROOT {
      all := names;
    } else {
      var up, more := UpOne(t, v, d, n, names);
      all := WayDown(t, v, up, n - 1, more);
    }
  }

  /** Main result: in a tree that only the calls have changed, every directory has an absolute path of proper names, and
      namei finds it there. */
  lemma EveryDirectoryHasAPath(t: Tree, v: View, d: nat) returns (path: string)
    requires Inv(t) && d in t.dirs && v.root == ROOT && t.dirs <= v.search
    ensures path != "" && path[0] == SLASH && AllProper(Components(path)) && Final(Components(path)) == ""
    ensures Lookup(t, v, path) == Inode(d)
  {
    assert DirOk(t, d);
    var n: nat :| Climbs(t, d, n);
    var names := WayDown(t, v, d, n, Last(""));
    ProperNoSlashes(names);
    path := [SLASH] + Join(names);
    assert path[1..] == Join(names);
    SplitJoin(path, 1, names);
  }
}
