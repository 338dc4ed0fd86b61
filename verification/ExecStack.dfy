/** copy_strings, change_ldt and create_tables, and execve's use of them. */
module ExecStack {
  import opened ExecArgs

  /** A page of the argument area is absent (empty) or whole. */
  ghost predicate Whole(pages: seq<seq<nat>>) {
    |pages| == MAX_ARG_PAGES && forall i :: 0 <= i < |pages| ==> pages[i] == [] || |pages[i]| == PAGE_SIZE
  }

  /** A byte of the argument area; absent pages read as zeros. */
  function ByteOf(pages: seq<seq<nat>>, x: int): nat
    requires 0 <= x / PAGE_SIZE < |pages|
  {
    var page := pages[x / PAGE_SIZE];
    if x % PAGE_SIZE < |page| then page[x % PAGE_SIZE] else 0
  }

  function Area(pages: seq<seq<nat>>): (s: seq<nat>)
    requires Whole(pages)
    ensures |s| == AREA && forall x :: 0 <= x < AREA ==> s[x] == ByteOf(pages, x)
  {
    seq(AREA, x requires 0 <= x < AREA => ByteOf(pages, x))
  }

  /** The pages under bytes `lo` to `hi` are there. */
  ghost predicate Backed(pages: seq<seq<nat>>, lo: nat, hi: nat)
    requires |pages| == MAX_ARG_PAGES && hi <= AREA
  {
    forall x :: lo <= x < hi ==> pages[x / PAGE_SIZE] != []
  }

  /** copy_strings knows its place: `pag` and `offset` are those of byte `p`, unless a page is just starting. */
  ghost predicate InStep(pages: seq<seq<nat>>, p: nat, pag: nat, offset: nat)
    requires |pages| == MAX_ARG_PAGES
  {
    offset == 0 || (offset == p % PAGE_SIZE && pag == p / PAGE_SIZE < MAX_ARG_PAGES && pages[pag] != [])
  }

  function ZeroPage(): (s: seq<nat>)
    ensures |s| == PAGE_SIZE && forall i :: 0 <= i < PAGE_SIZE ==> s[i] == 0
  {
    seq(PAGE_SIZE, _ => 0)
  }

  /** A fresh page is zero, as it read before. */
  lemma FreshPageSame(pages: seq<seq<nat>>, i: nat)
    requires Whole(pages) && i < MAX_ARG_PAGES && pages[i] == []
    ensures Whole(pages[i := ZeroPage()]) && Area(pages[i := ZeroPage()]) == Area(pages)
  {
    var pages' := pages[i := ZeroPage()];
    forall x | 0 <= x < AREA ensures ByteOf(pages', x) == ByteOf(pages, x) {}
  }

  function SetByte(page: seq<nat>, i: nat, b: nat): (r: seq<nat>)
    requires i < |page|
    ensures |r| == |page|
  {
    page[i := b]
  }

  lemma StoreByte(pages: seq<seq<nat>>, p: nat, b: nat)
    requires Whole(pages) && p < AREA && pages[p / PAGE_SIZE] != []
    ensures Whole(pages[p / PAGE_SIZE := SetByte(pages[p / PAGE_SIZE], p % PAGE_SIZE, b)])
    ensures Area(pages[p / PAGE_SIZE := SetByte(pages[p / PAGE_SIZE], p % PAGE_SIZE, b)]) == Area(pages)[p := b]
  {
    var i := p / PAGE_SIZE;
    var page: seq<nat> := SetByte(pages[i], p % PAGE_SIZE, b);
    var pages', area := pages[i := page], Area(pages)[p := b];
    forall x | 0 <= x < AREA ensures ByteOf(pages', x) == area[x] {
      if x / PAGE_SIZE == i && x % PAGE_SIZE == p % PAGE_SIZE {
        SamePlace(x, p);
      }
    }
  }

  lemma SamePlace(x: int, p: int)
    requires x / PAGE_SIZE == p / PAGE_SIZE && x % PAGE_SIZE == p % PAGE_SIZE
    ensures x == p
  {
  }

  class Loader {
    const pages: array<seq<nat>>
    var avail: nat                 // page frames left
    const mem: array<nat>          // the new program's data segment

    ghost predicate Valid()
      reads this, pages
    {
      Whole(pages[..]) && mem.Length == DATA_LIMIT
    }

    /** The inner loop of copy_strings: the bytes of `t`, last one first, just below `p`. */
    method CopyDown(t: seq<nat>, p: nat, pag0: nat, offset0: nat) returns (q: nat, pag: nat, offset: nat, ok: bool)
      requires Valid() && |t| <= p <= AREA && InStep(pages[..], p, pag0, offset0)
      modifies this`avail, pages
      ensures Valid() && (ok || avail == 0) && avail <= old(avail)
      ensures ok ==> q == p - |t| && InStep(pages[..], q, pag, offset) && Backed(pages[..], q, p)
      ensures ok ==> Area(pages[..]) == old(Area(pages[..]))[..q] + t + old(Area(pages[..]))[p..]
      ensures forall i :: 0 <= i < MAX_ARG_PAGES && old(pages[i]) != [] ==> pages[i] != []
    {
      ghost var was := Area(pages[..]);
      var len := |t|;
      q, pag, offset, ok := p, pag0, offset0, true;
      while len > 0
        invariant Valid() && 0 <= len <= |t| && q == p - |t| + len && ok && avail <= old(avail)
        invariant InStep(pages[..], q, pag, offset) && Backed(pages[..], q, p)
        invariant Area(pages[..]) == was[..q] + t[len..] + was[p..]
        invariant forall i :: 0 <= i < MAX_ARG_PAGES && old(pages[i]) != [] ==> pages[i] != []
      {
        q, len := q - 1, len - 1;
        if offset > 0 {
          offset := offset - 1;
        } else {
          offset, pag := q % PAGE_SIZE, q / PAGE_SIZE;
          ok := EnterPage(pag);
          if !ok {
            return;
          }
        }
        Deposit(pag, offset, q, t[len]);
        assert t[len..] == [t[len]] + t[len + 1..];
        assert was[..q + 1] == was[..q] + [was[q]];
      }
    }

    /** Make sure page `pag` of the area is there. */
    method EnterPage(pag: nat) returns (ok: bool)
      requires Valid() && pag < MAX_ARG_PAGES
      modifies this`avail, pages
      ensures Valid() && Area(pages[..]) == old(Area(pages[..])) && avail <= old(avail)
      ensures if ok then pages[pag] != [] else avail == 0
      ensures forall i :: 0 <= i < MAX_ARG_PAGES && old(pages[i]) != [] ==> pages[i] != []
    {
      ok := true;
      if pages[pag] == [] {
        if avail == 0 {
          return false;
        }
        FreshPageSame(pages[..], pag);
        ghost var ps := pages[..];
        avail := avail - 1;
        pages[pag] := ZeroPage();
        assert pages[..] == ps[pag := ZeroPage()];
      }
    }

    /** `*(pag + offset) = b` */
    method Deposit(pag: nat, offset: nat, ghost q: nat, b: nat)
      requires Valid() && q < AREA && pag == q / PAGE_SIZE && offset == q % PAGE_SIZE && pages[pag] != []
      modifies pages
      ensures Valid() && Area(pages[..]) == old(Area(pages[..]))[q := b]
      ensures forall i :: 0 <= i < MAX_ARG_PAGES ==> (pages[i] == [] <==> old(pages[i]) == [])
    {
      ghost var ps := pages[..];
      StoreByte(ps, q, b);
      pages[pag] := SetByte(pages[pag], offset, b);
      assert pages[..] == ps[pag := SetByte(ps[pag], offset, b)];
    }

    /** copy_strings: the strings, in order, just below `p`; 0 when there is no page left, or nothing to start from. */
    method CopyStrings(strs: seq<Str>, p: nat) returns (q: nat)
      requires Valid() && AllStr(strs) && p <= AREA && (p != 0 ==> |Block(strs)| <= p)
      modifies this`avail, pages
      ensures Valid() && avail <= old(avail) && (q != 0 ==> p != 0 && q == p - |Block(strs)|)
      ensures q == 0 ==> p == 0 || avail == 0 || |Block(strs)| == p
      ensures q != 0 ==> Backed(pages[..], q, p)
      ensures q != 0 ==> Area(pages[..]) == old(Area(pages[..]))[..q] + Block(strs) + old(Area(pages[..]))[p..]
      ensures forall i :: 0 <= i < MAX_ARG_PAGES && old(pages[i]) != [] ==> pages[i] != []
    {
      if p == 0 {
        return 0;
      }
      ghost var was := Area(pages[..]);
      var argc, pag, offset, ok := |strs|, 0, 0, true;
      q := p;
      assert strs[argc..] == [];
      while argc > 0
        invariant Valid() && avail <= old(avail) && 0 <= argc <= |strs| && InStep(pages[..], q, pag, offset)
        invariant |Block(strs[argc..])| <= |Block(strs)| && q == p - |Block(strs[argc..])|
        invariant Backed(pages[..], q, p) && Area(pages[..]) == was[..q] + Block(strs[argc..]) + was[p..]
        invariant forall i :: 0 <= i < MAX_ARG_PAGES && old(pages[i]) != [] ==> pages[i] != []
      {
        argc := argc - 1;
        var tmp := strs[argc] + [0];
        var len := 1;
        while tmp[len - 1] != 0
          invariant 0 < len <= |tmp|
          decreases |tmp| - len
        {
          len := len + 1;
        }
        ScanEnd(strs[argc], len);
        BlockTail(strs, argc);
        ghost var area, below := Area(pages[..]), q;
        q, pag, offset, ok := CopyDown(tmp[..len], q, pag, offset);
        if !ok {
          return 0;
        }
        assert tmp[..len] == tmp;
        Deeper(was, area, tmp, Block(strs[argc + 1..]), q, below, p);
      }
      assert strs[0..] == strs;
    }

    /** change_ldt: the argument pages become the last pages of the data segment. */
    method ChangeLdt() returns (limit: nat)
      requires Valid()
      modifies mem
      ensures limit == DATA_LIMIT
      ensures forall x :: 0 <= x < AREA && pages[x / PAGE_SIZE] != [] ==>
        mem[DATA_LIMIT - AREA + x] == ByteOf(pages[..], x)
    {
      var base, i := DATA_LIMIT, MAX_ARG_PAGES;
      while i > 0
        invariant 0 <= i <= MAX_ARG_PAGES && base == DATA_LIMIT - AREA + i * PAGE_SIZE
        invariant forall x :: i * PAGE_SIZE <= x < AREA && pages[x / PAGE_SIZE] != [] ==>
          mem[DATA_LIMIT - AREA + x] == ByteOf(pages[..], x)
      {
        i := i - 1;
        base := base - PAGE_SIZE;
        if pages[i] != [] {
          PutPage(i, base);
        }
      }
      limit := DATA_LIMIT;
    }

    /** put_page, as the program sees it. */
    method PutPage(i: nat, base: nat)
      requires Valid() && i < MAX_ARG_PAGES && pages[i] != [] && base + PAGE_SIZE <= mem.Length
      modifies mem
      ensures forall j :: 0 <= j < PAGE_SIZE ==> mem[base + j] == pages[i][j]
      ensures forall a :: 0 <= a < mem.Length && !(base <= a < base + PAGE_SIZE) ==> mem[a] == old(mem[a])
    {
      forall j | 0 <= j < PAGE_SIZE {
        mem[base + j] := pages[i][j];
      }
    }

    /** put_fs_long */
    method Put(a: nat, v: nat)
      requires a + 4 <= mem.Length && v < 0x1_0000_0000
      modifies mem
      ensures mem[..] == PutLong(old(mem[..]), a, v) && GetLong(mem[..], a) == v
    {
      ghost var was := mem[..];
      mem[a] := v % 256;
      mem[a + 1] := v / 256 % 256;
      mem[a + 2] := v / 256 / 256 % 256;
      mem[a + 3] := v / 256 / 256 / 256 % 256;
      GetPut(was, a, v);
      assert mem[..] == PutLong(was, a, v);
    }

    /** Step past one string: `while (get_fs_byte(p++))`. */
    method Skip(p: nat, ghost s: Str) returns (q: nat)
      requires StrAt(mem[..], p, s) && IsStr(s)
      ensures q == p + |s| + 1
    {
      q := p;
      while mem[q] != 0
        invariant p <= q <= p + |s|
        decreases p + |s| - q
      {
        q := q + 1;
      }
      StringEnd(mem[..], p, s, q);
      q := q + 1;
    }

    /** One turn of a loop of create_tables. */
    method AddEntry(table: nat, p: nat, j: nat, ghost base: nat, ghost strs: seq<Str>, ghost from: nat) returns (q: nat)
      requires AllStr(strs) && from + j < |strs| && 0 < base && mem.Length <= 0x1_0000_0000
      requires Filled(mem[..], table, base, strs, from, j) && p == base + Offset(strs, from + j)
      requires table + 4 * j + 4 <= base
      modifies mem
      ensures Filled(mem[..], table, base, strs, from, j + 1) && q == base + Offset(strs, from + (j + 1))
      ensures Same(old(mem[..]), mem[..], 0, table + 4 * j)
      ensures Same(old(mem[..]), mem[..], table + 4 * j + 4, mem.Length)
    {
      FillNext(mem[..], table, base, strs, from, j, p);
      Put(table + 4 * j, p);
      q := Skip(p, strs[from + j]);
    }

    /** Either loop of create_tables: `n` pointers to the strings from `p` on, then a null pointer. */
    method FillTable(table: nat, p: nat, n: nat, ghost base: nat, ghost strs: seq<Str>, ghost from: nat)
      returns (q: nat)
      requires AllStr(strs) && from + n <= |strs| && BlockAt(mem[..], base, strs) && 0 < base
      requires mem.Length <= 0x1_0000_0000
      requires p == base + Offset(strs, from) && table + 4 * n + 4 <= base
      modifies mem
      ensures q == base + Offset(strs, from + n)
      ensures Filled(mem[..], table, base, strs, from, n) && GetLong(mem[..], table + 4 * n) == 0
      ensures Same(old(mem[..]), mem[..], 0, table) && Same(old(mem[..]), mem[..], table + 4 * n + 4, mem.Length)
    {
      q := p;
      var j := 0;
      while j < n
        invariant 0 <= j <= n && q == base + Offset(strs, from + j) && Filled(mem[..], table, base, strs, from, j)
        invariant Same(old(mem[..]), mem[..], 0, table) && Same(old(mem[..]), mem[..], table + 4 * j, mem.Length)
      {
        q := AddEntry(table, q, j, base, strs, from);
        j := j + 1;
      }
      FilledStays(mem[..], PutLong(mem[..], table + 4 * n, 0), table, base, strs, from, n, 0);
      Put(table + 4 * n, 0);
    }

    /** create_tables, the three words under the tables. */
    method PushWords(argc: nat, argv: nat, envp: nat) returns (sp: nat)
      requires mem.Length == DATA_LIMIT && 12 <= argv < mem.Length && envp == argv + 4 * (argc + 1) < mem.Length
      modifies mem
      ensures sp == argv - 12 && StackAt(mem[..], sp, argc) && Same(old(mem[..]), mem[..], argv, mem.Length)
    {
      ghost var was := mem[..];
      sp := argv - 4;
      Put(sp, envp);
      sp := sp - 4;
      Put(sp, argv);
      sp := sp - 4;
      Put(sp, argc);
      StackWords(was, sp, argc, argv, envp);
    }

    /** create_tables: the strings are at `p`; `argc` of them are arguments, and the next `envc` the environment. */
    method CreateTables(p: nat, argc: nat, envc: nat, ghost strs: seq<Str>) returns (sp: nat)
      requires mem.Length == DATA_LIMIT && AllStr(strs) && argc + envc <= |strs| && BlockAt(mem[..], p, strs)
      requires 4 * (argc + envc + 6) <= p
      modifies mem
      ensures sp == p - p % 4 - 4 * (argc + envc + 5) && StackAt(mem[..], sp, argc)
      ensures Table(mem[..], sp + 12, strs[..argc])
      ensures Table(mem[..], sp + 12 + 4 * (argc + 1), strs[argc..argc + envc])
    {
      var envp := p - p % 4 - 4 * (envc + 1);
      var argv := envp - 4 * (argc + 1);
      ghost var was := mem[..];
      sp := PushWords(argc, argv, envp);
      ghost var words := mem[..];
      BlockStays(was, words, p, strs);
      var q := FillTable(argv, p, argc, p, strs, 0);
      ghost var half := mem[..];
      q := FillTable(envp, q, envc, p, strs, argc);
      TablesReady(words, half, mem[..], sp, p, argc, envc, argv, envp, strs);
    }

    /** One copy_strings of execve, below what was copied before it. */
    method Push(strs: seq<Str>, p: nat, ghost above: seq<Str>) returns (q: nat)
      requires Valid() && AllStr(strs) && |Block(strs + above)| <= TOP
      requires p != 0 ==> Copied(pages[..], p, above)
      modifies this`avail, pages
      ensures Valid() && avail <= old(avail) && (q != 0 ==> p != 0 && Copied(pages[..], q, strs + above))
      ensures q == 0 ==> p == 0 || avail == 0 || |Block(strs + above)| == TOP
    {
      BlockAppend(strs, above);
      ghost var was, ps := Area(pages[..]), pages[..];
      q := CopyStrings(strs, p);
      if q != 0 {
        CopiedMore(ps, pages[..], q, p, strs, above);
      }
    }

    /** The #! splice: in reverse order, the script's name, the optional argument, and the interpreter's name. */
    method PushScript(rest: seq<Str>, filename: Str, b: Bang, p: nat, ghost envp: seq<Str>) returns (q: nat)
      requires Valid() && AllStr(rest) && IsStr(filename) && IsStr(b.name) && (b.arg.Some? ==> IsStr(b.arg.value))
      requires |Block([b.name] + AfterName(rest, envp, filename, b.arg))| <= TOP
      requires p != 0 ==> Copied(pages[..], p, envp)
      requires p == 0 ==> avail == 0
      modifies this`avail, pages
      ensures Valid() && avail <= old(avail)
      ensures q != 0 ==> Copied(pages[..], q, [b.name] + AfterName(rest, envp, filename, b.arg))
      ensures q == 0 ==> avail == 0 || |Block([b.name] + AfterName(rest, envp, filename, b.arg))| == TOP
    {
      ScriptFits(rest, filename, b, envp);
      q := Push(rest, p, envp);
      q := Push([filename], q, rest + envp);
      if b.arg.Some? {
        q := Push([b.arg.value], q, [filename] + (rest + envp));
      }
      q := Push([b.name], q, AfterName(rest, envp, filename, b.arg));
    }

    /** The argument part of do_execve; 0 when it fails for want of memory. `bang` is what the script's first line
        says. */
    method Exec(argv: seq<Str>, envp: seq<Str>, filename: Str, bang: Option<Bang>) returns (sp: nat)
      requires Valid() && forall i :: 0 <= i < MAX_ARG_PAGES ==> pages[i] == []
      requires AllStr(argv) && AllStr(envp) && IsStr(filename)
      requires bang.Some? ==> IsStr(bang.value.name) && (bang.value.arg.Some? ==> IsStr(bang.value.arg.value))
      requires |Block(Spliced(argv, filename, bang) + envp)| <= TOP
      modifies this`avail, pages, mem
      ensures sp == 0 ==> avail == 0 || |Block(Spliced(argv, filename, bang) + envp)| == TOP
      ensures sp != 0 ==> Laid(mem[..], sp, argv, envp, filename, bang)
    {
      SplicedFits(argv, envp, filename, bang);
      var argc := |argv|;
      var p := PushEnv(envp, bang.Some? || argv != []);
      if bang.Some? {
        p := PushScript(if argv == [] then [] else argv[1..], filename, bang.value, p, envp);
        argc := argc - 1 + 2 + (if bang.value.arg.Some? then 1 else 0);
      } else {
        p := Push(argv, p, envp);
      }
      sp := 0;
      if p != 0 {
        sp := Finish(p, argc, |envp|, Spliced(argv, filename, bang) + envp);
      }
    }

    /** The environment is copied first, at the very top. */
    method PushEnv(envp: seq<Str>, ghost more: bool) returns (p: nat)
      requires Valid() && AllStr(envp) && |Block(envp)| <= TOP && (more ==> |Block(envp)| < TOP)
      modifies this`avail, pages
      ensures Valid() && avail <= old(avail) && (p != 0 ==> Copied(pages[..], p, envp))
      ensures p == 0 ==> avail == 0 || (!more && |Block(envp)| == TOP)
    {
      assert envp + [] == envp;
      assert Area(pages[..])[TOP..TOP] == Block([]);
      p := Push(envp, TOP, []);
    }

    /** change_ldt and create_tables. */
    method Finish(p0: nat, argc: nat, envc: nat, ghost all: seq<Str>) returns (sp: nat)
      requires Valid() && Copied(pages[..], p0, all) && AllStr(all) && argc + envc <= |all|
      modifies mem
      ensures sp > 0 && Divided(mem[..], sp, argc, envc, all)
    {
      var limit := ChangeLdt();
      Arrived(pages[..], mem[..], p0, all);
      var p := p0 + limit - AREA;
      ManyStrings(all);
      sp := CreateTables(p, argc, envc, all);
    }
  }

  const TOP := AREA - 4

  /** The strings fill the area from `p` to its top. */
  ghost predicate Copied(pages: seq<seq<nat>>, p: nat, strs: seq<Str>)
    requires Whole(pages)
  {
    p + |Block(strs)| == TOP && Area(pages)[p..TOP] == Block(strs) && Backed(pages, p, TOP)
  }

  lemma CopiedMore(pages: seq<seq<nat>>, pages': seq<seq<nat>>, q: nat, p: nat, strs: seq<Str>, above: seq<Str>)
    requires Whole(pages) && Whole(pages') && Copied(pages, p, above) && q + |Block(strs)| == p && Backed(pages', q, p)
    requires Area(pages') == Area(pages)[..q] + Block(strs) + Area(pages)[p..]
    requires forall i :: 0 <= i < MAX_ARG_PAGES && pages[i] != [] ==> pages'[i] != []
    ensures Copied(pages', q, strs + above)
  {
    BlockAppend(strs, above);
    var area, area' := Area(pages), Area(pages');
    assert area'[q..TOP] == Block(strs) + area[p..TOP];
    forall x | q <= x < TOP ensures pages'[x / PAGE_SIZE] != [] {
      assert x >= p ==> pages[x / PAGE_SIZE] != [];
    }
  }

  /** What is above the interpreter's name. */
  function AfterName(rest: seq<Str>, envp: seq<Str>, filename: Str, arg: Option<Str>): seq<Str> {
    if arg.Some? then [arg.value] + ([filename] + (rest + envp)) else [filename] + (rest + envp)
  }

  /** When all strings fit, so do those copied so far, at every point. */
  lemma ScriptFits(rest: seq<Str>, filename: Str, b: Bang, envp: seq<Str>)
    requires |Block([b.name] + AfterName(rest, envp, filename, b.arg))| <= TOP
    ensures |Block(envp)| < TOP && |Block(rest + envp)| < |Block([filename] + (rest + envp))| < TOP
    ensures |Block(AfterName(rest, envp, filename, b.arg))| < TOP
  {
    OneMoreString(b.name, AfterName(rest, envp, filename, b.arg));
    OneMoreString(filename, rest + envp);
    if b.arg.Some? {
      OneMoreString(b.arg.value, [filename] + (rest + envp));
    }
    BlockAppend(rest, envp);
  }

  lemma SplicedFits(argv: seq<Str>, envp: seq<Str>, filename: Str, bang: Option<Bang>)
    requires |Block(Spliced(argv, filename, bang) + envp)| <= TOP
    ensures bang.Some? ==>
      Spliced(argv, filename, bang) + envp ==
        [bang.value.name] + AfterName(if argv == [] then [] else argv[1..], envp, filename, bang.value.arg)
    ensures |Block(envp)| <= TOP
    ensures (if bang.Some? || argv != [] then |Block(envp)| < TOP else Spliced(argv, filename, bang) + envp == envp)
    ensures AllStr(argv) && AllStr(envp) && IsStr(filename) && bang.None? ==>
      AllStr(Spliced(argv, filename, bang) + envp)
  {
    BlockAppend(Spliced(argv, filename, bang), envp);
    ManyStrings(Spliced(argv, filename, bang));
    if bang.Some? {
      assert Spliced(argv, filename, bang) + envp ==
        [bang.value.name] + AfterName(if argv == [] then [] else argv[1..], envp, filename, bang.value.arg);
    }
  }

  lemma OneMoreString(s: Str, strs: seq<Str>)
    ensures |Block([s] + strs)| == |s| + 1 + |Block(strs)|
  {
    assert ([s] + strs)[1..] == strs;
  }

  /** After change_ldt the block is at the top of the data segment. */
  lemma Arrived(pages: seq<seq<nat>>, mem: seq<nat>, p: nat, strs: seq<Str>)
    requires Whole(pages) && Copied(pages, p, strs) && |mem| == DATA_LIMIT
    requires forall x :: 0 <= x < AREA && pages[x / PAGE_SIZE] != [] ==> mem[DATA_LIMIT - AREA + x] == ByteOf(pages, x)
    ensures BlockAt(mem, p + DATA_LIMIT - AREA, strs)
  {
    var base, block := p + DATA_LIMIT - AREA, Block(strs);
    forall i | 0 <= i < |block| ensures mem[base + i] == block[i] {
      var x := p + i;
      assert pages[x / PAGE_SIZE] != [] && block[i] == Area(pages)[p..TOP][i] == Area(pages)[x];
      assert base + i == DATA_LIMIT - AREA + x;
    }
    assert mem[base..base + |block|] == block;
  }

  lemma {:induction false} ManyStrings(strs: seq<Str>)
    ensures |strs| <= |Block(strs)|
  {
    if strs != [] {
      ManyStrings(strs[1..]);
    }
  }

  /** A stack whose tables divide one run of strings into `argc` arguments and the environment after them. */
  ghost predicate Divided(mem: seq<nat>, sp: nat, argc: int, envc: nat, all: seq<Str>) {
    0 <= argc && argc + envc <= |all| && sp % 4 == 0 && StackAt(mem, sp, argc) && Table(mem, sp + 12, all[..argc]) &&
    Table(mem, sp + 12 + 4 * (argc + 1), all[argc..argc + envc])
  }

  /** How execve leaves the stack: divided by the counts it kept. */
  ghost predicate Laid(mem: seq<nat>, sp: nat, argv: seq<Str>, envp: seq<Str>, filename: Str, bang: Option<Bang>) {
    Divided(mem, sp, Counted(argv, bang), |envp|, Spliced(argv, filename, bang) + envp)
  }

  /** A word in memory, low byte first. */
  ghost predicate WordAt(mem: seq<nat>, a: nat, v: nat) {
    a + 4 <= |mem| && v == mem[a] + 256 * mem[a + 1] + 65536 * mem[a + 2] + 16777216 * mem[a + 3]
  }

  /** The arguments of a script: the interpreter's name, its argument if it has one, the script's name, and then all
      arguments but the first. */
  ghost predicate ScriptArguments(args: seq<Str>, argv: seq<Str>, filename: Str, b: Bang) {
    var k := if b.arg.Some? then 3 else 2;
    argv != [] && |args| == k + |argv| - 1 && args[0] == b.name && (b.arg.Some? ==> args[1] == b.arg.value) &&
      args[k - 1] == filename &&
    forall i :: 1 <= i < |argv| ==> args[k + i - 1] == argv[i]
  }

  /** Main result: the new program finds argc, argv and envp at its stack pointer; walking argv and envp to their null
      pointers, it reads exactly the arguments and the environment it was given -- interpreter, optional argument and
      script name first for a #! script -- except for a script started with no argument at all, not even its name: and
      then it reads something else. */
  lemma ArgumentsReadBack(mem: seq<nat>, sp: nat, argv: seq<Str>, envp: seq<Str>, filename: Str, bang: Option<Bang>)
    returns (argc: nat, table: nat, env: nat)
    requires Laid(mem, sp, argv, envp, filename, bang) && AllStr(argv) && AllStr(envp) && IsStr(filename)
    requires bang.Some? ==> IsStr(bang.value.name) && (bang.value.arg.Some? ==> IsStr(bang.value.arg.value))
    ensures WordAt(mem, sp, argc) && WordAt(mem, sp + 4, table) && WordAt(mem, sp + 8, env)
    ensures bang.None? ==> ReadTable(mem, table) == argv && argc == |argv| && ReadTable(mem, env) == envp
    ensures bang.Some? && argv != [] ==> ScriptArguments(ReadTable(mem, table), argv, filename, bang.value)
    ensures bang.Some? && argv != [] ==> argc == |ReadTable(mem, table)| && ReadTable(mem, env) == envp
    ensures bang.Some? && argv == [] ==>
      !(ReadTable(mem, table) == Spliced(argv, filename, bang) && ReadTable(mem, env) == envp)
  {
    argc, table, env := GetLong(mem, sp), GetLong(mem, sp + 4), GetLong(mem, sp + 8);
    AllSplicedStr(argv, envp, filename, bang);
    TablesReadBack(mem, sp, argv, envp, filename, bang);
    if bang.Some? && argv != [] {
      SplicedInOrder(argv, filename, bang.value);
    }
  }

  /** Both tables read back as they were divided. */
  lemma TablesReadBack(mem: seq<nat>, sp: nat, argv: seq<Str>, envp: seq<Str>, filename: Str, bang: Option<Bang>)
    requires Laid(mem, sp, argv, envp, filename, bang) && AllStr(Spliced(argv, filename, bang) + envp)
    ensures sp + 12 <= |mem|
    ensures (ReadTable(mem, GetLong(mem, sp + 4)) == Spliced(argv, filename, bang) &&
             ReadTable(mem, GetLong(mem, sp + 8)) == envp) <==> (bang.None? || argv != [])
    ensures bang.None? || argv != [] ==> GetLong(mem, sp) == |Spliced(argv, filename, bang)|
  {
    var args := Spliced(argv, filename, bang);
    var counted := Counted(argv, bang);
    assert Divided(mem, sp, counted, |envp|, args + envp);
    hide Laid, ReadTable;
    DividedReads(mem, sp, counted, |envp|, args + envp);
    SplicedCount(argv, filename, bang);
    hide Divided, Spliced, Counted;
    if counted == |args| {
      assert (args + envp)[..counted] == args && (args + envp)[counted..counted + |envp|] == envp;
    } else {
      assert |(args + envp)[..counted]| == counted < |args|;
    }
  }

  /** A script started with no argument is counted as one too few. */
  lemma SplicedCount(argv: seq<Str>, filename: Str, bang: Option<Bang>)
    ensures |Spliced(argv, filename, bang)| == Counted(argv, bang) + if bang.Some? && argv == [] then 1 else 0
  {
  }

  lemma DividedReads(mem: seq<nat>, sp: nat, argc: nat, envc: nat, all: seq<Str>)
    requires Divided(mem, sp, argc, envc, all) && AllStr(all)
    ensures StackAt(mem, sp, argc) && ReadTable(mem, GetLong(mem, sp + 4)) == all[..argc]
    ensures ReadTable(mem, GetLong(mem, sp + 8)) == all[argc..argc + envc]
  {
    ReadTableIs(mem, sp + 12, all[..argc]);
    ReadTableIs(mem, sp + 12 + 4 * (argc + 1), all[argc..argc + envc]);
  }

  lemma SplicedInOrder(argv: seq<Str>, filename: Str, b: Bang)
    requires argv != []
    ensures ScriptArguments(Spliced(argv, filename, Some(b)), argv, filename, b)
  {
  }

  lemma AllSplicedStr(argv: seq<Str>, envp: seq<Str>, filename: Str, bang: Option<Bang>)
    requires AllStr(argv) && AllStr(envp) && IsStr(filename)
    requires bang.Some? ==> IsStr(bang.value.name) && (bang.value.arg.Some? ==> IsStr(bang.value.arg.value))
    ensures AllStr(Spliced(argv, filename, bang) + envp)
  {
  }

  lemma TablesReady(words: seq<nat>, half: seq<nat>, mem: seq<nat>, sp: nat, p: nat, argc: nat, envc: nat, argv: nat,
    envp: nat, strs: seq<Str>)
    requires StackAt(words, sp, argc) && argv == sp + 12 && envp == argv + 4 * (argc + 1) && envp + 4 * (envc + 1) <= p
    requires argc + envc <= |strs| && Same(words, half, 0, argv)
    requires Same(half, mem, 0, envp) && Same(half, mem, envp + 4 * envc + 4, |half|)
    requires Filled(half, argv, p, strs, 0, argc) && GetLong(half, argv + 4 * argc) == 0
    requires Filled(mem, envp, p, strs, argc, envc) && GetLong(mem, envp + 4 * envc) == 0
    ensures StackAt(mem, sp, argc) && Table(mem, argv, strs[..argc]) && Table(mem, envp, strs[argc..argc + envc])
  {
    StackFrame(words, mem, sp, argc);
    FilledFrame(half, mem, argv, p, strs, 0, argc);
    GetFrame(half, mem, argv + 4 * argc);
    FilledIsTable(mem, argv, p, strs, 0, argc);
    FilledIsTable(mem, envp, p, strs, argc, envc);
  }

  /** What a new program finds on its stack: argc, argv, envp. */
  ghost predicate StackAt(mem: seq<nat>, sp: nat, argc: nat) {
    sp + 12 <= |mem| && GetLong(mem, sp) == argc && GetLong(mem, sp + 4) == sp + 12 &&
    GetLong(mem, sp + 8) == sp + 12 + 4 * (argc + 1)
  }

  lemma StackWords(mem: seq<nat>, sp: nat, argc: nat, argv: nat, envp: nat)
    requires sp + 12 <= |mem| && argc < 0x1_0000_0000 && argv == sp + 12
    requires envp == argv + 4 * (argc + 1) < 0x1_0000_0000
    ensures StackAt(PutLong(PutLong(PutLong(mem, sp + 8, envp), sp + 4, argv), sp, argc), sp, argc)
  {
    var one := PutLong(mem, sp + 8, envp);
    var two := PutLong(one, sp + 4, argv);
    var three := PutLong(two, sp, argc);
    GetPut(mem, sp + 8, envp);
    GetPut(one, sp + 4, argv);
    GetPut(two, sp, argc);
    GetFrame(one, two, sp + 8);
    GetFrame(two, three, sp + 8);
    GetFrame(two, three, sp + 4);
  }

  lemma StackFrame(mem: seq<nat>, mem': seq<nat>, sp: nat, argc: nat)
    requires StackAt(mem, sp, argc) && Same(mem, mem', sp, sp + 12)
    ensures StackAt(mem', sp, argc)
  {
    GetFrame(mem, mem', sp);
    GetFrame(mem, mem', sp + 4);
    GetFrame(mem, mem', sp + 8);
  }

  /** Memory below `p` may have changed; the block from `p` on has not. */
  lemma BlockStays(mem: seq<nat>, mem': seq<nat>, p: nat, strs: seq<Str>)
    requires BlockAt(mem, p, strs) && Same(mem, mem', p, |mem|)
    ensures BlockAt(mem', p, strs)
  {
    assert mem'[p..p + |Block(strs)|] == mem[p..p + |Block(strs)|];
  }

  lemma BlockTail(strs: seq<Str>, i: nat)
    requires i < |strs|
    ensures Block(strs[i..]) == strs[i] + [0] + Block(strs[i + 1..])
    ensures |Block(strs[i..])| <= |Block(strs)|
  {
    assert strs[i..][1..] == strs[i + 1..];
    assert strs == strs[..i] + strs[i..];
    BlockAppend(strs[..i], strs[i..]);
  }

  /** One more string below those already copied. */
  lemma Deeper(was: seq<nat>, area: seq<nat>, t: seq<nat>, block: seq<nat>, q: nat, below: nat, p: nat)
    requires q + |t| == below && below + |block| == p <= |was| == |area|
    requires area == was[..below] + block + was[p..]
    ensures area[..q] + t + area[below..] == was[..q] + (t + block) + was[p..]
  {
    assert area[..q] == was[..q];
    assert area[below..] == block + was[p..];
  }

  /** A word written below the block leaves the block alone. */
  lemma PutBelow(mem: seq<nat>, base: nat, strs: seq<Str>, a: nat, v: nat)
    requires BlockAt(mem, base, strs) && a + 4 <= base
    ensures BlockAt(PutLong(mem, a, v), base, strs)
  {
    BlockStays(mem, PutLong(mem, a, v), base, strs);
  }

  /** The table's `i`-th entry is the `from + i`-th string of the block at `base`. */
  ghost predicate Row(mem: seq<nat>, table: nat, base: nat, strs: seq<Str>, from: nat, i: nat) {
    from + i < |strs| && Entry(mem, table, i, strs[from + i]) && GetLong(mem, table + 4 * i) >= base
  }

  /** The first `j` entries are written. */
  ghost predicate Filled(mem: seq<nat>, table: nat, base: nat, strs: seq<Str>, from: nat, j: nat) {
    BlockAt(mem, base, strs) && forall i: nat :: i < j ==> Row(mem, table, base, strs, from, i)
  }

  /** Writing the next word of a table leaves the entries before it. */
  lemma FilledStays(mem: seq<nat>, mem': seq<nat>, table: nat, base: nat, strs: seq<Str>, from: nat, j: nat, v: nat)
    requires table + 4 * j + 4 <= base && Filled(mem, table, base, strs, from, j)
    requires mem' == PutLong(mem, table + 4 * j, v)
    ensures Filled(mem', table, base, strs, from, j)
  {
    PutBelow(mem, base, strs, table + 4 * j, v);
    forall i: nat | i < j ensures Row(mem', table, base, strs, from, i) {
      assert Row(mem, table, base, strs, from, i);
      var s, at := strs[from + i], GetLong(mem, table + 4 * i);
      GetFrame(mem, mem', table + 4 * i);
      assert mem'[at..at + |s|] == mem[at..at + |s|];
    }
  }

  lemma FillNext(mem: seq<nat>, table: nat, base: nat, strs: seq<Str>, from: nat, j: nat, q: nat)
    requires Filled(mem, table, base, strs, from, j) && from + j < |strs| && 0 < base && |mem| <= 0x1_0000_0000
    requires table + 4 * j + 4 <= base && q == base + Offset(strs, from + j)
    ensures q < |mem|
    ensures var mem' := PutLong(mem, table + 4 * j, q);
      Filled(mem', table, base, strs, from, j + 1) && StrAt(mem', q, strs[from + j])
    ensures q + |strs[from + j]| + 1 == base + Offset(strs, from + (j + 1))
  {
    var mem' := PutLong(mem, table + 4 * j, q);
    StringOfBlock(mem, base, strs, from + j);
    FilledStays(mem, mem', table, base, strs, from, j, q);
    BlockSlice(strs, from + j);
    NewRow(mem, mem', table, base, strs, from, j, q);
  }

  lemma NewRow(mem: seq<nat>, mem': seq<nat>, table: nat, base: nat, strs: seq<Str>, from: nat, j: nat, q: nat)
    requires table + 4 * j + 4 <= base && from + j < |strs| && 0 < base
    requires q == base + Offset(strs, from + j) < 0x1_0000_0000
    requires base <= |mem| && mem' == PutLong(mem, table + 4 * j, q) && BlockAt(mem', base, strs)
    ensures Row(mem', table, base, strs, from, j) && StrAt(mem', q, strs[from + j])
  {
    StringOfBlock(mem', base, strs, from + j);
    GetPut(mem, table + 4 * j, q);
  }

  lemma FilledFrame(mem: seq<nat>, mem': seq<nat>, table: nat, base: nat, strs: seq<Str>, from: nat, n: nat)
    requires Filled(mem, table, base, strs, from, n) && Same(mem, mem', table, table + 4 * n)
    requires Same(mem, mem', base, |mem|)
    ensures Filled(mem', table, base, strs, from, n)
  {
    BlockStays(mem, mem', base, strs);
    forall i: nat | i < n ensures Row(mem', table, base, strs, from, i) {
      assert Row(mem, table, base, strs, from, i);
      var s, at := strs[from + i], GetLong(mem, table + 4 * i);
      GetFrame(mem, mem', table + 4 * i);
      assert mem'[at..at + |s|] == mem[at..at + |s|];
    }
  }

  lemma FilledIsTable(mem: seq<nat>, table: nat, base: nat, strs: seq<Str>, from: nat, n: nat)
    requires Filled(mem, table, base, strs, from, n) && from + n <= |strs| && table + 4 * n + 4 <= base
    requires GetLong(mem, table + 4 * n) == 0 && base > 0
    ensures Table(mem, table, strs[from..from + n])
  {
    var part := strs[from..from + n];
    forall i: nat | i < |part| ensures Entry(mem, table, i, part[i]) {
      assert Row(mem, table, base, strs, from, i);
    }
  }

  /** Inside a string there is no 0 before its end. */
  lemma StringEnd(mem: seq<nat>, p: nat, s: Str, q: nat)
    requires StrAt(mem, p, s) && IsStr(s) && p <= q <= p + |s| && mem[q] == 0
    ensures q == p + |s|
  {
    assert forall j :: p <= j < p + |s| ==> mem[j] == mem[p..p + |s|][j - p];
  }

  lemma ScanEnd(s: Str, len: nat)
    requires IsStr(s) && 0 < len <= |s| + 1 && (s + [0])[len - 1] == 0
    ensures len == |s| + 1
  {
  }
}
