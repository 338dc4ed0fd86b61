/** The argument strings and pointer tables that execve leaves on a new program's stack, and how the program reads
    them. */
module ExecArgs {

  const PAGE_SIZE := 4096
  const MAX_ARG_PAGES := 32
  const AREA := 131072             // MAX_ARG_PAGES pages
  const DATA_LIMIT := 0x4000000

  type Str = seq<nat>

  /** No byte of a string is 0. */
  ghost predicate IsStr(s: Str) {
    forall i :: 0 <= i < |s| ==> s[i] != 0
  }

  ghost predicate AllStr(strs: seq<Str>) {
    forall i :: 0 <= i < |strs| ==> IsStr(strs[i])
  }

  /** The strings one after another, each with its 0. */
  function Block(strs: seq<Str>): seq<nat> {
    if strs == [] then [] else strs[0] + [0] + Block(strs[1..])
  }

  lemma {:induction false} BlockAppend(a: seq<Str>, b: seq<Str>)
    ensures Block(a + b) == Block(a) + Block(b)
  {
    if a == [] {
      assert a + b == b;
    } else {
      assert (a + b)[1..] == a[1..] + b;
      BlockAppend(a[1..], b);
    }
  }

  lemma BlockOne(s: Str)
    ensures Block([s]) == s + [0]
  {
    assert Block([s]) == s + [0] + Block([s][1..]);
  }

  /** Where the `j`-th string starts. */
  function Offset(strs: seq<Str>, j: nat): nat
    requires j <= |strs|
  {
    |Block(strs[..j])|
  }

  /** Each string lies whole inside the block, followed by its 0 and then the next string. */
  lemma BlockSlice(strs: seq<Str>, j: nat)
    requires j < |strs|
    ensures Offset(strs, j + 1) == Offset(strs, j) + |strs[j]| + 1 <= |Block(strs)|
    ensures Block(strs)[Offset(strs, j)..Offset(strs, j + 1)] == strs[j] + [0]
  {
    assert strs[..j + 1] == strs[..j] + [strs[j]] && strs == strs[..j + 1] + strs[j + 1..];
    BlockAppend(strs[..j], [strs[j]]);
    BlockAppend(strs[..j + 1], strs[j + 1..]);
    BlockOne(strs[j]);
  }

  // ----- Memory

  /** A word, low byte first. */
  function GetLong(mem: seq<nat>, a: nat): nat
    requires a + 4 <= |mem|
  {
    mem[a] + 256 * mem[a + 1] + 65536 * mem[a + 2] + 16777216 * mem[a + 3]
  }

  function PutLong(mem: seq<nat>, a: nat, v: nat): (r: seq<nat>)
    requires a + 4 <= |mem|
    ensures |r| == |mem|
  {
    mem[a := v % 256][a + 1 := v / 256 % 256][a + 2 := v / 256 / 256 % 256][a + 3 := v / 256 / 256 / 256 % 256]
  }

  lemma LowByteFirst(v: nat)
    requires v < 0x1_0000_0000
    ensures v == v % 256 + 256 * (v / 256 % 256) + 65536 * (v / 256 / 256 % 256) +
      16777216 * (v / 256 / 256 / 256 % 256)
  {
    var q1, q2, q3 := v / 256, v / 256 / 256, v / 256 / 256 / 256;
    assert v == 256 * q1 + v % 256 && q1 == 256 * q2 + q1 % 256 && q2 == 256 * q3 + q2 % 256;
    assert q3 < 256;
  }

  lemma GetPut(mem: seq<nat>, a: nat, v: nat)
    requires a + 4 <= |mem| && v < 0x1_0000_0000
    ensures GetLong(PutLong(mem, a, v), a) == v
  {
    LowByteFirst(v);
  }

  /** Memory from `lo` up to `hi` is unchanged. */
  ghost predicate Same(mem: seq<nat>, mem': seq<nat>, lo: nat, hi: nat) {
    |mem'| == |mem| && hi <= |mem| && forall a :: lo <= a < hi ==> mem'[a] == mem[a]
  }

  lemma GetFrame(mem: seq<nat>, mem': seq<nat>, a: nat)
    requires Same(mem, mem', a, a + 4)
    ensures GetLong(mem', a) == GetLong(mem, a)
  {
  }

  /** How a program reads a string: up to the first 0. */
  function ReadString(mem: seq<nat>, a: nat): Str
    decreases |mem| - a
  {
    if a >= |mem| || mem[a] == 0 then [] else [mem[a]] + ReadString(mem, a + 1)
  }

  /** How a program walks a table of strings: up to the first null pointer. */
  function ReadTable(mem: seq<nat>, t: nat): seq<Str>
    decreases |mem| - t
  {
    if t + 4 > |mem| || GetLong(mem, t) == 0 then []
    else [ReadString(mem, GetLong(mem, t))] + ReadTable(mem, t + 4)
  }

  /** The string `s` is in memory at `a`. */
  ghost predicate StrAt(mem: seq<nat>, a: nat, s: Str) {
    a + |s| < |mem| && mem[a..a + |s|] == s && mem[a + |s|] == 0
  }

  lemma {:induction false} ReadStringIs(mem: seq<nat>, a: nat, s: Str)
    requires StrAt(mem, a, s) && IsStr(s)
    ensures ReadString(mem, a) == s
    decreases |s|
  {
    if s != [] {
      assert mem[a] == mem[a..a + |s|][0] == s[0];
      assert mem[a + 1..a + 1 + |s[1..]|] == mem[a..a + |s|][1..];
      ReadStringIs(mem, a + 1, s[1..]);
    }
  }

  /** A table at `t`: one pointer for each string, and a null pointer after them. */
  ghost predicate Table(mem: seq<nat>, t: nat, strs: seq<Str>) {
    t + 4 * |strs| + 4 <= |mem| && GetLong(mem, t + 4 * |strs|) == 0 &&
    forall j: nat :: j < |strs| ==> Entry(mem, t, j, strs[j])
  }

  ghost predicate Entry(mem: seq<nat>, t: nat, j: nat, s: Str) {
    t + 4 * j + 4 <= |mem| && GetLong(mem, t + 4 * j) != 0 && StrAt(mem, GetLong(mem, t + 4 * j), s)
  }

  /** A well-formed table reads back as its strings. */
  lemma {:induction false} ReadTableIs(mem: seq<nat>, t: nat, strs: seq<Str>)
    requires Table(mem, t, strs) && AllStr(strs)
    ensures ReadTable(mem, t) == strs
    decreases |strs|
  {
    if strs != [] {
      assert Entry(mem, t, 0, strs[0]);
      ReadStringIs(mem, GetLong(mem, t), strs[0]);
      forall j: nat | j < |strs[1..]| ensures Entry(mem, t + 4, j, strs[1..][j]) {
        assert Entry(mem, t, j + 1, strs[j + 1]);
      }
      ReadTableIs(mem, t + 4, strs[1..]);
    }
  }

  /** The block of all strings is in memory at `p`. */
  ghost predicate BlockAt(mem: seq<nat>, p: nat, strs: seq<Str>) {
    p + |Block(strs)| <= |mem| && mem[p..p + |Block(strs)|] == Block(strs)
  }

  lemma StringOfBlock(mem: seq<nat>, p: nat, strs: seq<Str>, j: nat)
    requires BlockAt(mem, p, strs) && j < |strs|
    ensures StrAt(mem, p + Offset(strs, j), strs[j])
  {
    BlockSlice(strs, j);
    var a, b := Offset(strs, j), Offset(strs, j + 1);
    assert mem[p + a..p + b] == mem[p..p + |Block(strs)|][a..b] == strs[j] + [0];
    assert mem[p + a..p + b - 1] == mem[p + a..p + b][..|strs[j]|];
    assert mem[p + b - 1] == mem[p + a..p + b][|strs[j]|];
  }

  // ----- #!

  datatype Option<T> = None | Some(value: T)

  /** The interpreter's path, the name it is given as argv[0], and its optional argument. */
  datatype Bang = Bang(path: Str, name: Str, arg: Option<Str>)

  /** The argument list of the program that really runs. */
  function Spliced(argv: seq<Str>, filename: Str, bang: Option<Bang>): seq<Str> {
    if bang.None? then argv
    else
      [bang.value.name] + (if bang.value.arg.Some? then [bang.value.arg.value] else []) + [filename] +
      (if argv == [] then [] else argv[1..])
  }

  /** The number the code counts them by: it takes argv[0] off even when there is none. */
  function Counted(argv: seq<Str>, bang: Option<Bang>): int {
    if bang.None? then |argv| else |argv| - 1 + 2 + (if bang.value.arg.Some? then 1 else 0)
  }

  const BLANK := 32
  const TAB := 9
  const NEWLINE := 10
  const SLASH := 47

  predicate IsBlank(b: nat) { b == BLANK || b == TAB }

  /** `line[i..c]` is the first word, and `line[n..c]` its part after the last slash. */
  ghost predicate FirstWord(line: seq<nat>, i: int, n: int, c: int) {
    0 <= i <= n <= c <= |line| && i < c && (c < |line| ==> IsBlank(line[c])) &&
    (forall j :: 0 <= j < i ==> IsBlank(line[j])) && (forall j :: i <= j < c ==> !IsBlank(line[j])) &&
    (n == i || line[n - 1] == SLASH) && (forall j :: n <= j < c ==> line[j] != SLASH)
  }

  /** The script's first line after #!, read as the code reads it: the first word is the interpreter, its last component
      the name, and what follows one blank is the argument. */
  method ParseBang(line: seq<nat>) returns (r: Option<Bang>, ghost i: int, ghost n: int, ghost c: int)
    ensures r.None? ==> forall j :: 0 <= j < |line| ==> IsBlank(line[j])
    ensures r.Some? ==> FirstWord(line, i, n, c)
    ensures r.Some? ==>
      r.value == Bang(line[i..c], line[n..c], if c < |line| then Some(line[c + 1..]) else None)
  {
    i, n, c := 0, 0, 0;
    var cp := 0;
    while cp < |line| && IsBlank(line[cp])
      invariant 0 <= cp <= |line| && forall j :: 0 <= j < cp ==> IsBlank(line[j])
    {
      cp := cp + 1;
    }
    if cp == |line| {
      return None, 0, 0, 0;
    }
    var interp, name := cp, cp;
    while cp < |line| && !IsBlank(line[cp])
      invariant interp <= name <= cp <= |line| && interp < |line| && !IsBlank(line[interp])
      invariant forall j :: interp <= j < cp ==> !IsBlank(line[j])
      invariant name == interp || line[name - 1] == SLASH
      invariant forall j :: name <= j < cp ==> line[j] != SLASH
    {
      if line[cp] == SLASH {
        name := cp + 1;
      }
      cp := cp + 1;
    }
    r := Some(Bang(line[interp..cp], line[name..cp], if cp < |line| then Some(line[cp + 1..]) else None));
    i, n, c := interp, name, cp;
  }
}
