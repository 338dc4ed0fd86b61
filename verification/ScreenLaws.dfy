/** What each control byte and escape sequence does to the screen, byte by byte as a program sends it. */
module ScreenLaws {
  import opened Links
  import opened Screen

  // ----- Reading a sequence

  lemma {:induction false} WriteOn(t: Term, a: seq<nat>, b: seq<nat>, erase: nat)
    requires Ok(t)
    ensures WriteAll(t, a + b, erase) == WriteAll(WriteAll(t, a, erase), b, erase)
    decreases |a|
  {
    if a == [] {
      assert a + b == b;
    } else {
      assert (a + b)[1..] == a[1..] + b;
      WriteOn(Write(t, a[0], erase), a[1..], b, erase);
    }
  }

  lemma WriteOne(t: Term, c: nat, erase: nat)
    requires Ok(t)
    ensures WriteAll(t, [c], erase) == Write(t, c, erase)
  {
    assert [c][1..] == [];
    assert WriteAll(Write(t, c, erase), [], erase) == Write(t, c, erase);
  }

  /** A number in decimal, as its bytes. */
  function Digits(n: nat): (s: seq<nat>)
    ensures s != [] && forall i :: 0 <= i < |s| ==> IsDigit(s[i])
  {
    if n < 10 then ['0' as nat + n] else Digits(n / 10) + ['0' as nat + n % 10]
  }

  /** The parameter being read is now `m`. */
  function Reading(t: Term, m: nat): Term
    requires t.npar < |t.par|
  {
    t.(par := t.par[t.npar := m])
  }

  lemma DigitRead(t: Term, d: nat, erase: nat)
    requires Ok(t) && t.state == 3 && d < 10
    ensures t.npar < |t.par| &&
      WriteAll(t, ['0' as nat + d], erase) == Reading(t, (10 * t.par[t.npar] + d) % WORD)
  {
    WriteOne(t, '0' as nat + d, erase);
  }

  /** The digits of a number leave it as the value of the parameter they are read into. */
  lemma {:induction false} DigitsRead(t: Term, n: nat, erase: nat)
    requires Ok(t) && t.state == 3 && t.par[t.npar] == 0 && n < WORD
    ensures WriteAll(t, Digits(n), erase) == Reading(t, n)
    decreases n
  {
    ReadingOk(t, n);
    if n < 10 {
      hide Ok, WriteAll;
      DigitRead(t, n, erase);
    } else {
      ReadingOk(t, n / 10);
      hide Ok, WriteAll;
      DigitsRead(t, n / 10, erase);
      WriteOn(t, Digits(n / 10), ['0' as nat + n % 10], erase);
      DigitRead(Reading(t, n / 10), n % 10, erase);
      assert 10 * (n / 10) + n % 10 == n;
      assert Reading(Reading(t, n / 10), n) == Reading(t, n);
    }
  }

  lemma ReadingOk(t: Term, m: nat)
    requires Ok(t) && m < WORD
    ensures t.npar < |t.par| && Ok(Reading(t, m)) && Reading(t, m).par[t.npar] == m
  {
  }

  /** Up to 16 numbers, with semicolons between them. */
  function Numbers(ps: seq<nat>): (s: seq<nat>) {
    if ps == [] then [] else if |ps| == 1 then Digits(ps[0]) else Digits(ps[0]) + [';' as nat] + Numbers(ps[1..])
  }

  /** ESC [, the numbers, and the final byte. */
  function Csi(ps: seq<nat>, c: char): seq<nat> {
    [27, '[' as nat] + Numbers(ps) + [c as nat]
  }

  ghost predicate Parameters(ps: seq<nat>) {
    |ps| <= NPAR && forall i :: 0 <= i < |ps| ==> ps[i] < WORD
  }

  /** The parameters from `k` on are `ps`, and those behind are as before. */
  function Filled(par: seq<nat>, k: nat, ps: seq<nat>): (r: seq<nat>)
    requires k + |ps| <= |par|
    ensures |r| == |par|
  {
    par[..k] + ps + par[k + |ps|..]
  }

  lemma FilledOn(par: seq<nat>, k: nat, ps: seq<nat>)
    requires ps != [] && k + |ps| <= |par|
    ensures Filled(par[k := ps[0]], k + 1, ps[1..]) == Filled(par, k, ps)
  {
  }

  lemma {:induction false} NumbersRead(t: Term, ps: seq<nat>, erase: nat)
    requires Ok(t) && t.state == 3 && ps != [] && Parameters(ps) && t.npar + |ps| <= NPAR
    requires forall i :: t.npar <= i < NPAR ==> t.par[i] == 0
    ensures WriteAll(t, Numbers(ps), erase) == t.(par := Filled(t.par, t.npar, ps), npar := t.npar + |ps| - 1)
    decreases |ps|
  {
    var t1 := t.(par := t.par[t.npar := ps[0]]);
    hide Ok;
    FirstRead(t, ps, erase);
    if |ps| == 1 {
      assert t1.par == Filled(t.par, t.npar, ps);
    } else {
      var t2 := t1.(npar := t.npar + 1);
      NumbersRead(t2, ps[1..], erase);
      FilledOn(t.par, t.npar, ps);
    }
  }

  /** The first number, and the semicolon behind it. */
  lemma FirstRead(t: Term, ps: seq<nat>, erase: nat)
    requires Ok(t) && t.state == 3 && ps != [] && Parameters(ps) && t.npar + |ps| <= NPAR && t.par[t.npar] == 0
    ensures var t1 := t.(par := t.par[t.npar := ps[0]]); var t2 := t1.(npar := t.npar + 1);
      Ok(t1) && if |ps| == 1 then WriteAll(t, Numbers(ps), erase) == t1
      else Ok(t2) && WriteAll(t, Numbers(ps), erase) == WriteAll(t2, Numbers(ps[1..]), erase)
  {
    DigitsRead(t, ps[0], erase);
    var t1 := t.(par := t.par[t.npar := ps[0]]);
    if |ps| > 1 {
      WriteOn(t, Digits(ps[0]) + [';' as nat], Numbers(ps[1..]), erase);
      WriteOn(t, Digits(ps[0]), [';' as nat], erase);
      WriteOne(t1, ';' as nat, erase);
    }
  }

  /** What a whole sequence without a question mark comes to: its final byte, with the numbers as parameters and zeros
      behind them. */
  lemma SequenceRead(t: Term, ps: seq<nat>, c: char, erase: nat)
    requires Ok(t) && t.state == 0 && Parameters(ps) && c != '?' && c != ';' && !('0' <= c <= '9')
    ensures Ok(Read(t, ps)) && WriteAll(t, Csi(ps, c), erase) == Final(Read(t, ps), c as nat)
  {
    var s := t.(par := seq(NPAR, _ => 0), npar := 0, state := 3, ques := false);
    var u := Read(t, ps);
    assert Csi(ps, c) == [27] + (['[' as nat] + (Numbers(ps) + [c as nat]));
    assert Ok(u.(state := 3)) && Ok(u) && Ok(s) by { assert forall i :: 0 <= i < NPAR ==> u.par[i] < WORD; }
    hide Ok, Final;
    BracketRead(t, Numbers(ps) + [c as nat], erase);
    WriteOn(s, Numbers(ps), [c as nat], erase);
    if ps == [] {
      assert u.par == s.par && WriteAll(s, [], erase) == s;
    } else {
      NumbersRead(s, ps, erase);
      assert Filled(s.par, 0, ps) == u.par;
    }
    WriteOne(u.(state := 3), c as nat, erase);
    FinalByte(u, c, erase);
  }

  lemma FinalByte(u: Term, c: char, erase: nat)
    requires Ok(u) && Ok(u.(state := 3)) && u.state == 0 && c != '?' && c != ';' && !('0' <= c <= '9')
    ensures Write(u.(state := 3), c as nat, erase) == Final(u, c as nat)
  {
    assert u.(state := 3).(state := 0) == u;
  }

  /** ESC [ clears the parameters. */
  lemma BracketRead(t: Term, rest: seq<nat>, erase: nat)
    requires Ok(t) && t.state == 0 && rest != [] && rest[0] != '?' as nat
    ensures var s := t.(par := seq(NPAR, _ => 0), npar := 0, state := 3, ques := false);
      Ok(s) && WriteAll(t, [27] + (['[' as nat] + rest), erase) == WriteAll(s, rest, erase)
  {
    var t1, t2 := t.(state := 1), t.(state := 2);
    WriteOn(t, [27], ['[' as nat] + rest, erase);
    WriteOn(t1, ['[' as nat], rest, erase);
    WriteOne(t, 27, erase);
    WriteOne(t1, '[' as nat, erase);
  }

  /** The terminal with the numbers of a sequence as its parameters. */
  function Read(t: Term, ps: seq<nat>): Term
    requires |ps| <= NPAR
  {
    t.(par := ps + seq(NPAR - |ps|, _ => 0), npar := if ps == [] then 0 else |ps| - 1, ques := false)
  }

  // ----- Moving the cursor

  /** Only the cursor is elsewhere; the parameters of a sequence stay behind. */
  ghost predicate MovedTo(t: Term, t': Term, x: nat, y: nat) {
    t' == t.(x := x, y := y, par := t'.par, npar := t'.npar, ques := t'.ques)
  }

  /** Ready for a sequence, on a screen whose sides are 32-bit numbers. */
  ghost predicate Ready(t: Term) {
    Ok(t) && t.state == 0 && t.lines <= WORD && t.cols < WORD
  }

  lemma WrapsOnce(a: int)
    requires -WORD <= a < 2 * WORD
    ensures Wrapped(a) == if a < 0 then a + WORD else if a < WORD then a else a - WORD
  {
  }

  /** The one number of a sequence, and what is not touched by reading it. */
  lemma OneNumber(t: Term, n: nat)
    requires Ready(t) && 0 < n < WORD
    ensures var u := Read(t, [n]);
      Ok(u) && AtLeastOne(u) == u && u.par[0] == n && u == t.(par := u.par, npar := 0, ques := false) &&
      t.x <= t.cols && t.y < t.lines
  {
  }

  /** ESC [ n A: up, unless that is off the screen. Only a number near 2 to the 32nd, which counts as negative, goes
      down. */
  lemma CursorUp(t: Term, n: nat, erase: nat)
    requires Ready(t) && 0 < n < WORD
    ensures var t' := WriteAll(t, Csi([n], 'A'), erase);
      if n <= t.y then MovedTo(t, t', t.x, t.y - n)
      else if n <= WORD - t.lines + t.y then MovedTo(t, t', t.x, t.y) else MovedTo(t, t', t.x, t.y + WORD - n)
  {
    SequenceRead(t, [n], 'A', erase);
    OneNumber(t, n);
    WrapsOnce(t.y - n);
    hide WriteAll, Csi, Numbers, Stepped, Wrapped, Ok, AtLeastOne, Read;
  }

  /** ESC [ n B and ESC [ n e: down. */
  lemma CursorDown(t: Term, n: nat, c: char, erase: nat)
    requires Ready(t) && 0 < n < WORD && (c == 'B' || c == 'e')
    ensures var t' := WriteAll(t, Csi([n], c), erase);
      if t.y + n < t.lines then MovedTo(t, t', t.x, t.y + n)
      else if t.y + n < WORD then MovedTo(t, t', t.x, t.y) else MovedTo(t, t', t.x, t.y + n - WORD)
  {
    SequenceRead(t, [n], c, erase);
    OneNumber(t, n);
    WrapsOnce(t.y + n);
    hide WriteAll, Csi, Numbers, Moved, Wrapped, Ok, AtLeastOne, Read;
  }

  /** ESC [ n C and ESC [ n a: right, at most to the place behind the last column. */
  lemma CursorRight(t: Term, n: nat, c: char, erase: nat)
    requires Ready(t) && 0 < n < WORD && (c == 'C' || c == 'a')
    ensures var t' := WriteAll(t, Csi([n], c), erase);
      if t.x + n <= t.cols then MovedTo(t, t', t.x + n, t.y)
      else if t.x + n < WORD then MovedTo(t, t', t.x, t.y) else MovedTo(t, t', t.x + n - WORD, t.y)
  {
    SequenceRead(t, [n], c, erase);
    OneNumber(t, n);
    WrapsOnce(t.x + n);
    hide WriteAll, Csi, Numbers, Moved, Wrapped, Ok, AtLeastOne, Read;
  }

  /** ESC [ n D: left. */
  lemma CursorLeft(t: Term, n: nat, erase: nat)
    requires Ready(t) && 0 < n < WORD
    ensures var t' := WriteAll(t, Csi([n], 'D'), erase);
      if n <= t.x then MovedTo(t, t', t.x - n, t.y)
      else if n < WORD - t.cols + t.x then MovedTo(t, t', t.x, t.y) else MovedTo(t, t', t.x + WORD - n, t.y)
  {
    SequenceRead(t, [n], 'D', erase);
    OneNumber(t, n);
    WrapsOnce(t.x - n);
    hide WriteAll, Csi, Numbers, PlacedAt, Wrapped, Ok, AtLeastOne, Read;
  }

  /** ESC [ n E: to the first column `n` lines down. */
  lemma LinesDown(t: Term, n: nat, erase: nat)
    requires Ready(t) && 0 < n < WORD
    ensures var t' := WriteAll(t, Csi([n], 'E'), erase);
      if t.y + n < t.lines then MovedTo(t, t', 0, t.y + n)
      else if t.y + n < WORD then MovedTo(t, t', t.x, t.y) else MovedTo(t, t', 0, t.y + n - WORD)
  {
    SequenceRead(t, [n], 'E', erase);
    OneNumber(t, n);
    WrapsOnce(t.y + n);
    hide WriteAll, Csi, Numbers, PlacedAt, Wrapped, Ok, AtLeastOne, Read;
  }

  /** ESC [ n F: to the first column `n` lines up. */
  lemma LinesUp(t: Term, n: nat, erase: nat)
    requires Ready(t) && 0 < n < WORD
    ensures var t' := WriteAll(t, Csi([n], 'F'), erase);
      if n <= t.y then MovedTo(t, t', 0, t.y - n)
      else if n <= WORD - t.lines + t.y then MovedTo(t, t', t.x, t.y) else MovedTo(t, t', 0, t.y + WORD - n)
  {
    SequenceRead(t, [n], 'F', erase);
    OneNumber(t, n);
    WrapsOnce(t.y - n);
    hide WriteAll, Csi, Numbers, PlacedAt, Wrapped, Ok, AtLeastOne, Read;
  }

  /** ESC [ n G and ESC [ n `: to column `n`, counted from 1. */
  lemma ToColumn(t: Term, n: nat, c: char, erase: nat)
    requires Ready(t) && 0 < n < WORD && (c == 'G' || c == '`')
    ensures var t' := WriteAll(t, Csi([n], c), erase);
      if n <= t.cols + 1 then MovedTo(t, t', n - 1, t.y) else MovedTo(t, t', t.x, t.y)
  {
    hide WriteAll, Csi, Numbers, Stepped;
    SequenceRead(t, [n], c, erase);
  }

  /** ESC [ n d: to line `n`. */
  lemma ToLine(t: Term, n: nat, erase: nat)
    requires Ready(t) && 0 < n < WORD
    ensures var t' := WriteAll(t, Csi([n], 'd'), erase);
      if n <= t.lines then MovedTo(t, t', t.x, n - 1) else MovedTo(t, t', t.x, t.y)
  {
    hide WriteAll, Csi, Numbers, Edited;
    SequenceRead(t, [n], 'd', erase);
  }

  /** ESC [ line ; column H, and with f. */
  lemma ToPlace(t: Term, line: nat, column: nat, c: char, erase: nat)
    requires Ready(t) && 0 < line < WORD && 0 < column < WORD && (c == 'H' || c == 'f')
    ensures var t' := WriteAll(t, Csi([line, column], c), erase);
      if line <= t.lines && column <= t.cols + 1 then MovedTo(t, t', column - 1, line - 1) else MovedTo(t, t', t.x, t.y)
  {
    hide WriteAll, Csi, Numbers, Edited;
    SequenceRead(t, [line, column], c, erase);
  }

  /** A number left out, or 0, counts as 1. */
  lemma MissingIsOne(t: Term, c: char, erase: nat)
    requires Ready(t) && c in ['A', 'B', 'e', 'C', 'a', 'D', 'E', 'F', 'G', '`', 'd']
    ensures SameScreen(WriteAll(t, Csi([1], c), erase), WriteAll(t, Csi([], c), erase))
    ensures SameScreen(WriteAll(t, Csi([1], c), erase), WriteAll(t, Csi([0], c), erase))
  {
    SequenceRead(t, [1], c, erase);
    MissingOrNone(t, [], c, erase);
    MissingOrNone(t, [0], c, erase);
  }

  lemma MissingOrNone(t: Term, ps: seq<nat>, c: char, erase: nat)
    requires Ready(t) && c in ['A', 'B', 'e', 'C', 'a', 'D', 'E', 'F', 'G', '`', 'd'] && (ps == [] || ps == [0])
    ensures Ok(Read(t, [1])) && SameScreen(Final(Read(t, [1]), c as nat), WriteAll(t, Csi(ps, c), erase))
  {
    hide WriteAll, Csi, Numbers;
    SequenceRead(t, [1], c, erase);
    SequenceRead(t, ps, c, erase);
    assert Read(t, ps).par[0] == 0;
    if c in ['G', '`', 'd'] {
      FirstByDefault(Read(t, [1]), Read(t, ps), c as nat);
    } else {
      OneByDefault(Read(t, [1]), Read(t, ps), c as nat);
    }
  }

  lemma OneByDefault(t: Term, u: Term, c: nat)
    requires Ok(t) && Ok(u) && SameScreen(t, u) && t.par[0] == 1 && u.par[0] == 0
    requires c in ['A' as nat, 'B' as nat, 'e' as nat, 'C' as nat, 'a' as nat, 'D' as nat, 'E' as nat, 'F' as nat]
    ensures SameScreen(Final(t, c), Final(u, c))
  {
    assert AtLeastOne(t) == t && AtLeastOne(u).par[0] == 1;
    assert AtLeastOne(u) == u.(par := AtLeastOne(u).par);
    hide Ok, AtLeastOne, Edited, PlacedAt, Wrapped;
  }

  lemma FirstByDefault(t: Term, u: Term, c: nat)
    requires Ok(t) && Ok(u) && SameScreen(t, u) && t.par[0] == 1 && u.par[0] == 0
    requires c in ['G' as nat, '`' as nat, 'd' as nat]
    ensures SameScreen(Final(t, c), Final(u, c))
  {
    assert FromOne(t, 0).par[0] == 0 == FromOne(u, 0).par[0];
  }

  /** The same but for what a sequence left of its parameters. */
  ghost predicate SameScreen(t: Term, t': Term) {
    MovedTo(t, t', t.x, t.y)
  }

  /** ESC [ H alone goes to the upper left corner; ESC [ line H to the first column. */
  lemma HomeIsFirst(t: Term, line: nat, c: char, erase: nat)
    requires Ready(t) && 0 < line < WORD && (c == 'H' || c == 'f')
    ensures MovedTo(t, WriteAll(t, Csi([], c), erase), 0, 0)
    ensures var t' := WriteAll(t, Csi([line], c), erase);
      if line <= t.lines then MovedTo(t, t', 0, line - 1) else MovedTo(t, t', t.x, t.y)
  {
    SequenceRead(t, [], c, erase);
    SequenceRead(t, [line], c, erase);
  }

  /** ESC [ s and ESC [ u: whatever happens to the cursor in between, it comes back. */
  lemma SaveAndRestore(t: Term, u: Term, erase: nat)
    requires Ready(t) && Ready(u) && u.cols == t.cols && u.lines == t.lines
    ensures SameScreen(t.(savedX := t.x, savedY := t.y), WriteAll(t, Csi([], 's'), erase))
    ensures var s := WriteAll(t, Csi([], 's'), erase);
      (u.savedX == s.savedX && u.savedY == s.savedY ==> MovedTo(u, WriteAll(u, Csi([], 'u'), erase), t.x, t.y))
  {
    hide WriteAll, Csi, Numbers;
    SequenceRead(t, [], 's', erase);
    SequenceRead(u, [], 'u', erase);
  }

  // ----- Erasing

  /** Only cells changed: those from `from` up to `to` are blank now, light grey on black. */
  ghost predicate Erased(t: Term, t': Term, from: nat, to: nat) {
    SameScreen(t, t'.(cells := t.cells)) && |t'.cells| == |t.cells| &&
    forall i :: 0 <= i < |t.cells| ==> t'.cells[i] == if from <= i < to then 0x0720 else t.cells[i]
  }

  /** ESC [ J: from the cursor to the end; with 1, from the start up to the cursor; with 2, everything; else nothing. */
  lemma ErasesDisplay(t: Term, mode: nat, erase: nat)
    requires Ready(t) && mode < WORD
    ensures 0 <= t.y * t.cols
    ensures var t', at, end := WriteAll(t, Csi([mode], 'J'), erase), t.y * t.cols + t.x, |t.cells|;
      if mode == 0 then Erased(t, t', at, end) else if mode == 1 then Erased(t, t', 0, at)
      else if mode == 2 then Erased(t, t', 0, end) else SameScreen(t, t')
    ensures SameScreen(WriteAll(t, Csi([0], 'J'), erase), WriteAll(t, Csi([], 'J'), erase))
  {
    hide WriteAll, Csi, Numbers;
    SequenceRead(t, [mode], 'J', erase);
    SequenceRead(t, [0], 'J', erase);
    SequenceRead(t, [], 'J', erase);
    CursorInside(t);
    assert Read(t, [mode]).par[0] == mode;
  }

  /** ESC [ K: the same within the cursor's row. */
  lemma ErasesLine(t: Term, mode: nat, erase: nat)
    requires Ready(t) && mode < WORD
    ensures 0 <= t.y * t.cols
    ensures var t', row := WriteAll(t, Csi([mode], 'K'), erase), t.y * t.cols;
      if mode == 0 then Erased(t, t', row + t.x, row + t.cols) else if mode == 1 then Erased(t, t', row, row + t.x)
      else if mode == 2 then Erased(t, t', row, row + t.cols) else SameScreen(t, t')
    ensures SameScreen(WriteAll(t, Csi([0], 'K'), erase), WriteAll(t, Csi([], 'K'), erase))
  {
    hide WriteAll, Csi, Numbers;
    SequenceRead(t, [mode], 'K', erase);
    SequenceRead(t, [0], 'K', erase);
    SequenceRead(t, [], 'K', erase);
    CursorInside(t);
    assert Read(t, [mode]).par[0] == mode;
  }

  // ----- Rows

  /** The character and colour in column `c` of row `r`. */
  function CellAt(t: Term, r: nat, c: nat): nat
    requires Ok(t) && r < t.lines && c < t.cols
  {
    InGrid(t, r, c);
    t.cells[r * t.cols + c]
  }

  lemma InGrid(t: Term, r: nat, c: nat)
    requires Ok(t) && r < t.lines && c < t.cols
    ensures 0 <= r * t.cols && r * t.cols + c < |t.cells|
  {
    Rows(r, t.lines, t.cols);
  }

  ghost predicate SameSize(t: Term, t': Term) {
    Ok(t) && Ok(t') && t'.lines == t.lines && t'.cols == t.cols
  }

  /** A cell of a screen whose rows `a` up to `b` moved up by `n`, blank rows coming in below. */
  ghost predicate CellUp(t: Term, t': Term, a: nat, b: nat, n: nat, r: nat, c: nat)
    requires SameSize(t, t') && b <= t.lines && r < t.lines && c < t.cols
  {
    CellAt(t', r, c) == if !(a <= r < b) then CellAt(t, r, c) else if r + n < b then CellAt(t, r + n, c) else 0x0720
  }

  /** The same when they moved down, blank rows coming in above. */
  ghost predicate CellDown(t: Term, t': Term, a: nat, b: nat, n: nat, r: nat, c: nat)
    requires SameSize(t, t') && b <= t.lines && r < t.lines && c < t.cols
  {
    CellAt(t', r, c) == if !(a <= r < b) then CellAt(t, r, c) else if a + n <= r then CellAt(t, r - n, c) else 0x0720
  }

  ghost predicate RowsUp(t: Term, t': Term, a: nat, b: nat, n: nat) {
    SameSize(t, t') && b <= t.lines && forall r: nat, c: nat :: r < t.lines && c < t.cols ==>
      CellUp(t, t', a, b, n, r, c)
  }

  ghost predicate RowsDown(t: Term, t': Term, a: nat, b: nat, n: nat) {
    SameSize(t, t') && b <= t.lines && forall r: nat, c: nat :: r < t.lines && c < t.cols ==>
      CellDown(t, t', a, b, n, r, c)
  }

  lemma RowOrder(a: nat, b: nat, cols: nat)
    requires a <= b
    ensures a * cols <= b * cols
  {
    if a < b { Rows(a, b, cols); }
  }

  lemma ShiftedUpRow(t: Term, a: nat, b: nat, n: nat, r: nat, c: nat)
    requires Ok(t) && a + n <= b <= t.lines && r < t.lines && c < t.cols
    ensures 0 <= a * t.cols && 0 <= n * t.cols && a * t.cols + n * t.cols <= b * t.cols <= |t.cells|
    ensures var t' := t.(cells := ShiftUp(t.cells, a * t.cols, b * t.cols, n * t.cols));
      SameSize(t, t') && CellUp(t, t', a, b, n, r, c)
  {
    var w := t.cols;
    RowOrder(a + n, b, w);
    RowOrder(b, t.lines, w);
    assert (a + n) * w == a * w + n * w;
    InGrid(t, r, c);
    if r < a {
      Rows(r, a, w);
    } else if r >= b {
      RowOrder(b, r, w);
    } else {
      RowOrder(a, r, w);
      Rows(r, b, w);
      assert (r + n) * w == r * w + n * w;
      if r + n < b {
        Rows(r + n, b, w);
      } else {
        RowOrder(b, r + n, w);
      }
    }
  }

  lemma ShiftedDownRow(t: Term, a: nat, b: nat, n: nat, r: nat, c: nat)
    requires Ok(t) && a + n <= b <= t.lines && r < t.lines && c < t.cols
    ensures 0 <= a * t.cols && 0 <= n * t.cols && a * t.cols + n * t.cols <= b * t.cols <= |t.cells|
    ensures var t' := t.(cells := ShiftDown(t.cells, a * t.cols, b * t.cols, n * t.cols));
      SameSize(t, t') && CellDown(t, t', a, b, n, r, c)
  {
    var w := t.cols;
    RowOrder(a + n, b, w);
    RowOrder(b, t.lines, w);
    assert (a + n) * w == a * w + n * w;
    InGrid(t, r, c);
    if r < a {
      Rows(r, a, w);
    } else if r >= b {
      RowOrder(b, r, w);
    } else {
      RowOrder(a, r, w);
      Rows(r, b, w);
      if a + n <= r {
        RowOrder(a + n, r, w);
        assert (r - n) * w == r * w - n * w;
      } else {
        Rows(r, a + n, w);
      }
    }
  }

  lemma UpByRows(t: Term, a: nat, b: nat, n: nat)
    requires Ok(t) && a + n <= b <= t.lines
    ensures 0 <= a * t.cols && 0 <= n * t.cols && a * t.cols + n * t.cols <= b * t.cols <= |t.cells|
    ensures RowsUp(t, t.(cells := ShiftUp(t.cells, a * t.cols, b * t.cols, n * t.cols)), a, b, n)
  {
    ShiftedUpRow(t, a, b, n, 0, 0);
    var t' := t.(cells := ShiftUp(t.cells, a * t.cols, b * t.cols, n * t.cols));
    hide ShiftUp, CellUp;
    forall r: nat, c: nat | r < t.lines && c < t.cols ensures CellUp(t, t', a, b, n, r, c) {
      ShiftedUpRow(t, a, b, n, r, c);
    }
  }

  lemma DownByRows(t: Term, a: nat, b: nat, n: nat)
    requires Ok(t) && a + n <= b <= t.lines
    ensures 0 <= a * t.cols && 0 <= n * t.cols && a * t.cols + n * t.cols <= b * t.cols <= |t.cells|
    ensures RowsDown(t, t.(cells := ShiftDown(t.cells, a * t.cols, b * t.cols, n * t.cols)), a, b, n)
  {
    ShiftedDownRow(t, a, b, n, 0, 0);
    var t' := t.(cells := ShiftDown(t.cells, a * t.cols, b * t.cols, n * t.cols));
    hide ShiftDown, CellDown;
    forall r: nat, c: nat | r < t.lines && c < t.cols ensures CellDown(t, t', a, b, n, r, c) {
      ShiftedDownRow(t, a, b, n, r, c);
    }
  }

  /** Line feed, vertical tab and form feed, and ESC D: one line down in the same column; at the bottom of the region,
      or below it, the region moves up by a row instead. */
  lemma LineFeeds(t: Term, bytes: seq<nat>, erase: nat)
    requires Ready(t) && bytes in [[10], [11], [12], [27, 'D' as nat]]
    ensures var t' := WriteAll(t, bytes, erase);
      if t.y + 1 < t.bottom then t' == t.(y := t.y + 1)
      else t' == t.(cells := t'.cells) && RowsUp(t, t', t.top, t.bottom, 1)
  {
    if |bytes| == 1 {
      WriteOne(t, bytes[0], erase);
    } else {
      EscapeRead(t, 'D' as nat, erase);
    }
    UpByRows(t, t.top, t.bottom, 1);
    assert 1 * t.cols == t.cols;
  }

  lemma EscapeRead(t: Term, c: nat, erase: nat)
    requires Ready(t)
    ensures WriteAll(t, [27, c], erase) == Write(t.(state := 1), c, erase)
  {
    WriteOn(t, [27], [c], erase);
    WriteOne(t, 27, erase);
    WriteOne(t.(state := 1), c, erase);
    assert [27] + [c] == [27, c];
  }

  /** ESC M: one line up; at the top of the region the region moves down instead. */
  lemma ReverseLineFeeds(t: Term, erase: nat)
    requires Ready(t)
    ensures var t' := WriteAll(t, [27, 'M' as nat], erase);
      if t.y > t.top then t' == t.(y := t.y - 1)
      else t' == t.(cells := t'.cells) && RowsDown(t, t', t.top, t.bottom, 1)
  {
    EscapeRead(t, 'M' as nat, erase);
    DownByRows(t, t.top, t.bottom, 1);
    assert 1 * t.cols == t.cols;
  }

  /** ESC E: the start of the next line; on the last line, nothing. */
  lemma NextLine(t: Term, erase: nat)
    requires Ready(t)
    ensures WriteAll(t, [27, 'E' as nat], erase) == if t.y + 1 < t.lines then t.(x := 0, y := t.y + 1) else t
  {
    EscapeRead(t, 'E' as nat, erase);
  }

  /** How many times an editing sequence repeats: once without a number, and no more often than `most`. */
  function Repeats(ps: seq<nat>, most: nat): nat {
    if ps == [] || ps[0] == 0 then Min(1, most) else Min(ps[0], most)
  }

  lemma ReadFirst(t: Term, ps: seq<nat>)
    requires |ps| <= 1
    ensures Read(t, ps).par[0] == if ps == [] then 0 else ps[0]
  {
  }

  /** ESC [ n L: the rows from the cursor's down move down by `n`, to the end of the screen. */
  lemma InsertsLines(t: Term, ps: seq<nat>, erase: nat)
    requires Ready(t) && |ps| <= 1 && Parameters(ps)
    ensures var t' := WriteAll(t, Csi(ps, 'L'), erase);
      SameScreen(t, t'.(cells := t.cells)) && RowsDown(t, t', t.y, t.lines, Repeats(ps, t.lines - t.y))
  {
    SequenceRead(t, ps, 'L', erase);
    ReadFirst(t, ps);
    var u, n := Read(t, ps), Times(Read(t, ps).par[0], t.lines);
    assert Final(u, 'L' as nat) == Insert(u, Lines, n);
    InsertLinesIsOneShift(u, n);
    hide Csi, ShiftDown, CellDown;
    DownByRows(u, u.y, u.lines, Min(n, t.lines - t.y));
    SameRows(t, u, WriteAll(t, Csi(ps, 'L'), erase), t.y, t.lines, Repeats(ps, t.lines - t.y));
  }

  /** ESC [ n M: they move up, over the cursor's. */
  lemma DeletesLines(t: Term, ps: seq<nat>, erase: nat)
    requires Ready(t) && |ps| <= 1 && Parameters(ps)
    ensures var t' := WriteAll(t, Csi(ps, 'M'), erase);
      SameScreen(t, t'.(cells := t.cells)) && RowsUp(t, t', t.y, t.lines, Repeats(ps, t.lines - t.y))
  {
    SequenceRead(t, ps, 'M', erase);
    ReadFirst(t, ps);
    var u, n := Read(t, ps), Times(Read(t, ps).par[0], t.lines);
    assert Final(u, 'M' as nat) == Remove(u, Lines, n);
    DeleteLinesIsOneShift(u, n);
    hide Csi, ShiftUp, CellUp;
    UpByRows(u, u.y, u.lines, Min(n, t.lines - t.y));
    SameRows(t, u, WriteAll(t, Csi(ps, 'M'), erase), t.y, t.lines, Repeats(ps, t.lines - t.y));
  }

  lemma SameRows(t: Term, u: Term, t': Term, a: nat, b: nat, n: nat)
    requires Ok(t) && Ok(u) && u.cells == t.cells && u.lines == t.lines && u.cols == t.cols
    ensures RowsUp(u, t', a, b, n) ==> RowsUp(t, t', a, b, n)
    ensures RowsDown(u, t', a, b, n) ==> RowsDown(t, t', a, b, n)
  {
    if RowsUp(u, t', a, b, n) {
      forall r: nat, c: nat | r < t.lines && c < t.cols ensures CellUp(t, t', a, b, n, r, c) {
        assert CellUp(u, t', a, b, n, r, c);
      }
    }
    if RowsDown(u, t', a, b, n) {
      forall r: nat, c: nat | r < t.lines && c < t.cols ensures CellDown(t, t', a, b, n, r, c) {
        assert CellDown(u, t', a, b, n, r, c);
      }
    }
  }

  /** ESC [ n @: the rest of the row moves right by `n`, within the row; blanks come in at the cursor. */
  lemma InsertsCharacters(t: Term, ps: seq<nat>, erase: nat)
    requires Ready(t) && |ps| <= 1 && Parameters(ps)
    ensures 0 <= t.y * t.cols && t.y * t.cols + t.cols <= |t.cells|
    ensures var t', at, end := WriteAll(t, Csi(ps, '@'), erase), t.y * t.cols + t.x, t.y * t.cols + t.cols;
      var n := Repeats(ps, t.cols - t.x);
      SameScreen(t, t'.(cells := t.cells)) && |t'.cells| == |t.cells| &&
      forall i :: 0 <= i < |t.cells| ==>
        t'.cells[i] == if !(at <= i < end) then t.cells[i] else if at + n <= i then t.cells[i - n] else 0x0720
  {
    SequenceRead(t, ps, '@', erase);
    ReadFirst(t, ps);
    var u, n := Read(t, ps), Times(Read(t, ps).par[0], t.cols);
    assert Final(u, '@' as nat) == Insert(u, Chars, n);
    CursorInside(t);
    hide Csi, Ok, Final, WriteAll;
    if t.x < t.cols { InsertCharsIsOneShift(u, n); } else { PastTheRow(u, n); }
  }

  /** ESC [ n P: the rest of the row moves left by `n`, over the cursor; blanks come in at its end. */
  lemma DeletesCharacters(t: Term, ps: seq<nat>, erase: nat)
    requires Ready(t) && |ps| <= 1 && Parameters(ps)
    ensures 0 <= t.y * t.cols && t.y * t.cols + t.cols <= |t.cells|
    ensures var t', at, end := WriteAll(t, Csi(ps, 'P'), erase), t.y * t.cols + t.x, t.y * t.cols + t.cols;
      var n := Repeats(ps, t.cols - t.x);
      SameScreen(t, t'.(cells := t.cells)) && |t'.cells| == |t.cells| &&
      forall i :: 0 <= i < |t.cells| ==>
        t'.cells[i] == if !(at <= i < end) then t.cells[i] else if i + n < end then t.cells[i + n] else 0x0720
  {
    SequenceRead(t, ps, 'P', erase);
    ReadFirst(t, ps);
    var u, n := Read(t, ps), Times(Read(t, ps).par[0], t.cols);
    assert Final(u, 'P' as nat) == Remove(u, Chars, n);
    CursorInside(t);
    hide Csi, Ok, Final, WriteAll;
    if t.x < t.cols { DeleteCharsIsOneShift(u, n); } else { PastTheRow(u, n); }
  }

  /** Behind the last column there is nothing to edit. */
  lemma {:induction false} PastTheRow(t: Term, n: nat)
    requires Ok(t) && t.x >= t.cols
    ensures Insert(t, Chars, n) == t && Remove(t, Chars, n) == t
    decreases n
  {
    if n > 0 { PastTheRow(t, n - 1); }
  }

  // ----- Colours and the scroll region

  /** What one number of ESC [ m makes of the colours. */
  function Coloring(attr: nat, p: nat): nat {
    match p
    case 0 => 0x07
    case 1 => 0x0f
    case 4 => 0x0f
    case 7 => 0x70
    case 27 => 0x07
    case _ => attr
  }

  function Colorings(attr: nat, ps: seq<nat>): nat
    decreases |ps|
  {
    if ps == [] then attr else Colorings(Coloring(attr, ps[0]), ps[1..])
  }

  /** ESC [ ... m: every number in turn sets the colours of what is written from now on, or leaves them; without a
      number they are the usual ones. */
  lemma SetsColours(t: Term, ps: seq<nat>, erase: nat)
    requires Ready(t) && Parameters(ps)
    ensures var t' := WriteAll(t, Csi(ps, 'm'), erase);
      SameScreen(t.(attr := if ps == [] then 0x07 else Colorings(t.attr, ps)), t')
  {
    SequenceRead(t, ps, 'm', erase);
    var u := Read(t, ps);
    if ps == [] {
      assert u.par[..u.npar + 1][0..] == [0];
      AttributeIs(u, 0);
      assert Colorings(Coloring(u.attr, 0), [0][1..]) == 0x07;
    } else {
      assert u.par[..u.npar + 1][0..] == ps;
      AttributeIs(u, 0);
    }
  }

  lemma {:induction false} AttributeIs(t: Term, i: nat)
    requires Ok(t) && i <= t.npar + 1
    ensures Attribute(t, i) == Colorings(t.attr, t.par[..t.npar + 1][i..])
    decreases t.npar + 1 - i
  {
    var ps := t.par[..t.npar + 1];
    if i <= t.npar {
      AttributeIs(t.(attr := Coloring(t.attr, t.par[i])), i + 1);
      assert ps[i..][1..] == ps[i + 1..];
    }
  }

  /** ESC [ first ; last r: from now on the rows `first` to `last`, counted from 1, are what scrolls, if there are such
      rows; without numbers, all. Neither the cursor nor a cell moves. */
  lemma SetsRegion(t: Term, first: nat, last: nat, erase: nat)
    requires Ready(t) && 0 < first < WORD && 0 < last < WORD
    ensures var t' := WriteAll(t, Csi([first, last], 'r'), erase);
      SameScreen(if first <= last <= t.lines then t.(top := first - 1, bottom := last) else t, t')
    ensures t.lines < WORD ==> SameScreen(t.(top := 0, bottom := t.lines), WriteAll(t, Csi([], 'r'), erase))
  {
    hide WriteAll, Csi, Numbers;
    SequenceRead(t, [first, last], 'r', erase);
    SequenceRead(t, [], 'r', erase);
    var u := Read(t, [first, last]);
    assert u.par[0] == first && u.par[1] == last;
    var v := Read(t, []);
    assert v.par[0] == 0 == v.par[1];
  }

  // ----- Single bytes

  /** Carriage return. */
  lemma CarriageReturn(t: Term, erase: nat)
    requires Ready(t)
    ensures WriteAll(t, [13], erase) == t.(x := 0)
  {
    WriteOne(t, 13, erase);
  }

  /** Backspace: one column left, unless it is the first; nothing is erased. */
  lemma BackSpace(t: Term, erase: nat)
    requires Ready(t) && erase != 8
    ensures WriteAll(t, [8], erase) == if t.x > 0 then t.(x := t.x - 1) else t
  {
    WriteOne(t, 8, erase);
  }

  /** The erase character of the line: one column left, and that cell is blank. */
  lemma ErasesCharacter(t: Term, erase: nat)
    requires Ready(t) && (erase == 8 || erase == 127) && t.x <= t.cols
    ensures 0 <= t.y * t.cols && t.y * t.cols + t.x <= |t.cells|
    ensures WriteAll(t, [erase], erase) ==
      if t.x > 0 then t.(x := t.x - 1, cells := t.cells[t.y * t.cols + t.x - 1 := 0x0720]) else t
  {
    Deleted(t);
    EraseByte(t, erase);
    hide Delete, Ok, WriteAll;
  }

  lemma EraseByte(t: Term, erase: nat)
    requires Ready(t) && (erase == 8 || erase == 127)
    ensures WriteAll(t, [erase], erase) == Delete(t)
  {
    WriteOne(t, erase, erase);
  }

  lemma Deleted(t: Term)
    requires Ok(t) && t.x <= t.cols
    ensures 0 <= t.y * t.cols && t.y * t.cols + t.x <= |t.cells|
    ensures Delete(t) == if t.x > 0 then t.(x := t.x - 1, cells := t.cells[t.y * t.cols + t.x - 1 := 0x0720]) else t
  {
    CursorInside(t);
  }

  /** Tab: the next column whose number is a multiple of 8; behind the row, as far into the next line. */
  lemma Tabs(t: Term, erase: nat) returns (x: nat)
    requires Ready(t) && erase != 9
    ensures t.x < x <= t.x + 8 && x % 8 == 0
    ensures var t' := WriteAll(t, [9], erase);
      if x <= t.cols then t' == t.(x := x) else t' == WriteAll(t.(x := x - t.cols), [10], erase)
  {
    x := t.x + 8 - t.x % 8;
    WriteOne(t, 9, erase);
    if x > t.cols { WriteOne(t.(x := x - t.cols), 10, erase); }
  }

  /** All other control bytes, and those from 127 on but for the erase character, do nothing. */
  lemma Ignored(t: Term, c: nat, erase: nat)
    requires Ready(t) && (c < 32 || c >= 127) && c !in [8, 9, 10, 11, 12, 13, 27] && (c != erase || c >= 128)
    ensures WriteAll(t, [c], erase) == t
  {
    WriteOne(t, c, erase);
  }

  /** A printable character goes to the cursor's cell in the current colours, and the cursor on; from behind the row it
      first goes to the start of the next line. */
  lemma Prints(t: Term, c: nat, erase: nat)
    requires Ready(t) && 32 <= c < 127
    ensures 0 <= t.y * t.cols && t.y * t.cols + t.cols <= |t.cells|
    ensures var t' := WriteAll(t, [c], erase);
      if t.x < t.cols then t' == t.(x := t.x + 1, cells := t.cells[t.y * t.cols + t.x := c + 256 * t.attr])
      else t' == WriteAll(WriteAll(t.(x := 0), [10], erase), [c], erase)
  {
    WriteOne(t, c, erase);
    CursorInside(t);
    if t.x >= t.cols {
      WriteOne(t.(x := 0), 10, erase);
      WriteOne(LineFeed(t.(x := 0)), c, erase);
    }
  }

  /** ESC and any other byte: nothing, but in column 55, where it saves the cursor, and in column 56, where it restores
      it if that place is on the screen. */
  lemma OtherEscapes(t: Term, c: nat, erase: nat)
    requires Ready(t) && c !in ['[' as nat, 'D' as nat, 'E' as nat, 'M' as nat]
    ensures WriteAll(t, [27, c], erase) ==
      if c == 'Z' as nat then t else if t.x == 55 then t.(savedX := t.x, savedY := t.y)
      else if t.x == 56 && t.savedX <= t.cols && t.savedY < t.lines then t.(x := t.savedX, y := t.savedY) else t
  {
    EscapeRead(t, c, erase);
  }

  /** A sequence with any other final byte does nothing. */
  lemma UnknownSequences(t: Term, ps: seq<nat>, c: char, erase: nat)
    requires Ready(t) && Parameters(ps) && c != '?' && c != ';' && !('0' <= c <= '9')
    requires c !in ['@', 'A', 'B', 'C', 'D', 'E', 'F', 'G', 'H', 'J', 'K', 'L', 'M', 'P', '`', 'a', 'd', 'e',
      'f', 'm', 'r',
                    's', 'u']
    ensures SameScreen(t, WriteAll(t, Csi(ps, c), erase))
  {
    hide WriteAll, Csi, Numbers;
    SequenceRead(t, ps, c, erase);
  }
}
