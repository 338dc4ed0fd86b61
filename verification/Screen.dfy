/** A terminal as its user sees it: a grid of cells, a cursor, a scroll region, and the escape-sequence state. */
module Screen {
  import opened Links

  const ERASE := 0x0720            // video_erase_char
  const NPAR := 16
  const WORD := 0x1_0000_0000
  const ESC := 27

  datatype Term = Term(
    cols: nat, lines: nat,
    cells: seq<nat>,               // row after row
    x: nat, y: nat,
    top: nat, bottom: nat,         // the scroll region: rows top up to bottom
    state: nat, npar: nat, par: seq<nat>, ques: bool,
    attr: nat, savedX: nat, savedY: nat)

  /** The cursor is on the screen, or just past the end of a row. */
  ghost predicate Ok(t: Term) {
    t.cols >= 8 && t.lines > 0 && |t.cells| == t.lines * t.cols &&
    t.x <= t.cols && t.y < t.lines && t.top < t.bottom <= t.lines &&
    t.state <= 3 && t.npar < NPAR && |t.par| == NPAR && (forall i :: 0 <= i < NPAR ==> t.par[i] < WORD)
  }

  lemma Rows(a: nat, b: nat, cols: nat)
    requires a < b
    ensures a * cols + cols == (a + 1) * cols <= b * cols
  {
    assert (b - a - 1) * cols >= 0;
    assert b * cols == (a + 1) * cols + (b - a - 1) * cols;
  }

  /** Cells from `a` up to `b` move `w` places towards the front; blanks come in behind. */
  function ShiftUp(cells: seq<nat>, a: nat, b: nat, w: nat): (r: seq<nat>)
    requires a + w <= b <= |cells|
    ensures |r| == |cells|
    ensures forall i :: 0 <= i < |r| ==> r[i] == ShiftedUp(cells, a, b, w, i)
  {
    seq(|cells|, i requires 0 <= i < |cells| => ShiftedUp(cells, a, b, w, i))
  }

  function ShiftedUp(cells: seq<nat>, a: nat, b: nat, w: nat, i: int): nat
    requires a + w <= b <= |cells| && 0 <= i < |cells|
  {
    if a <= i < b - w then cells[i + w] else if b - w <= i < b then ERASE else cells[i]
  }

  /** Cells from `a` up to `b` move `w` places towards the back; blanks come in in front. */
  function ShiftDown(cells: seq<nat>, a: nat, b: nat, w: nat): (r: seq<nat>)
    requires a + w <= b <= |cells|
    ensures |r| == |cells|
    ensures forall i :: 0 <= i < |r| ==> r[i] == ShiftedDown(cells, a, b, w, i)
  {
    seq(|cells|, i requires 0 <= i < |cells| => ShiftedDown(cells, a, b, w, i))
  }

  function ShiftedDown(cells: seq<nat>, a: nat, b: nat, w: nat, i: int): nat
    requires a + w <= b <= |cells| && 0 <= i < |cells|
  {
    if a + w <= i < b then cells[i - w] else if a <= i < a + w then ERASE else cells[i]
  }

  /** `n` blanks from `a` on. */
  function Blank(cells: seq<nat>, a: nat, n: nat): (r: seq<nat>)
    requires a + n <= |cells|
    ensures |r| == |cells|
    ensures forall i :: 0 <= i < |r| ==> r[i] == if a <= i < a + n then ERASE else cells[i]
  {
    seq(|cells|, i requires 0 <= i < |cells| => if a <= i < a + n then ERASE else cells[i])
  }

  // ----- Cursor and scrolling

  function Cursor(t: Term): nat {
    t.y * t.cols + t.x
  }

  lemma CursorInside(t: Term)
    requires Ok(t)
    ensures 0 <= t.y * t.cols && t.y * t.cols + t.cols <= |t.cells|
    ensures Cursor(t) == t.y * t.cols + t.x <= t.y * t.cols + t.cols
  {
    Rows(t.y, t.lines, t.cols);
  }

  function Goto(t: Term, x: nat, y: nat): Term {
    if x > t.cols || y >= t.lines then t else t.(x := x, y := y)
  }

  /** Rows `top` up to `bottom` lie in the grid. */
  lemma Region(t: Term, top: nat, bottom: nat)
    requires Ok(t) && top < bottom <= t.lines
    ensures top * t.cols + t.cols <= bottom * t.cols <= |t.cells|
  {
    Rows(top, bottom, t.cols);
    if bottom < t.lines { Rows(bottom, t.lines, t.cols); }
  }

  function ScrollUp(t: Term, top: nat, bottom: nat): (r: Term)
    requires Ok(t) && top < bottom <= t.lines
    ensures Ok(r)
  {
    Region(t, top, bottom);
    t.(cells := ShiftUp(t.cells, top * t.cols, bottom * t.cols, t.cols))
  }

  function ScrollDown(t: Term, top: nat, bottom: nat): (r: Term)
    requires Ok(t) && top < bottom <= t.lines
    ensures Ok(r)
  {
    Region(t, top, bottom);
    t.(cells := ShiftDown(t.cells, top * t.cols, bottom * t.cols, t.cols))
  }

  function LineFeed(t: Term): (r: Term)
    requires Ok(t)
    ensures Ok(r)
  {
    if t.y + 1 < t.bottom then t.(y := t.y + 1) else ScrollUp(t, t.top, t.bottom)
  }

  function ReverseFeed(t: Term): (r: Term)
    requires Ok(t)
    ensures Ok(r)
  {
    if t.y > t.top then t.(y := t.y - 1) else ScrollDown(t, t.top, t.bottom)
  }

  /** Past the margin, the cursor goes to the next line. */
  function Wrap(t: Term): (r: Term)
    requires Ok(t)
    ensures Ok(r) && r.x < r.cols
  {
    if t.x >= t.cols then LineFeed(t.(x := t.x - t.cols)) else t
  }

  /** The cursor's cell is written. */
  function SetAt(t: Term, v: nat): (r: Term)
    requires Ok(t) && t.x < t.cols
    ensures Ok(r)
  {
    CursorInside(t);
    t.(cells := t.cells[Cursor(t) := v])
  }

  function Print(t: Term, c: nat): (r: Term)
    requires Ok(t)
    ensures Ok(r)
  {
    var w := Wrap(t);
    SetAt(w, c + 256 * w.attr).(x := w.x + 1)
  }

  function Tab(t: Term): (r: Term)
    requires Ok(t)
    ensures Ok(r)
  {
    var x := t.x + 8 - t.x % 8;
    if x > t.cols then LineFeed(t.(x := x - t.cols)) else t.(x := x)
  }

  function Delete(t: Term): (r: Term)
    requires Ok(t)
    ensures Ok(r)
  {
    if t.x == 0 then t else SetAt(Backspace(t), ERASE)
  }

  // ----- Editing

  /** csi_J */
  function EraseDisplay(t: Term, mode: nat): (r: Term)
    requires Ok(t)
    ensures Ok(r)
  {
    CursorInside(t);
    if mode == 0 then t.(cells := Blank(t.cells, Cursor(t), |t.cells| - Cursor(t)))
    else if mode == 1 then t.(cells := Blank(t.cells, 0, Cursor(t)))
    else if mode == 2 then t.(cells := Blank(t.cells, 0, |t.cells|))
    else t
  }

  /** csi_K */
  function EraseLine(t: Term, mode: nat): (r: Term)
    requires Ok(t)
    ensures Ok(r)
  {
    CursorInside(t);
    if mode == 0 then t.(cells := Blank(t.cells, Cursor(t), t.cols - t.x))
    else if mode == 1 then t.(cells := Blank(t.cells, t.y * t.cols, t.x))
    else if mode == 2 then t.(cells := Blank(t.cells, t.y * t.cols, t.cols))
    else t
  }

  function InsertChar(t: Term): (r: Term)
    requires Ok(t)
    ensures Ok(r)
  {
    CursorInside(t);
    if t.x >= t.cols then t else t.(cells := ShiftDown(t.cells, Cursor(t), t.y * t.cols + t.cols, 1))
  }

  function DeleteChar(t: Term): (r: Term)
    requires Ok(t)
    ensures Ok(r)
  {
    CursorInside(t);
    if t.x >= t.cols then t else t.(cells := ShiftUp(t.cells, Cursor(t), t.y * t.cols + t.cols, 1))
  }

  function InsertLine(t: Term): (r: Term)
    requires Ok(t)
    ensures Ok(r)
  {
    ScrollDown(t, t.y, t.lines)
  }

  function DeleteLine(t: Term): (r: Term)
    requires Ok(t)
    ensures Ok(r)
  {
    ScrollUp(t, t.y, t.lines)
  }

  datatype Edit = Chars | Lines

  function Insert(t: Term, e: Edit, n: nat): (r: Term)
    requires Ok(t)
    ensures Ok(r)
    decreases n
  {
    if n == 0 then t else Insert(if e.Chars? then InsertChar(t) else InsertLine(t), e, n - 1)
  }

  function Remove(t: Term, e: Edit, n: nat): (r: Term)
    requires Ok(t)
    ensures Ok(r)
    decreases n
  {
    if n == 0 then t else Remove(if e.Chars? then DeleteChar(t) else DeleteLine(t), e, n - 1)
  }

  /** How often csi_at, csi_L, csi_P and csi_M repeat. */
  function Times(n: nat, most: nat): nat {
    if n > most then most else if n == 0 then 1 else n
  }

  // ----- What the repeated edits come to

  /** Inserting `n` characters moves the rest of the row `n` places right, all at once; what passes the margin is lost,
      and nothing outside the row changes. */
  lemma {:induction false} InsertCharsIsOneShift(t: Term, n: nat)
    requires Ok(t) && t.x < t.cols
    ensures Cursor(t) + Min(n, t.cols - t.x) <= t.y * t.cols + t.cols <= |t.cells|
    ensures Insert(t, Chars, n) ==
      t.(cells := ShiftDown(t.cells, Cursor(t), t.y * t.cols + t.cols, Min(n, t.cols - t.x)))
    decreases n
  {
    CursorInside(t);
    var a, b := Cursor(t), t.y * t.cols + t.cols;
    if n == 0 {
      assert ShiftDown(t.cells, a, b, 0) == t.cells;
    } else {
      InsertCharsIsOneShift(InsertChar(t), n - 1);
      ShiftDownStep(t.cells, a, b, 1, Min(n - 1, t.cols - t.x));
    }
  }

  lemma {:induction false} DeleteCharsIsOneShift(t: Term, n: nat)
    requires Ok(t) && t.x < t.cols
    ensures Cursor(t) + Min(n, t.cols - t.x) <= t.y * t.cols + t.cols <= |t.cells|
    ensures Remove(t, Chars, n) ==
      t.(cells := ShiftUp(t.cells, Cursor(t), t.y * t.cols + t.cols, Min(n, t.cols - t.x)))
    decreases n
  {
    CursorInside(t);
    var a, b := Cursor(t), t.y * t.cols + t.cols;
    if n == 0 {
      assert ShiftUp(t.cells, a, b, 0) == t.cells;
    } else {
      DeleteCharsIsOneShift(DeleteChar(t), n - 1);
      ShiftUpStep(t.cells, a, b, 1, Min(n - 1, t.cols - t.x));
    }
  }

  /** `n` rows, but no more than there are from the cursor's row down. */
  lemma RowsDown(t: Term, n: nat)
    requires Ok(t)
    ensures 0 <= Min(n, t.lines - t.y) * t.cols
    ensures t.y * t.cols + Min(n, t.lines - t.y) * t.cols <= t.lines * t.cols == |t.cells|
  {
    var m := Min(n, t.lines - t.y);
    assert t.y * t.cols + m * t.cols == (t.y + m) * t.cols;
    if t.y + m < t.lines { Rows(t.y + m, t.lines, t.cols); }
  }

  /** One more row on top of `n - 1`, within `most`. */
  lemma MinRows(n: nat, most: nat, cols: nat)
    requires n > 0 && cols > 0
    ensures Min(n, most) * cols == Min(cols + Min(n - 1, most) * cols, most * cols)
  {
    if n <= most {
      assert n * cols == cols + (n - 1) * cols;
      if n < most { Rows(n, most, cols); }
    }
  }

  lemma ShiftDownStep(cells: seq<nat>, a: nat, b: nat, w: nat, p: nat)
    requires a + w <= b <= |cells| && a + p <= b
    ensures ShiftDown(ShiftDown(cells, a, b, w), a, b, p) == ShiftDown(cells, a, b, Min(w + p, b - a))
  {
  }

  lemma ShiftUpStep(cells: seq<nat>, a: nat, b: nat, w: nat, p: nat)
    requires a + w <= b <= |cells| && a + p <= b
    ensures ShiftUp(ShiftUp(cells, a, b, w), a, b, p) == ShiftUp(cells, a, b, Min(w + p, b - a))
  {
  }

  lemma LinesLeft(t: Term)
    requires Ok(t)
    ensures (t.lines - t.y) * t.cols == |t.cells| - t.y * t.cols
  {
  }

  /** How many cells `n` lines edited at the cursor move by. */
  function Travel(t: Term, n: nat): nat
    requires Ok(t)
  {
    RowsDown(t, n);
    Min(n, t.lines - t.y) * t.cols
  }

  /** A shift by one row followed by a shift by `n - 1` rows is a shift by `n` rows. */
  lemma OneMoreRow(t: Term, n: nat)
    requires Ok(t) && n > 0
    ensures 0 <= t.y * t.cols && t.y * t.cols + t.cols <= |t.cells|
    ensures t.y * t.cols + Travel(t, n - 1) <= |t.cells|
    ensures Min(t.cols + Travel(t, n - 1), |t.cells| - t.y * t.cols) == Travel(t, n)
  {
    RowsDown(t, n - 1);
    MinRows(n, t.lines - t.y, t.cols);
    Region(t, t.y, t.lines);
    LinesLeft(t);
  }

  lemma LineEdits(t: Term)
    requires Ok(t)
    ensures 0 <= t.y * t.cols && t.y * t.cols + t.cols <= |t.cells|
    ensures InsertLine(t) == t.(cells := ShiftDown(t.cells, t.y * t.cols, |t.cells|, t.cols))
    ensures DeleteLine(t) == t.(cells := ShiftUp(t.cells, t.y * t.cols, |t.cells|, t.cols))
  {
    Region(t, t.y, t.lines);
  }

  /** Inserting `n` lines moves the rows from the cursor's on down by `n`, all at once, whatever the scroll region. */
  lemma {:induction false} InsertLinesIsOneShift(t: Term, n: nat)
    requires Ok(t)
    ensures 0 <= t.y * t.cols && t.y * t.cols + Travel(t, n) <= |t.cells|
    ensures Insert(t, Lines, n) == t.(cells := ShiftDown(t.cells, t.y * t.cols, |t.cells|, Travel(t, n)))
    decreases n
  {
    RowsDown(t, n);
    if n == 0 {
      assert ShiftDown(t.cells, t.y * t.cols, |t.cells|, 0) == t.cells;
    } else {
      InsertLinesIsOneShift(InsertLine(t), n - 1);
      InsertOneMore(t, n);
    }
  }

  lemma InsertOneMore(t: Term, n: nat)
    requires Ok(t) && n > 0
    ensures var u := InsertLine(t);
      && u.y == t.y && u.cols == t.cols && u.lines == t.lines && |u.cells| == |t.cells|
      && 0 <= t.y * t.cols
      && t.y * t.cols + Travel(u, n - 1) <= |t.cells|
      && t.y * t.cols + Travel(t, n) <= |t.cells|
      && u.(cells := ShiftDown(u.cells, t.y * t.cols, |t.cells|, Travel(u, n - 1)))
         == t.(cells := ShiftDown(t.cells, t.y * t.cols, |t.cells|, Travel(t, n)))
  {
    RowsDown(t, n);
    LineEdits(t);
    OneMoreRow(t, n);
    ShiftDownStep(t.cells, t.y * t.cols, |t.cells|, t.cols, Travel(t, n - 1));
  }

  lemma {:induction false} DeleteLinesIsOneShift(t: Term, n: nat)
    requires Ok(t)
    ensures 0 <= t.y * t.cols && t.y * t.cols + Travel(t, n) <= |t.cells|
    ensures Remove(t, Lines, n) == t.(cells := ShiftUp(t.cells, t.y * t.cols, |t.cells|, Travel(t, n)))
    decreases n
  {
    RowsDown(t, n);
    if n == 0 {
      assert ShiftUp(t.cells, t.y * t.cols, |t.cells|, 0) == t.cells;
    } else {
      DeleteLinesIsOneShift(DeleteLine(t), n - 1);
      DeleteOneMore(t, n);
    }
  }

  lemma DeleteOneMore(t: Term, n: nat)
    requires Ok(t) && n > 0
    ensures var u := DeleteLine(t);
      && u.y == t.y && u.cols == t.cols && u.lines == t.lines && |u.cells| == |t.cells|
      && 0 <= t.y * t.cols
      && t.y * t.cols + Travel(u, n - 1) <= |t.cells|
      && t.y * t.cols + Travel(t, n) <= |t.cells|
      && u.(cells := ShiftUp(u.cells, t.y * t.cols, |t.cells|, Travel(u, n - 1)))
         == t.(cells := ShiftUp(t.cells, t.y * t.cols, |t.cells|, Travel(t, n)))
  {
    RowsDown(t, n);
    LineEdits(t);
    OneMoreRow(t, n);
    ShiftUpStep(t.cells, t.y * t.cols, |t.cells|, t.cols, Travel(t, n - 1));
  }

  // ----- Escape sequences

  function FirstColumn(t: Term): Term {
    t.(x := 0)
  }

  function Backspace(t: Term): Term {
    if t.x > 0 then t.(x := t.x - 1) else t
  }

  /** One byte of ordinary text; bytes of 128 and up are negative chars in the code and match nothing. */
  function Ground(t: Term, c: nat, erase: nat): (r: Term)
    requires Ok(t)
    ensures Ok(r)
  {
    if 31 < c < 127 then Print(t, c)
    else if c == ESC then t.(state := 1)
    else if c == 10 || c == 11 || c == 12 then LineFeed(t)
    else if c == 13 then FirstColumn(t)
    else Back(t, c, erase)
  }

  /** The bytes that move along the row. */
  function Back(t: Term, c: nat, erase: nat): (r: Term)
    requires Ok(t)
    ensures Ok(r)
  {
    if c == erase && c < 128 then Delete(t)
    else if c == 8 then Backspace(t)
    else if c == 9 then Tab(t)
    else t
  }

  function SaveCursor(t: Term): Term {
    t.(savedX := t.x, savedY := t.y)
  }

  function RestoreCursor(t: Term): Term {
    Goto(t, t.savedX, t.savedY)
  }

  /** The byte after ESC.  Saving and restoring the cursor look at the column, not at the byte. */
  function Escape(t: Term, c: nat): (r: Term)
    requires Ok(t)
    ensures Ok(r)
  {
    var g := t.(state := 0);
    if c == '[' as nat then t.(state := 2)
    else if c == 'E' as nat then Goto(g, 0, g.y + 1)
    else if c == 'M' as nat then ReverseFeed(g)
    else if c == 'D' as nat then LineFeed(g)
    else if c == 'Z' as nat then g
    else if t.x == '7' as nat then SaveCursor(g)
    else if t.x == '8' as nat then RestoreCursor(g)
    else g
  }

  /** Parameters wrap around like the 32-bit words they are. */
  function Wrapped(n: int): nat { n % WORD }

  predicate IsDigit(c: nat) { '0' as nat <= c <= '9' as nat }

  /** A byte inside a control sequence: a separator, a digit, or the final byte. */
  function Parameter(t: Term, c: nat): (r: Term)
    requires Ok(t)
    ensures Ok(r)
  {
    if c == ';' as nat && t.npar < NPAR - 1 then t.(npar := t.npar + 1)
    else if IsDigit(c) then t.(par := t.par[t.npar := Wrapped(10 * t.par[t.npar] + c - '0' as nat)])
    else Final(t.(state := 0), c)
  }

  /** The first byte after ESC [. */
  function Introduce(t: Term, c: nat): (r: Term)
    requires Ok(t)
    ensures Ok(r)
  {
    var s := t.(par := seq(NPAR, _ => 0), npar := 0, state := 3, ques := c == '?' as nat);
    if c == '?' as nat then s else Parameter(s, c)
  }

  /** A count of 0 means 1. */
  function AtLeastOne(t: Term): (r: Term)
    requires Ok(t)
    ensures Ok(r) && r.par[0] > 0 && r.x == t.x && r.y == t.y
  {
    if t.par[0] == 0 then t.(par := t.par[0 := 1]) else t
  }

  /** Positions are given from 1 on. */
  function FromOne(t: Term, i: nat): (r: Term)
    requires Ok(t) && i < NPAR
    ensures Ok(r)
  {
    if t.par[i] > 0 then t.(par := t.par[i := t.par[i] - 1]) else t
  }

  /** csi_m, from parameter `i` on. */
  function Attribute(t: Term, i: nat): nat
    requires Ok(t) && i <= t.npar + 1
    decreases t.npar + 1 - i
  {
    if i == t.npar + 1 then t.attr
    else
      var p := t.par[i];
      Attribute(t.(attr := if p == 0 || p == 27 then 0x07 else if p == 1 || p == 4 then 0x0f else if p == 7 then 0x70
                           else t.attr), i + 1)
  }

  function SetRegion(t: Term): (r: Term)
    requires Ok(t)
    ensures Ok(r)
  {
    var s := FromOne(t, 0);
    var u := if s.par[1] == 0 then s.(par := s.par[1 := Wrapped(s.lines)]) else s;
    if u.par[0] < u.par[1] <= u.lines then u.(top := u.par[0], bottom := u.par[1]) else u
  }

  /** The byte that ends a control sequence. */
  function Final(t: Term, c: nat): (r: Term)
    requires Ok(t)
    ensures Ok(r)
  {
    if c == 'G' as nat || c == '`' as nat then var s := FromOne(t, 0); Goto(s, s.par[0], s.y)
    else if c == 'A' as nat then var s := AtLeastOne(t); Goto(s, s.x, Wrapped(s.y - s.par[0]))
    else Stepped(t, c)
  }

  function Stepped(t: Term, c: nat): (r: Term)
    requires Ok(t)
    ensures Ok(r)
  {
    if c == 'B' as nat || c == 'e' as nat then var s := AtLeastOne(t); Goto(s, s.x, Wrapped(s.y + s.par[0]))
    else if c == 'C' as nat || c == 'a' as nat then var s := AtLeastOne(t); Goto(s, Wrapped(s.x + s.par[0]), s.y)
    else Moved(t, c)
  }

  function Moved(t: Term, c: nat): (r: Term)
    requires Ok(t)
    ensures Ok(r)
  {
    if c == 'D' as nat then var s := AtLeastOne(t); Goto(s, Wrapped(s.x - s.par[0]), s.y)
    else if c == 'E' as nat then var s := AtLeastOne(t); Goto(s, 0, Wrapped(s.y + s.par[0]))
    else if c == 'F' as nat then var s := AtLeastOne(t); Goto(s, 0, Wrapped(s.y - s.par[0]))
    else PlacedAt(t, c)
  }

  function PlacedAt(t: Term, c: nat): (r: Term)
    requires Ok(t)
    ensures Ok(r)
  {
    if c == 'd' as nat then var s := FromOne(t, 0); Goto(s, s.x, s.par[0])
    else if c == 'H' as nat || c == 'f' as nat then var s := FromOne(FromOne(t, 0), 1); Goto(s, s.par[1], s.par[0])
    else Edited(t, c)
  }

  function Edited(t: Term, c: nat): (r: Term)
    requires Ok(t)
    ensures Ok(r)
  {
    if c == 'J' as nat then EraseDisplay(t, t.par[0])
    else if c == 'K' as nat then EraseLine(t, t.par[0])
    else if c == 'L' as nat then Insert(t, Lines, Times(t.par[0], t.lines))
    else if c == 'M' as nat then Remove(t, Lines, Times(t.par[0], t.lines))
    else if c == 'P' as nat then Remove(t, Chars, Times(t.par[0], t.cols))
    else if c == '@' as nat then Insert(t, Chars, Times(t.par[0], t.cols))
    else if c == 'm' as nat then t.(attr := Attribute(t, 0))
    else if c == 'r' as nat then SetRegion(t)
    else if c == 's' as nat then SaveCursor(t)
    else if c == 'u' as nat then RestoreCursor(t)
    else t
  }

  /** One byte written to the terminal. */
  function Write(t: Term, c: nat, erase: nat): (r: Term)
    requires Ok(t)
    ensures Ok(r)
  {
    if t.state == 0 then Ground(t, c, erase)
    else if t.state == 1 then Escape(t, c)
    else if t.state == 2 then Introduce(t, c)
    else Parameter(t, c)
  }

  function WriteAll(t: Term, bytes: seq<nat>, erase: nat): (r: Term)
    requires Ok(t)
    ensures Ok(r)
    decreases |bytes|
  {
    if bytes == [] then t else WriteAll(Write(t, bytes[0], erase), bytes[1..], erase)
  }

  // ----- What a text leaves on the screen

  /** Ordinary text goes to the cells behind the cursor, inside the scroll region. */
  ghost predicate InText(t: Term) {
    Ok(t) && t.state == 0 && t.top <= t.y < t.bottom
  }

  lemma RowsBefore(t: Term)
    requires InText(t)
    ensures 0 <= t.top * t.cols <= t.y * t.cols
    ensures t.y * t.cols + t.cols == (t.y + 1) * t.cols <= t.bottom * t.cols <= |t.cells|
  {
    if t.top < t.y { Rows(t.top, t.y, t.cols); }
    Rows(t.y, t.bottom, t.cols);
    Region(t, t.top, t.bottom);
  }

  /** The cells from the start of the region up to the cursor. */
  ghost function UpToCursor(t: Term): (r: seq<nat>)
    requires InText(t)
    ensures |r| == Cursor(t) - t.top * t.cols
  {
    RowsBefore(t);
    t.cells[t.top * t.cols..Cursor(t)]
  }

  function Coloured(text: seq<nat>, attr: nat): (r: seq<nat>)
    ensures |r| == |text|
  {
    seq(|text|, i requires 0 <= i < |text| => text[i] + 256 * attr)
  }

  /** From `t` to `t'` the cells up to the cursor got `more` behind them and lost `k` rows in front, no more than
      it took; the cells behind the cursor are blank once rows were lost, and nothing outside the region changed. */
  ghost predicate Rolled(t: Term, t': Term, more: seq<nat>, k: nat) {
    InText(t) && InText(t') && t' == t.(cells := t'.cells, x := t'.x, y := t'.y) &&
    k * t.cols <= |UpToCursor(t)| + |more| && UpToCursor(t') == (UpToCursor(t) + more)[k * t.cols..] &&
    (k > 0 ==> Cursor(t') > t.bottom * t.cols - t.cols) &&
    Around(t.cells, t'.cells, t.top * t.cols, Cursor(t'), t.bottom * t.cols, k)
  }

  /** Outside `from` up to `at` the cells are the same, but for blanks up to `to` once rows were lost. */
  ghost predicate Around(cells: seq<nat>, cells': seq<nat>, from: int, at: int, to: int, k: nat) {
    |cells'| == |cells| && forall i :: 0 <= i < |cells| && !(from <= i < at) ==>
      cells'[i] == if k > 0 && from <= i < to then ERASE else cells[i]
  }

  predicate AtRegionEnd(t: Term) {
    t.x >= t.cols && t.y + 1 >= t.bottom
  }

  lemma PrintInRegion(t: Term, c: nat)
    requires InText(t)
    ensures InText(Print(t, c)) && InText(Wrap(t)) && Cursor(Print(t, c)) == Cursor(Wrap(t)) + 1
    ensures Cursor(Wrap(t)) == if AtRegionEnd(t) then Cursor(t) - t.cols else Cursor(t)
    ensures AtRegionEnd(t) ==> Cursor(t) == t.bottom * t.cols
  {
    RowsBefore(t);
  }

  lemma PrintFits(t: Term, c: nat)
    requires InText(t) && !AtRegionEnd(t)
    ensures Rolled(t, Print(t, c), [c + 256 * t.attr], 0)
  {
    var t' := Print(t, c);
    PrintInRegion(t, c);
    RowsBefore(t);
    RowsBefore(t');
    CursorInside(Wrap(t));
    assert UpToCursor(t') == (UpToCursor(t) + [c + 256 * t.attr])[0 * t.cols..];
  }

  lemma PrintScrolls(t: Term, c: nat)
    requires InText(t) && AtRegionEnd(t)
    ensures Rolled(t, Print(t, c), [c + 256 * t.attr], 1)
  {
    var t' := Print(t, c);
    PrintInRegion(t, c);
    RowsBefore(t);
    RowsBefore(t');
    CursorInside(Wrap(t));
    assert UpToCursor(t') == UpToCursor(t)[t.cols..] + [c + 256 * t.attr];
    assert UpToCursor(t') == (UpToCursor(t) + [c + 256 * t.attr])[1 * t.cols..];
  }

  lemma PrintRolls(t: Term, c: nat) returns (k: nat)
    requires InText(t)
    ensures Rolled(t, Print(t, c), [c + 256 * t.attr], k)
  {
    if AtRegionEnd(t) {
      PrintScrolls(t, c);
      return 1;
    }
    PrintFits(t, c);
    return 0;
  }

  lemma DropTwice(s: seq<nat>, a: seq<nat>, b: seq<nat>, m: nat, n: nat)
    requires m <= |s| + |a| && m + n <= |s| + |a| + |b|
    ensures n <= |(s + a)[m..] + b| && ((s + a)[m..] + b)[n..] == (s + (a + b))[m + n..]
  {
    assert (s + a)[m..] + b == (s + (a + b))[m..];
  }

  /** Where the cursor got to. */
  lemma RolledCursor(t: Term, t': Term, more: seq<nat>, k: nat)
    requires Rolled(t, t', more, k)
    ensures Cursor(t') == Cursor(t) + |more| - k * t.cols && Cursor(t') <= t.bottom * t.cols
  {
    RowsBefore(t');
  }

  lemma RolledTwice(t: Term, t1: Term, t2: Term, a: seq<nat>, b: seq<nat>, k: nat, l: nat)
    requires Rolled(t, t1, a, k) && Rolled(t1, t2, b, l)
    ensures Rolled(t, t2, a + b, k + l)
  {
    var m, n, s := k * t.cols, l * t.cols, UpToCursor(t);
    assert m + n == (k + l) * t.cols;
    RolledCursor(t, t1, a, k);
    RolledCursor(t1, t2, b, l);
    DropTwice(s, a, b, m, n);
    assert UpToCursor(t2) == (s + (a + b))[(k + l) * t.cols..];
    assert l == 0 ==> n == 0;
    AroundTwice(t.cells, t1.cells, t2.cells, t.top * t.cols, Cursor(t1), Cursor(t2), t.bottom * t.cols, k, l);
  }

  lemma AroundTwice(c: seq<nat>, c1: seq<nat>, c2: seq<nat>, from: int, at1: int, at2: int, to: int, k: nat, l: nat)
    requires Around(c, c1, from, at1, to, k) && Around(c1, c2, from, at2, to, l) && (at1 <= at2 || l > 0) && at1 <= to
    ensures Around(c, c2, from, at2, to, k + l)
  {
  }

  /** A text of ordinary characters goes behind what the region shows, row after row; what does not fit leaves whole
      rows of it at the top. */
  lemma {:induction false} TextRolls(t: Term, text: seq<nat>, erase: nat) returns (k: nat)
    requires InText(t) && forall i :: 0 <= i < |text| ==> 31 < text[i] < 127
    ensures Rolled(t, WriteAll(t, text, erase), Coloured(text, t.attr), k)
    decreases |text|
  {
    if text == [] {
      RowsBefore(t);
      return 0;
    }
    var t1, first, rest := Print(t, text[0]), Coloured(text[..1], t.attr), Coloured(text[1..], t.attr);
    assert first == [text[0] + 256 * t.attr] && Coloured(text, t.attr) == first + rest;
    k := PrintRolls(t, text[0]);
    var l := TextRolls(t1, text[1..], erase);
    RolledTwice(t, t1, WriteAll(t1, text[1..], erase), first, rest, k, l);
    k := k + l;
  }

  /** While the region has room, the characters stand in the cells from the cursor on and nothing else changes. */
  lemma TextShows(t: Term, text: seq<nat>, erase: nat)
    requires InText(t) && Cursor(t) + |text| <= t.bottom * t.cols && forall i :: 0 <= i < |text| ==> 31 < text[i] < 127
    ensures InText(WriteAll(t, text, erase)) && Cursor(WriteAll(t, text, erase)) == Cursor(t) + |text| <= |t.cells|
    ensures WriteAll(t, text, erase).cells == t.cells[..Cursor(t)] + Coloured(text, t.attr) +
      t.cells[Cursor(t) + |text|..]
  {
    var k := TextRolls(t, text, erase);
    var t' := WriteAll(t, text, erase);
    RowsBefore(t);
    var from, at := t.top * t.cols, Cursor(t);
    RolledCursor(t, t', Coloured(text, t.attr), k);
    if k > 0 { Rows(0, k, t.cols); }
    assert UpToCursor(t') == UpToCursor(t) + Coloured(text, t.attr);
    Assembled(t.cells, t'.cells, from, at, Coloured(text, t.attr), t.bottom * t.cols);
  }

  lemma Assembled(c: seq<nat>, c': seq<nat>, from: nat, at: nat, more: seq<nat>, to: int)
    requires from <= at && at + |more| <= |c| && Around(c, c', from, at + |more|, to, 0)
    requires c'[from..at + |more|] == c[from..at] + more
    ensures c' == c[..at] + more + c[at + |more|..]
  {
    assert c' == c'[..from] + c'[from..at + |more|] + c'[at + |more|..];
    assert c[..at] == c[..from] + c[from..at];
  }

  /** ESC 7 saves the cursor only in column 55, and ESC 8 restores it only in column 56: the code tests the column where
      the byte was meant. */
  lemma SaveAndRestoreLookAtTheColumn(t: Term, erase: nat)
    requires Ok(t) && t.state == 0
    ensures WriteAll(t, [ESC, '7' as nat], erase) ==
      if t.x == 55 then SaveCursor(t) else if t.x == 56 then RestoreCursor(t) else t
    ensures WriteAll(t, [ESC, '8' as nat], erase) == WriteAll(t, [ESC, '7' as nat], erase)
  {
    forall c | c == '7' as nat || c == '8' as nat
      ensures WriteAll(t, [ESC, c], erase) == Write(Write(t, ESC, erase), c, erase)
    {
      assert [ESC, c][1..] == [c] && [c][1..] == [];
      assert WriteAll(Write(t, ESC, erase), [c], erase) == WriteAll(Write(Write(t, ESC, erase), c, erase), [], erase);
    }
  }
}
