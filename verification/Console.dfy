/** The console over video memory: on EGA and VGA the screen's origin moves through it, on other cards it stays put. */
module Console {
  import opened Links
  import opened Screen

  /** Video memory as words; addresses count words from its start. */
  class Video {
    const mem: array<nat>
    const cols: nat
    const lines: nat
    const ega: bool
    var origin: nat
    var scrEnd: nat
    var pos: nat
    var x: nat
    var y: nat
    var top: nat
    var bottom: nat
    var state: nat
    var npar: nat
    var par: seq<nat>
    var ques: bool
    var attr: nat
    var savedX: nat
    var savedY: nat

    /** What is on the screen: the part of video memory from `origin` to `scrEnd`. */
    ghost function View(): Term
      requires origin <= scrEnd <= mem.Length
      reads this, mem
    {
      Term(cols, lines, mem[origin..scrEnd], x, y, top, bottom, state, npar, par, ques, attr, savedX, savedY)
    }

    /** The screen lies in video memory, and `pos` is the cursor's cell. */
    ghost predicate Valid()
      reads this, mem
    {
      cols % 2 == 0 && scrEnd == origin + lines * cols <= mem.Length && pos == origin + y * cols + x && Ok(View()) &&
      (!ega ==> origin == 0)
    }

    /** con_init: the cursor starts where the BIOS left it. */
    constructor (cols: nat, lines: nat, words: nat, ega: bool, x: nat, y: nat)
      requires cols >= 8 && cols % 2 == 0 && lines > 0 && lines * cols <= words && x <= cols && y < lines
      ensures Valid() && fresh(mem) && Cursor(View()) == pos && top == 0 && bottom == lines
    {
      this.cols, this.lines, this.ega, this.x, this.y := cols, lines, ega, x, y;
      mem := new nat[words](_ => ERASE);
      origin, scrEnd, pos := 0, lines * cols, y * cols + x;
      top, bottom := 0, lines;
      state, npar, par, ques, attr, savedX, savedY := 0, 0, seq(NPAR, _ => 0), false, 0x07, 0, 0;
    }

    /** movsl, either way: `n` words. */
    method MoveWords(dst: nat, src: nat, n: nat)
      requires dst + n <= mem.Length && src + n <= mem.Length
      modifies mem
      ensures MovedWords(old(mem[..]), mem[..], dst, src, n)
    {
      forall i | dst <= i < dst + n {
        mem[i] := mem[src + (i - dst)];
      }
    }

    /** stosw: `n` blanks. */
    method StoreBlanks(dst: nat, n: nat)
      requires dst + n <= mem.Length
      modifies mem
      ensures Blanked(old(mem[..]), mem[..], dst, n)
    {
      forall i | dst <= i < dst + n {
        mem[i] := ERASE;
      }
    }

    /** The screen's cells. */
    ghost function Cells(): seq<nat>
      requires origin <= scrEnd <= mem.Length
      reads this, mem
    {
      mem[origin..scrEnd]
    }

    /** Rows from cell `a` to cell `b` of the screen move up one row. */
    method RowsUp(dst: nat, src: nat, n: nat, last: nat, ghost a: nat, ghost b: nat)
      requires origin <= scrEnd <= mem.Length && a + cols <= b <= scrEnd - origin
      requires dst == origin + a && src == dst + cols && n == b - a - cols && last == origin + b - cols
      modifies mem
      ensures Cells() == ShiftUp(old(Cells()), a, b, cols)
    {
      ghost var before := mem[..];
      MoveWords(dst, src, n);
      ghost var mid := mem[..];
      StoreBlanks(last, cols);
      ShiftedUpInPlace(before, mid, mem[..], dst, src, n, last, origin, scrEnd, a, b, cols);
    }

    method RowsDown(dst: nat, src: nat, n: nat, ghost a: nat, ghost b: nat)
      requires origin <= scrEnd <= mem.Length && a + cols <= b <= scrEnd - origin
      requires src == origin + a && dst == src + cols && n == b - a - cols
      modifies mem
      ensures Cells() == ShiftDown(old(Cells()), a, b, cols)
    {
      ghost var before := mem[..];
      MoveWords(dst, src, n);
      ghost var mid := mem[..];
      StoreBlanks(src, cols);
      ShiftedDownInPlace(before, mid, mem[..], dst, src, n, origin, scrEnd, a, b, cols);
    }

    /** The scroll that moves the region's rows in place: all cards, and EGA for a part of the screen. */
    method MoveRowsUp()
      requires Valid()
      modifies mem
      ensures Valid() && View() == ScrollUp(old(View()), top, bottom)
    {
      Region(View(), top, bottom);
      RowAddresses(top, bottom, cols);
      RowsUp(origin + cols * top, origin + cols * (top + 1), (bottom - top - 1) * cols / 2 * 2,
        origin + cols * (bottom - 1),
             top * cols, bottom * cols);
    }

    /** scrdown */
    method ScrollsDown()
      requires Valid()
      modifies mem
      ensures Valid() && View() == ScrollDown(old(View()), top, bottom)
    {
      Region(View(), top, bottom);
      RowAddresses(top, bottom, cols);
      RowsDown(origin + cols * (top + 1), origin + cols * top, (bottom - top - 1) * cols / 2 * 2, top * cols,
        bottom * cols);
    }

    /** The EGA scroll of the whole screen: move the origin one row on, or back to the start when memory ends there. */
    method MoveOrigin(ghost size: nat)
      requires scrEnd == origin + size <= mem.Length && 0 < cols <= size && origin <= pos
      requires cols % 2 == 0 && size == lines * cols && lines > 0
      modifies this`origin, this`scrEnd, this`pos, mem
      ensures scrEnd == origin + size <= mem.Length && pos - origin == old(pos - origin)
      ensures Cells() == ShiftUp(old(Cells()), 0, size, cols)
    {
      ghost var before, at := mem[..], origin;
      origin := origin + cols;
      pos := pos + cols;
      scrEnd := scrEnd + cols;
      if scrEnd > mem.Length {
        RowAddresses(0, lines, cols);
        HomeAgain(before, at, size);
        scrEnd := scrEnd - origin;
        pos := pos - origin;
        origin := 0;
      } else {
        StoreBlanks(scrEnd - cols, cols);
        ScrolledOn(before, mem[..], at, size, cols);
      }
    }

    /** The copy to the start of video memory. */
    method HomeAgain(ghost before: seq<nat>, ghost at: nat, ghost size: nat)
      requires before == mem[..] && origin == at + cols && at + size <= mem.Length && 0 < cols <= size
      requires (lines - 1) * cols / 2 * 2 == size - cols
      requires lines > 0
      modifies mem
      ensures mem[0..size] == ShiftUp(before[at..at + size], 0, size, cols)
    {
      var n := (lines - 1) * cols / 2 * 2;
      MoveWords(0, origin, n);
      ghost var mid := mem[..];
      StoreBlanks(n, cols);
      ScrolledHome(before, mid, mem[..], at, size, cols);
    }

    /** scrup */
    method ScrollsUp()
      requires Valid()
      modifies this`origin, this`scrEnd, this`pos, mem
      ensures Valid() && View() == ScrollUp(old(View()), top, bottom)
    {
      Region(View(), top, bottom);
      if ega && top == 0 && bottom == lines {
        MoveOrigin(lines * cols);
      } else {
        MoveRowsUp();
      }
    }

    /** gotoxy */
    method Gotoxy(newX: nat, newY: nat)
      requires Valid()
      modifies this`x, this`y, this`pos
      ensures Valid() && View() == Goto(old(View()), newX, newY)
    {
      if newX > cols || newY >= lines {
        return;
      }
      x := newX;
      y := newY;
      pos := origin + y * cols + x;
    }

    /** lf */
    method Lf()
      requires Valid()
      modifies this`y, this`pos, this`origin, this`scrEnd, mem
      ensures Valid() && View() == LineFeed(old(View()))
    {
      if y + 1 < bottom {
        Rows(y, y + 1, cols);
        y := y + 1;
        pos := pos + cols;
        return;
      }
      ScrollsUp();
    }

    /** ri */
    method Ri()
      requires Valid()
      modifies this`y, this`pos, mem
      ensures Valid() && View() == ReverseFeed(old(View()))
    {
      if y > top {
        Rows(y - 1, y, cols);
        y := y - 1;
        pos := pos - cols;
        return;
      }
      ScrollsDown();
    }

    /** A cell of the screen is written. */
    method SetCell(v: nat)
      requires Valid() && x < cols
      modifies mem
      ensures Valid() && View() == SetAt(old(View()), v)
    {
      CursorInside(View());
      ghost var before := mem[..];
      mem[pos] := v;
      CellSet(before, mem[..], origin, scrEnd, pos, v);
    }

    /** A printable byte. */
    method PrintChar(c: nat)
      requires Valid()
      modifies this`x, this`y, this`pos, this`origin, this`scrEnd, mem
      ensures Valid() && View() == Print(old(View()), c)
    {
      if x >= cols {
        Rows(y, y + 1, cols);
        WrapLine();
      }
      SetCell(c + 256 * attr);
      pos := pos + 1;
      x := x + 1;
    }

    /** The cursor passes the margin: x goes back one row's width, and the cursor down. */
    method WrapLine()
      requires origin + lines * cols == scrEnd && Valid() && x >= cols
      modifies this`x, this`y, this`pos, this`origin, this`scrEnd, mem
      ensures Valid() && View() == Wrap(old(View()))
    {
      x := x - cols;
      pos := pos - cols;
      Lf();
    }

    /** A tab. */
    method TabStop()
      requires Valid()
      modifies this`x, this`y, this`pos, this`origin, this`scrEnd, mem
      ensures Valid() && View() == Tab(old(View()))
    {
      CursorInside(View());
      var c := 8 - x % 8;
      x := x + c;
      pos := pos + c;
      if x > cols {
        x := x - cols;
        pos := pos - cols;
        Lf();
      }
    }

    /** del */
    method Del()
      requires Valid()
      modifies this`x, this`pos, mem
      ensures Valid() && View() == Delete(old(View()))
    {
      if x > 0 {
        Bs();
        SetCell(ERASE);
      }
    }

    /** Blanks on the screen, from its cell `a` on. */
    method BlankCells(start: nat, count: nat, ghost a: nat)
      requires Valid() && start == origin + a && a + count <= |View().cells|
      modifies mem
      ensures Valid() && View() == old(View()).(cells := Blank(old(View()).cells, a, count))
    {
      ghost var before := mem[..];
      StoreBlanks(start, count);
      BlankedCells(before, mem[..], origin, scrEnd, a, start, count);
    }

    /** csi_J */
    method CsiJ(mode: nat)
      requires Valid()
      modifies mem
      ensures Valid() && View() == EraseDisplay(old(View()), mode)
    {
      CursorInside(View());
      match mode {
        case 0 => BlankCells(pos, scrEnd - pos, Cursor(View()));
        case 1 => BlankCells(origin, pos - origin, 0);
        case 2 => BlankCells(origin, cols * lines, 0);
        case _ =>
      }
    }

    /** csi_K */
    method CsiK(mode: nat)
      requires Valid()
      modifies mem
      ensures Valid() && View() == EraseLine(old(View()), mode)
    {
      ghost var t, row := View(), y * cols;
      CursorInside(t);
      var start := pos - x;
      match mode {
        case 0 =>
          if x >= cols {
            assert Blank(t.cells, Cursor(t), 0) == t.cells;
            return;
          }
          BlankCells(pos, cols - x, Cursor(t));
        case 1 => BlankCells(start, if x < cols then x else cols, row);
        case 2 => BlankCells(start, cols, row);
        case _ =>
      }
    }

    /** insert_char */
    method InsertCharHere()
      requires Valid()
      modifies mem
      ensures Valid() && View() == InsertChar(old(View()))
    {
      ghost var t, before := View(), mem[..];
      CursorInside(t);
      var i, last, p := x, ERASE, pos;
      while i < cols
        invariant x <= i <= cols && p == pos + (i - x)
        invariant last == if p == pos then ERASE else before[p - 1]
        invariant forall k :: pos <= k < p ==> mem[k] == if k == pos then ERASE else before[k - 1]
        invariant forall k :: 0 <= k < mem.Length && !(pos <= k < p) ==> mem[k] == before[k]
      {
        i := i + 1;
        var tmp := mem[p];
        mem[p] := last;
        last := tmp;
        p := p + 1;
      }
      if x < cols {
        InsertedChar(before, mem[..], origin, scrEnd, pos, pos + (cols - x));
      }
    }

    /** delete_char */
    method DeleteCharHere()
      requires Valid()
      modifies mem
      ensures Valid() && View() == DeleteChar(old(View()))
    {
      ghost var t, before := View(), mem[..];
      CursorInside(t);
      if x >= cols {
        return;
      }
      var p, i := pos, x + 1;
      while i < cols
        invariant x < i <= cols && p == pos + (i - x - 1)
        invariant forall k :: pos <= k < p ==> mem[k] == before[k + 1]
        invariant forall k :: 0 <= k < mem.Length && !(pos <= k < p) ==> mem[k] == before[k]
      {
        mem[p] := mem[p + 1];
        p := p + 1;
        i := i + 1;
      }
      mem[p] := ERASE;
      DeletedChar(before, mem[..], origin, scrEnd, pos, pos + (cols - x));
    }

    /** insert_line: the scroll region is, for the moment, from the cursor's row down. */
    method InsertLineHere()
      requires Valid()
      modifies this`top, this`bottom, mem
      ensures Valid() && View() == InsertLine(old(View()))
    {
      var oldTop, oldBottom := top, bottom;
      top, bottom := y, lines;
      ScrollsDown();
      top, bottom := oldTop, oldBottom;
    }

    /** delete_line */
    method DeleteLineHere()
      requires Valid()
      modifies this`top, this`bottom, this`origin, this`scrEnd, this`pos, mem
      ensures Valid() && View() == DeleteLine(old(View()))
    {
      var oldTop, oldBottom := top, bottom;
      top, bottom := y, lines;
      ScrollsUp();
      top, bottom := oldTop, oldBottom;
    }

    /** csi_at and csi_L: insert, so many times. */
    method CsiInsert(e: Edit, nr: nat)
      requires Valid()
      modifies this`top, this`bottom, mem
      ensures Valid() && View() == Insert(old(View()), e, Times(nr, if e.Chars? then cols else lines))
    {
      var n := Times(nr, if e.Chars? then cols else lines);
      ghost var goal := Insert(View(), e, n);
      while n > 0
        invariant Valid() && Insert(View(), e, n) == goal
      {
        if e.Chars? { InsertCharHere(); } else { InsertLineHere(); }
        n := n - 1;
      }
    }

    /** csi_P and csi_M: delete, so many times. */
    method CsiRemove(e: Edit, nr: nat)
      requires Valid()
      modifies this`top, this`bottom, this`origin, this`scrEnd, this`pos, mem
      ensures Valid() && View() == Remove(old(View()), e, Times(nr, if e.Chars? then cols else lines))
    {
      var n := Times(nr, if e.Chars? then cols else lines);
      ghost var goal := Remove(View(), e, n);
      while n > 0
        invariant Valid() && Remove(View(), e, n) == goal
      {
        if e.Chars? { DeleteCharHere(); } else { DeleteLineHere(); }
        n := n - 1;
      }
    }

    /** csi_m */
    method CsiM()
      requires Valid()
      modifies this`attr
      ensures Valid() && View() == old(View()).(attr := Attribute(old(View()), 0))
    {
      ghost var goal := Attribute(View(), 0);
      var i := 0;
      while i <= npar
        invariant 0 <= i <= npar + 1 && Valid() && Attribute(View(), i) == goal
        invariant View() == old(View()).(attr := attr)
      {
        match par[i] {
          case 0 => attr := 0x07;
          case 1 => attr := 0x0f;
          case 4 => attr := 0x0f;
          case 7 => attr := 0x70;
          case 27 => attr := 0x07;
          case _ =>
        }
        i := i + 1;
      }
    }

    method SaveCur()
      requires Valid()
      modifies this`savedX, this`savedY
      ensures Valid() && View() == SaveCursor(old(View()))
    {
      savedX, savedY := x, y;
    }

    /** cr */
    method Cr()
      requires Valid()
      modifies this`x, this`pos
      ensures Valid() && View() == FirstColumn(old(View()))
    {
      pos := pos - x;
      x := 0;
    }

    method Bs()
      requires Valid()
      modifies this`x, this`pos
      ensures Valid() && View() == Backspace(old(View()))
    {
      if x > 0 {
        x := x - 1;
        pos := pos - 1;
      }
    }

    method SetState(s: nat)
      requires Valid() && s <= 3
      modifies this`state
      ensures Valid() && View() == old(View()).(state := s)
    {
      state := s;
    }

    /** con_write, state 0. */
    method TextByte(c: nat, erase: nat)
      requires Valid() && state == 0
      modifies this, mem
      ensures Valid() && View() == Ground(old(View()), c, erase)
    {
      if 31 < c < 127 {
        PrintChar(c);
      } else if c == ESC {
        SetState(1);
      } else if c == 10 || c == 11 || c == 12 {
        Lf();
      } else if c == 13 {
        Cr();
      } else {
        BackByte(c, erase);
      }
    }

    method BackByte(c: nat, erase: nat)
      requires Valid()
      modifies this, mem
      ensures Valid() && View() == Back(old(View()), c, erase)
    {
      if c == erase && c < 128 {
        Del();
      } else if c == 8 {
        Bs();
      } else if c == 9 {
        TabStop();
      }
    }

    /** con_write, state 1; the answer to ESC Z is left out. */
    method EscapeByte(c: nat)
      requires Valid()
      modifies this, mem
      ensures Valid() && View() == Escape(old(View()), c)
    {
      SetState(0);
      if c == '[' as nat {
        SetState(2);
      } else if c == 'E' as nat {
        Gotoxy(0, y + 1);
      } else if c == 'M' as nat {
        Ri();
      } else if c == 'D' as nat {
        Lf();
      } else if c == 'Z' as nat {
      } else if x == '7' as nat {
        SaveCur();
      } else if x == '8' as nat {
        Gotoxy(savedX, savedY);
      }
    }

    /** con_write, state 2. */
    method IntroducerByte(c: nat)
      requires Valid()
      modifies this, mem
      ensures Valid() && View() == Introduce(old(View()), c)
    {
      par := seq(NPAR, _ => 0);
      npar := 0;
      state := 3;
      ques := c == '?' as nat;
      if !ques {
        ParameterByte(c);
      }
    }

    /** con_write, state 3. */
    method ParameterByte(c: nat)
      requires Valid()
      modifies this, mem
      ensures Valid() && View() == Parameter(old(View()), c)
    {
      if c == ';' as nat && npar < NPAR - 1 {
        npar := npar + 1;
      } else if IsDigit(c) {
        par := par[npar := Wrapped(10 * par[npar] + c - '0' as nat)];
      } else {
        SetState(0);
        FinalByte(c);
      }
    }

    /** `if (!par[0]) par[0]++` */
    method CountFromOne()
      requires Valid()
      modifies this`par
      ensures Valid() && View() == AtLeastOne(old(View()))
    {
      if par[0] == 0 {
        par := par[0 := 1];
      }
    }

    /** `if (par[i]) par[i]--` */
    method PlaceFromOne(i: nat)
      requires Valid() && i < NPAR
      modifies this`par
      ensures Valid() && View() == FromOne(old(View()), i)
    {
      if par[i] > 0 {
        par := par[i := par[i] - 1];
      }
    }

    /** con_write, state 4: the cursor movements. */
    method FinalByte(c: nat)
      requires Valid()
      modifies this, mem
      ensures Valid() && View() == Final(old(View()), c)
    {
      if c == 'G' as nat || c == '`' as nat {
        PlaceFromOne(0);
        Gotoxy(par[0], y);
      } else if c == 'A' as nat {
        CountFromOne();
        Gotoxy(x, Wrapped(y - par[0]));
      } else {
        StepByte(c);
      }
    }

    /** con_write, state 4: down and right. */
    method StepByte(c: nat)
      requires Valid()
      modifies this, mem
      ensures Valid() && View() == Stepped(old(View()), c)
    {
      if c == 'B' as nat || c == 'e' as nat {
        CountFromOne();
        Gotoxy(x, Wrapped(y + par[0]));
      } else if c == 'C' as nat || c == 'a' as nat {
        CountFromOne();
        Gotoxy(Wrapped(x + par[0]), y);
      } else {
        MoveByte(c);
      }
    }

    /** con_write, state 4: more cursor movements. */
    method MoveByte(c: nat)
      requires Valid()
      modifies this, mem
      ensures Valid() && View() == Moved(old(View()), c)
    {
      if c == 'D' as nat {
        CountFromOne();
        Gotoxy(Wrapped(x - par[0]), y);
      } else if c == 'E' as nat {
        CountFromOne();
        Gotoxy(0, Wrapped(y + par[0]));
      } else if c == 'F' as nat {
        CountFromOne();
        Gotoxy(0, Wrapped(y - par[0]));
      } else {
        PlaceByte(c);
      }
    }

    /** con_write, state 4: absolute positions. */
    method PlaceByte(c: nat)
      requires Valid()
      modifies this, mem
      ensures Valid() && View() == PlacedAt(old(View()), c)
    {
      if c == 'd' as nat {
        PlaceFromOne(0);
        Gotoxy(x, par[0]);
      } else if c == 'H' as nat || c == 'f' as nat {
        PlaceFromOne(0);
        PlaceFromOne(1);
        Gotoxy(par[1], par[0]);
      } else {
        EditByte(c);
      }
    }

    /** `ESC [ r` */
    method SetScrollRegion()
      requires Valid()
      modifies this`par, this`top, this`bottom
      ensures Valid() && View() == SetRegion(old(View()))
    {
      PlaceFromOne(0);
      if par[1] == 0 {
        par := par[1 := Wrapped(lines)];
      }
      if par[0] < par[1] && par[1] <= lines {
        top, bottom := par[0], par[1];
      }
    }

    /** con_write, state 4: the rest. */
    method EditByte(c: nat)
      requires Valid()
      modifies this, mem
      ensures Valid() && View() == Edited(old(View()), c)
    {
      if c == 'J' as nat {
        CsiJ(par[0]);
      } else if c == 'K' as nat {
        CsiK(par[0]);
      } else if c == 'L' as nat {
        CsiInsert(Lines, par[0]);
      } else if c == 'M' as nat {
        CsiRemove(Lines, par[0]);
      } else if c == 'P' as nat {
        CsiRemove(Chars, par[0]);
      } else if c == '@' as nat {
        CsiInsert(Chars, par[0]);
      } else if c == 'm' as nat {
        CsiM();
      } else if c == 'r' as nat {
        SetScrollRegion();
      } else if c == 's' as nat {
        SaveCur();
      } else if c == 'u' as nat {
        Gotoxy(savedX, savedY);
      }
    }

    /** con_write, one byte. */
    method WriteByte(c: nat, erase: nat)
      requires Valid()
      modifies this, mem
      ensures Valid() && View() == Write(old(View()), c, erase)
    {
      match state {
        case 0 => TextByte(c, erase);
        case 1 => EscapeByte(c);
        case 2 => IntroducerByte(c);
        case _ => ParameterByte(c);
      }
    }

    /** con_write: main result, for any bytes whatever. The cursor's address always matches its place, every write stays
        in video memory, and the screen is that of the plain terminal, wherever its origin has moved. */
    method ConWrite(bytes: seq<nat>, erase: nat)
      requires Valid()
      modifies this, mem
      ensures Valid() && View() == WriteAll(old(View()), bytes, erase)
    {
      var i := 0;
      assert bytes[0..] == bytes;
      while i < |bytes|
        invariant 0 <= i <= |bytes| && Valid()
        invariant WriteAll(View(), bytes[i..], erase) == WriteAll(old(View()), bytes, erase)
      {
        assert bytes[i..][0] == bytes[i] && bytes[i..][1..] == bytes[i + 1..];
        WriteByte(bytes[i], erase);
        i := i + 1;
      }
    }
  }

  /** Two cards that show the same screen show the same screen after any output, though one scrolls by moving its origin
      and the other by moving its rows. */
  method SameOutput(a: Video, b: Video, bytes: seq<nat>, erase: nat)
    requires a.Valid() && b.Valid() && a.mem != b.mem && a != b && a.View() == b.View()
    modifies a, a.mem, b, b.mem
    ensures a.Valid() && b.Valid() && a.View() == b.View()
  {
    a.ConWrite(bytes, erase);
    b.ConWrite(bytes, erase);
  }

  lemma CellSet(before: seq<nat>, after: seq<nat>, origin: nat, end: nat, pos: nat, v: nat)
    requires origin <= pos < end <= |before| && after == before[pos := v]
    ensures after[origin..end] == before[origin..end][pos - origin := v]
  {
  }

  lemma BlankedCells(before: seq<nat>, after: seq<nat>, origin: nat, end: nat, a: nat, start: nat, n: nat)
    requires start == origin + a && start + n <= end <= |before| && Blanked(before, after, start, n)
    ensures after[origin..end] == Blank(before[origin..end], a, n)
  {
    var s, s' := before[origin..end], after[origin..end];
    forall i | 0 <= i < |s| ensures s'[i] == if a <= i < a + n then ERASE else s[i] {
      assert s'[i] == after[origin + i] && s[i] == before[origin + i];
    }
  }

  lemma InsertedChar(before: seq<nat>, after: seq<nat>, origin: nat, end: nat, pos: nat, rowEnd: nat)
    requires origin <= pos < rowEnd <= end <= |before| == |after|
    requires forall k :: pos <= k < rowEnd ==> after[k] == if k == pos then ERASE else before[k - 1]
    requires forall k :: 0 <= k < |after| && !(pos <= k < rowEnd) ==> after[k] == before[k]
    ensures after[origin..end] == ShiftDown(before[origin..end], pos - origin, rowEnd - origin, 1)
  {
    var s, s' := before[origin..end], after[origin..end];
    forall i | 0 <= i < |s| ensures s'[i] == ShiftedDown(s, pos - origin, rowEnd - origin, 1, i) {
      assert s'[i] == after[origin + i] && s[i] == before[origin + i];
      assert i > 0 ==> s[i - 1] == before[origin + i - 1];
    }
  }

  lemma DeletedChar(before: seq<nat>, after: seq<nat>, origin: nat, end: nat, pos: nat, rowEnd: nat)
    requires origin <= pos < rowEnd <= end <= |before| == |after|
    requires forall k :: pos <= k < rowEnd ==> after[k] == if k == rowEnd - 1 then ERASE else before[k + 1]
    requires forall k :: 0 <= k < |after| && !(pos <= k < rowEnd) ==> after[k] == before[k]
    ensures after[origin..end] == ShiftUp(before[origin..end], pos - origin, rowEnd - origin, 1)
  {
    var s, s' := before[origin..end], after[origin..end];
    forall i | 0 <= i < |s| ensures s'[i] == ShiftedUp(s, pos - origin, rowEnd - origin, 1, i) {
      assert s'[i] == after[origin + i] && s[i] == before[origin + i];
      assert i + 1 < |s| ==> s[i + 1] == before[origin + i + 1];
    }
  }

  ghost predicate MovedWords(before: seq<nat>, after: seq<nat>, dst: nat, src: nat, n: nat) {
    |after| == |before| && dst + n <= |before| && src + n <= |before| &&
    forall i {:trigger after[i]} :: 0 <= i < |after| ==>
      after[i] == if dst <= i < dst + n then before[src + (i - dst)] else before[i]
  }

  ghost predicate Blanked(before: seq<nat>, after: seq<nat>, dst: nat, n: nat) {
    |after| == |before| && dst + n <= |before| &&
    forall i {:trigger after[i]} :: 0 <= i < |after| ==> after[i] == if dst <= i < dst + n then ERASE else before[i]
  }

  lemma ShiftedUpInPlace(before: seq<nat>, mid: seq<nat>, after: seq<nat>, dst: nat, src: nat, n: nat, last: nat,
                         origin: nat, end: nat, a: nat, b: nat, w: nat)
    requires origin <= end <= |before| && a + w <= b <= end - origin
    requires dst == origin + a && src == dst + w && n == b - a - w && last == origin + b - w
    requires MovedWords(before, mid, dst, src, n) && Blanked(mid, after, last, w)
    ensures after[origin..end] == ShiftUp(before[origin..end], a, b, w)
  {
    var old', new' := before[origin..end], after[origin..end];
    forall i | 0 <= i < end - origin ensures new'[i] == ShiftedUp(old', a, b, w, i) {
      var at := origin + i;
      assert new'[i] == after[at] && old'[i] == before[at];
      assert a <= i < b - w ==>
        mid[at] == before[origin + a + w + (at - (origin + a))] == before[at + w] == old'[i + w];
      assert !(a <= i < b - w) ==> mid[at] == before[at];
      assert after[at] == if b - w <= i < b then ERASE else mid[at];
    }
  }

  lemma ShiftedDownInPlace(before: seq<nat>, mid: seq<nat>, after: seq<nat>, dst: nat, src: nat, n: nat,
                           origin: nat, end: nat, a: nat, b: nat, w: nat)
    requires origin <= end <= |before| && a + w <= b <= end - origin
    requires src == origin + a && dst == src + w && n == b - a - w
    requires MovedWords(before, mid, dst, src, n) && Blanked(mid, after, src, w)
    ensures after[origin..end] == ShiftDown(before[origin..end], a, b, w)
  {
    var old', new' := before[origin..end], after[origin..end];
    forall i | 0 <= i < end - origin ensures new'[i] == ShiftedDown(old', a, b, w, i) {
      var at := origin + i;
      assert new'[i] == after[at] && old'[i] == before[at];
      assert a + w <= i < b ==>
        mid[at] == before[origin + a + (at - (origin + a + w))] == before[at - w] == old'[i - w];
      assert !(a + w <= i < b) ==> mid[at] == before[at];
      assert after[at] == if a <= i < a + w then ERASE else mid[at];
    }
  }

  /** The next row of memory, blanked, shows the same as a one-line shift. */
  lemma ScrolledOn(before: seq<nat>, after: seq<nat>, origin: nat, size: nat, w: nat)
    requires w <= size && origin + size + w <= |before| && Blanked(before, after, origin + size, w)
    ensures after[origin + w..origin + w + size] == ShiftUp(before[origin..origin + size], 0, size, w)
  {
  }

  /** So does a copy of all but the first row to the start of memory. */
  lemma ScrolledHome(before: seq<nat>, mid: seq<nat>, after: seq<nat>, origin: nat, size: nat, w: nat)
    requires w <= size && origin + size <= |before|
    requires MovedWords(before, mid, 0, origin + w, size - w) && Blanked(mid, after, size - w, w)
    ensures after[0..size] == ShiftUp(before[origin..origin + size], 0, size, w)
  {
  }

  lemma Even(n: nat, cols: nat)
    requires cols % 2 == 0
    ensures n * cols / 2 * 2 == n * cols
  {
    var half := cols / 2;
    assert n * cols == (n * half) * 2;
  }

  /** The code's addresses and counts in terms of the region's first and last cell. */
  lemma RowAddresses(top: nat, bottom: nat, cols: nat)
    requires top < bottom && cols % 2 == 0
    ensures cols * top == top * cols && cols * (top + 1) == top * cols + cols
    ensures cols * (bottom - 1) == bottom * cols - cols
    ensures (bottom - top - 1) * cols / 2 * 2 == bottom * cols - top * cols - cols >= 0
    ensures top * cols >= 0 && bottom * cols >= cols
  {
    Even(bottom - top - 1, cols);
  }
}
