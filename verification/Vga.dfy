/** The VGA terminal's output (servers/vga/main.c): an 80 by 25 buffer that scrolls is a window on
    the last rows of a terminal of unbounded height. */
module Vga {
  import opened Words

  const COLS: nat := 80
  const ROWS: nat := 25

  const BACKSPACE: Byte := 0x08
  const NEWLINE: Byte := 0x0A
  const RETURN: Byte := 0x0D

  /** A character with its attribute byte. */
  type Cell = c: nat | c < 0x1_0000

  /** Light grey on black. */
  function Glyph(ch: Byte): Cell {
    0x0700 + ch
  }

  const BLANK: Cell := 0x0720

  function Blanks(k: nat): (s: seq<Cell>)
    ensures |s| == k
  {
    seq(k, i => BLANK)
  }

  /** Rows of cells, one after the other, and the cursor. */
  datatype Grid = Grid(cells: seq<Cell>, r: nat, c: nat)

  predicate OnScreen(g: Grid) {
    |g.cells| == COLS * ROWS && g.r < ROWS && g.c < COLS
  }

  /** Cell c of the cursor's row becomes x, and the cursor moves to c1. */
  function Draw(g: Grid, c: nat, x: Cell, c1: nat): (g': Grid)
    requires g.r * COLS + c < |g.cells|
    ensures |g'.cells| == |g.cells|
  {
    Grid(g.cells[g.r * COLS + c := x], g.r, c1)
  }

  // ---- the buffer ----

  function Scrolled(cells: seq<Cell>): (s: seq<Cell>)
    requires |cells| >= COLS
    ensures |s| == |cells|
  {
    cells[COLS..] + Blanks(COLS)
  }

  function NextRow(g: Grid): (g': Grid)
    requires OnScreen(g)
    ensures OnScreen(g')
  {
    if g.r + 1 >= ROWS then Grid(Scrolled(g.cells), ROWS - 1, 0) else Grid(g.cells, g.r + 1, 0)
  }

  /** vga_putc: wherever the cursor goes, it stays on the screen. */
  function Put(g: Grid, ch: Byte): (g': Grid)
    requires OnScreen(g)
    ensures OnScreen(g')
  {
    if ch == NEWLINE then NextRow(g)
    else if ch == BACKSPACE then
      if g.c > 0 then Draw(g, g.c - 1, BLANK, g.c - 1) else g
    else if ch == RETURN then Grid(g.cells, g.r, 0)
    else
      if g.c + 1 >= COLS then NextRow(Draw(g, g.c, Glyph(ch), g.c)) else Draw(g, g.c, Glyph(ch), g.c + 1)
  }

  function PutAll(g: Grid, chars: seq<Byte>): (g': Grid)
    requires OnScreen(g)
    ensures OnScreen(g')
    decreases |chars|
  {
    if chars == [] then g else PutAll(Put(g, chars[0]), chars[1..])
  }

  function Cleared(): Grid {
    Grid(Blanks(COLS * ROWS), 0, 0)
  }

  // ---- a terminal of unbounded height ----

  /** The cursor is always in the last row, which is the only one that changes. */
  predicate OnPaper(p: Grid) {
    |p.cells| == COLS * (p.r + 1) && p.c < COLS
  }

  function Feed(p: Grid): (p': Grid)
    requires OnPaper(p)
    ensures OnPaper(p')
  {
    Grid(p.cells + Blanks(COLS), p.r + 1, 0)
  }

  function Type(p: Grid, ch: Byte): (p': Grid)
    requires OnPaper(p)
    ensures OnPaper(p')
  {
    if ch == NEWLINE then Feed(p)
    else if ch == BACKSPACE then
      if p.c > 0 then Draw(p, p.c - 1, BLANK, p.c - 1) else p
    else if ch == RETURN then Grid(p.cells, p.r, 0)
    else
      if p.c + 1 >= COLS then Feed(Draw(p, p.c, Glyph(ch), p.c)) else Draw(p, p.c, Glyph(ch), p.c + 1)
  }

  function TypeAll(p: Grid, chars: seq<Byte>): (p': Grid)
    requires OnPaper(p)
    ensures OnPaper(p')
    decreases |chars|
  {
    if chars == [] then p else TypeAll(Type(p, chars[0]), chars[1..])
  }

  function Fresh(): (p: Grid)
    ensures OnPaper(p)
  {
    Grid(Blanks(COLS), 0, 0)
  }

  // ---- the window ----

  /** The last twenty-five rows, with blank rows below while there are fewer. */
  function Window(p: Grid): (g: Grid)
    requires OnPaper(p)
    ensures OnScreen(g)
  {
    var n := COLS * ROWS;
    if p.r < ROWS then Grid(p.cells + Blanks(n - |p.cells|), p.r, p.c)
    else Grid(p.cells[|p.cells| - n..], ROWS - 1, p.c)
  }

  lemma WindowFeeds(p: Grid)
    requires OnPaper(p)
    ensures Window(Feed(p)) == NextRow(Window(p))
  {
    var n := COLS * ROWS;
    var fed := Feed(p).cells;
    if p.r + 1 < ROWS {
      assert fed + Blanks(n - |fed|) == p.cells + Blanks(n - |p.cells|);
    } else if p.r + 1 == ROWS {
      assert fed[|fed| - n..] == (p.cells + Blanks(0))[COLS..] + Blanks(COLS);
    } else {
      assert fed[|fed| - n..] == p.cells[|p.cells| - n..][COLS..] + Blanks(COLS);
    }
  }

  /** A change in the last row shows in the window. */
  lemma WindowShows(p: Grid, c: nat, x: Cell, c1: nat)
    requires OnPaper(p) && c < COLS && c1 < COLS
    ensures Window(Draw(p, c, x, c1)) == Draw(Window(p), c, x, c1)
  {
    var n := COLS * ROWS;
    var at := p.r * COLS + c;
    var cells := p.cells[at := x];
    if p.r < ROWS {
      assert cells + Blanks(n - |cells|) == (p.cells + Blanks(n - |p.cells|))[at := x];
    } else {
      var from := |p.cells| - n;
      assert cells[from..] == p.cells[from..][at - from := x];
    }
  }

  lemma WindowTypes(p: Grid, ch: Byte)
    requires OnPaper(p)
    ensures Window(Type(p, ch)) == Put(Window(p), ch)
  {
    if ch == NEWLINE {
      WindowFeeds(p);
    } else if ch == BACKSPACE {
      if p.c > 0 {
        WindowShows(p, p.c - 1, BLANK, p.c - 1);
      }
    } else if ch != RETURN {
      if p.c + 1 >= COLS {
        WindowShows(p, p.c, Glyph(ch), p.c);
        WindowFeeds(Draw(p, p.c, Glyph(ch), p.c));
      } else {
        WindowShows(p, p.c, Glyph(ch), p.c + 1);
      }
    }
  }

  lemma {:induction false} WindowTypesAll(p: Grid, chars: seq<Byte>)
    requires OnPaper(p)
    ensures Window(TypeAll(p, chars)) == PutAll(Window(p), chars)
    decreases |chars|
  {
    if chars == [] {
    } else {
      WindowTypes(p, chars[0]);
      WindowTypesAll(Type(p, chars[0]), chars[1..]);
    }
  }

  /** After a clear and any characters, the buffer is the window on the unbounded terminal fed the
      same characters. */
  lemma BufferIsWindow(chars: seq<Byte>)
    ensures PutAll(Cleared(), chars) == Window(TypeAll(Fresh(), chars))
  {
    WindowTypesAll(Fresh(), chars);
    assert Blanks(COLS) + Blanks(COLS * ROWS - COLS) == Blanks(COLS * ROWS);
  }

  // ---- what the unbounded terminal shows ----

  predicate Printing(ch: Byte) {
    ch != NEWLINE && ch != BACKSPACE && ch != RETURN
  }

  function Glyphs(t: seq<Byte>): (s: seq<Cell>)
    ensures |s| == |t|
  {
    seq(|t|, i requires 0 <= i < |t| => Glyph(t[i]))
  }

  /** Text of at most a row's rest, typed on a row whose rest is blank, stands there. */
  lemma {:induction false} TypesText(p: Grid, t: seq<Byte>)
    requires OnPaper(p) && p.c + |t| < COLS && forall i | 0 <= i < |t| :: Printing(t[i])
    ensures var at := p.r * COLS + p.c;
      TypeAll(p, t) == Grid(p.cells[..at] + Glyphs(t) + p.cells[at + |t|..], p.r, p.c + |t|)
    decreases |t|
  {
    var at := p.r * COLS + p.c;
    if t == [] {
      assert p.cells == p.cells[..at] + Glyphs(t) + p.cells[at..];
    } else {
      var p1 := Type(p, t[0]);
      TypesText(p1, t[1..]);
      assert p1.cells[..at + 1] == p.cells[..at] + [Glyph(t[0])];
      assert p1.cells[at + |t|..] == p.cells[at + |t|..];
      assert Glyphs(t) == [Glyph(t[0])] + Glyphs(t[1..]);
      assert p.cells[..at] + Glyphs(t) == p1.cells[..at + 1] + Glyphs(t[1..]);
    }
  }

  // ---- paper as one long row ----

  /** The cell at a place, counted from the start; paper that has not been fed yet is blank. */
  function CellAt(p: Grid, j: nat): Cell {
    if j < |p.cells| then p.cells[j] else BLANK
  }

  function Place(p: Grid): nat {
    p.r * COLS + p.c
  }

  /** Where a character leaves the cursor: a printing one moves it on, through the end of the row into
      the next; a newline to the start of the next row, a return to the start of its own; a backspace
      back, but not out of the row. */
  function PlaceAfter(at: nat, ch: Byte): nat {
    if ch == 0x0A then (at / 80 + 1) * 80
    else if ch == 0x0D then at / 80 * 80
    else if ch == 0x08 then (if at % 80 > 0 then at - 1 else at)
    else at + 1
  }

  /** What it leaves in cell j, where `was` stood: itself if it prints, a blank if it goes back. */
  function CellAfter(at: nat, ch: Byte, j: nat, was: Cell): Cell {
    if ch == 0x0A || ch == 0x0D then was
    else if ch == 0x08 then (if at % 80 > 0 && j == at - 1 then 0x0720 else was)
    else if j == at then 0x0700 + ch else was
  }

  lemma TypeTells(p: Grid, ch: Byte)
    requires OnPaper(p)
    ensures var p' := Type(p, ch);
      && Place(p') == PlaceAfter(Place(p), ch)
      && forall j: nat :: CellAt(p', j) == CellAfter(Place(p), ch, j, CellAt(p, j))
  {
    PlaceParts(p);
  }

  lemma PlaceParts(p: Grid)
    requires OnPaper(p)
    ensures Place(p) / 80 == p.r && Place(p) % 80 == p.c
  {
  }

  lemma {:induction false} TypedOn(p: Grid, s: seq<Byte>, t: seq<Byte>)
    requires OnPaper(p)
    ensures TypeAll(p, s + t) == TypeAll(TypeAll(p, s), t)
    decreases |s|
  {
    if s == [] {
      assert s + t == t;
    } else {
      assert (s + t)[0] == s[0] && (s + t)[1..] == s[1..] + t;
      TypedOn(Type(p, s[0]), s[1..], t);
    }
  }

  /** Text of any length stands where it was typed, running on from row to row, over what was there. */
  lemma {:induction false} TextStands(p: Grid, t: seq<Byte>)
    requires OnPaper(p) && forall i | 0 <= i < |t| :: Printing(t[i])
    ensures var at, p' := Place(p), TypeAll(p, t);
      && Place(p') == at + |t|
      && forall j: nat :: CellAt(p', j) == if at <= j < at + |t| then Glyph(t[j - at]) else CellAt(p, j)
    decreases |t|
  {
    if t == [] {
    } else {
      TypeTells(p, t[0]);
      TextStands(Type(p, t[0]), t[1..]);
    }
  }

  /** The lines, each ended by a newline. */
  function LinesOf(lines: seq<seq<Byte>>): seq<Byte> {
    if lines == [] then [] else lines[0] + [NEWLINE] + LinesOf(lines[1..])
  }

  predicate Short(line: seq<Byte>) {
    |line| < COLS && forall i | 0 <= i < |line| :: Printing(line[i])
  }

  /** The cell in column c of a row that shows the line, over a row that was blank. */
  function RowCell(line: seq<Byte>, c: nat): Cell {
    if c < |line| then Glyph(line[c]) else BLANK
  }

  lemma LineStands(p: Grid, line: seq<Byte>)
    requires OnPaper(p) && p.c == 0 && Short(line) && forall j: nat | j >= Place(p) :: CellAt(p, j) == BLANK
    ensures var p' := TypeAll(p, line + [NEWLINE]);
      && p'.c == 0 && Place(p') == Place(p) + 80
      && forall j: nat :: CellAt(p', j) == if Place(p) <= j < Place(p') then RowCell(line, j - Place(p)) else CellAt(p, j)
  {
    TypedOn(p, line, [NEWLINE]);
    TextStands(p, line);
    var p1 := TypeAll(p, line);
    PlaceParts(p);
    PlaceParts(p1);
    TypeTells(p1, NEWLINE);
    assert TypeAll(p1, [NEWLINE]) == Type(p1, NEWLINE);
    PlaceParts(Type(p1, NEWLINE));
  }

  /** Lines printed from the start of a blank row on stand one to a row. */
  lemma {:induction false} LinesStand(p: Grid, lines: seq<seq<Byte>>)
    requires OnPaper(p) && p.c == 0 && forall j: nat | j >= Place(p) :: CellAt(p, j) == BLANK
    requires forall i | 0 <= i < |lines| :: Short(lines[i])
    ensures var at, p' := Place(p), TypeAll(p, LinesOf(lines));
      && p'.c == 0 && Place(p') == at + 80 * |lines|
      && (forall j: nat | j < at || j >= Place(p') :: CellAt(p', j) == CellAt(p, j))
      && forall i: nat, c: nat | i < |lines| && c < 80 :: CellAt(p', at + 80 * i + c) == RowCell(lines[i], c)
    decreases |lines|
  {
    if lines == [] {
    } else {
      var first, rest := lines[0] + [NEWLINE], lines[1..];
      LineStands(p, lines[0]);
      var p1 := TypeAll(p, first);
      TypedOn(p, first, LinesOf(rest));
      LinesStand(p1, rest);
      var at, p' := Place(p), TypeAll(p, LinesOf(lines));
      forall i: nat, c: nat | i < |lines| && c < 80
        ensures CellAt(p', at + 80 * i + c) == RowCell(lines[i], c)
      {
        if i > 0 {
          assert lines[i] == rest[i - 1] && at + 80 * i + c == Place(p1) + 80 * (i - 1) + c;
        }
      }
    }
  }

  /** The place that the window's first cell shows: that of the row twenty-four above the last one, or
      the start. */
  function WindowStart(p: Grid): nat {
    if p.r < 25 then 0 else (p.r - 24) * 80
  }

  lemma WindowIs(p: Grid, at: nat, j: nat)
    requires OnPaper(p) && at < 2000 && j == WindowStart(p) + at
    ensures Window(p).cells[at] == CellAt(p, j)
    ensures Window(p).c == p.c && Window(p).r == if p.r < 25 then p.r else 24
  {
  }

  /** Lines printed on fresh paper: row i shows line i, and the rows behind the last are blank. */
  lemma PaperShows(lines: seq<seq<Byte>>, i: nat, c: nat, j: nat)
    requires c < 80 && j == 80 * i + c && forall i | 0 <= i < |lines| :: Short(lines[i])
    ensures var p := TypeAll(Fresh(), LinesOf(lines));
      p.r == |lines| && p.c == 0 && CellAt(p, j) == if i < |lines| then RowCell(lines[i], c) else BLANK
  {
    var p := TypeAll(Fresh(), LinesOf(lines));
    LinesStand(Fresh(), lines);
    PlaceParts(p);
    if i < |lines| {
      assert Place(Fresh()) + 80 * i + c == j;
    }
  }

  /** After a clear and any lines, the screen shows the newest twenty-four of them, one to a row, above
      an empty row with the cursor; or all of them, if there are fewer, above blank rows. */
  lemma NewestLinesShow(lines: seq<seq<Byte>>, hidden: nat, q: nat, c: nat, at: nat)
    requires q < 25 && c < 80 && at == q * 80 + c && forall i | 0 <= i < |lines| :: Short(lines[i])
    requires hidden == if |lines| < 25 then 0 else |lines| - 24
    ensures ShowsRow(PutAll(Cleared(), LinesOf(lines)), lines, hidden, q, c, at)
  {
    var p, i := TypeAll(Fresh(), LinesOf(lines)), hidden + q;
    var j := 80 * i + c;
    BufferIsWindow(LinesOf(lines));
    PaperShows(lines, i, c, j);
    RowsShown(p, lines, hidden, q, c, at, i, j);
  }

  lemma RowsShown(p: Grid, lines: seq<seq<Byte>>, hidden: nat, q: nat, c: nat, at: nat, i: nat, j: nat)
    requires OnPaper(p) && p.r == |lines| && p.c == 0 && hidden == (if p.r < 25 then 0 else p.r - 24)
    requires q < 25 && c < 80 && at == q * 80 + c && i == hidden + q && j == 80 * i + c
    requires CellAt(p, j) == if i < |lines| then RowCell(lines[i], c) else BLANK
    ensures ShowsRow(Window(p), lines, hidden, q, c, at)
  {
    WindowOfRows(p, hidden, q, c, at, j);
  }

  /** The grid's cell in row q and column c is that of line `hidden + q`, and its cursor is below the
      lines. */
  predicate ShowsRow(g: Grid, lines: seq<seq<Byte>>, hidden: nat, q: nat, c: nat, at: nat)
    requires hidden <= |lines|
  {
    && g.c == 0 && g.r == |lines| - hidden && at < |g.cells|
    && g.cells[at] == if hidden + q < |lines| then RowCell(lines[hidden + q], c) else BLANK
  }

  /** The window on paper whose last row is `p.r`, by rows. */
  lemma WindowOfRows(p: Grid, hidden: nat, q: nat, c: nat, at: nat, j: nat)
    requires OnPaper(p) && hidden == (if p.r < 25 then 0 else p.r - 24) && q < 25 && c < 80
    requires at == q * 80 + c && j == 80 * (hidden + q) + c
    ensures var g := Window(p); g.c == p.c && g.r == p.r - hidden && g.cells[at] == CellAt(p, j)
  {
    StartOf(p, hidden, q, c, at, j);
    WindowIs(p, at, j);
  }

  lemma StartOf(p: Grid, hidden: nat, q: nat, c: nat, at: nat, j: nat)
    requires hidden == (if p.r < 25 then 0 else p.r - 24) && at == q * 80 + c && j == 80 * (hidden + q) + c
    requires q < 25 && c < 80
    ensures j == WindowStart(p) + at && at < 2000
  {
  }

  // ---- in place ----

  class Display {
    const vga: array<Cell>
    var curR: nat
    var curC: nat

    ghost predicate Valid()
      reads this, vga
    {
      vga.Length == COLS * ROWS && curR < ROWS && curC < COLS
    }

    ghost function Shown(): (g: Grid)
      reads this, vga
    {
      Grid(vga[..], curR, curC)
    }

    constructor ()
      ensures fresh(vga) && Valid() && Shown() == Cleared()
    {
      vga := new Cell[COLS * ROWS](i => BLANK);
      curR, curC := 0, 0;
      new;
      assert vga[..] == Blanks(COLS * ROWS);
    }

    method Scroll()
      requires Valid()
      modifies vga
      ensures vga[..] == Scrolled(old(vga[..]))
    {
      ghost var was := vga[..];
      var i := 0;
      while i < (ROWS - 1) * COLS
        invariant i <= (ROWS - 1) * COLS
        invariant forall j | 0 <= j < i :: vga[j] == was[j + COLS]
        invariant forall j | i <= j < vga.Length :: vga[j] == was[j]
      {
        vga[i] := vga[i + COLS];
        i := i + 1;
      }
      var c := 0;
      while c < COLS
        invariant c <= COLS
        invariant forall j | 0 <= j < i :: vga[j] == was[j + COLS]
        invariant forall j | i <= j < i + c :: vga[j] == BLANK
      {
        vga[(ROWS - 1) * COLS + c] := BLANK;
        c := c + 1;
      }
    }

    method NewRow()
      requires Valid()
      modifies this, vga
      ensures Valid() && Shown() == NextRow(old(Shown()))
    {
      curC := 0;
      curR := curR + 1;
      if curR >= ROWS {
        curR := ROWS - 1;
        Scroll();
      }
    }

    method SetCell(at: nat, x: Cell)
      requires Valid() && at < vga.Length
      modifies vga
      ensures Valid() && vga[..] == old(vga[..])[at := x]
    {
      vga[at] := x;
    }

    method Putc(ch: Byte)
      requires Valid()
      modifies this, vga
      ensures Valid() && Shown() == Put(old(Shown()), ch)
    {
      if ch == NEWLINE {
        NewRow();
      } else if ch == BACKSPACE {
        if curC > 0 {
          curC := curC - 1;
          SetCell(curR * COLS + curC, BLANK);
        }
      } else if ch == RETURN {
        curC := 0;
      } else {
        SetCell(curR * COLS + curC, Glyph(ch));
        if curC + 1 >= COLS {
          NewRow();
        } else {
          curC := curC + 1;
        }
      }
    }

    method Clear()
      requires Valid()
      modifies this, vga
      ensures Valid() && Shown() == Cleared()
    {
      var i := 0;
      while i < COLS * ROWS
        invariant i <= COLS * ROWS && Valid()
        invariant forall j | 0 <= j < i :: vga[j] == BLANK
      {
        vga[i] := BLANK;
        i := i + 1;
      }
      curR, curC := 0, 0;
      assert vga[..] == Blanks(COLS * ROWS);
    }

    /** MSG_WRITE, and what it means after a clear: p is the unbounded terminal so far. */
    method Write(chars: seq<Byte>, ghost p: Grid)
      requires Valid() && OnPaper(p) && Shown() == Window(p)
      modifies this, vga
      ensures Valid() && Shown() == Window(TypeAll(p, chars))
    {
      ghost var done := p;
      var i := 0;
      while i < |chars|
        invariant i <= |chars| && Valid() && OnPaper(done) && Shown() == Window(done)
        invariant TypeAll(done, chars[i..]) == TypeAll(p, chars)
      {
        WindowTypes(done, chars[i]);
        Putc(chars[i]);
        assert chars[i..][1..] == chars[i + 1..];
        done := Type(done, chars[i]);
        i := i + 1;
      }
    }
  }
}
