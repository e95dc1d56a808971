/**
 A text terminal with unlimited scrollback, 80 columns wide, in two dialects: the display driver
 (kernel/drv/drv_vga.c) wraps as soon as a line is full, the console (lib/libk/src/stdio.rs) wraps
 before the next character. The screen is the last 25 rows.
 */
module Terminal {
  import opened Bits

  const WIDTH: nat := 80
  const SCREEN: nat := 2000  // 25 rows of 80 cells

  const BACKSPACE: byte := 8
  const TAB: byte := 9
  const NEWLINE: byte := 10
  const RETURN: byte := 13
  const SPACE: byte := 32

  datatype Cell = Cell(glyph: byte, color: byte)

  /** All cells ever, row after row; the cursor; the current colour. */
  datatype Terminal = Terminal(cells: seq<Cell>, row: nat, col: nat, color: byte)

  /** The cursor is in one of the last 25 rows; column 80 is the console's pending wrap. */
  predicate WellFormed(t: Terminal) {
    && |t.cells| >= SCREEN && |t.cells| % WIDTH == 0
    && t.col <= WIDTH
    && |t.cells| - SCREEN <= t.row * WIDTH && t.row * WIDTH + WIDTH <= |t.cells|
  }

  /** The number of cells before the cursor. */
  function Position(t: Terminal): nat {
    t.row * WIDTH + t.col
  }

  function Screen(t: Terminal): (s: seq<Cell>)
    requires |t.cells| >= SCREEN
    ensures |s| == SCREEN
  {
    t.cells[|t.cells| - SCREEN..]
  }

  function Blank(n: nat, glyph: byte, color: byte): (s: seq<Cell>)
    ensures |s| == n && forall k :: 0 <= k < n ==> s[k] == Cell(glyph, color)
  {
    seq(n, _ => Cell(glyph, color))
  }

  // ----- The operations -----

  /** Writes a cell at the cursor without moving it. */
  function Write(t: Terminal, c: byte): Terminal
    requires WellFormed(t) && t.col < WIDTH
  {
    t.(cells := t.cells[Position(t) := Cell(c, t.color)])
  }

  /** Moves to the start of the next row, which is made if there is none, filled with `fill`. */
  function NextRow(t: Terminal, fill: byte): (r: Terminal)
    requires WellFormed(t)
    ensures WellFormed(r) && r.col == 0
  {
    var more := if t.row * WIDTH + WIDTH == |t.cells| then Blank(WIDTH, fill, t.color) else [];
    t.(cells := t.cells + more, row := t.row + 1, col := 0)
  }

  /** Backspace: blanks the cell before the cursor, within the row. */
  function Back(t: Terminal): (r: Terminal)
    requires WellFormed(t)
    ensures WellFormed(r)
  {
    if t.col > 0 then Write(t.(col := t.col - 1), SPACE) else t
  }

  function EagerGlyph(t: Terminal, c: byte): (r: Terminal)
    requires WellFormed(t) && t.col < WIDTH
    ensures WellFormed(r) && r.col < WIDTH
  {
    var w := Write(t, c).(col := t.col + 1);
    if w.col >= WIDTH then NextRow(w, SPACE) else w
  }

  function EagerSpaces(t: Terminal, n: nat): (r: Terminal)
    requires WellFormed(t) && t.col < WIDTH
    ensures WellFormed(r) && r.col < WIDTH
  {
    if n == 0 then t else EagerGlyph(EagerSpaces(t, n - 1), SPACE)
  }

  /** One byte to the display driver. */
  function EagerPut(t: Terminal, c: byte): (r: Terminal)
    requires WellFormed(t) && t.col < WIDTH
    ensures WellFormed(r) && r.col < WIDTH
  {
    if c == NEWLINE then NextRow(t, SPACE)
    else if c == RETURN then t.(col := 0)
    else if c == TAB then EagerSpaces(t, 4 - t.col % 4)
    else if c == BACKSPACE then Back(t)
    else EagerGlyph(t, c)
  }

  function LazyGlyph(t: Terminal, c: byte): (r: Terminal)
    requires WellFormed(t)
    ensures WellFormed(r)
  {
    var w := if t.col >= WIDTH then NextRow(t, 0) else t;
    Write(w, c).(col := w.col + 1)
  }

  function LazySpaces(t: Terminal, n: nat): (r: Terminal)
    requires WellFormed(t)
    ensures WellFormed(r)
  {
    if n == 0 then t else LazyGlyph(LazySpaces(t, n - 1), SPACE)
  }

  /** One byte to the console: control characters other than the four known ones print nothing. */
  function LazyPut(t: Terminal, c: byte): (r: Terminal)
    requires WellFormed(t)
    ensures WellFormed(r)
  {
    if c == NEWLINE then NextRow(t, 0)
    else if c == RETURN then t.(col := 0)
    else if c == TAB then LazySpaces(t, 4 - t.col % 4)
    else if c == BACKSPACE then Back(t)
    else if c >= SPACE then LazyGlyph(t, c)
    else t
  }

  function EagerRun(t: Terminal, s: seq<byte>): (r: Terminal)
    requires WellFormed(t) && t.col < WIDTH
    ensures WellFormed(r) && r.col < WIDTH
  {
    if s == [] then t else EagerPut(EagerRun(t, s[..|s| - 1]), s[|s| - 1])
  }

  function LazyRun(t: Terminal, s: seq<byte>): (r: Terminal)
    requires WellFormed(t)
    ensures WellFormed(r)
  {
    if s == [] then t else LazyPut(LazyRun(t, s[..|s| - 1]), s[|s| - 1])
  }

  lemma EagerRunStep(t: Terminal, s: seq<byte>, c: byte)
    requires WellFormed(t) && t.col < WIDTH
    ensures EagerRun(t, s + [c]) == EagerPut(EagerRun(t, s), c)
  {
  }

  lemma LazyRunStep(t: Terminal, s: seq<byte>, c: byte)
    requires WellFormed(t)
    ensures LazyRun(t, s + [c]) == LazyPut(LazyRun(t, s), c)
  {
  }

  lemma {:induction false} LazyRunConcat(t: Terminal, a: seq<byte>, b: seq<byte>)
    requires WellFormed(t)
    ensures LazyRun(t, a + b) == LazyRun(LazyRun(t, a), b)
    decreases |b|
  {
    if b == [] {
      assert a + b == a;
    } else {
      var i := b[..|b| - 1];
      assert a + b == (a + i) + [b[|b| - 1]];
      LazyRunStep(t, a + i, b[|b| - 1]);
      LazyRunConcat(t, a, i);
    }
  }

  // ----- What each byte does -----

  /**
   One byte to the driver, cell by cell. A newline goes down one row, a return back to the start of
   the row, and neither touches a cell that is there. A backspace blanks the cell before the cursor and
   steps onto it, and does nothing at column 0. Any other byte but a tab is written at the cursor. Rows
   that did not exist are blank, in the current colour.
   */
  lemma EagerPutMeans(t: Terminal, c: byte)
    requires WellFormed(t) && t.col < 80
    ensures var r, p := EagerPut(t, c), t.row * 80 + t.col;
            && r.col < 80 && (c != 9 ==> r.color == t.color)
            && (c == 10 ==> r.row == t.row + 1 && r.col == 0 && Extended(t.cells, r.cells, r.row, 32, t.color))
            && (c == 13 ==> r.row == t.row && r.col == 0 && r.cells == t.cells)
            && (c == 8 && t.col == 0 ==> r == t)
            && (c == 8 && t.col > 0 ==>
                  r.row == t.row && r.col == t.col - 1 && r.cells == t.cells[p - 1 := Cell(32, t.color)])
            && (c !in [8, 9, 10, 13] ==>
                  && (if t.col < 79 then r.row == t.row && r.col == t.col + 1 else r.row == t.row + 1 && r.col == 0)
                  && Extended(t.cells[p := Cell(c, t.color)], r.cells, r.row, 32, t.color))
  {
    hide EagerSpaces;
    if c !in [8, 9, 10, 13] {
      assert EagerPut(t, c) == EagerGlyph(t, c);
    }
  }

  /** `after` has the cells of `before`, and where row `row` did not exist it is filled with one cell. */
  ghost predicate Extended(before: seq<Cell>, after: seq<Cell>, row: nat, glyph: byte, color: byte) {
    && |after| == (if row * 80 == |before| then |before| + 80 else |before|)
    && after[..|before|] == before
    && forall k :: |before| <= k < |after| ==> after[k] == Cell(glyph, color)
  }

  /**
   One byte to the console: the same, except that a new row is filled with zero bytes, that a character
   at column 80 first goes down one row, and that other control bytes do nothing.
   */
  lemma LazyPutMeans(t: Terminal, c: byte)
    requires WellFormed(t)
    ensures var r, p := LazyPut(t, c), t.row * 80 + t.col;
            && (c != 9 ==> r.color == t.color)
            && (c == 10 ==> r.row == t.row + 1 && r.col == 0 && Extended(t.cells, r.cells, r.row, 0, t.color))
            && (c == 13 ==> r.row == t.row && r.col == 0 && r.cells == t.cells)
            && (c == 8 && t.col == 0 ==> r == t)
            && (c == 8 && t.col > 0 ==>
                  r.row == t.row && r.col == t.col - 1 && r.cells == t.cells[p - 1 := Cell(32, t.color)])
            && (c >= 32 && t.col < 80 ==>
                  r.row == t.row && r.col == t.col + 1 && r.cells == t.cells[p := Cell(c, t.color)])
            && (c >= 32 && t.col == 80 ==>
                  && r.row == t.row + 1 && r.col == 1
                  && exists next :: Extended(t.cells, next, r.row, 0, t.color) && p < |next|
                                    && r.cells == next[p := Cell(c, t.color)])
            && (c < 32 && c !in [8, 9, 10, 13] ==> r == t)
  {
    hide LazySpaces;
    if c >= 32 && t.col == 80 {
      assert Extended(t.cells, NextRow(t, 0).cells, t.row + 1, 0, t.color);
    }
  }

  /** A tab to the driver is one to four spaces. */
  lemma EagerTabMeans(t: Terminal)
    requires WellFormed(t) && t.col < 80
    ensures EagerPut(t, 9) == EagerRun(t, seq(4 - t.col % 4, _ => 32))
  {
    hide EagerSpaces, EagerRun, NextRow, Back, EagerGlyph;
    EagerSpacesAre(t, 4 - t.col % 4);
    assert seq(4 - t.col % 4, _ => 32) == seq(4 - t.col % 4, _ => SPACE);
  }

  /** And to the console. */
  lemma LazyTabMeans(t: Terminal)
    requires WellFormed(t)
    ensures LazyPut(t, 9) == LazyRun(t, seq(4 - t.col % 4, _ => 32))
  {
    hide LazySpaces, LazyRun, NextRow, Back, LazyGlyph;
    LazySpacesAre(t, 4 - t.col % 4);
    assert seq(4 - t.col % 4, _ => 32) == seq(4 - t.col % 4, _ => SPACE);
  }

  // ----- Scrollback never changes -----

  /** Rows above the screen are final, and no cell is ever removed. */
  ghost predicate HistoryKept(t: Terminal, r: Terminal)
    requires WellFormed(t)
  {
    && |r.cells| >= |t.cells|
    && r.cells[..|t.cells| - SCREEN] == t.cells[..|t.cells| - SCREEN]
  }

  lemma {:induction false} EagerSpacesKeep(t: Terminal, n: nat)
    requires WellFormed(t) && t.col < WIDTH
    ensures HistoryKept(t, EagerSpaces(t, n))
  {
    if n > 0 {
      EagerSpacesKeep(t, n - 1);
    }
  }

  lemma {:induction false} LazySpacesKeep(t: Terminal, n: nat)
    requires WellFormed(t)
    ensures HistoryKept(t, LazySpaces(t, n))
  {
    if n > 0 {
      LazySpacesKeep(t, n - 1);
    }
  }

  lemma EagerPutKeeps(t: Terminal, c: byte)
    requires WellFormed(t) && t.col < WIDTH
    ensures HistoryKept(t, EagerPut(t, c))
  {
    EagerSpacesKeep(t, 4 - t.col % 4);
    hide EagerSpaces;
  }

  lemma LazyPutKeeps(t: Terminal, c: byte)
    requires WellFormed(t)
    ensures HistoryKept(t, LazyPut(t, c))
  {
    LazySpacesKeep(t, 4 - t.col % 4);
    hide LazySpaces;
  }

  lemma HistoryTransitive(t: Terminal, u: Terminal, r: Terminal)
    requires WellFormed(t) && WellFormed(u) && HistoryKept(t, u) && HistoryKept(u, r)
    ensures HistoryKept(t, r)
  {
  }

  /** No byte stream to the driver alters a row that has scrolled off. */
  lemma {:induction false} EagerHistory(t: Terminal, s: seq<byte>)
    requires WellFormed(t) && t.col < WIDTH
    ensures HistoryKept(t, EagerRun(t, s))
  {
    hide EagerPut;
    if s != [] {
      var u := EagerRun(t, s[..|s| - 1]);
      EagerHistory(t, s[..|s| - 1]);
      EagerPutKeeps(u, s[|s| - 1]);
      HistoryTransitive(t, u, EagerRun(t, s));
    }
  }

  /** No byte stream to the console alters a row that has scrolled off. */
  lemma {:induction false} LazyHistory(t: Terminal, s: seq<byte>)
    requires WellFormed(t)
    ensures HistoryKept(t, LazyRun(t, s))
  {
    hide LazyPut;
    if s != [] {
      var u := LazyRun(t, s[..|s| - 1]);
      LazyHistory(t, s[..|s| - 1]);
      LazyPutKeeps(u, s[|s| - 1]);
      HistoryTransitive(t, u, LazyRun(t, s));
    }
  }

  // ----- Text -----

  predicate Printable(s: seq<byte>) {
    forall k :: 0 <= k < |s| ==> s[k] >= SPACE
  }

  /** `s` stands in the cells from `start` on, in colour `color`. */
  ghost predicate TextAt(t: Terminal, start: nat, s: seq<byte>, color: byte) {
    && start + |s| <= |t.cells|
    && forall k :: 0 <= k < |s| ==> t.cells[start + k] == Cell(s[k], color)
  }

  /** One printed character: the cell at the cursor is set, those before it are kept. */
  ghost predicate Printed(t: Terminal, c: byte, r: Terminal) {
    && WellFormed(t) && |r.cells| >= |t.cells| && r.color == t.color
    && Position(r) == Position(t) + 1 && Position(t) < |r.cells|
    && r.cells[..Position(t)] == t.cells[..Position(t)] && r.cells[Position(t)] == Cell(c, t.color)
  }

  lemma EagerPrints(t: Terminal, c: byte)
    requires WellFormed(t) && t.col < WIDTH && c >= SPACE
    ensures Printed(t, c, EagerPut(t, c))
  {
  }

  lemma LazyPrints(t: Terminal, c: byte)
    requires WellFormed(t) && c >= SPACE
    ensures Printed(t, c, LazyPut(t, c))
  {
  }

  /** What printing `s` from `t` leaves. */
  ghost predicate PrintedAll(t: Terminal, s: seq<byte>, r: Terminal) {
    && TextAt(r, Position(t), s, t.color) && Position(r) == Position(t) + |s| && r.color == t.color
    && |r.cells| >= |t.cells| >= Position(t) && r.cells[..Position(t)] == t.cells[..Position(t)]
  }

  lemma PrintedOneMore(t: Terminal, s: seq<byte>, u: Terminal, c: byte, r: Terminal)
    requires PrintedAll(t, s, u) && Printed(u, c, r)
    ensures PrintedAll(t, s + [c], r)
  {
  }

  /** Printable text fills the cells from the cursor on, across rows, and the cursor follows it. */
  lemma {:induction false} EagerText(t: Terminal, s: seq<byte>)
    requires WellFormed(t) && t.col < WIDTH && Printable(s)
    ensures PrintedAll(t, s, EagerRun(t, s))
  {
    hide EagerPut, Printed, PrintedAll;
    if s == [] {
      PrintedNothing(t);
    } else {
      var i, c := s[..|s| - 1], s[|s| - 1];
      EagerText(t, i);
      EagerPrints(EagerRun(t, i), c);
      PrintedOneMore(t, i, EagerRun(t, i), c, EagerRun(t, s));
      assert s == i + [c];
    }
  }

  lemma PrintedNothing(t: Terminal)
    requires WellFormed(t)
    ensures PrintedAll(t, [], t)
  {
  }

  lemma {:induction false} LazyText(t: Terminal, s: seq<byte>)
    requires WellFormed(t) && Printable(s)
    ensures PrintedAll(t, s, LazyRun(t, s))
  {
    hide LazyPut, Printed, PrintedAll;
    if s == [] {
      PrintedNothing(t);
    } else {
      var i, c := s[..|s| - 1], s[|s| - 1];
      LazyText(t, i);
      LazyPrints(LazyRun(t, i), c);
      PrintedOneMore(t, i, LazyRun(t, i), c, LazyRun(t, s));
      assert s == i + [c];
    }
  }

  // ----- Tabs and backspace -----

  lemma {:induction false} EagerSpacesAre(t: Terminal, n: nat)
    requires WellFormed(t) && t.col < WIDTH
    ensures EagerSpaces(t, n) == EagerRun(t, seq(n, _ => SPACE))
  {
    hide EagerGlyph;
    if n > 0 {
      EagerSpacesAre(t, n - 1);
      assert seq(n, _ => SPACE)[..n - 1] == seq(n - 1, _ => SPACE);
    }
  }

  lemma {:induction false} LazySpacesAre(t: Terminal, n: nat)
    requires WellFormed(t)
    ensures LazySpaces(t, n) == LazyRun(t, seq(n, _ => SPACE))
  {
    hide LazyGlyph;
    if n > 0 {
      LazySpacesAre(t, n - 1);
      assert seq(n, _ => SPACE)[..n - 1] == seq(n - 1, _ => SPACE);
    }
  }

  /** A tab to the driver prints 1 to 4 spaces and stops at a multiple of four. */
  lemma EagerTab(t: Terminal)
    requires WellFormed(t) && t.col < WIDTH
    ensures var n := 4 - t.col % 4;
            PrintedAll(t, seq(n, _ => SPACE), EagerPut(t, TAB)) && Position(EagerPut(t, TAB)) % 4 == 0
  {
    hide EagerRun, EagerSpaces, TextAt, Back, EagerGlyph, NextRow;
    var n := 4 - t.col % 4;
    EagerSpacesAre(t, n);
    EagerText(t, seq(n, _ => SPACE));
  }

  /** A tab to the console prints 1 to 4 spaces and stops at a multiple of four. */
  lemma LazyTab(t: Terminal)
    requires WellFormed(t)
    ensures var n := 4 - t.col % 4;
            PrintedAll(t, seq(n, _ => SPACE), LazyPut(t, TAB)) && Position(LazyPut(t, TAB)) % 4 == 0
  {
    hide LazyRun, LazySpaces, TextAt, Back, LazyGlyph, NextRow;
    var n := 4 - t.col % 4;
    LazySpacesAre(t, n);
    LazyText(t, seq(n, _ => SPACE));
  }

  /** A backspace takes back any printed character on the console, and on the driver one that did not fill its row. */
  lemma BackspaceTakesBack(e: Terminal, l: Terminal, c: byte)
    requires WellFormed(e) && e.col < WIDTH && WellFormed(l) && c >= SPACE
    ensures Position(LazyPut(LazyPut(l, c), BACKSPACE)) == Position(l)
    ensures Position(EagerPut(EagerPut(e, c), BACKSPACE)) == Position(e) <==> e.col < WIDTH - 1
  {
  }

  // ----- The two dialects -----

  /** In step: the same number of cells before the cursor, and the same colour. */
  ghost predicate InStep(e: Terminal, l: Terminal) {
    && WellFormed(e) && e.col < WIDTH && WellFormed(l)
    && e.color == l.color && Position(e) == Position(l)
  }

  /** The cursors are equal, or the console still waits at column 80 of the row before. */
  lemma CursorsRelated(e: Terminal, l: Terminal)
    requires InStep(e, l)
    ensures (e.row == l.row && e.col == l.col) || (e.col == 0 && l.col == WIDTH && e.row == l.row + 1)
  {
  }

  function TextCells(s: seq<byte>, color: byte): (r: seq<Cell>)
    ensures |r| == |s| && forall k :: 0 <= k < |s| ==> r[k] == Cell(s[k], color)
  {
    seq(|s|, k requires 0 <= k < |s| => Cell(s[k], color))
  }

  lemma PrintedCells(t: Terminal, s: seq<byte>, r: Terminal)
    requires PrintedAll(t, s, r)
    ensures Position(r) == Position(t) + |s| <= |r.cells| && r.color == t.color
    ensures r.cells[Position(t)..Position(r)] == TextCells(s, t.color)
  {
  }

  /** On printable text, eager and lazy wrapping write the same cells at the same place and stay in step. */
  lemma WrapsAgree(e: Terminal, l: Terminal, s: seq<byte>)
    requires InStep(e, l) && Printable(s)
    ensures var e2, l2, p := EagerRun(e, s), LazyRun(l, s), Position(e);
            && InStep(e2, l2) && Position(e2) == p + |s|
            && p + |s| <= |e2.cells| && p + |s| <= |l2.cells|
            && e2.cells[p..p + |s|] == TextCells(s, e.color) == l2.cells[p..p + |s|]
  {
    hide EagerRun, LazyRun, TextAt, TextCells, PrintedAll;
    EagerText(e, s);
    LazyText(l, s);
    PrintedCells(e, s, EagerRun(e, s));
    PrintedCells(l, s, LazyRun(l, s));
  }

  /** A newline keeps them in step exactly when the console has no wrap pending. */
  lemma NewlineAgreesExactly(e: Terminal, l: Terminal)
    requires InStep(e, l)
    ensures InStep(EagerPut(e, NEWLINE), LazyPut(l, NEWLINE)) <==> l.col < WIDTH
  {
  }

  /** Text in lines: printable bytes, tabs, and the two bytes that end a line. */
  predicate InLines(s: seq<byte>) {
    forall k :: 0 <= k < |s| ==> s[k] >= SPACE || s[k] == TAB || EndsLine(s[k])
  }

  predicate EndsLine(c: byte) {
    c == NEWLINE || c == RETURN
  }

  /** The console's column after one more byte of such text. */
  function NextColumn(col: nat, c: byte): nat {
    if EndsLine(c) then 0
    else (if col >= WIDTH then 0 else col) + (if c == TAB then 4 - col % 4 else 1)
  }

  function ColumnAfter(col: nat, s: seq<byte>): nat {
    if s == [] then col else NextColumn(ColumnAfter(col, s[..|s| - 1]), s[|s| - 1])
  }

  /** How many line ends in `s` meet the console at column 80. */
  function FullLineEnds(col: nat, s: seq<byte>): nat {
    if s == [] then 0
    else
      var i, c := s[..|s| - 1], s[|s| - 1];
      FullLineEnds(col, i) + (if EndsLine(c) && ColumnAfter(col, i) == WIDTH then 1 else 0)
  }

  /** The driver is ahead of the console by `rows` whole rows. */
  ghost predicate Ahead(e: Terminal, l: Terminal, rows: nat) {
    && WellFormed(e) && e.col < WIDTH && WellFormed(l)
    && e.color == l.color && Position(e) == Position(l) + WIDTH * rows
  }

  lemma GlyphAhead(e: Terminal, l: Terminal, rows: nat, c: byte, d: byte)
    requires Ahead(e, l, rows)
    ensures Ahead(EagerGlyph(e, c), LazyGlyph(l, d), rows)
    ensures LazyGlyph(l, d).col == (if l.col >= WIDTH then 0 else l.col) + 1
  {
  }

  lemma {:induction false} SpacesAhead(e: Terminal, l: Terminal, rows: nat, n: nat)
    requires Ahead(e, l, rows) && 1 <= n <= 4 - l.col % 4
    ensures Ahead(EagerSpaces(e, n), LazySpaces(l, n), rows)
    ensures LazySpaces(l, n).col == (if l.col >= WIDTH then 0 else l.col) + n
  {
    hide EagerGlyph, LazyGlyph;
    if n == 1 {
      assert EagerSpaces(e, 0) == e && LazySpaces(l, 0) == l;
      GlyphAhead(e, l, rows, SPACE, SPACE);
    } else {
      SpacesAhead(e, l, rows, n - 1);
      GlyphAhead(EagerSpaces(e, n - 1), LazySpaces(l, n - 1), rows, SPACE, SPACE);
    }
  }

  lemma SameColumn(e: Terminal, l: Terminal, rows: nat)
    requires Ahead(e, l, rows)
    ensures e.col == l.col % WIDTH && e.col % 4 == l.col % 4
  {
    var k := l.row + rows - e.row;
    assert e.col == l.col + WIDTH * k && (k == 0 || (k == -1 && l.col == WIDTH));
  }

  lemma PutAhead(e: Terminal, l: Terminal, rows: nat, c: byte)
    requires Ahead(e, l, rows) && InLines([c])
    ensures Ahead(EagerPut(e, c), LazyPut(l, c), rows + (if EndsLine(c) && l.col == WIDTH then 1 else 0))
    ensures LazyPut(l, c).col == NextColumn(l.col, c)
  {
    hide EagerGlyph, LazyGlyph, EagerSpaces, LazySpaces, Back, NextRow;
    assert [c][0] == c;
    SameColumn(e, l, rows);
    if c == TAB {
      SpacesAhead(e, l, rows, 4 - l.col % 4);
    } else if c >= SPACE {
      GlyphAhead(e, l, rows, c, c);
    } else {
      EndAhead(e, l, rows);
    }
  }

  lemma EndAhead(e: Terminal, l: Terminal, rows: nat)
    requires Ahead(e, l, rows)
    ensures var more := if l.col == WIDTH then 1 else 0;
            Ahead(NextRow(e, SPACE), NextRow(l, 0), rows + more) && Ahead(e.(col := 0), l.(col := 0), rows + more)
  {
    hide Blank;
    SameColumn(e, l, rows);
  }

  /**
   Over any text in lines the driver gets ahead of the console by one row for each line end that
   meets the console at column 80, and by nothing else; their columns agree modulo 80.
   */
  lemma {:induction false} LinesDrift(e: Terminal, l: Terminal, s: seq<byte>)
    requires InStep(e, l) && InLines(s)
    ensures Ahead(EagerRun(e, s), LazyRun(l, s), FullLineEnds(l.col, s))
    ensures LazyRun(l, s).col == ColumnAfter(l.col, s)
    ensures EagerRun(e, s).col == ColumnAfter(l.col, s) % WIDTH
  {
    hide EagerPut, LazyPut, NextColumn, WellFormed;
    if s != [] {
      var i, c := s[..|s| - 1], s[|s| - 1];
      LinesDrift(e, l, i);
      PutAhead(EagerRun(e, i), LazyRun(l, i), FullLineEnds(l.col, i), c);
    }
    SameColumn(EagerRun(e, s), LazyRun(l, s), FullLineEnds(l.col, s));
  }

  /** Text in lines keeps the two in step exactly when no line end meets the console at column 80. */
  lemma LinesAgreeExactly(e: Terminal, l: Terminal, s: seq<byte>)
    requires InStep(e, l) && InLines(s)
    ensures InStep(EagerRun(e, s), LazyRun(l, s)) <==> FullLineEnds(l.col, s) == 0
  {
    hide EagerRun, LazyRun, FullLineEnds, ColumnAfter, WellFormed;
    LinesDrift(e, l, s);
  }

  // ----- Any stream -----

  /** The console's column after any byte. */
  function ColumnPast(col: nat, c: byte): nat {
    if c == BACKSPACE then (if col > 0 then col - 1 else 0)
    else if c >= SPACE || c == TAB || EndsLine(c) then NextColumn(col, c)
    else col
  }

  function ColumnAt(col: nat, s: seq<byte>): nat {
    if s == [] then col else ColumnPast(ColumnAt(col, s[..|s| - 1]), s[|s| - 1])
  }

  /** Text and tabs always do no harm; line ends and backspace do none off column 80; other control bytes always do. */
  predicate Harmless(col: nat, c: byte) {
    c >= SPACE || c == TAB || ((EndsLine(c) || c == BACKSPACE) && col < WIDTH)
  }

  /** One byte of any kind keeps the two in step exactly when it is harmless where it meets the console. */
  lemma PutAgreesExactly(e: Terminal, l: Terminal, c: byte)
    requires InStep(e, l)
    ensures InStep(EagerPut(e, c), LazyPut(l, c)) <==> Harmless(l.col, c)
    ensures LazyPut(l, c).col == ColumnPast(l.col, c)
  {
    hide EagerGlyph, LazyGlyph, EagerSpaces, LazySpaces, NextRow, Write;
    CursorsRelated(e, l);
    if c >= SPACE || c == TAB || EndsLine(c) {
      assert [c][0] == c;
      PutAhead(e, l, 0, c);
    } else if c == BACKSPACE {
      BackMoves(e);
      BackMoves(l);
    } else {
      GlyphMoves(e, c);
    }
  }

  lemma BackMoves(t: Terminal)
    requires WellFormed(t)
    ensures Back(t).row == t.row && Back(t).col == (if t.col > 0 then t.col - 1 else 0) && Back(t).color == t.color
  {
  }

  lemma GlyphMoves(t: Terminal, c: byte)
    requires WellFormed(t) && t.col < WIDTH
    ensures Position(EagerGlyph(t, c)) == Position(t) + 1
  {
  }

  /** In step after every byte of the stream. */
  ghost predicate InStepThroughout(e: Terminal, l: Terminal, s: seq<byte>)
    requires InStep(e, l)
  {
    InStep(EagerRun(e, s), LazyRun(l, s)) && (s == [] || InStepThroughout(e, l, s[..|s| - 1]))
  }

  ghost predicate AllHarmless(col: nat, s: seq<byte>) {
    s == [] ||
    (var i := s[..|s| - 1]; AllHarmless(col, i) && Harmless(ColumnAt(col, i), s[|s| - 1]))
  }

  /**
   Any byte stream at all: the two outputs stay in step throughout exactly when every byte is harmless
   at the column where it meets the console, a column that the bytes before it determine.
   */
  lemma {:induction false} StreamsAgreeExactly(e: Terminal, l: Terminal, s: seq<byte>)
    requires InStep(e, l)
    ensures InStepThroughout(e, l, s) <==> AllHarmless(l.col, s)
    ensures AllHarmless(l.col, s) ==> LazyRun(l, s).col == ColumnAt(l.col, s)
  {
    hide EagerPut, LazyPut, Harmless, ColumnPast, Position;
    if s != [] {
      var i := s[..|s| - 1];
      StreamsAgreeExactly(e, l, i);
      if InStepThroughout(e, l, i) {
        PutAgreesExactly(EagerRun(e, i), LazyRun(l, i), s[|s| - 1]);
      }
    }
  }

  /** In step throughout is in step after every prefix. */
  lemma {:induction false} InStepOnPrefix(e: Terminal, l: Terminal, s: seq<byte>, k: nat)
    requires InStep(e, l) && InStepThroughout(e, l, s) && k <= |s|
    ensures InStep(EagerRun(e, s[..k]), LazyRun(l, s[..k]))
  {
    hide EagerRun, LazyRun, Position, WellFormed;
    if k < |s| {
      InStepOnPrefix(e, l, s[..|s| - 1], k);
      assert s[..|s| - 1][..k] == s[..k];
    } else {
      assert s[..k] == s;
    }
  }

  // ----- From blank screens -----

  /** A blank screen, as the outputs leave it at start-up. */
  function BlankTerminal(fill: byte, color: byte): (t: Terminal)
    ensures WellFormed(t) && t.col == 0 && Position(t) == 0 && t.color == color
  {
    Terminal(Blank(SCREEN, fill, color), 0, 0, color)
  }

  lemma {:induction false} ColumnOfText(s: seq<byte>)
    requires Printable(s) && |s| <= WIDTH
    ensures ColumnAfter(0, s) == |s| && FullLineEnds(0, s) == 0
  {
    if s != [] {
      ColumnOfText(s[..|s| - 1]);
    }
  }

  /** They do part: from blank screens, any full line of 80 characters and its newline put the driver a row ahead. */
  lemma FullLineParts(s: seq<byte>, color: byte)
    requires Printable(s) && |s| == WIDTH
    ensures var e, l := BlankTerminal(SPACE, color), BlankTerminal(0, color);
            && InStep(EagerRun(e, s), LazyRun(l, s)) && LazyRun(l, s).col == WIDTH
            && Position(EagerRun(e, s + [NEWLINE])) == 160 && Position(LazyRun(l, s + [NEWLINE])) == 80
  {
    hide EagerRun, LazyRun, BlankTerminal, FullLineEnds, ColumnAfter, WellFormed;
    var e, l := BlankTerminal(SPACE, color), BlankTerminal(0, color);
    ColumnOfText(s);
    LinesDrift(e, l, s);
    WrapsAgree(e, l, s);
    EagerRunStep(e, s, NEWLINE);
    LazyRunStep(l, s, NEWLINE);
    CursorsRelated(EagerRun(e, s), LazyRun(l, s));
  }
}
