/**
 The two text outputs, each updating a 4000-byte screen buffer in place: the display driver
 (kernel/drv/drv_vga.c) and the console (lib/libk/src/stdio.rs). Each is proved to show the last
 25 rows of the terminal of `Terminal` that is fed the same bytes.
 */
module Consoles {
  import opened Bits
  import opened Options
  import opened Terminal

  const VGA_WIDTH: int := 80
  const VGA_HEIGHT: int := 25
  const DEFAULT_COLOR: byte := 0x0F

  // ----- The screen buffer -----

  function VgaIndex(x: int, y: int): int {
    (y * VGA_WIDTH + x) * 2
  }

  /** The cells of a screen buffer: character byte, then colour byte. */
  function Cells(b: seq<byte>): (s: seq<Cell>)
    requires |b| == 4000
    ensures |s| == SCREEN && forall k :: 0 <= k < SCREEN ==> s[k] == Cell(b[2 * k], b[2 * k + 1])
  {
    seq(SCREEN, k requires 0 <= k < SCREEN => Cell(b[2 * k], b[2 * k + 1]))
  }

  /** `vga_putc_at`. */
  method PutcAt(buf: array<byte>, c: byte, color: byte, x: int, y: int)
    requires buf.Length == 4000 && 0 <= x < VGA_WIDTH && 0 <= y < VGA_HEIGHT
    modifies buf
    ensures Cells(buf[..]) == old(Cells(buf[..]))[y * VGA_WIDTH + x := Cell(c, color)]
    ensures var at := 2 * (80 * y + x); buf[..] == old(buf[..])[at := c][at + 1 := color]
  {
    var idx := VgaIndex(x, y);
    buf[idx] := c;
    buf[idx + 1] := color;
  }

  /** The scrolling loops: every row moves up by one and the last row is filled. */
  method ScrollUp(buf: array<byte>, fill: byte, color: byte)
    requires buf.Length == 4000
    modifies buf
    ensures Cells(buf[..]) == old(Cells(buf[..]))[80..] + Blank(WIDTH, fill, color)
  {
    hide Cells, Blank;
    var y := 1;
    while y < VGA_HEIGHT
      invariant 1 <= y <= VGA_HEIGHT
      invariant forall k :: 0 <= k < (y - 1) * 160 ==> buf[k] == old(buf[k + 160])
      invariant forall k :: (y - 1) * 160 <= k < 4000 ==> buf[k] == old(buf[k])
    {
      var x := 0;
      while x < VGA_WIDTH
        invariant 0 <= x <= VGA_WIDTH
        invariant forall k :: 0 <= k < (y - 1) * 160 + 2 * x ==> buf[k] == old(buf[k + 160])
        invariant forall k :: (y - 1) * 160 + 2 * x <= k < 4000 ==> buf[k] == old(buf[k])
      {
        var src := VgaIndex(x, y);
        var dst := VgaIndex(x, y - 1);
        buf[dst] := buf[src];
        buf[dst + 1] := buf[src + 1];
        x := x + 1;
      }
      y := y + 1;
    }
    var x := 0;
    while x < VGA_WIDTH
      invariant 0 <= x <= VGA_WIDTH
      invariant forall k :: 0 <= k < 3840 ==> buf[k] == old(buf[k + 160])
      invariant forall j :: 0 <= j < x ==> buf[3840 + 2 * j] == fill && buf[3841 + 2 * j] == color
    {
      var idx := VgaIndex(x, VGA_HEIGHT - 1);
      buf[idx] := fill;
      buf[idx + 1] := color;
      x := x + 1;
    }
    Scrolled(old(buf[..]), buf[..], fill, color);
  }

  lemma Scrolled(b: seq<byte>, b2: seq<byte>, fill: byte, color: byte)
    requires |b| == |b2| == 4000
    requires forall k :: 0 <= k < 3840 ==> b2[k] == b[k + 160]
    requires forall j :: 0 <= j < 80 ==> b2[3840 + 2 * j] == fill && b2[3841 + 2 * j] == color
    ensures Cells(b2) == Cells(b)[80..] + Blank(WIDTH, fill, color)
  {
    forall k | 0 <= k < SCREEN
      ensures Cells(b2)[k] == (Cells(b)[80..] + Blank(WIDTH, fill, color))[k]
    {
      if k >= 1920 {
        assert b2[3840 + 2 * (k - 1920)] == fill && b2[3841 + 2 * (k - 1920)] == color;
      }
    }
  }

  /** The loops that overwrite the whole screen. */
  method FillScreen(buf: array<byte>, c: byte, color: byte)
    requires buf.Length == 4000
    modifies buf
    ensures Cells(buf[..]) == Blank(SCREEN, c, color)
  {
    var y := 0;
    while y < VGA_HEIGHT
      invariant 0 <= y <= VGA_HEIGHT
      invariant forall k :: 0 <= k < y * VGA_WIDTH ==> Cells(buf[..])[k] == Cell(c, color)
    {
      var x := 0;
      while x < VGA_WIDTH
        invariant 0 <= x <= VGA_WIDTH
        invariant forall k :: 0 <= k < y * VGA_WIDTH + x ==> Cells(buf[..])[k] == Cell(c, color)
      {
        PutcAt(buf, c, color, x, y);
        x := x + 1;
      }
      y := y + 1;
    }
  }

  /** A screen buffer and cursor show a terminal: its last 25 rows, its cursor, its colour. */
  ghost predicate ShowsTerminal(b: seq<byte>, x: int, y: int, color: byte, t: Terminal) {
    && |b| == 4000 && WellFormed(t)
    && Cells(b) == Screen(t)
    && x == t.col && |t.cells| - SCREEN + y * VGA_WIDTH == t.row * WIDTH
    && color == t.color
  }

  /** The bytes on screen: character and colour of the terminal's last 2000 cells, row after row. */
  lemma ScreenBytes(b: seq<byte>, x: int, y: int, color: byte, t: Terminal, row: nat, col: nat)
    requires ShowsTerminal(b, x, y, color, t) && row < 25 && col < 80
    ensures |b| == 4000 && |t.cells| >= 2000
    ensures var cell := t.cells[|t.cells| - 2000 + 80 * row + col];
            b[2 * (80 * row + col)] == cell.glyph && b[2 * (80 * row + col) + 1] == cell.color
    ensures color == t.color && x == t.col && |t.cells| - 2000 + 80 * y == 80 * t.row
  {
    var k := 80 * row + col;
    assert Cells(b)[k] == Screen(t)[k];
  }

  lemma CursorOnScreen(b: seq<byte>, x: int, y: int, color: byte, t: Terminal)
    requires ShowsTerminal(b, x, y, color, t)
    ensures |b| == 4000 && WellFormed(t) && x == t.col && 0 <= y < VGA_HEIGHT && color == t.color
  {
  }

  lemma CursorMoves(b: seq<byte>, x: int, y: int, color: byte, t: Terminal, col: nat)
    requires ShowsTerminal(b, x, y, color, t) && col <= WIDTH
    ensures ShowsTerminal(b, col, y, color, t.(col := col))
  {
  }

  /** Setting the cell at the cursor writes to the terminal. */
  lemma WriteShows(b: seq<byte>, b2: seq<byte>, x: int, y: int, color: byte, t: Terminal, c: byte)
    requires ShowsTerminal(b, x, y, color, t) && t.col < WIDTH && 0 <= y < VGA_HEIGHT
    requires |b2| == 4000 && Cells(b2) == Cells(b)[y * VGA_WIDTH + x := Cell(c, color)]
    ensures ShowsTerminal(b2, x, y, color, Write(t, c))
  {
  }

  // ----- The display driver -----

  class VgaDriver {
    const buffer: array<byte>
    var cursorX: int
    var cursorY: int
    var color: byte

    ghost predicate Shows(t: Terminal)
      reads this, buffer
    {
      ShowsTerminal(buffer[..], cursorX, cursorY, color, t) && t.col < WIDTH
    }

    /** A driver on a screen buffer, before its start-up: whatever the buffer holds is shown. */
    constructor (buffer: array<byte>)
      requires buffer.Length == 4000
      ensures this.buffer == buffer && Shows(Terminal(Cells(buffer[..]), 0, 0, DEFAULT_COLOR))
    {
      this.buffer := buffer;
      cursorX, cursorY, color := 0, 0, DEFAULT_COLOR;
    }

    /** Moving to the next line: the cursor steps down and `vga_scroll` runs. */
    method NextLine(ghost t: Terminal)
      requires ShowsTerminal(buffer[..], cursorX, cursorY, color, t)
      modifies this, buffer
      ensures Shows(NextRow(t, SPACE))
    {
      cursorX := 0;
      cursorY := cursorY + 1;
      if cursorY >= VGA_HEIGHT {
        ScrollUp(buffer, SPACE, color);
        cursorY := VGA_HEIGHT - 1;
      }
    }

    /** `vga_putc`. */
    method Putc(c: byte, ghost t: Terminal)
      requires Shows(t)
      modifies this, buffer
      ensures Shows(EagerPut(t, c))
      decreases if c == TAB then 1 else 0
    {
      hide ShowsTerminal, WellFormed, Write, NextRow, EagerRun;
      CursorOnScreen(buffer[..], cursorX, cursorY, color, t);
      if c == NEWLINE {
        NextLine(t);
      } else if c == RETURN {
        CursorMoves(buffer[..], cursorX, cursorY, color, t, 0);
        cursorX := 0;
      } else if c == TAB {
        var tab := 4 - cursorX % 4;
        var i := 0;
        while i < tab
          invariant 0 <= i <= tab && Shows(EagerSpaces(t, i))
        {
          Putc(SPACE, EagerSpaces(t, i));
          i := i + 1;
        }
      } else if c == BACKSPACE {
        if cursorX > 0 {
          CursorMoves(buffer[..], cursorX, cursorY, color, t, t.col - 1);
          cursorX := cursorX - 1;
          ghost var before := buffer[..];
          PutcAt(buffer, SPACE, color, cursorX, cursorY);
          WriteShows(before, buffer[..], cursorX, cursorY, color, t.(col := t.col - 1), SPACE);
        }
      } else {
        ghost var before := buffer[..];
        PutcAt(buffer, c, color, cursorX, cursorY);
        WriteShows(before, buffer[..], cursorX, cursorY, color, t, c);
        CursorMoves(buffer[..], cursorX, cursorY, color, Write(t, c), t.col + 1);
        cursorX := cursorX + 1;
        if cursorX >= VGA_WIDTH {
          NextLine(Write(t, c).(col := WIDTH));
        }
      }
    }

    /** `vga_driver_init`. */
    method DriverInit()
      requires buffer.Length == 4000
      modifies this, buffer
      ensures Shows(Terminal(Blank(2000, 32, 0x0F), 0, 0, 0x0F))
    {
      FillScreen(buffer, SPACE, DEFAULT_COLOR);
      cursorX := 0;
      cursorY := 0;
      color := DEFAULT_COLOR;
    }

    /**
     `vga_driver_write`: after any bytes the screen shows the terminal that was fed them. The
     result is the length cut to a signed 32-bit number, or -1 when there is no buffer.
     */
    method DriverWrite(data: Option<seq<byte>>, ghost t: Terminal) returns (count: int)
      requires Shows(t)
      modifies this, buffer
      ensures data.None? ==> Shows(t) && count == -1
      ensures data.Some? ==> Shows(EagerRun(t, data.value)) && count == ToInt32(|data.value|)
    {
      hide ShowsTerminal, EagerRun;
      CursorOnScreen(buffer[..], cursorX, cursorY, color, t);
      EagerRunNothing(t);
      if data.None? {
        return -1;
      }
      var s := data.value;
      var i := 0;
      while i < |s|
        invariant 0 <= i <= |s| && Shows(EagerRun(t, s[..i]))
      {
        Putc(s[i], EagerRun(t, s[..i]));
        EagerRunStep(t, s[..i], s[i]);
        assert s[..i + 1] == s[..i] + [s[i]];
        i := i + 1;
      }
      assert s[..i] == s;
      count := ToInt32(|s|);
    }

    /** The colour request of `vga_driver_ioctl`. */
    method SetColor(arg: byte, ghost t: Terminal)
      requires Shows(t)
      modifies this`color
      ensures Shows(t.(color := arg))
    {
      color := arg;
    }
  }

  lemma EagerRunNothing(t: Terminal)
    requires WellFormed(t) && t.col < WIDTH
    ensures EagerRun(t, []) == t
  {
  }

  // ----- The console -----

  class Console {
    const buffer: array<byte>
    var cursorX: int
    var cursorY: int
    var color: byte
    var serial: seq<byte>  // everything sent to the serial port

    ghost predicate Shows(t: Terminal)
      reads this, buffer
    {
      ShowsTerminal(buffer[..], cursorX, cursorY, color, t)
    }

    /** A console on a screen buffer: whatever the buffer holds is shown, and nothing has been sent. */
    constructor (buffer: array<byte>)
      requires buffer.Length == 4000
      ensures this.buffer == buffer && Shows(Terminal(Cells(buffer[..]), 0, 0, DEFAULT_COLOR)) && serial == []
    {
      this.buffer := buffer;
      cursorX, cursorY, color, serial := 0, 0, DEFAULT_COLOR, [];
    }

    /** The cursor steps down and `scroll_if_needed` runs. */
    method NextLine(ghost t: Terminal)
      requires Shows(t)
      modifies this`cursorX, this`cursorY, buffer
      ensures Shows(NextRow(t, 0))
    {
      cursorX := 0;
      cursorY := cursorY + 1;
      if cursorY >= VGA_HEIGHT {
        ScrollUp(buffer, 0, color);
        cursorY := VGA_HEIGHT - 1;
      }
    }

    /** A printed character, with the pending wrap carried out first. */
    method Glyph(c: byte, ghost t: Terminal)
      requires Shows(t)
      modifies this`cursorX, this`cursorY, buffer
      ensures Shows(LazyGlyph(t, c))
    {
      if cursorX >= VGA_WIDTH {
        NextLine(t);
      }
      PutcAt(buffer, c, color, cursorX, cursorY);
      cursorX := cursorX + 1;
    }

    /** `kputc`. */
    method Kputc(c: byte, ghost t: Terminal)
      requires Shows(t)
      modifies this, buffer
      ensures Shows(LazyPut(t, c)) && serial == old(serial) + [c]
    {
      hide ShowsTerminal, WellFormed, Write, NextRow, LazyGlyph;
      CursorOnScreen(buffer[..], cursorX, cursorY, color, t);
      serial := serial + [c];
      if c == NEWLINE {
        NextLine(t);
      } else if c == RETURN {
        CursorMoves(buffer[..], cursorX, cursorY, color, t, 0);
        cursorX := 0;
      } else if c == TAB {
        var spaces := 4 - cursorX % 4;
        var i := 0;
        while i < spaces
          invariant 0 <= i <= spaces && Shows(LazySpaces(t, i)) && serial == old(serial) + [c]
        {
          Glyph(SPACE, LazySpaces(t, i));
          i := i + 1;
        }
      } else if c == BACKSPACE {
        if cursorX > 0 {
          CursorMoves(buffer[..], cursorX, cursorY, color, t, t.col - 1);
          cursorX := cursorX - 1;
          ghost var before := buffer[..];
          PutcAt(buffer, SPACE, color, cursorX, cursorY);
          WriteShows(before, buffer[..], cursorX, cursorY, color, t.(col := t.col - 1), SPACE);
        }
      } else if c >= 0x20 {
        Glyph(c, t);
      }
    }

    /** `kclear_screen`: blanks the visible rows and homes the cursor; scrolled-off rows stay. */
    method KclearScreen(ghost t: Terminal)
      requires Shows(t)
      modifies this, buffer
      ensures serial == old(serial)
      ensures Shows(t.(cells := t.cells[..|t.cells| - SCREEN] + Blank(SCREEN, 0, t.color),
                       row := (|t.cells| - SCREEN) / WIDTH, col := 0))
    {
      FillScreen(buffer, 0, color);
      cursorX := 0;
      cursorY := 0;
    }

    /** `kset_color`. */
    method KsetColor(arg: byte, ghost t: Terminal)
      requires Shows(t)
      modifies this`color
      ensures Shows(t.(color := arg))
    {
      color := arg;
    }
  }
}
