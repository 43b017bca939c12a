/** console.rs: a 30 by 50 character console drawn in the `LATIN1` font. Characters go
    into `buffer` and onto the screen at `(col * 10, row * 18)`; a line's last column
    (49) is never written; a newline on the last row scrolls: the background is
    repainted, every row takes the row below and is redrawn up to its first NUL, and
    the bottom row is refilled with spaces (not NULs, despite the source comment).

    The framebuffer contents are kept apart from the console's own fields: each
    operation is a pair of functions, one giving the new console (text and cursor) and
    one (named `...Screen`) giving the memory after its drawing. */
module Console {
  import opened Framebuffer
  import opened Glyph
  import opened Rectangles
  import opened Graphics

  const ROWS: nat := 30
  const COLS: nat := 50
  /** Pixel width and height of one character cell. */
  const FONT_DX: nat := 10
  const FONT_DY: nat := 18
  const NUL: char := '\0'

  datatype Console = Console(fb: FrameBuffer, font: seq<seq<nat>>, fg: Color, bg: Color,
                             buffer: seq<seq<char>>, row: nat, col: nat)

  /** The console area, `COLS * FONT_DX` by `ROWS * FONT_DY` pixels, is addressable. */
  predicate ScreenFits(fb: FrameBuffer) {
    OffsetFits(fb, COLS * FONT_DX - 1, ROWS * FONT_DY - 1)
  }

  /** A buffer cell holds NUL (never written) or a character `print_font` can draw. */
  predicate Cell(c: char) {
    c == NUL || InFont(c)
  }

  predicate Line(line: seq<char>) {
    |line| == COLS && forall k :: 0 <= k < COLS ==> Cell(line[k])
  }

  predicate Grid(buffer: seq<seq<char>>) {
    |buffer| == ROWS && forall r :: 0 <= r < ROWS ==> Line(buffer[r])
  }

  lemma GridWrite(buffer: seq<seq<char>>, j: nat, line: seq<char>)
    requires Grid(buffer) && j < ROWS && Line(line)
    ensures Grid(buffer[j := line])
  {
  }

  predicate Valid(con: Console) {
    FontTable(con.font) && ScreenFits(con.fb) && Grid(con.buffer) && con.row < ROWS && con.col < COLS
  }

  /** Everything but the text and the cursor stays as `new` set it. */
  predicate SameSetup(a: Console, b: Console) {
    a.fb == b.fb && a.font == b.font && a.fg == b.fg && a.bg == b.bg
  }

  /** Every cell of the console is addressable as a glyph box. */
  lemma CellFits(fb: FrameBuffer, r: nat, k: nat)
    requires ScreenFits(fb) && r < ROWS && k < COLS
    ensures GlyphFits(LATIN1, fb, k * FONT_DX, r * FONT_DY)
  {
    OffsetFitsBelow(fb, k * FONT_DX + LATIN1.cols - 1, r * FONT_DY + LATIN1.rows - 1, COLS * FONT_DX - 1, ROWS * FONT_DY - 1);
  }

  /** `paint_background`: the console area in the background colour. */
  function Background(con: Console, screen: Memory): Memory {
    PaintRectangle(con.fb, screen, 0, 0, COLS * FONT_DX, ROWS * FONT_DY, con.bg)
  }

  /** `Console::new`: white on black, every cell NUL, cursor at the origin. */
  function New(fb: FrameBuffer, font: seq<seq<nat>>): (con: Console)
    requires FontTable(font) && ScreenFits(fb)
    ensures Valid(con) && con.row == 0 && con.col == 0 && con.fg == WHITE && con.bg == BLACK
    ensures forall r, k :: 0 <= r < ROWS && 0 <= k < COLS ==> con.buffer[r][k] == NUL
  {
    Console(fb, font, WHITE, BLACK, seq(ROWS, _ => seq(COLS, _ => NUL)), 0, 0)
  }

  /** ... and its drawing: the whole console area black. */
  function NewScreen(fb: FrameBuffer, font: seq<seq<nat>>, mem: Memory): (r: Memory)
    requires FontTable(font) && ScreenFits(fb)
    ensures r == Paint(fb.format, mem, Rect(fb, 0, COLS * FONT_DX, 0, ROWS * FONT_DY), BLACK)
  {
    Background(New(fb, font), mem)
  }

  /** Fifty spaces: the bottom row after a scroll. */
  function Spaces(): (line: seq<char>)
    ensures |line| == COLS && forall k :: 0 <= k < COLS ==> line[k] == ' '
  {
    seq(COLS, _ => ' ')
  }

  /** Index of the first NUL of `line`, or its length: where the redraw loop breaks. */
  function FirstNul(line: seq<char>): (n: nat)
    ensures n <= |line| && NUL !in line[..n] && (n < |line| ==> line[n] == NUL)
  {
    if |line| == 0 || line[0] == NUL then 0
    else
      var n := 1 + FirstNul(line[1..]);
      assert line[..n] == [line[0]] + line[1..][..n - 1];
      n
  }

  /** The text the redraw loop prints from a row: everything before the first NUL. */
  function Text(line: seq<char>): seq<char> {
    line[..FirstNul(line)]
  }

  lemma TextPrintable(font: seq<seq<nat>>, fb: FrameBuffer, line: seq<char>, ri: nat)
    requires FontTable(font) && ScreenFits(fb) && ri < ROWS
    requires Line(line)
    ensures Printable(Text(line)) && StringFits(fb, 0, ri * FONT_DY, Text(line))
  {
    var t := Text(line);
    forall i | 0 <= i < |t| ensures InFont(t[i]) {
      assert t[i] == line[i] && t[i] in line[..FirstNul(line)];
    }
    if |t| > 0 {
      CellFits(fb, ri, |t| - 1);
    }
  }

  /** The inner redraw loop of `new_line` for row `ri`, from column `ci`: print each cell
      until the first NUL or the end of the row. */
  function DrawRow(fb: FrameBuffer, font: seq<seq<nat>>, fg: Color, screen: Memory, line: seq<char>, ri: nat, ci: nat): (r: Memory)
    requires FontTable(font) && ScreenFits(fb) && ri < ROWS
    requires Line(line) && ci <= FirstNul(line)
    ensures (TextPrintable(font, fb, line, ri);
             r == Paint(fb.format, screen, StringPixels(fb, 0, ri * FONT_DY, Text(line), font, ci), fg))
    decreases COLS - ci
  {
    TextPrintable(font, fb, line, ri);
    var t, y := Text(line), ri * FONT_DY;
    if ci >= COLS || line[ci] == NUL then
      assert StringPixels(fb, 0, y, t, font, ci) == {};
      PaintNothing(fb.format, screen, fg);
      screen
    else
      CellFits(fb, ri, ci);
      assert ci < |t| && t[ci] == line[ci];
      assert 0 + PITCH * ci == ci * FONT_DX;
      var drawn := PrintFont(fb, screen, 0 + PITCH * ci, y, fg, t[ci], font);
      StringPixelsStep(fb, 0, y, t, font, ci);
      PaintCompose(fb.format, screen, CharPixels(fb, 0, y, t, font, ci), StringPixels(fb, 0, y, t, font, ci + 1), fg);
      DrawRow(fb, font, fg, drawn, line, ri, ci + 1)
  }

  /** Redrawing a row prints exactly the row's text with `print_string` from the left edge. */
  lemma DrawRowIsPrintString(fb: FrameBuffer, font: seq<seq<nat>>, fg: Color, screen: Memory, line: seq<char>, ri: nat)
    requires FontTable(font) && ScreenFits(fb) && ri < ROWS
    requires Line(line)
    ensures (TextPrintable(font, fb, line, ri);
             DrawRow(fb, font, fg, screen, line, ri, 0) == PrintString(fb, screen, 0, ri * FONT_DY, fg, Text(line), font))
  {
    TextPrintable(font, fb, line, ri);
  }

  /** Pixels of the text of `buffer[j + 1]` drawn on row `j`: what the scroll redraws there. */
  function LinePixels(fb: FrameBuffer, font: seq<seq<nat>>, buffer: seq<seq<char>>, j: nat): set<nat>
    requires FontTable(font) && ScreenFits(fb) && Grid(buffer) && j < ROWS - 1
  {
    TextPrintable(font, fb, buffer[j + 1], j);
    StringPixels(fb, 0, j * FONT_DY, Text(buffer[j + 1]), font, 0)
  }

  /** Reference for the redraw after a scroll: rows `from` to `ROWS - 2`, each showing the
      text of the row below it. */
  function ScrolledText(fb: FrameBuffer, font: seq<seq<nat>>, buffer: seq<seq<char>>, from: nat): set<nat>
    requires FontTable(font) && ScreenFits(fb) && Grid(buffer)
  {
    set j, p | from <= j < ROWS - 1 && p in LinePixels(fb, font, buffer, j) :: p
  }

  lemma ScrolledTextStep(fb: FrameBuffer, font: seq<seq<nat>>, buffer: seq<seq<char>>, from: nat)
    requires FontTable(font) && ScreenFits(fb) && Grid(buffer) && from < ROWS - 1
    ensures ScrolledText(fb, font, buffer, from)
         == LinePixels(fb, font, buffer, from) + ScrolledText(fb, font, buffer, from + 1)
  {
  }

  /** The scroll loop of `new_line` from row `ri` on. Each iteration first copies row
      `ri + 1` into row `ri` and then draws row `ri`; row `ri + 1` is only overwritten
      by the next iteration, so what is drawn on row `ri` is the text row `ri + 1` had
      before the scroll. This function draws exactly that; the copies are applied by
      `NewLine` in one step. */
  function RedrawRows(fb: FrameBuffer, font: seq<seq<nat>>, fg: Color, buffer: seq<seq<char>>, screen: Memory, ri: nat): (r: Memory)
    requires FontTable(font) && ScreenFits(fb) && Grid(buffer) && ri < ROWS
    ensures r == Paint(fb.format, screen, ScrolledText(fb, font, buffer, ri), fg)
    decreases ROWS - ri
  {
    if ri >= ROWS - 1 then
      assert ScrolledText(fb, font, buffer, ri) == {};
      PaintNothing(fb.format, screen, fg);
      screen
    else
      var drawn := DrawRow(fb, font, fg, screen, buffer[ri + 1], ri, 0);
      ScrolledTextStep(fb, font, buffer, ri);
      PaintCompose(fb.format, screen, LinePixels(fb, font, buffer, ri), ScrolledText(fb, font, buffer, ri + 1), fg);
      RedrawRows(fb, font, fg, buffer, drawn, ri + 1)
  }

  /** The buffer after a scroll: every row moved up one, then the bottom row set to spaces. */
  function Scrolled(buffer: seq<seq<char>>): (r: seq<seq<char>>)
    requires Grid(buffer)
    ensures Grid(r)
  {
    assert Line(Spaces());
    buffer[1..] + [Spaces()]
  }

  /** `new_line`: back to column 0; down one row, or on the last row scroll: every row
      moves up and the bottom row is filled with spaces. */
  function NewLine(con: Console): (r: Console)
    requires Valid(con)
    ensures Valid(r) && SameSetup(r, con) && r.col == 0
  {
    if con.row < ROWS - 1 then con.(row := con.row + 1, col := 0)
    else con.(col := 0, buffer := Scrolled(con.buffer))
  }

  /** ... and its drawing: only a scroll draws, repainting the background and redrawing
      the moved rows. */
  function NewLineScreen(con: Console, screen: Memory): Memory
    requires Valid(con)
  {
    if con.row < ROWS - 1 then screen
    else RedrawRows(con.fb, con.font, con.fg, con.buffer, Background(con, screen), 0)
  }

  /** Above the last row a newline only moves the cursor: nothing is drawn or stored. */
  lemma NewLineAdvances(con: Console, screen: Memory)
    requires Valid(con) && con.row < ROWS - 1
    ensures NewLine(con).row == con.row + 1 && NewLine(con).buffer == con.buffer
    ensures NewLineScreen(con, screen) == screen
  {
  }

  /** On the last row a newline scrolls: every row takes the text of the row below, the
      bottom row becomes spaces, and the screen is the background with the moved text
      redrawn in the foreground colour. */
  lemma NewLineScrolls(con: Console, screen: Memory)
    requires Valid(con) && con.row == ROWS - 1
    ensures NewLine(con).row == ROWS - 1
    ensures forall j :: 0 <= j < ROWS - 1 ==> NewLine(con).buffer[j] == con.buffer[j + 1]
    ensures NewLine(con).buffer[ROWS - 1] == Spaces()
    ensures NewLineScreen(con, screen)
         == Paint(con.fb.format, Background(con, screen), ScrolledText(con.fb, con.font, con.buffer, 0), con.fg)
  {
  }

  /** Where the cursor goes after `c`, in the current row or at the start of the next. */
  function NextCol(col: nat, c: char): nat {
    if c == '\n' then 0 else if col < COLS - 1 then col + 1 else col
  }

  /** What `put_string` asks of its text: every character it will actually draw (not a
      newline, and not dropped at the last column) is in the font. */
  predicate Drawable(col: nat, s: string)
    decreases |s|
  {
    |s| == 0 || ((s[0] != '\n' && col < COLS - 1 ==> InFont(s[0])) && Drawable(NextCol(col, s[0]), s[1..]))
  }

  /** One step of `put_string`: a newline starts a new line; any other character is
      stored at the cursor, unless the cursor is on the last column. */
  function PutChar(con: Console, c: char): (r: Console)
    requires Valid(con) && (c != '\n' && con.col < COLS - 1 ==> InFont(c))
    ensures Valid(r) && SameSetup(r, con) && r.col == NextCol(con.col, c)
  {
    if c == '\n' then NewLine(con)
    else if con.col < COLS - 1 then
      GridWrite(con.buffer, con.row, con.buffer[con.row][con.col := c]);
      con.(buffer := con.buffer[con.row := con.buffer[con.row][con.col := c]], col := con.col + 1)
    else con
  }

  /** ... and its drawing: the glyph of a stored character in the cursor cell. */
  function PutCharScreen(con: Console, screen: Memory, c: char): Memory
    requires Valid(con) && (c != '\n' && con.col < COLS - 1 ==> InFont(c))
  {
    if c == '\n' then NewLineScreen(con, screen)
    else if con.col < COLS - 1 then
      CellFits(con.fb, con.row, con.col);
      PrintFont(con.fb, screen, con.col * FONT_DX, con.row * FONT_DY, con.fg, c, con.font)
    else screen
  }

  /** On the last column an ordinary character is dropped: nothing is stored or drawn. */
  lemma PutCharDrops(con: Console, screen: Memory, c: char)
    requires Valid(con) && c != '\n' && con.col == COLS - 1
    ensures PutChar(con, c) == con && PutCharScreen(con, screen, c) == screen
  {
  }

  /** Before the last column an ordinary character is stored at the cursor, and only there. */
  lemma PutCharStores(con: Console, c: char)
    requires Valid(con) && c != '\n' && con.col < COLS - 1 && InFont(c)
    ensures PutChar(con, c).row == con.row
    ensures PutChar(con, c).buffer[con.row][con.col] == c
    ensures forall k :: 0 <= k < COLS && k != con.col ==> PutChar(con, c).buffer[con.row][k] == con.buffer[con.row][k]
    ensures forall j :: 0 <= j < ROWS && j != con.row ==> PutChar(con, c).buffer[j] == con.buffer[j]
  {
  }

  /** ... and its glyph is painted in the foreground colour in the cursor cell. */
  lemma PutCharDraws(con: Console, screen: Memory, c: char)
    requires Valid(con) && c != '\n' && con.col < COLS - 1 && InFont(c)
    ensures PutCharScreen(con, screen, c)
         == Paint(con.fb.format, screen,
                  GlyphPixels(LATIN1, con.fb, con.col * FONT_DX, con.row * FONT_DY, GlyphOf(con.font, c)), con.fg)
  {
  }

  /** `put_string`: the characters of `s` one after the other. */
  function PutString(con: Console, s: string): (r: Console)
    requires Valid(con) && Drawable(con.col, s)
    ensures Valid(r) && SameSetup(r, con)
    decreases |s|
  {
    if |s| == 0 then con else PutString(PutChar(con, s[0]), s[1..])
  }

  /** ... and its drawing, character by character. */
  function PutStringScreen(con: Console, screen: Memory, s: string): Memory
    requires Valid(con) && Drawable(con.col, s)
    decreases |s|
  {
    if |s| == 0 then screen
    else PutStringScreen(PutChar(con, s[0]), PutCharScreen(con, screen, s[0]), s[1..])
  }

  function Min(a: nat, b: nat): nat {
    if a < b then a else b
  }

  /** The characters of a newline-free `s` that land on the row when written from column
      `col`: those before the last column. */
  function Fitted(col: nat, s: string): string
    requires col < COLS
  {
    s[..Min(|s|, COLS - 1 - col)]
  }

  lemma {:induction false} FittedPrintable(col: nat, s: string)
    requires col < COLS && Drawable(col, s) && '\n' !in s
    ensures Printable(Fitted(col, s))
    decreases |s|
  {
    if |s| > 0 && col < COLS - 1 {
      NoNewlineTail(s);
      assert forall i :: 0 <= i < |s| - 1 ==> s[1..][i] == s[i + 1];
      FittedPrintable(col + 1, s[1..]);
      FittedTail(col, s);
      assert forall i :: 1 <= i < |Fitted(col, s)| ==> Fitted(col, s)[i] == Fitted(col + 1, s[1..])[i - 1];
    }
  }

  /** Writing from the next column, the rest of the string fits as the rest of the fitted part. */
  lemma FittedTail(col: nat, s: string)
    requires col < COLS - 1 && |s| > 0
    ensures |Fitted(col, s)| > 0 && Fitted(col + 1, s[1..]) == Fitted(col, s)[1..]
  {
    var n := Min(|s|, COLS - 1 - col);
    assert Min(|s| - 1, COLS - 1 - (col + 1)) == n - 1;
    assert s[1..][..n - 1] == s[..n][1..];
  }

  lemma NoNewlineTail(s: string)
    requires |s| > 0 && '\n' !in s
    ensures '\n' !in s[1..] && s[0] != '\n'
  {
    forall i | 0 <= i < |s| - 1 ensures s[1..][i] != '\n' {
      assert s[1..][i] == s[i + 1] && s[i + 1] in s;
    }
    assert s[0] in s;
  }

  /** A newline-free string fills its row from the cursor: the first
      `min(|s|, COLS - 1 - col)` characters are stored, the rest are dropped, and no
      other row changes. */
  lemma {:induction false} PutStringFillsLine(con: Console, s: string)
    requires Valid(con) && Drawable(con.col, s) && '\n' !in s
    ensures PutString(con, s).row == con.row
    ensures PutString(con, s).col == Min(con.col + |s|, COLS - 1)
    ensures forall k :: 0 <= k < COLS ==>
              PutString(con, s).buffer[con.row][k]
              == if con.col <= k < PutString(con, s).col then s[k - con.col] else con.buffer[con.row][k]
    ensures forall j :: 0 <= j < ROWS && j != con.row ==> PutString(con, s).buffer[j] == con.buffer[j]
    decreases |s|
  {
    if |s| > 0 {
      NoNewlineTail(s);
      var first, rest := PutChar(con, s[0]), s[1..];
      if con.col < COLS - 1 {
        PutCharStores(con, s[0]);
      }
      PutStringFillsLine(first, rest);
      var r := PutString(con, s);
      assert r == PutString(first, rest);
      if con.col < COLS - 1 {
        forall k | 0 <= k < COLS
          ensures r.buffer[con.row][k] == if con.col <= k < r.col then s[k - con.col] else con.buffer[con.row][k]
        {
          if con.col < k < r.col {
            assert r.buffer[con.row][k] == rest[k - first.col];
          }
        }
      }
    }
  }

  /** A newline-free string is drawn as `print_string` draws the part of it that fits,
      from the cursor cell `(x, y)`. */
  lemma {:induction false} PutStringDrawsLine(con: Console, screen: Memory, s: string, x: nat, y: nat)
    requires Valid(con) && Drawable(con.col, s) && '\n' !in s
    requires x == con.col * FONT_DX && y == con.row * FONT_DY
    ensures (FittedPrintable(con.col, s);
             PutStringScreen(con, screen, s)
             == Paint(con.fb.format, screen, StringPixels(con.fb, x, y, Fitted(con.col, s), con.font, 0), con.fg))
    decreases |s|, 1
  {
    if |s| == 0 || con.col == COLS - 1 {
      DropsLine(con, screen, s, x, y);
    } else {
      DrawsFirst(con, screen, s, x, y);
    }
  }

  /** With nothing left to fit, nothing is drawn. */
  lemma {:induction false} DropsLine(con: Console, screen: Memory, s: string, x: nat, y: nat)
    requires Valid(con) && Drawable(con.col, s) && '\n' !in s
    requires x == con.col * FONT_DX && y == con.row * FONT_DY
    requires |s| == 0 || con.col == COLS - 1
    ensures (FittedPrintable(con.col, s);
             PutStringScreen(con, screen, s)
             == Paint(con.fb.format, screen, StringPixels(con.fb, x, y, Fitted(con.col, s), con.font, 0), con.fg))
    decreases |s|, 0
  {
    FittedPrintable(con.col, s);
    var t := Fitted(con.col, s);
    assert t == [];
    assert StringPixels(con.fb, x, y, t, con.font, 0) == {};
    PaintNothing(con.fb.format, screen, con.fg);
    if |s| > 0 {
      NoNewlineTail(s);
      PutCharDrops(con, screen, s[0]);
      PutStringDrawsLine(con, screen, s[1..], x, y);
      FittedPrintable(con.col, s[1..]);
      assert Fitted(con.col, s[1..]) == [];
    }
  }

  /** The first character is drawn in the cursor cell, the rest one pitch to the right. */
  lemma {:induction false} DrawsFirst(con: Console, screen: Memory, s: string, x: nat, y: nat)
    requires Valid(con) && Drawable(con.col, s) && '\n' !in s
    requires x == con.col * FONT_DX && y == con.row * FONT_DY
    requires |s| > 0 && con.col < COLS - 1
    ensures (FittedPrintable(con.col, s);
             PutStringScreen(con, screen, s)
             == Paint(con.fb.format, screen, StringPixels(con.fb, x, y, Fitted(con.col, s), con.font, 0), con.fg))
    decreases |s|, 0
  {
    FirstCellMoves(con, s, x, y);
    PutStringDrawsLine(PutChar(con, s[0]), PutCharScreen(con, screen, s[0]), s[1..], x + PITCH, y);
    DrawsFirstThenRest(con, screen, s, x, y);
  }

  /** After the first character the cursor is one cell to the right, where the rest of
      the line starts. */
  lemma FirstCellMoves(con: Console, s: string, x: nat, y: nat)
    requires Valid(con) && Drawable(con.col, s) && '\n' !in s
    requires x == con.col * FONT_DX && y == con.row * FONT_DY
    requires |s| > 0 && con.col < COLS - 1
    ensures s[0] != '\n' && InFont(s[0])
    ensures var first := PutChar(con, s[0]);
      && first.col == con.col + 1 && first.row == con.row
      && Drawable(first.col, s[1..]) && '\n' !in s[1..]
      && x + PITCH == first.col * FONT_DX && y == first.row * FONT_DY
  {
    NoNewlineTail(s);
    PutCharStores(con, s[0]);
  }

  /** Given how the rest of the line is drawn after the first character, the whole line
      is one paint of its fitted pixels. */
  lemma DrawsFirstThenRest(con: Console, screen: Memory, s: string, x: nat, y: nat)
    requires Valid(con) && Drawable(con.col, s) && '\n' !in s
    requires x == con.col * FONT_DX && y == con.row * FONT_DY
    requires |s| > 0 && con.col < COLS - 1
    requires (FittedPrintable(con.col, s); NoNewlineTail(s); FirstCellSplit(con, s, x, y);
              PutStringScreen(PutChar(con, s[0]), PutCharScreen(con, screen, s[0]), s[1..])
              == Paint(con.fb.format, PutCharScreen(con, screen, s[0]),
                       StringPixels(con.fb, x + PITCH, y, Fitted(con.col + 1, s[1..]), con.font, 0), con.fg))
    ensures (FittedPrintable(con.col, s);
             PutStringScreen(con, screen, s)
             == Paint(con.fb.format, screen, StringPixels(con.fb, x, y, Fitted(con.col, s), con.font, 0), con.fg))
  {
    FittedPrintable(con.col, s);
    NoNewlineTail(s);
    FirstCellSplit(con, s, x, y);
    var first, rest := PutChar(con, s[0]), s[1..];
    var drawn := PutCharScreen(con, screen, s[0]);
    var head := GlyphPixels(LATIN1, con.fb, x, y, GlyphOf(con.font, s[0]));
    var tail := StringPixels(con.fb, x + PITCH, y, Fitted(con.col + 1, rest), con.font, 0);
    PutCharDraws(con, screen, s[0]);
    PaintThen(con.fb.format, screen, drawn, PutStringScreen(first, drawn, rest),
              head, tail, StringPixels(con.fb, x, y, Fitted(con.col, s), con.font, 0), con.fg);
  }

  /** The pixels of a fitted line are those of its first glyph and those of the rest, one
      pitch to the right. */
  lemma FirstCellSplit(con: Console, s: string, x: nat, y: nat)
    requires Valid(con) && Drawable(con.col, s) && '\n' !in s
    requires |s| > 0 && con.col < COLS - 1
    ensures InFont(s[0]) && Printable(Fitted(con.col, s)) && Printable(Fitted(con.col + 1, s[1..]))
    ensures (FittedPrintable(con.col, s); NoNewlineTail(s); FittedPrintable(con.col + 1, s[1..]);
             StringPixels(con.fb, x, y, Fitted(con.col, s), con.font, 0)
                == GlyphPixels(LATIN1, con.fb, x, y, GlyphOf(con.font, s[0]))
                   + StringPixels(con.fb, x + PITCH, y, Fitted(con.col + 1, s[1..]), con.font, 0))
  {
    FittedPrintable(con.col, s);
    NoNewlineTail(s);
    assert Drawable(con.col + 1, s[1..]) by {
      assert NextCol(con.col, s[0]) == con.col + 1;
    }
    FittedPrintable(con.col + 1, s[1..]);
    var t := Fitted(con.col, s);
    FittedTail(con.col, s);
    StringPixelsShift(con.fb, x, y, t, con.font);
    assert t[0] == s[0] && x + PITCH * 0 == x;
  }

  /** Number of newlines in `s`. */
  function Newlines(s: string): (n: nat)
    ensures n <= |s|
  {
    if |s| == 0 then 0 else (if s[0] == '\n' then 1 else 0) + Newlines(s[1..])
  }

  /** While the newlines of `s` do not reach past the last row nothing scrolls: the cursor
      moves down one row per newline. */
  lemma {:induction false} PutStringMovesDown(con: Console, s: string)
    requires Valid(con) && Drawable(con.col, s) && con.row + Newlines(s) < ROWS
    ensures PutString(con, s).row == con.row + Newlines(s)
    decreases |s|
  {
    if |s| > 0 {
      PutStringMovesDown(PutChar(con, s[0]), s[1..]);
    }
  }

  /** `n` newlines in a row. */
  function NewlineRun(n: nat): (s: string)
    ensures |s| == n && forall i :: 0 <= i < n ==> s[i] == '\n'
  {
    seq(n, _ => '\n')
  }

  /** A run of newlines is always drawable: nothing in it is stored. */
  lemma {:induction false} NewlinesDrawable(col: nat, n: nat)
    ensures Drawable(col, NewlineRun(n))
    decreases n
  {
    if n > 0 {
      assert NewlineRun(n)[1..] == NewlineRun(n - 1);
      NewlinesDrawable(0, n - 1);
    }
  }

  /** Newlines that fill the screen and push one line more: the cursor walks down to the
      last row, then the single scroll moves every row up one, so the top row holds what
      the second row held, and the bottom row is blank (spaces). */
  lemma {:induction false} NewlinesScrollOnce(con: Console, n: nat)
    requires Valid(con) && con.row + n == ROWS
    ensures (NewlinesDrawable(con.col, n);
             var r := PutString(con, NewlineRun(n));
             && r.row == ROWS - 1 && r.col == 0
             && (forall j :: 0 <= j < ROWS - 1 ==> r.buffer[j] == con.buffer[j + 1])
             && r.buffer[ROWS - 1] == Spaces())
    decreases n
  {
    NewlinesDrawable(con.col, n);
    var s := NewlineRun(n);
    assert s[1..] == NewlineRun(n - 1);
    var next := PutChar(con, s[0]);
    if n == 1 {
      NewLineScrolls(con, map[]);
    } else {
      NewLineAdvances(con, map[]);
      NewlinesScrollOnce(next, n - 1);
    }
  }
}
