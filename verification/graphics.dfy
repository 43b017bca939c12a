/** graphics.rs: the colour constants, `print_font`, `print_string`, `print_example`
    and `render_example`, plus `paint_rectangle`, which the console calls but whose
    source is not part of this model: it is given its evident meaning, filling a
    rectangle with one colour through the framebuffer's writer. */
module Graphics {
  import opened Words
  import opened Results
  import opened Framebuffer
  import opened Glyph
  import opened Rectangles

  const BLACK: Color := Color(0, 0, 0)
  const WHITE: Color := Color(255, 255, 255)
  const RED: Color := Color(255, 0, 0)
  const GREEN: Color := Color(0, 255, 0)
  const BLUE: Color := Color(0, 0, 255)

  /** Number of glyphs in `LATIN1_FONT`. */
  const FONT_GLYPHS: nat := 221

  /** Horizontal advance of `print_string` per character. */
  const PITCH: nat := 10

  /** `LATIN1_FONT: [[u16; 18]; 221]`, whose contents are generated at build time. */
  predicate FontTable(font: seq<seq<nat>>) {
    && |font| == FONT_GLYPHS
    && forall g :: 0 <= g < |font| ==> |font[g]| == LATIN1.rows && forall r :: 0 <= r < |font[g]| ==> font[g][r] < U16_LIMIT
  }

  /** Codes `print_font` can look up: `c as usize - 1` neither underflows nor runs past the table. */
  predicate InFont(c: char) {
    1 <= c as int <= FONT_GLYPHS
  }

  /** The glyph `print_font` draws for `c`: entry `c - 1` of the table. */
  function GlyphOf(font: seq<seq<nat>>, c: char): seq<nat>
    requires FontTable(font) && InFont(c)
  {
    font[c as int - 1]
  }

  /** `print_font`: renders `LATIN1_FONT[c - 1]` with the writer chosen by `fb.format`. */
  function PrintFont(fb: FrameBuffer, mem: Memory, x: nat, y: nat, color: Color, c: char, font: seq<seq<nat>>): (r: Memory)
    requires FontTable(font) && InFont(c) && GlyphFits(LATIN1, fb, x, y)
    ensures r == Paint(fb.format, mem, GlyphPixels(LATIN1, fb, x, y, font[c as int - 1]), color)
  {
    var glyph := font[c as int - 1];
    RenderFontPaintsGlyph(LATIN1, fb.format, fb, mem, x, y, color, glyph);
    match fb.format
    case Rgb => RenderFont(LATIN1, Rgb, fb, mem, x, y, color, glyph)
    case Bgr => RenderFont(LATIN1, Bgr, fb, mem, x, y, color, glyph)
  }

  predicate Printable(s: string) {
    forall i :: 0 <= i < |s| ==> InFont(s[i])
  }

  /** The last glyph of the string (at `x + 10 * (|s| - 1)`) is addressable. */
  predicate StringFits(fb: FrameBuffer, x: nat, y: nat, s: string) {
    |s| > 0 ==> GlyphFits(LATIN1, fb, x + PITCH * (|s| - 1), y)
  }

  /** Pixels of the `i`-th character of `s` drawn at `(x + 10 * i, y)`. */
  function CharPixels(fb: FrameBuffer, x: nat, y: nat, s: string, font: seq<seq<nat>>, i: nat): set<nat>
    requires FontTable(font) && i < |s| && InFont(s[i])
  {
    GlyphPixels(LATIN1, fb, x + PITCH * i, y, GlyphOf(font, s[i]))
  }

  /** Reference: the union of the glyph pixels of characters `from..` of `s`, the
      `i`-th at `(x + 10 * i, y)`. */
  function StringPixels(fb: FrameBuffer, x: nat, y: nat, s: string, font: seq<seq<nat>>, from: nat): set<nat>
    requires FontTable(font) && Printable(s)
  {
    set i, p | from <= i < |s| && p in CharPixels(fb, x, y, s, font, i) :: p
  }

  lemma StringPixelsStep(fb: FrameBuffer, x: nat, y: nat, s: string, font: seq<seq<nat>>, from: nat)
    requires FontTable(font) && Printable(s) && from < |s|
    ensures StringPixels(fb, x, y, s, font, from)
         == CharPixels(fb, x, y, s, font, from) + StringPixels(fb, x, y, s, font, from + 1)
  {
  }

  /** Drawing a string is drawing its first character, then the rest one pitch further right. */
  lemma StringPixelsShift(fb: FrameBuffer, x: nat, y: nat, s: string, font: seq<seq<nat>>)
    requires FontTable(font) && Printable(s) && |s| > 0
    ensures Printable(s[1..])
    ensures StringPixels(fb, x, y, s, font, 0)
         == CharPixels(fb, x, y, s, font, 0) + StringPixels(fb, x + PITCH, y, s[1..], font, 0)
  {
    assert forall i :: 0 <= i < |s| - 1 ==> s[1..][i] == s[i + 1];
    StringPixelsStep(fb, x, y, s, font, 0);
    forall i | 1 <= i < |s|
      ensures CharPixels(fb, x, y, s, font, i) == CharPixels(fb, x + PITCH, y, s[1..], font, i - 1)
    {
      assert x + PITCH * i == x + PITCH + PITCH * (i - 1);
    }
    var A, B := StringPixels(fb, x, y, s, font, 1), StringPixels(fb, x + PITCH, y, s[1..], font, 0);
    forall p | p in A ensures p in B {
      var i :| 1 <= i < |s| && p in CharPixels(fb, x, y, s, font, i);
      assert p in CharPixels(fb, x + PITCH, y, s[1..], font, i - 1);
    }
    forall p | p in B ensures p in A {
      var i :| 0 <= i < |s| - 1 && p in CharPixels(fb, x + PITCH, y, s[1..], font, i);
      assert p in CharPixels(fb, x, y, s, font, i + 1);
    }
  }

  /** The `for (i, c) in string.chars().enumerate()` loop of `print_string`, from `i` on. */
  function PrintChars(fb: FrameBuffer, mem: Memory, x: nat, y: nat, color: Color, s: string, font: seq<seq<nat>>, i: nat): (r: Memory)
    requires FontTable(font) && Printable(s) && StringFits(fb, x, y, s)
    ensures r == Paint(fb.format, mem, StringPixels(fb, x, y, s, font, i), color)
    decreases |s| - i
  {
    if i >= |s| then
      assert StringPixels(fb, x, y, s, font, i) == {};
      PaintNothing(fb.format, mem, color);
      mem
    else
      OffsetFitsBelow(fb, x + PITCH * i + LATIN1.cols - 1, y + LATIN1.rows - 1,
                      x + PITCH * (|s| - 1) + LATIN1.cols - 1, y + LATIN1.rows - 1);
      var drawn := PrintFont(fb, mem, x + PITCH * i, y, color, s[i], font);
      StringPixelsStep(fb, x, y, s, font, i);
      PaintCompose(fb.format, mem, CharPixels(fb, x, y, s, font, i), StringPixels(fb, x, y, s, font, i + 1), color);
      PrintChars(fb, drawn, x, y, color, s, font, i + 1)
  }

  /** `print_string`: the `i`-th character is drawn at `(x + 10 * i, y)`; nothing wraps. */
  function PrintString(fb: FrameBuffer, mem: Memory, x: nat, y: nat, color: Color, s: string, font: seq<seq<nat>>): (r: Memory)
    requires FontTable(font) && Printable(s) && StringFits(fb, x, y, s)
    ensures r == Paint(fb.format, mem, StringPixels(fb, x, y, s, font, 0), color)
  {
    PrintChars(fb, mem, x, y, color, s, font, 0)
  }

  /** `paint_rectangle(fb, x, y, w, h, color)`: fills the rectangle through `fb.format`'s writer. */
  function PaintRectangle(fb: FrameBuffer, mem: Memory, x: nat, y: nat, w: nat, h: nat, color: Color): Memory {
    Paint(fb.format, mem, Rect(fb, x, x + w, y, y + h), color)
  }

  /** The colour `render_example` gives pixel `(x, y)`: `(x % 256, y % 256, 255)`. */
  function GradientColor(x: nat, y: nat): Color {
    Color(x % 256, y % 256, 255)
  }

  /** The gradient colour of pixel index `p`, decoded as `(p % stride, p / stride)`. */
  function GradientAt(fb: FrameBuffer, p: nat): Color {
    if fb.stride == 0 then GradientColor(p, 0) else GradientColor(p % fb.stride, p / fb.stride)
  }

  /** The gradient as a colour per pixel index of `S`. */
  function Gradient(fb: FrameBuffer, S: set<nat>): map<nat, Color> {
    map p | p in S :: GradientAt(fb, p)
  }

  /** Pixel indices of column `x` from row `y` down to the last visible row. */
  function ColumnPixels(fb: FrameBuffer, x: nat, y: nat): set<nat> {
    set py | y <= py < fb.height :: PixelIndex(fb, x, py)
  }

  /** Pixel indices of the visible columns from `x` on. */
  function ColumnsPixels(fb: FrameBuffer, x: nat): set<nat> {
    set px, py | x <= px < fb.width && 0 <= py < fb.height :: PixelIndex(fb, px, py)
  }

  /** Every visible pixel index. */
  function VisiblePixels(fb: FrameBuffer): set<nat> {
    ColumnsPixels(fb, 0)
  }

  /** Decoding a visible pixel index gives back its coordinates. */
  lemma GradientDecodes(fb: FrameBuffer, x: nat, y: nat)
    requires x < fb.stride
    ensures GradientAt(fb, PixelIndex(fb, x, y)) == GradientColor(x, y)
  {
    DivModUnique(PixelIndex(fb, x, y), fb.stride, y, x);
  }

  lemma ColumnStep(fb: FrameBuffer, x: nat, y: nat)
    requires x < fb.stride && y < fb.height
    ensures map[PixelIndex(fb, x, y) := GradientColor(x, y)] + Gradient(fb, ColumnPixels(fb, x, y + 1))
         == Gradient(fb, ColumnPixels(fb, x, y))
  {
    GradientDecodes(fb, x, y);
    assert ColumnPixels(fb, x, y) == {PixelIndex(fb, x, y)} + ColumnPixels(fb, x, y + 1);
  }

  lemma ColumnsStep(fb: FrameBuffer, x: nat)
    requires x < fb.width
    ensures Gradient(fb, ColumnPixels(fb, x, 0)) + Gradient(fb, ColumnsPixels(fb, x + 1)) == Gradient(fb, ColumnsPixels(fb, x))
  {
    assert ColumnsPixels(fb, x) == ColumnPixels(fb, x, 0) + ColumnsPixels(fb, x + 1);
  }

  /** The inner `for y in 0..height` loop of `render_example`, from row `y`. */
  function ExampleColumn(w: PixelFormat, fb: FrameBuffer, mem: Memory, x: nat, y: nat): (r: Memory)
    requires ValidFrameBuffer(fb) && x < fb.width
    ensures r == Blit(w, mem, Gradient(fb, ColumnPixels(fb, x, y)))
    decreases fb.height - y
  {
    if y >= fb.height then
      assert Gradient(fb, ColumnPixels(fb, x, y)) == map[];
      BlitNothing(w, mem);
      mem
    else
      OffsetFitsBelow(fb, x, y, fb.width - 1, fb.height - 1);
      var p := PixelIndex(fb, x, y);
      PutPixelIsBlit(w, fb, mem, x, y, GradientColor(x, y));
      var rest := ExampleColumn(w, fb, PutPixel(w, fb, mem, x, y, GradientColor(x, y)), x, y + 1);
      BlitCompose(w, mem, map[p := GradientColor(x, y)], Gradient(fb, ColumnPixels(fb, x, y + 1)));
      ColumnStep(fb, x, y);
      rest
  }

  /** The outer `for x in 0..width` loop of `render_example`, from column `x`. */
  function ExampleColumns(w: PixelFormat, fb: FrameBuffer, mem: Memory, x: nat): (r: Memory)
    requires ValidFrameBuffer(fb)
    ensures r == Blit(w, mem, Gradient(fb, ColumnsPixels(fb, x)))
    decreases fb.width - x
  {
    if x >= fb.width then
      assert Gradient(fb, ColumnsPixels(fb, x)) == map[];
      BlitNothing(w, mem);
      mem
    else
      var col := ExampleColumn(w, fb, mem, x, 0);
      BlitCompose(w, mem, Gradient(fb, ColumnPixels(fb, x, 0)), Gradient(fb, ColumnsPixels(fb, x + 1)));
      ColumnsStep(fb, x);
      ExampleColumns(w, fb, col, x + 1)
  }

  /** `render_example::<W>`: blits the gradient over the visible area. */
  function RenderExample(w: PixelFormat, fb: FrameBuffer, mem: Memory): (r: Memory)
    requires ValidFrameBuffer(fb)
    ensures r == Blit(w, mem, Gradient(fb, VisiblePixels(fb)))
  {
    ExampleColumns(w, fb, mem, 0)
  }

  /** After `render_example`, visible pixel `(x, y)` reads `(x % 256, y % 256, 255)`. */
  lemma RenderExamplePixel(w: PixelFormat, fb: FrameBuffer, mem: Memory, x: nat, y: nat)
    requires ValidFrameBuffer(fb) && x < fb.width && y < fb.height
    ensures PixelAt(w, RenderExample(w, fb, mem), PixelIndex(fb, x, y)) == Some(GradientColor(x, y))
  {
    var p := PixelIndex(fb, x, y);
    assert p in VisiblePixels(fb);
    GradientDecodes(fb, x, y);
    BlitReadBack(w, mem, Gradient(fb, VisiblePixels(fb)), p);
  }

  /** After `render_example`, every visible pixel `(x, y)` reads `(x % 256, y % 256, 255)`,
      and every byte outside the visible pixels' colour bytes is untouched. */
  lemma RenderExampleGradient(w: PixelFormat, fb: FrameBuffer, mem: Memory)
    requires ValidFrameBuffer(fb)
    ensures forall x: nat, y: nat :: x < fb.width && y < fb.height ==>
              PixelAt(w, RenderExample(w, fb, mem), PixelIndex(fb, x, y)) == Some(GradientColor(x, y))
    ensures forall k :: k in mem && !Covers(VisiblePixels(fb), k) ==> RenderExample(w, fb, mem)[k] == mem[k]
  {
    forall x: nat, y: nat | x < fb.width && y < fb.height
      ensures PixelAt(w, RenderExample(w, fb, mem), PixelIndex(fb, x, y)) == Some(GradientColor(x, y))
    {
      RenderExamplePixel(w, fb, mem, x, y);
    }
  }

  /** `print_example`: `render_example` with the writer `fb.format` selects. */
  function PrintExample(fb: FrameBuffer, mem: Memory): (r: Memory)
    requires ValidFrameBuffer(fb)
    ensures r == Blit(fb.format, mem, Gradient(fb, VisiblePixels(fb)))
  {
    match fb.format
    case Rgb => RenderExample(Rgb, fb, mem)
    case Bgr => RenderExample(Bgr, fb, mem)
  }
}
