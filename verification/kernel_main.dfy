/** kardos-kernel/src/main.rs: the kernel entry `kernel_main`, its own `render_example`
    (the gradient followed by a red rectangle) and the older 7 by 13 `render_font`
    over `u8` rows, which is `Glyph` instantiated with `LEGACY`. */
module KernelMain {
  import opened Results
  import opened Framebuffer
  import opened Glyph
  import opened Graphics
  import opened Rectangles

  /** A glyph table of 14 `u8` rows per glyph, long enough for the indices `kernel_main` uses. */
  predicate LegacyFont(font: seq<seq<nat>>) {
    && |font| > 0x53
    && forall g :: 0 <= g < |font| ==> |font[g]| == 14 && forall r :: 0 <= r < |font[g]| ==> font[g][r] < 0x100
  }

  /** The first column of the red rectangle and the one past its last. */
  const RECT_X0: nat := 50
  const RECT_X1: nat := 250
  const RECT_Y0: nat := 50
  const RECT_Y1: nat := 150

  /** `render_example::<W>` of main.rs: the gradient over the visible area, then the red
      rectangle from `(50, 50)` to `(249, 149)`, which is not clipped to the screen. */
  function RenderExample(w: PixelFormat, fb: FrameBuffer, mem: Memory): (r: Memory)
    requires ValidFrameBuffer(fb) && OffsetFits(fb, RECT_X1 - 1, RECT_Y1 - 1)
    ensures r == Paint(w, Blit(w, mem, Gradient(fb, VisiblePixels(fb))),
                       Rect(fb, RECT_X0, RECT_X1, RECT_Y0, RECT_Y1), RED)
  {
    var gradient := Graphics.RenderExample(w, fb, mem);
    FillRect(w, fb, gradient, RECT_X0, RECT_X1, RECT_Y0, RECT_Y1, RED)
  }

  /** The gradient with any rectangle painted red over it, read back at a visible pixel. */
  lemma RectOverGradient(w: PixelFormat, fb: FrameBuffer, mem: Memory, x0: nat, x1: nat, y0: nat, y1: nat, x: nat, y: nat)
    requires ValidFrameBuffer(fb) && x1 > 0 && y1 > 0 && OffsetFits(fb, x1 - 1, y1 - 1)
    requires x1 <= fb.stride && x < fb.width && y < fb.height
    ensures PixelAt(w, FillRect(w, fb, Graphics.RenderExample(w, fb, mem), x0, x1, y0, y1, RED), PixelIndex(fb, x, y))
         == if x0 <= x < x1 && y0 <= y < y1 then Some(RED) else Some(GradientColor(x, y))
  {
    RenderExamplePixel(w, fb, mem, x, y);
    RectOver(w, fb, Graphics.RenderExample(w, fb, mem), x0, x1, y0, y1, RED, x, y, GradientColor(x, y));
  }

  /** Every pixel whose index is that of a rectangle point is red. The rectangle is not
      clipped to the screen: on a 100-pixel-wide screen, `(10, 51)` shares its index with
      `(110, 50)` and is painted red although it lies outside the rectangle. */
  lemma RenderExampleRed(w: PixelFormat, fb: FrameBuffer, mem: Memory, x: nat, y: nat, px: nat, py: nat)
    requires ValidFrameBuffer(fb) && OffsetFits(fb, RECT_X1 - 1, RECT_Y1 - 1)
    requires RECT_X0 <= px < RECT_X1 && RECT_Y0 <= py < RECT_Y1 && PixelIndex(fb, x, y) == PixelIndex(fb, px, py)
    ensures PixelAt(w, RenderExample(w, fb, mem), PixelIndex(fb, x, y)) == Some(RED)
  {
    FillRectCovers(w, fb, Graphics.RenderExample(w, fb, mem), RECT_X0, RECT_X1, RECT_Y0, RECT_Y1, RED, px, py, PixelIndex(fb, x, y));
  }

  /** On a screen at least 250 pixels per line, every visible pixel outside the
      rectangle keeps its gradient colour. */
  lemma RenderExampleKeepsGradient(w: PixelFormat, fb: FrameBuffer, mem: Memory, x: nat, y: nat)
    requires ValidFrameBuffer(fb) && OffsetFits(fb, RECT_X1 - 1, RECT_Y1 - 1)
    requires fb.stride >= RECT_X1 && x < fb.width && y < fb.height
    requires !(RECT_X0 <= x < RECT_X1 && RECT_Y0 <= y < RECT_Y1)
    ensures PixelAt(w, RenderExample(w, fb, mem), PixelIndex(fb, x, y)) == Some(GradientColor(x, y))
  {
    RectOverGradient(w, fb, mem, RECT_X0, RECT_X1, RECT_Y0, RECT_Y1, x, y);
  }

  /** One `render_font` call of `kernel_main`: glyph `LATIN1_FONT[glyph]` at `(x, y)`. */
  datatype Placement = Placement(x: nat, y: nat, glyph: nat)

  /** The glyphs `kernel_main` draws after the example, per pixel format. The table is
      indexed with the code point itself (entry `0x41` for 'A'), unlike `print_font`'s `c - 1`. */
  function Banner(format: PixelFormat): seq<Placement> {
    match format
    case Rgb => [Placement(10, 10, 0x41), Placement(20, 10, 0x42), Placement(30, 10, 0x43)]
    case Bgr => [Placement(10, 20, 0x50), Placement(20, 20, 0x51), Placement(30, 20, 0x52), Placement(40, 20, 0x53)]
  }

  /** The letters whose glyphs the banner's entries hold under `print_font`'s `c - 1`
      convention: one letter later than the code points the entries are numbered by. */
  function BannerLetters(format: PixelFormat): string {
    match format
    case Rgb => "BCD"
    case Bgr => "QRST"
  }

  /** Every banner glyph lies within `[0, RECT_X1) x [0, RECT_Y1)`, so it is addressable
      whenever the rectangle is; and it lies above and to the left of the red rectangle,
      so the glyphs are drawn over the gradient, not over the red. */
  lemma BannerInBox(format: PixelFormat)
    ensures forall i :: 0 <= i < |Banner(format)| ==>
              Banner(format)[i].glyph <= 0x53 &&
              Banner(format)[i].x + LEGACY.cols <= RECT_X1 && Banner(format)[i].y + LEGACY.rows <= RECT_Y1
    ensures forall i :: 0 <= i < |Banner(format)| ==>
              Banner(format)[i].x + LEGACY.cols <= RECT_X0 && Banner(format)[i].y + LEGACY.rows <= RECT_Y0
    ensures |BannerLetters(format)| == |Banner(format)|
    ensures forall i :: 0 <= i < |Banner(format)| ==> Banner(format)[i].glyph == BannerLetters(format)[i] as int - 1
  {
  }

  predicate PlacementsFit(fb: FrameBuffer, font: seq<seq<nat>>, ps: seq<Placement>) {
    forall i :: 0 <= i < |ps| ==> ps[i].glyph < |font| && |font[ps[i].glyph]| >= LEGACY.rows && GlyphFits(LEGACY, fb, ps[i].x, ps[i].y)
  }

  /** The pixels of the placed glyphs, together. */
  function PlacedPixels(fb: FrameBuffer, font: seq<seq<nat>>, ps: seq<Placement>): set<nat>
    requires PlacementsFit(fb, font, ps)
    decreases |ps|
  {
    if |ps| == 0 then {}
    else GlyphPixels(LEGACY, fb, ps[0].x, ps[0].y, font[ps[0].glyph]) + PlacedPixels(fb, font, ps[1..])
  }

  lemma PlacementsFitTail(fb: FrameBuffer, font: seq<seq<nat>>, ps: seq<Placement>)
    requires |ps| > 0 && PlacementsFit(fb, font, ps)
    ensures PlacementsFit(fb, font, ps[1..])
  {
    forall i | 0 <= i < |ps[1..]| ensures ps[1..][i] == ps[i + 1] {
    }
  }

  /** A run of `render_font` calls in one colour paints the union of their glyphs. */
  function DrawGlyphs(w: PixelFormat, fb: FrameBuffer, mem: Memory, font: seq<seq<nat>>, ps: seq<Placement>, c: Color): (r: Memory)
    requires PlacementsFit(fb, font, ps)
    ensures r == Paint(w, mem, PlacedPixels(fb, font, ps), c)
    decreases |ps|
  {
    if |ps| == 0 then
      PaintNothing(w, mem, c);
      mem
    else
      var p := ps[0];
      var glyph := font[p.glyph];
      var A := GlyphPixels(LEGACY, fb, p.x, p.y, glyph);
      PlacementsFitTail(fb, font, ps);
      var B := PlacedPixels(fb, font, ps[1..]);
      var first := RenderFont(LEGACY, w, fb, mem, p.x, p.y, c, glyph);
      RenderFontPaintsGlyph(LEGACY, w, fb, mem, p.x, p.y, c, glyph);
      PaintCompose(w, mem, A, B, c);
      DrawGlyphs(w, fb, first, font, ps[1..], c)
  }

  lemma BannerFits(fb: FrameBuffer, font: seq<seq<nat>>, format: PixelFormat)
    requires LegacyFont(font) && OffsetFits(fb, RECT_X1 - 1, RECT_Y1 - 1)
    ensures PlacementsFit(fb, font, Banner(format))
  {
    var ps := Banner(format);
    BannerInBox(format);
    forall i | 0 <= i < |ps| ensures GlyphFits(LEGACY, fb, ps[i].x, ps[i].y) {
      OffsetFitsBelow(fb, ps[i].x + LEGACY.cols - 1, ps[i].y + LEGACY.rows - 1, RECT_X1 - 1, RECT_Y1 - 1);
    }
  }

  /** Every glyph of a run contributes its pixels to the union. */
  lemma {:induction false} PlacedPixelsHasEach(fb: FrameBuffer, font: seq<seq<nat>>, ps: seq<Placement>, i: nat)
    requires PlacementsFit(fb, font, ps) && i < |ps|
    ensures GlyphPixels(LEGACY, fb, ps[i].x, ps[i].y, font[ps[i].glyph]) <= PlacedPixels(fb, font, ps)
    decreases |ps|
  {
    if i > 0 {
      PlacementsFitTail(fb, font, ps);
      PlacedPixelsHasEach(fb, font, ps[1..], i - 1);
      assert ps[1..][i - 1] == ps[i];
    }
  }

  /** Painting a run of glyphs colours an inked pixel of any of them. */
  lemma PlacedPixelPainted(w: PixelFormat, fb: FrameBuffer, before: Memory, after: Memory, font: seq<seq<nat>>, ps: seq<Placement>, c: Color,
                           i: nat, dx: nat, dy: nat)
    requires PlacementsFit(fb, font, ps) && i < |ps| && dy < LEGACY.rows && dx < LEGACY.cols
    requires Inked(LEGACY, font[ps[i].glyph], dy, dx)
    requires after == Paint(w, before, PlacedPixels(fb, font, ps), c)
    ensures PixelAt(w, after, PixelIndex(fb, ps[i].x + dx, ps[i].y + dy)) == Some(c)
  {
    var pl := ps[i];
    var p := Placed(fb, pl.x, pl.y, dx, dy);
    assert p in GlyphPixels(LEGACY, fb, pl.x, pl.y, font[pl.glyph]);
    PlacedPixelsHasEach(fb, font, ps, i);
    PaintReadBack(w, before, PlacedPixels(fb, font, ps), c, p);
  }

  /** `kernel_main`: the example, then the banner in black, with the writer `fb.format`
      selects; the final `hlt` loop is not modelled. */
  function KernelMain(fb: FrameBuffer, mem: Memory, font: seq<seq<nat>>): (r: Memory)
    requires LegacyFont(font) && ValidFrameBuffer(fb) && OffsetFits(fb, RECT_X1 - 1, RECT_Y1 - 1)
    ensures PlacementsFit(fb, font, Banner(fb.format))
    ensures r == Paint(fb.format, RenderExample(fb.format, fb, mem), PlacedPixels(fb, font, Banner(fb.format)), BLACK)
  {
    BannerFits(fb, font, fb.format);
    match fb.format
    case Rgb => DrawGlyphs(Rgb, fb, RenderExample(Rgb, fb, mem), font, Banner(Rgb), BLACK)
    case Bgr => DrawGlyphs(Bgr, fb, RenderExample(Bgr, fb, mem), font, Banner(Bgr), BLACK)
  }
}
