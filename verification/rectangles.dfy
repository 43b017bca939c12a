/** Axis-aligned rectangles of pixels: the nested `for x { for y { put_pixel } }` loop
    that main.rs's `render_example` uses for its red box, and the pixel set that both it
    and `paint_rectangle` cover. */
module Rectangles {
  import opened Results
  import opened Framebuffer

  /** Pixel indices of the rectangle `[x0, x1) x [y0, y1)`. */
  function Rect(fb: FrameBuffer, x0: nat, x1: nat, y0: nat, y1: nat): set<nat> {
    set py, px | y0 <= py < y1 && x0 <= px < x1 :: PixelIndex(fb, px, py)
  }

  /** Pixel indices of column `x` from row `y` to `y1 - 1`. */
  function ColumnPixels(fb: FrameBuffer, x: nat, y: nat, y1: nat): set<nat> {
    set py | y <= py < y1 :: PixelIndex(fb, x, py)
  }

  /** The inner `for y in y..y1` loop of the rectangle at column `x`. */
  function FillColumn(w: PixelFormat, fb: FrameBuffer, mem: Memory, x: nat, y: nat, y1: nat, c: Color): (r: Memory)
    requires y1 > 0 && OffsetFits(fb, x, y1 - 1)
    ensures r == Paint(w, mem, ColumnPixels(fb, x, y, y1), c)
    decreases y1 - y
  {
    if y >= y1 then
      assert ColumnPixels(fb, x, y, y1) == {};
      PaintNothing(w, mem, c);
      mem
    else
      OffsetFitsBelow(fb, x, y, x, y1 - 1);
      PutPixelIsPaint(w, fb, mem, x, y, c);
      assert ColumnPixels(fb, x, y, y1) == {PixelIndex(fb, x, y)} + ColumnPixels(fb, x, y + 1, y1);
      PaintCompose(w, mem, {PixelIndex(fb, x, y)}, ColumnPixels(fb, x, y + 1, y1), c);
      FillColumn(w, fb, PutPixel(w, fb, mem, x, y, c), x, y + 1, y1, c)
  }

  /** The rectangle loop `for x in x..x1 { for y in y0..y1 { put_pixel } }`: it paints
      exactly the rectangle `[x, x1) x [y0, y1)`. */
  function FillRect(w: PixelFormat, fb: FrameBuffer, mem: Memory, x: nat, x1: nat, y0: nat, y1: nat, c: Color): (r: Memory)
    requires x1 > 0 && y1 > 0 && OffsetFits(fb, x1 - 1, y1 - 1)
    ensures r == Paint(w, mem, Rect(fb, x, x1, y0, y1), c)
    decreases x1 - x
  {
    if x >= x1 then
      assert Rect(fb, x, x1, y0, y1) == {};
      PaintNothing(w, mem, c);
      mem
    else
      OffsetFitsBelow(fb, x, y1 - 1, x1 - 1, y1 - 1);
      var col := FillColumn(w, fb, mem, x, y0, y1, c);
      RectSplit(fb, x, x1, y0, y1);
      PaintCompose(w, mem, ColumnPixels(fb, x, y0, y1), Rect(fb, x + 1, x1, y0, y1), c);
      FillRect(w, fb, col, x + 1, x1, y0, y1, c)
  }

  lemma RectSplit(fb: FrameBuffer, x: nat, x1: nat, y0: nat, y1: nat)
    requires x < x1
    ensures Rect(fb, x, x1, y0, y1) == ColumnPixels(fb, x, y0, y1) + Rect(fb, x + 1, x1, y0, y1)
  {
    var A, B, C := Rect(fb, x, x1, y0, y1), ColumnPixels(fb, x, y0, y1), Rect(fb, x + 1, x1, y0, y1);
    forall p | p in A ensures p in B + C {
      var py, px :| y0 <= py < y1 && x <= px < x1 && p == PixelIndex(fb, px, py);
      if px > x {
        assert p == PixelIndex(fb, px, py);
      }
    }
  }

  /** When the rectangle's columns fit in a line, a pixel index lies in it exactly
      when its coordinates do. */
  lemma RectDecode(fb: FrameBuffer, x0: nat, x1: nat, y0: nat, y1: nat, x: nat, y: nat)
    requires x1 <= fb.stride && x < fb.stride
    ensures PixelIndex(fb, x, y) in Rect(fb, x0, x1, y0, y1) <==> x0 <= x < x1 && y0 <= y < y1
  {
    if PixelIndex(fb, x, y) in Rect(fb, x0, x1, y0, y1) {
      var py, px :| y0 <= py < y1 && x0 <= px < x1 && PixelIndex(fb, x, y) == PixelIndex(fb, px, py);
      PixelIndexInjective(fb, x, y, px, py);
    }
  }

  /** Painting a rectangle whose columns fit in a line changes exactly the pixels
      inside it. */
  lemma RectReadBack(w: PixelFormat, fb: FrameBuffer, mem: Memory, x0: nat, x1: nat, y0: nat, y1: nat, c: Color, x: nat, y: nat)
    requires x1 <= fb.stride && x < fb.stride
    ensures PixelAt(w, Paint(w, mem, Rect(fb, x0, x1, y0, y1), c), PixelIndex(fb, x, y))
         == if x0 <= x < x1 && y0 <= y < y1 then Some(c) else PixelAt(w, mem, PixelIndex(fb, x, y))
  {
    PaintReadBack(w, mem, Rect(fb, x0, x1, y0, y1), c, PixelIndex(fb, x, y));
    RectDecode(fb, x0, x1, y0, y1, x, y);
  }

  /** `RectReadBack` for a pixel whose colour before the painting is known. */
  lemma RectOver(w: PixelFormat, fb: FrameBuffer, mem: Memory, x0: nat, x1: nat, y0: nat, y1: nat, c: Color, x: nat, y: nat, before: Color)
    requires x1 <= fb.stride && x < fb.stride
    requires PixelAt(w, mem, PixelIndex(fb, x, y)) == Some(before)
    ensures PixelAt(w, Paint(w, mem, Rect(fb, x0, x1, y0, y1), c), PixelIndex(fb, x, y))
         == if x0 <= x < x1 && y0 <= y < y1 then Some(c) else Some(before)
  {
    RectReadBack(w, fb, mem, x0, x1, y0, y1, c, x, y);
  }

  /** A rectangle fill colours every index in the rectangle, wherever that index is on screen. */
  lemma FillRectCovers(w: PixelFormat, fb: FrameBuffer, mem: Memory, x0: nat, x1: nat, y0: nat, y1: nat, c: Color, px: nat, py: nat, p: nat)
    requires x1 > 0 && y1 > 0 && OffsetFits(fb, x1 - 1, y1 - 1)
    requires x0 <= px < x1 && y0 <= py < y1 && p == PixelIndex(fb, px, py)
    ensures PixelAt(w, FillRect(w, fb, mem, x0, x1, y0, y1, c), p) == Some(c)
  {
    assert p in Rect(fb, x0, x1, y0, y1);
    PaintReadBack(w, mem, Rect(fb, x0, x1, y0, y1), c, p);
  }

}
