/** `render_font`, the bitmap glyph rasteriser. Both kernel variants use the same loop
    (`for dy { for dx { if (font[dy] << dx) & MASK != 0 { put_pixel(x + dx, y + dy) } } }`)
    and differ only in shape, so it is modelled once, parameterised by `Shape`, and
    instantiated as `LATIN1` (graphics.rs) and `LEGACY` (main.rs).

    The loop is modelled as the sequence of points it hands to `put_pixel`, in loop
    order; the memory effect is `PutPixels` over that trace. */
module Glyph {
  import opened Words
  import opened Results
  import opened Framebuffer

  /** Rows drawn, columns drawn, the mask bit tested after the shift, and the bit
      width of one row of the glyph table. */
  datatype Shape = Shape(rows: nat, cols: nat, maskBit: nat, rowBits: nat)

  predicate WellFormed(s: Shape) {
    0 < s.rows && 0 < s.cols <= s.maskBit + 1 && s.maskBit < s.rowBits
  }

  /** graphics.rs: 18 `u16` rows, 9 columns, mask `0b1000000000` (bit 9). */
  const LATIN1: Shape := Shape(18, 9, 9, 16)

  /** main.rs: the first 13 of 14 `u8` rows, 7 columns, mask `0x80` (bit 7). */
  const LEGACY: Shape := Shape(13, 7, 7, 8)

  /** The loop's test, as written: `(row << dx) & (1 << maskBit) != 0` in the row type. */
  predicate Lit(s: Shape, row: nat, dx: nat) {
    Bit(Shl(row, dx, s.rowBits), s.maskBit) == 1
  }

  /** The bit of the glyph that decides pixel `(dx, dy)`: bit `maskBit - dx` of row `dy`. */
  predicate Inked(s: Shape, font: seq<nat>, dy: nat, dx: nat)
    requires dy < |font| && dx <= s.maskBit
  {
    Bit(font[dy], s.maskBit - dx) == 1
  }

  /** The far corner of the glyph box is addressable, hence every pixel of it is. */
  predicate GlyphFits(s: Shape, fb: FrameBuffer, x: nat, y: nat) {
    0 < s.rows && 0 < s.cols && OffsetFits(fb, x + s.cols - 1, y + s.rows - 1)
  }

  /** The inner loop over `dx` from `dx` to `cols - 1`, for row `dy`. */
  function RowTrace(s: Shape, row: nat, x: nat, y: nat, dy: nat, dx: nat): seq<Point>
    decreases s.cols - dx
  {
    if dx >= s.cols then []
    else (if Lit(s, row, dx) then [Point(x + dx, y + dy)] else []) + RowTrace(s, row, x, y, dy, dx + 1)
  }

  /** The outer loop over `dy` from `dy` to `rows - 1`. */
  function Trace(s: Shape, font: seq<nat>, x: nat, y: nat, dy: nat): seq<Point>
    requires |font| >= s.rows
    decreases s.rows - dy
  {
    if dy >= s.rows then []
    else RowTrace(s, font[dy], x, y, dy, 0) + Trace(s, font, x, y, dy + 1)
  }

  /** Every point the loops hand to `put_pixel` lies in the glyph box. */
  lemma {:induction false} TraceInBox(s: Shape, font: seq<nat>, x: nat, y: nat, dy: nat)
    requires |font| >= s.rows
    ensures forall i :: 0 <= i < |Trace(s, font, x, y, dy)| ==>
              var q := Trace(s, font, x, y, dy)[i];
              x <= q.x < x + s.cols && y + dy <= q.y < y + s.rows
    decreases s.rows - dy
  {
    if dy < s.rows {
      RowTraceInBox(s, font[dy], x, y, dy, 0);
      TraceInBox(s, font, x, y, dy + 1);
    }
  }

  lemma {:induction false} RowTraceInBox(s: Shape, row: nat, x: nat, y: nat, dy: nat, dx: nat)
    ensures forall i :: 0 <= i < |RowTrace(s, row, x, y, dy, dx)| ==>
              var q := RowTrace(s, row, x, y, dy, dx)[i];
              x + dx <= q.x < x + s.cols && q.y == y + dy
    decreases s.cols - dx
  {
    if dx < s.cols {
      RowTraceInBox(s, row, x, y, dy, dx + 1);
    }
  }

  lemma TracePointsFit(s: Shape, fb: FrameBuffer, font: seq<nat>, x: nat, y: nat)
    requires |font| >= s.rows && GlyphFits(s, fb, x, y)
    ensures PointsFit(fb, Trace(s, font, x, y, 0))
  {
    var t := Trace(s, font, x, y, 0);
    TraceInBox(s, font, x, y, 0);
    forall i | 0 <= i < |t| ensures OffsetFits(fb, t[i].x, t[i].y) {
      OffsetFitsBelow(fb, t[i].x, t[i].y, x + s.cols - 1, y + s.rows - 1);
    }
  }

  /** `render_font::<W>(fb, x, y, color, font)` with writer `w`. */
  function RenderFont(s: Shape, w: PixelFormat, fb: FrameBuffer, mem: Memory, x: nat, y: nat, c: Color, font: seq<nat>): Memory
    requires |font| >= s.rows && GlyphFits(s, fb, x, y)
  {
    TracePointsFit(s, fb, font, x, y);
    PutPixels(w, fb, mem, Trace(s, font, x, y, 0), c)
  }

  /** Bit `maskBit - d` of a single row: whether column `d` of that row is drawn. */
  predicate RowInked(s: Shape, row: nat, d: nat)
    requires d <= s.maskBit
  {
    Bit(row, s.maskBit - d) == 1
  }

  /** Row `row` draws column `d` exactly when its glyph bit `maskBit - d` is set. */
  lemma {:induction false} RowTraceMembers(s: Shape, row: nat, x: nat, y: nat, dy: nat, dx: nat)
    requires WellFormed(s)
    ensures forall q :: q in RowTrace(s, row, x, y, dy, dx) ==>
              q.y == y + dy && x + dx <= q.x < x + s.cols && RowInked(s, row, q.x - x)
    ensures forall d :: dx <= d < s.cols && RowInked(s, row, d) ==> Point(x + d, y + dy) in RowTrace(s, row, x, y, dy, dx)
    decreases s.cols - dx
  {
    if dx < s.cols {
      var t, rest := RowTrace(s, row, x, y, dy, dx), RowTrace(s, row, x, y, dy, dx + 1);
      var head := if Lit(s, row, dx) then [Point(x + dx, y + dy)] else [];
      assert t == head + rest;
      ShlBit(row, dx, s.maskBit, s.rowBits);
      assert Lit(s, row, dx) <==> RowInked(s, row, dx);
      RowTraceMembers(s, row, x, y, dy, dx + 1);
      forall q | q in t
        ensures q.y == y + dy && x + dx <= q.x < x + s.cols && RowInked(s, row, q.x - x)
      {
        if q !in head {
          assert q in rest;
        }
      }
      forall d | dx <= d < s.cols && RowInked(s, row, d)
        ensures Point(x + d, y + dy) in t
      {
        if d == dx {
          assert Point(x + d, y + dy) in head;
        } else {
          assert Point(x + d, y + dy) in rest;
        }
      }
    }
  }

  /** The trace from row `dy` on: exactly the points whose glyph bit is set. */
  lemma {:induction false} TraceMembers(s: Shape, font: seq<nat>, x: nat, y: nat, dy: nat)
    requires WellFormed(s) && |font| >= s.rows
    ensures forall q :: q in Trace(s, font, x, y, dy) ==>
              x <= q.x < x + s.cols && y + dy <= q.y < y + s.rows && Inked(s, font, q.y - y, q.x - x)
    ensures forall ry, d :: dy <= ry < s.rows && 0 <= d < s.cols && Inked(s, font, ry, d) ==>
              Point(x + d, y + ry) in Trace(s, font, x, y, dy)
    decreases s.rows - dy
  {
    if dy < s.rows {
      var t := Trace(s, font, x, y, dy);
      var row, rest := RowTrace(s, font[dy], x, y, dy, 0), Trace(s, font, x, y, dy + 1);
      assert t == row + rest;
      RowTraceMembers(s, font[dy], x, y, dy, 0);
      TraceMembers(s, font, x, y, dy + 1);
      forall q | q in t
        ensures x <= q.x < x + s.cols && y + dy <= q.y < y + s.rows && Inked(s, font, q.y - y, q.x - x)
      {
        if q in row {
          assert RowInked(s, font[dy], q.x - x);
        } else {
          assert q in rest;
        }
      }
      forall ry, d | dy <= ry < s.rows && 0 <= d < s.cols && Inked(s, font, ry, d)
        ensures Point(x + d, y + ry) in t
      {
        if ry == dy {
          assert RowInked(s, font[dy], d);
          assert Point(x + d, y + ry) in row;
        } else {
          assert Point(x + d, y + ry) in rest;
        }
      }
    }
  }

  /** Pixel index of glyph position `(dx, dy)` when the glyph is drawn at `(x, y)`. */
  function Placed(fb: FrameBuffer, x: nat, y: nat, dx: nat, dy: nat): nat {
    PixelIndex(fb, x + dx, y + dy)
  }

  /** Every pixel index of the `cols` by `rows` glyph box at `(x, y)`. */
  function BoxPixels(s: Shape, fb: FrameBuffer, x: nat, y: nat): set<nat> {
    set dy, dx | 0 <= dy < s.rows && 0 <= dx < s.cols :: Placed(fb, x, y, dx, dy)
  }

  /** Reference: the pixel indices of every set glyph bit, placed at `(x + dx, y + dy)`. */
  function GlyphPixels(s: Shape, fb: FrameBuffer, x: nat, y: nat, font: seq<nat>): set<nat>
    requires WellFormed(s) && |font| >= s.rows
  {
    set dy, dx | 0 <= dy < s.rows && 0 <= dx < s.cols && Inked(s, font, dy, dx) :: Placed(fb, x, y, dx, dy)
  }

  /** The pixel indices the trace lands on are exactly the glyph's set-bit pixels. */
  lemma TraceIndicesAreGlyph(s: Shape, fb: FrameBuffer, x: nat, y: nat, font: seq<nat>)
    requires WellFormed(s) && |font| >= s.rows
    ensures Indices(fb, Trace(s, font, x, y, 0)) == GlyphPixels(s, fb, x, y, font)
  {
    TraceIndicesInGlyph(s, fb, x, y, font);
    GlyphInTraceIndices(s, fb, x, y, font);
  }

  lemma TraceIndicesInGlyph(s: Shape, fb: FrameBuffer, x: nat, y: nat, font: seq<nat>)
    requires WellFormed(s) && |font| >= s.rows
    ensures Indices(fb, Trace(s, font, x, y, 0)) <= GlyphPixels(s, fb, x, y, font)
  {
    var t := Trace(s, font, x, y, 0);
    TraceMembers(s, font, x, y, 0);
    var G := GlyphPixels(s, fb, x, y, font);
    forall p | p in Indices(fb, t) ensures p in G {
      var i :| 0 <= i < |t| && p == PixelIndex(fb, t[i].x, t[i].y);
      assert t[i] in t;
      var dy, dx := t[i].y - y, t[i].x - x;
      assert Inked(s, font, dy, dx) && p == Placed(fb, x, y, dx, dy);
    }
  }

  lemma GlyphInTraceIndices(s: Shape, fb: FrameBuffer, x: nat, y: nat, font: seq<nat>)
    requires WellFormed(s) && |font| >= s.rows
    ensures GlyphPixels(s, fb, x, y, font) <= Indices(fb, Trace(s, font, x, y, 0))
  {
    var t := Trace(s, font, x, y, 0);
    TraceMembers(s, font, x, y, 0);
    var G := GlyphPixels(s, fb, x, y, font);
    forall p | p in G ensures p in Indices(fb, t) {
      var dy, dx :| 0 <= dy < s.rows && 0 <= dx < s.cols && Inked(s, font, dy, dx) && p == Placed(fb, x, y, dx, dy);
      assert Point(x + dx, y + dy) in t;
      var i :| 0 <= i < |t| && t[i] == Point(x + dx, y + dy);
    }
  }

  /** `render_font` colours exactly the pixels of the set glyph bits, whatever the writer. */
  lemma RenderFontPaintsGlyph(s: Shape, w: PixelFormat, fb: FrameBuffer, mem: Memory, x: nat, y: nat, c: Color, font: seq<nat>)
    requires WellFormed(s) && |font| >= s.rows && GlyphFits(s, fb, x, y)
    ensures RenderFont(s, w, fb, mem, x, y, c, font) == Paint(w, mem, GlyphPixels(s, fb, x, y, font), c)
  {
    TracePointsFit(s, fb, font, x, y);
    PutPixelsIsPaint(w, fb, mem, Trace(s, font, x, y, 0), c);
    TraceIndicesAreGlyph(s, fb, x, y, font);
  }

  /** When the glyph box does not run past the row stride, glyph pixel `(dx, dy)` is
      coloured exactly when its bit is set: set bits read back as `c`, clear ones keep
      whatever was there. */
  lemma RenderFontPixel(s: Shape, w: PixelFormat, fb: FrameBuffer, mem: Memory, x: nat, y: nat, c: Color,
                        font: seq<nat>, dx: nat, dy: nat)
    requires WellFormed(s) && |font| >= s.rows && GlyphFits(s, fb, x, y)
    requires x + s.cols <= fb.stride
    requires dy < s.rows && dx < s.cols
    ensures var r, p := RenderFont(s, w, fb, mem, x, y, c, font), PixelIndex(fb, x + dx, y + dy);
            && (Inked(s, font, dy, dx) ==> PixelAt(w, r, p) == Some(c))
            && (!Inked(s, font, dy, dx) ==> PixelAt(w, r, p) == PixelAt(w, mem, p))
  {
    RenderFontPaintsGlyph(s, w, fb, mem, x, y, c, font);
    var G := GlyphPixels(s, fb, x, y, font);
    var p := PixelIndex(fb, x + dx, y + dy);
    if !Inked(s, font, dy, dx) && p in G {
      var ry, d :| 0 <= ry < s.rows && 0 <= d < s.cols && Inked(s, font, ry, d) && p == Placed(fb, x, y, d, ry);
      PixelIndexInjective(fb, x + dx, y + dy, x + d, y + ry);
      assert false;
    }
    PaintReadBack(w, mem, G, c, p);
  }

  /** Number of set bits among the `n` bits from bit `top` downwards. */
  function CountBits(v: nat, top: nat, n: nat): nat
    requires n <= top + 1
  {
    if n == 0 then 0 else Bit(v, top) + (if n == 1 then 0 else CountBits(v, top - 1, n - 1))
  }

  /** Number of set glyph bits in rows `dy` and below (the drawn bits only). */
  function InkCount(s: Shape, font: seq<nat>, dy: nat): nat
    requires WellFormed(s) && |font| >= s.rows
    decreases s.rows - dy
  {
    if dy >= s.rows then 0 else CountBits(font[dy], s.maskBit, s.cols) + InkCount(s, font, dy + 1)
  }

  lemma {:induction false} RowTraceCount(s: Shape, row: nat, x: nat, y: nat, dy: nat, dx: nat)
    requires WellFormed(s) && dx < s.cols
    ensures |RowTrace(s, row, x, y, dy, dx)| == CountBits(row, s.maskBit - dx, s.cols - dx)
    decreases s.cols - dx
  {
    ShlBit(row, dx, s.maskBit, s.rowBits);
    if dx + 1 < s.cols {
      RowTraceCount(s, row, x, y, dy, dx + 1);
    }
  }

  /** `render_font` calls `put_pixel` once per set glyph bit: the popcount of the
      tested bits over the drawn rows. */
  lemma {:induction false} TraceCount(s: Shape, font: seq<nat>, x: nat, y: nat, dy: nat)
    requires WellFormed(s) && |font| >= s.rows
    ensures |Trace(s, font, x, y, dy)| == InkCount(s, font, dy)
    decreases s.rows - dy
  {
    if dy < s.rows {
      RowTraceCount(s, font[dy], x, y, dy, 0);
      TraceCount(s, font, x, y, dy + 1);
    }
  }

  /** A glyph whose drawn rows are all zero draws nothing. */
  lemma BlankGlyphDrawsNothing(s: Shape, w: PixelFormat, fb: FrameBuffer, mem: Memory, x: nat, y: nat, c: Color, font: seq<nat>)
    requires WellFormed(s) && |font| >= s.rows && GlyphFits(s, fb, x, y)
    requires forall dy :: 0 <= dy < s.rows ==> font[dy] == 0
    ensures Trace(s, font, x, y, 0) == []
    ensures RenderFont(s, w, fb, mem, x, y, c, font) == mem
  {
    TraceCount(s, font, x, y, 0);
    InkCountBlank(s, font, 0);
  }

  lemma {:induction false} InkCountBlank(s: Shape, font: seq<nat>, dy: nat)
    requires WellFormed(s) && |font| >= s.rows
    requires forall ry :: 0 <= ry < s.rows ==> font[ry] == 0
    ensures InkCount(s, font, dy) == 0
    decreases s.rows - dy
  {
    if dy < s.rows {
      CountBitsOfZero(s.maskBit, s.cols);
      InkCountBlank(s, font, dy + 1);
    }
  }

  lemma {:induction false} CountBitsOfZero(top: nat, n: nat)
    requires n <= top + 1
    ensures CountBits(0, top, n) == 0
  {
    if n > 1 {
      CountBitsOfZero(top - 1, n - 1);
    }
  }

  lemma {:induction false} CountBitsAllSet(v: nat, top: nat, n: nat)
    requires n <= top + 1
    requires forall i :: top + 1 - n <= i <= top ==> Bit(v, i) == 1
    ensures CountBits(v, top, n) == n
  {
    if n > 1 {
      CountBitsAllSet(v, top - 1, n - 1);
    }
  }

  lemma {:induction false} InkCountFull(s: Shape, font: seq<nat>, dy: nat)
    requires WellFormed(s) && |font| >= s.rows && dy <= s.rows
    requires forall ry, d :: 0 <= ry < s.rows && 0 <= d < s.cols ==> Inked(s, font, ry, d)
    ensures InkCount(s, font, dy) == (s.rows - dy) * s.cols
    decreases s.rows - dy
  {
    if dy < s.rows {
      forall i | s.maskBit + 1 - s.cols <= i <= s.maskBit ensures Bit(font[dy], i) == 1 {
        assert Inked(s, font, dy, s.maskBit - i);
      }
      CountBitsAllSet(font[dy], s.maskBit, s.cols);
      InkCountFull(s, font, dy + 1);
    }
  }

  /** A glyph with every drawn bit set makes `rows * cols` calls to `put_pixel`, one per
      box position, and colours the whole box. */
  lemma FullGlyphDrawsBox(s: Shape, w: PixelFormat, fb: FrameBuffer, mem: Memory, x: nat, y: nat, c: Color, font: seq<nat>)
    requires WellFormed(s) && |font| >= s.rows && GlyphFits(s, fb, x, y)
    requires forall dy, dx :: 0 <= dy < s.rows && 0 <= dx < s.cols ==> Inked(s, font, dy, dx)
    ensures |Trace(s, font, x, y, 0)| == s.rows * s.cols
    ensures RenderFont(s, w, fb, mem, x, y, c, font)
         == Paint(w, mem, BoxPixels(s, fb, x, y), c)
  {
    TraceCount(s, font, x, y, 0);
    InkCountFull(s, font, 0);
    RenderFontPaintsGlyph(s, w, fb, mem, x, y, c, font);
    assert GlyphPixels(s, fb, x, y, font) == BoxPixels(s, fb, x, y);
  }

  /** The loops consult nothing but the tested bits of the drawn rows: two glyphs that
      agree there produce the same `put_pixel` calls. */
  lemma TraceReadsOnlyTestedBits(s: Shape, font: seq<nat>, font': seq<nat>, x: nat, y: nat)
    requires WellFormed(s) && |font| >= s.rows && |font'| >= s.rows
    requires forall dy, dx :: 0 <= dy < s.rows && 0 <= dx < s.cols ==> Inked(s, font, dy, dx) == Inked(s, font', dy, dx)
    ensures Trace(s, font, x, y, 0) == Trace(s, font', x, y, 0)
  {
    TraceAgrees(s, font, font', x, y, 0);
  }

  lemma {:induction false} TraceAgrees(s: Shape, font: seq<nat>, font': seq<nat>, x: nat, y: nat, dy: nat)
    requires WellFormed(s) && |font| >= s.rows && |font'| >= s.rows
    requires forall ry, dx :: 0 <= ry < s.rows && 0 <= dx < s.cols ==> Inked(s, font, ry, dx) == Inked(s, font', ry, dx)
    ensures Trace(s, font, x, y, dy) == Trace(s, font', x, y, dy)
    decreases s.rows - dy
  {
    if dy < s.rows {
      RowTraceAgrees(s, font, font', x, y, dy, 0);
      TraceAgrees(s, font, font', x, y, dy + 1);
    }
  }

  lemma {:induction false} RowTraceAgrees(s: Shape, font: seq<nat>, font': seq<nat>, x: nat, y: nat, dy: nat, dx: nat)
    requires WellFormed(s) && dy < s.rows && |font| >= s.rows && |font'| >= s.rows
    requires forall ry, d :: 0 <= ry < s.rows && 0 <= d < s.cols ==> Inked(s, font, ry, d) == Inked(s, font', ry, d)
    ensures RowTrace(s, font[dy], x, y, dy, dx) == RowTrace(s, font'[dy], x, y, dy, dx)
    decreases s.cols - dx
  {
    if dx < s.cols {
      ShlBit(font[dy], dx, s.maskBit, s.rowBits);
      ShlBit(font'[dy], dx, s.maskBit, s.rowBits);
      assert Inked(s, font, dy, dx) == Inked(s, font', dy, dx);
      RowTraceAgrees(s, font, font', x, y, dy, dx + 1);
    }
  }

  lemma BitAboveZero(v: nat, i: nat)
    requires i >= 1
    ensures Bit(v, i) == Bit(v / 2, i - 1)
  {
    var p := Pow2(i - 1);
    var q, r2 := (v / 2) / p, (v / 2) % p;
    assert v / 2 == q * p + r2;
    assert v == (v / 2) * 2 + v % 2;
    MulDistributes(q * p, r2, 2);
    MulAssociates(q, p, 2);
    assert v == q * (2 * p) + (2 * r2 + v % 2);
    DivModUnique(v, 2 * p, q, 2 * r2 + v % 2);
  }

  /** In both instances bit 0 of a row is never consulted, and in `LEGACY` the 14th row
      is never read: glyphs that differ only there render identically. */
  lemma BitZeroAndSpareRowsIgnored(s: Shape, font: seq<nat>, font': seq<nat>, x: nat, y: nat)
    requires s == LATIN1 || s == LEGACY
    requires |font| >= s.rows && |font'| >= s.rows
    requires forall i :: 0 <= i < s.rows ==> font[i] / 2 == font'[i] / 2
    ensures Trace(s, font, x, y, 0) == Trace(s, font', x, y, 0)
  {
    forall dy, dx | 0 <= dy < s.rows && 0 <= dx < s.cols
      ensures Inked(s, font, dy, dx) == Inked(s, font', dy, dx)
    {
      BitAboveZero(font[dy], s.maskBit - dx);
      BitAboveZero(font'[dy], s.maskBit - dx);
    }
    TraceReadsOnlyTestedBits(s, font, font', x, y);
  }
}
