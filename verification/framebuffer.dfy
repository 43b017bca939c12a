/** The framebuffer handed from the loader to the kernel, and the two pixel writers
    (`RgbPixelWriter` and `BgrPixelWriter`), which both kernel variants define identically.

    Framebuffer memory is a byte map keyed by the offset from the first pixel byte.
    Every drawing routine is reduced to `Blit`, the reference meaning of "these pixels
    now hold these colours"; `Paint` is its single-colour case. */
module Framebuffer {
  import opened Words
  import opened Results

  /** `MyPixelFormat`: which writer lays a colour out in memory. */
  datatype PixelFormat = Rgb | Bgr

  /** A colour in semantic order: `(color.0, color.1, color.2)` = (red, green, blue). */
  datatype Color = Color(red: byte, green: byte, blue: byte)

  /** The `FrameBuffer` record: base address, pixels per row in memory, visible
      resolution `(width, height)` and pixel layout. */
  datatype FrameBuffer = FrameBuffer(base: nat, stride: u32, width: u32, height: u32, format: PixelFormat)

  type Memory = map<nat, byte>

  datatype Point = Point(x: nat, y: nat)

  /** Pixel `(x, y)` is the `stride * y + x`-th 4-byte pixel. */
  function PixelIndex(fb: FrameBuffer, x: nat, y: nat): nat {
    fb.stride * y + x
  }

  /** Coordinates are `u32` and `4 * (stride * y + x)` is computed in `u32`: the writer
      is only defined where none of that overflows. */
  predicate OffsetFits(fb: FrameBuffer, x: nat, y: nat) {
    x < U32_LIMIT && y < U32_LIMIT && 4 * PixelIndex(fb, x, y) < U32_LIMIT
  }

  /** A usable mode: rows do not overlap and every visible pixel offset fits in `u32`. */
  predicate ValidFrameBuffer(fb: FrameBuffer) {
    && fb.width <= fb.stride
    && (fb.width > 0 && fb.height > 0 ==> OffsetFits(fb, fb.width - 1, fb.height - 1))
  }

  lemma OffsetFitsBelow(fb: FrameBuffer, x: nat, y: nat, x': nat, y': nat)
    requires OffsetFits(fb, x', y') && x <= x' && y <= y'
    ensures OffsetFits(fb, x, y)
  {
    MulMonotone(y, y', fb.stride);
    assert fb.stride * y <= fb.stride * y';
  }

  /** Two visible pixels of distinct coordinates never share a pixel index. */
  lemma PixelIndexInjective(fb: FrameBuffer, x: nat, y: nat, x': nat, y': nat)
    requires x < fb.stride && x' < fb.stride
    requires PixelIndex(fb, x, y) == PixelIndex(fb, x', y')
    ensures x == x' && y == y'
  {
    DivModUnique(PixelIndex(fb, x, y), fb.stride, y, x);
    DivModUnique(PixelIndex(fb, x', y'), fb.stride, y', x');
  }

  /** Byte `i` (`i < 3`) of a pixel holding colour `c` under layout `w`. */
  function Channel(w: PixelFormat, c: Color, i: nat): byte
    requires i < 3
  {
    match w
    case Rgb => if i == 0 then c.red else if i == 1 then c.green else c.blue
    case Bgr => if i == 0 then c.blue else if i == 1 then c.green else c.red
  }

  /** `put_pixel`: three byte stores at offset `4 * (stride * y + x)`, no bounds check. */
  function PutPixel(w: PixelFormat, fb: FrameBuffer, mem: Memory, x: nat, y: nat, c: Color): (r: Memory)
    requires OffsetFits(fb, x, y)
    ensures var o := 4 * PixelIndex(fb, x, y);
            && r.Keys == mem.Keys + {o, o + 1, o + 2}
            && (w == Rgb ==> r[o] == c.red && r[o + 1] == c.green && r[o + 2] == c.blue)
            && (w == Bgr ==> r[o] == c.blue && r[o + 1] == c.green && r[o + 2] == c.red)
            && forall k :: k in mem && (k < o || o + 2 < k) ==> r[k] == mem[k]
  {
    var o := 4 * (fb.stride * y + x);
    match w
    case Rgb => mem[o := c.red][o + 1 := c.green][o + 2 := c.blue]
    case Bgr => mem[o := c.blue][o + 1 := c.green][o + 2 := c.red]
  }

  /** Reads back the colour of pixel index `p` through layout `w`, if its three bytes exist. */
  function PixelAt(w: PixelFormat, mem: Memory, p: nat): Option<Color> {
    var o := 4 * p;
    if o in mem && o + 1 in mem && o + 2 in mem then
      match w
      case Rgb => Some(Color(mem[o], mem[o + 1], mem[o + 2]))
      case Bgr => Some(Color(mem[o + 2], mem[o + 1], mem[o]))
    else None
  }

  /** Writing a pixel and reading it back through the same layout yields the colour. */
  lemma PutPixelRoundTrip(w: PixelFormat, fb: FrameBuffer, mem: Memory, x: nat, y: nat, c: Color)
    requires OffsetFits(fb, x, y)
    ensures PixelAt(w, PutPixel(w, fb, mem, x, y, c), PixelIndex(fb, x, y)) == Some(c)
  {
  }

  /** The BGR writer reverses the channels: (10, 20, 30) is stored as 30, 20, 10. */
  lemma BgrPixelExample(fb: FrameBuffer, mem: Memory, x: nat, y: nat)
    requires OffsetFits(fb, x, y)
    ensures var r, o := PutPixel(Bgr, fb, mem, x, y, Color(10, 20, 30)), 4 * PixelIndex(fb, x, y);
            r[o] == 30 && r[o + 1] == 20 && r[o + 2] == 10
  {
  }

  /** Byte `k` is one of the three colour bytes of a pixel in `S`. */
  predicate Covers(S: set<nat>, k: nat) {
    k / 4 in S && k % 4 < 3
  }

  /** Byte `i` of the pixel with index `p`. */
  function ByteOf(p: nat, i: nat): nat {
    4 * p + i
  }

  function PixelBytes(S: set<nat>): (bytes: set<nat>)
    ensures forall k :: k in bytes <==> Covers(S, k)
  {
    var bytes := set p, i | p in S && 0 <= i < 3 :: ByteOf(p, i);
    assert forall k :: Covers(S, k) ==> k in bytes by {
      forall k: nat | Covers(S, k) ensures k in bytes {
        assert k == ByteOf(k / 4, k % 4);
      }
    }
    bytes
  }

  lemma CoversOne(p: nat, k: nat)
    ensures Covers({p}, k) <==> k == 4 * p || k == 4 * p + 1 || k == 4 * p + 2
  {
  }

  /** Reference meaning of drawing: every pixel index in `pix` holds its colour under
      layout `w`; every other byte is as in `mem`. */
  function Blit(w: PixelFormat, mem: Memory, pix: map<nat, Color>): (r: Memory)
    ensures forall k :: k in r <==> k in mem || Covers(pix.Keys, k)
    ensures forall k :: k in r && Covers(pix.Keys, k) ==> r[k] == Channel(w, pix[k / 4], k % 4)
    ensures forall k :: k in r && !Covers(pix.Keys, k) ==> r[k] == mem[k]
  {
    map k | k in mem.Keys + PixelBytes(pix.Keys) ::
      if Covers(pix.Keys, k) then Channel(w, pix[k / 4], k % 4) else mem[k]
  }

  /** Drawing `pix` and then `more` is drawing their union, later colours winning. */
  lemma BlitCompose(w: PixelFormat, mem: Memory, pix: map<nat, Color>, more: map<nat, Color>)
    ensures Blit(w, Blit(w, mem, pix), more) == Blit(w, mem, pix + more)
  {
    var l, r := Blit(w, Blit(w, mem, pix), more), Blit(w, mem, pix + more);
    assert forall k :: Covers((pix + more).Keys, k) <==> Covers(pix.Keys, k) || Covers(more.Keys, k);
    assert l.Keys == r.Keys;
    forall k | k in l
      ensures l[k] == r[k]
    {
      if Covers(more.Keys, k) {
        assert (pix + more)[k / 4] == more[k / 4];
      } else if Covers(pix.Keys, k) {
        assert (pix + more)[k / 4] == pix[k / 4];
      }
    }
  }

  lemma BlitNothing(w: PixelFormat, mem: Memory)
    ensures Blit(w, mem, map[]) == mem
  {
    var r := Blit(w, mem, map[]);
    assert r.Keys == mem.Keys;
  }

  /** A single `put_pixel` blits one pixel. */
  lemma PutPixelIsBlit(w: PixelFormat, fb: FrameBuffer, mem: Memory, x: nat, y: nat, c: Color)
    requires OffsetFits(fb, x, y)
    ensures PutPixel(w, fb, mem, x, y, c) == Blit(w, mem, map[PixelIndex(fb, x, y) := c])
  {
    var l, r := PutPixel(w, fb, mem, x, y, c), Blit(w, mem, map[PixelIndex(fb, x, y) := c]);
    var p := PixelIndex(fb, x, y);
    assert map[p := c].Keys == {p};
    forall k
      ensures k in l <==> k in r
      ensures k in l ==> l[k] == r[k]
    {
      CoversOne(p, k);
    }
  }

  /** Every pixel index of `S` gets colour `c` under layout `w`; every other byte is as in `mem`. */
  function Paint(w: PixelFormat, mem: Memory, S: set<nat>, c: Color): (r: Memory)
    ensures forall k :: k in r <==> k in mem || Covers(S, k)
    ensures forall k :: k in r && Covers(S, k) ==> r[k] == Channel(w, c, k % 4)
    ensures forall k :: k in r && !Covers(S, k) ==> r[k] == mem[k]
  {
    map k | k in mem.Keys + PixelBytes(S) :: if Covers(S, k) then Channel(w, c, k % 4) else mem[k]
  }

  lemma PaintCompose(w: PixelFormat, mem: Memory, A: set<nat>, B: set<nat>, c: Color)
    ensures Paint(w, Paint(w, mem, A, c), B, c) == Paint(w, mem, A + B, c)
  {
    var l, r := Paint(w, Paint(w, mem, A, c), B, c), Paint(w, mem, A + B, c);
    assert forall k :: Covers(A + B, k) <==> Covers(A, k) || Covers(B, k);
    assert l.Keys == r.Keys;
  }

  /** Painting `A` and then `B` on the result paints their union. */
  lemma PaintThen(w: PixelFormat, m0: Memory, m1: Memory, m2: Memory, A: set<nat>, B: set<nat>, AB: set<nat>, c: Color)
    requires m1 == Paint(w, m0, A, c) && m2 == Paint(w, m1, B, c) && AB == A + B
    ensures m2 == Paint(w, m0, AB, c)
  {
    PaintCompose(w, m0, A, B, c);
  }

  lemma PaintNothing(w: PixelFormat, mem: Memory, c: Color)
    ensures Paint(w, mem, {}, c) == mem
  {
    var r := Paint(w, mem, {}, c);
    assert r.Keys == mem.Keys;
  }

  /** After `Paint`, a painted pixel reads back as the colour and any other keeps its bytes. */
  lemma PaintReadBack(w: PixelFormat, mem: Memory, S: set<nat>, c: Color, p: nat)
    ensures p in S ==> PixelAt(w, Paint(w, mem, S, c), p) == Some(c)
    ensures p !in S ==> PixelAt(w, Paint(w, mem, S, c), p) == PixelAt(w, mem, p)
  {
    assert Covers(S, 4 * p) <==> p in S;
    assert Covers(S, 4 * p + 1) <==> p in S;
    assert Covers(S, 4 * p + 2) <==> p in S;
  }

  /** A single `put_pixel` paints exactly its pixel index. */
  lemma PutPixelIsPaint(w: PixelFormat, fb: FrameBuffer, mem: Memory, x: nat, y: nat, c: Color)
    requires OffsetFits(fb, x, y)
    ensures PutPixel(w, fb, mem, x, y, c) == Paint(w, mem, {PixelIndex(fb, x, y)}, c)
  {
    var l, r := PutPixel(w, fb, mem, x, y, c), Paint(w, mem, {PixelIndex(fb, x, y)}, c);
    var p := PixelIndex(fb, x, y);
    forall k
      ensures k in l <==> k in r
      ensures k in l ==> l[k] == r[k]
    {
      CoversOne(p, k);
    }
  }

  /** After `Blit`, a drawn pixel reads back as its colour and an undrawn one keeps its bytes. */
  lemma BlitReadBack(w: PixelFormat, mem: Memory, pix: map<nat, Color>, p: nat)
    ensures p in pix ==> PixelAt(w, Blit(w, mem, pix), p) == Some(pix[p])
    ensures p !in pix ==> PixelAt(w, Blit(w, mem, pix), p) == PixelAt(w, mem, p)
  {
    var r := Blit(w, mem, pix);
    assert Covers(pix.Keys, 4 * p) <==> p in pix;
    assert Covers(pix.Keys, 4 * p + 1) <==> p in pix;
    assert Covers(pix.Keys, 4 * p + 2) <==> p in pix;
  }

  predicate PointsFit(fb: FrameBuffer, pts: seq<Point>) {
    forall i :: 0 <= i < |pts| ==> OffsetFits(fb, pts[i].x, pts[i].y)
  }

  /** The pixel indices a sequence of points lands on. */
  function Indices(fb: FrameBuffer, pts: seq<Point>): set<nat> {
    set i | 0 <= i < |pts| :: PixelIndex(fb, pts[i].x, pts[i].y)
  }

  lemma IndicesCons(fb: FrameBuffer, pts: seq<Point>)
    requires |pts| > 0
    ensures Indices(fb, pts) == {PixelIndex(fb, pts[0].x, pts[0].y)} + Indices(fb, pts[1..])
  {
    var p := PixelIndex(fb, pts[0].x, pts[0].y);
    forall q | q in Indices(fb, pts) ensures q in {p} + Indices(fb, pts[1..]) {
      var i :| 0 <= i < |pts| && q == PixelIndex(fb, pts[i].x, pts[i].y);
      if i > 0 {
        assert pts[i] == pts[1..][i - 1];
      }
    }
    forall q | q in Indices(fb, pts[1..]) ensures q in Indices(fb, pts) {
      var i :| 0 <= i < |pts[1..]| && q == PixelIndex(fb, pts[1..][i].x, pts[1..][i].y);
      assert pts[1..][i] == pts[i + 1];
    }
  }

  /** `put_pixel` at each point in turn, all in one colour. */
  function PutPixels(w: PixelFormat, fb: FrameBuffer, mem: Memory, pts: seq<Point>, c: Color): Memory
    requires PointsFit(fb, pts)
    decreases |pts|
  {
    if |pts| == 0 then mem
    else PutPixels(w, fb, PutPixel(w, fb, mem, pts[0].x, pts[0].y, c), pts[1..], c)
  }

  /** Putting a run of same-coloured pixels paints exactly the indices they land on,
      whatever their order and repetitions. */
  lemma {:induction false} PutPixelsIsPaint(w: PixelFormat, fb: FrameBuffer, mem: Memory, pts: seq<Point>, c: Color)
    requires PointsFit(fb, pts)
    ensures PutPixels(w, fb, mem, pts, c) == Paint(w, mem, Indices(fb, pts), c)
    decreases |pts|
  {
    if |pts| == 0 {
      assert Indices(fb, pts) == {};
      PaintNothing(w, mem, c);
    } else {
      var p := PixelIndex(fb, pts[0].x, pts[0].y);
      PutPixelIsPaint(w, fb, mem, pts[0].x, pts[0].y, c);
      PutPixelsIsPaint(w, fb, Paint(w, mem, {p}, c), pts[1..], c);
      PaintCompose(w, mem, {p}, Indices(fb, pts[1..]), c);
      IndicesCons(fb, pts);
    }
  }
}
