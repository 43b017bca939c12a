/** Machine words of the boot chain (x86-64, so `usize` is 64 bits) and the
    bit-level arithmetic the rasterisers and the font compiler rely on. */
module Words {

  type byte = x: int | 0 <= x < 0x100
  type u16 = x: int | 0 <= x < 0x1_0000
  type u32 = x: int | 0 <= x < 0x1_0000_0000
  type u64 = x: int | 0 <= x < 0x1_0000_0000_0000_0000

  const U16_LIMIT: nat := 0x1_0000
  const U32_LIMIT: nat := 0x1_0000_0000
  /** `usize::MAX` and `u64::MAX` on the target. */
  const USIZE_MAX: nat := 0xFFFF_FFFF_FFFF_FFFF

  function Pow2(n: nat): (r: nat)
    ensures r >= 1
  {
    if n == 0 then 1 else 2 * Pow2(n - 1)
  }

  /** Bit `i` of `v`, that is `(v >> i) & 1`. */
  function Bit(v: nat, i: nat): (b: nat)
    ensures b < 2
  {
    v / Pow2(i) % 2
  }

  /** `v << s` in an unsigned type of `width` bits: bits pushed past the top are lost. */
  function Shl(v: nat, s: nat, width: nat): (r: nat)
    ensures r < Pow2(width)
  {
    v * Pow2(s) % Pow2(width)
  }

  lemma {:induction false} Pow2Add(a: nat, b: nat)
    ensures Pow2(a + b) == Pow2(a) * Pow2(b)
  {
    if a > 0 {
      Pow2Add(a - 1, b);
      assert Pow2(a + b) == 2 * Pow2(a - 1 + b);
    }
  }

  lemma {:induction false} Pow2Monotone(a: nat, b: nat)
    requires a <= b
    ensures Pow2(a) <= Pow2(b)
  {
    if a < b {
      Pow2Monotone(a, b - 1);
    }
  }

  /** Quotient and remainder are determined by any decomposition with a remainder in range. */
  lemma DivModUnique(a: int, d: int, q: int, r: int)
    requires d > 0 && 0 <= r < d && a == q * d + r
    ensures a / d == q && a % d == r
  {
    var q0, r0 := a / d, a % d;
    assert a == q0 * d + r0;
    assert (q - q0) * d == r0 - r;
    if q > q0 {
      MulAtLeast(q - q0, d);
      assert false;
    } else if q < q0 {
      MulAtLeast(q0 - q, d);
      assert false;
    }
  }

  lemma MulAtLeast(k: int, d: int)
    requires k >= 1 && d > 0
    ensures k * d >= d
  {
  }

  lemma MulDistributes(a: int, b: int, c: int)
    ensures (a + b) * c == a * c + b * c
  {
  }

  lemma MulAssociates(a: int, b: int, c: int)
    ensures (a * b) * c == a * (b * c)
  {
  }

  lemma MulMonotone(a: int, b: int, c: int)
    requires a <= b && c >= 0
    ensures a * c <= b * c
  {
  }

  /** Writing `u * b + s` with `s < b` and reducing modulo `b * m` keeps `u mod m` blocks of `b`. */
  lemma ModBlocks(u: nat, b: nat, m: nat, s: nat)
    requires b > 0 && m > 0 && s < b
    ensures (u * b + s) % (b * m) == (u % m) * b + s
    ensures ((u % m) * b + s) / b == u % m
  {
    var q, um := u / m, u % m;
    assert u == q * m + um;
    MulDistributes(q * m, um, b);
    MulAssociates(q, m, b);
    assert u * b + s == q * (b * m) + (um * b + s);
    MulMonotone(um, m - 1, b);
    MulDistributes(m, -1, b);
    assert um * b + s < b * m;
    DivModUnique(u * b + s, b * m, q, um * b + s);
    DivModUnique(um * b + s, b, um, s);
  }

  /** Reducing modulo an even number keeps the lowest bit. */
  lemma ModEvenKeepsParity(u: nat, half: nat)
    requires half > 0
    ensures (u % (2 * half)) % 2 == u % 2
  {
    var m := 2 * half;
    var um := u % m;
    assert u == (u / m) * m + um;
    assert um == (um / 2) * 2 + um % 2;
    assert u == ((u / m) * half + um / 2) * 2 + um % 2;
    DivModUnique(u, 2, (u / m) * half + um / 2, um % 2);
  }

  /** Splitting `v` at bit `k` and shifting by `s` puts the high part at bit `k + s`. */
  lemma ShiftSplit(v: nat, k: nat, s: nat)
    ensures v * Pow2(s) == (v / Pow2(k)) * Pow2(k + s) + (v % Pow2(k)) * Pow2(s)
    ensures (v % Pow2(k)) * Pow2(s) < Pow2(k + s)
  {
    var pk, ps := Pow2(k), Pow2(s);
    Pow2Add(k, s);
    var u, l := v / pk, v % pk;
    assert v == u * pk + l;
    MulDistributes(u * pk, l, ps);
    MulAssociates(u, pk, ps);
    MulMonotone(l, pk - 1, ps);
    MulDistributes(pk, -1, ps);
  }

  /** Shifting left by `s` and testing bit `top` tests bit `top - s` of the original,
      as long as `top` stays inside the type. */
  lemma ShlBit(v: nat, s: nat, top: nat, width: nat)
    requires s <= top < width
    ensures Bit(Shl(v, s, width), top) == Bit(v, top - s)
  {
    var k := top - s;
    ShiftSplit(v, k, s);
    var u, low := v / Pow2(k), (v % Pow2(k)) * Pow2(s);
    var half := Pow2(width - top - 1);
    Pow2Add(1, width - top - 1);
    Pow2Add(top, width - top);
    assert Pow2(width) == Pow2(top) * (2 * half);
    ModBlocks(u, Pow2(top), 2 * half, low);
    assert Shl(v, s, width) / Pow2(top) == u % (2 * half);
    ModEvenKeepsParity(u, half);
  }
}
