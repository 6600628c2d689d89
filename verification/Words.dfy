/** The 64-bit integer operations of the C++ source, written out over unbounded integers. */
module Words {
  const TWO_32: int := 0x1_0000_0000
  const TWO_63: int := 0x8000_0000_0000_0000
  const TWO_64: int := 0x1_0000_0000_0000_0000

  /** Conversion to `uint64_t`: reduction modulo 2^64. */
  function U64(x: int): (r: nat)
    ensures r < TWO_64
    ensures 0 <= x < TWO_64 ==> r == x
  {
    x % TWO_64
  }

  /** Conversion of a `uint64_t` to `int64_t`: two's complement. */
  function I64(u: nat): (r: int)
    requires u < TWO_64
    ensures -TWO_63 <= r < TWO_63 && U64(r) == u
  {
    if u < TWO_63 then u else u - TWO_64
  }

  /** Converting an `int64_t` to `uint64_t` and back loses nothing. */
  lemma I64OfU64(x: int)
    requires -TWO_63 <= x < TWO_63
    ensures I64(U64(x)) == x
  {
    if x < 0 {
      assert (x + TWO_64) % TWO_64 == x + TWO_64;
    }
  }

  /** C++ `/` for a positive divisor: truncation toward zero. */
  function TruncDiv(a: int, b: int): (q: int)
    requires b > 0
  {
    if a >= 0 then a / b else -((-a) / b)
  }

  /** C++ `%` for a positive divisor: the sign follows the dividend. */
  function TruncMod(a: int, b: int): (r: int)
    requires b > 0
  {
    if a >= 0 then a % b else -((-a) % b)
  }

  /** `detail::floor_div`. */
  function FloorDiv(a: int, b: int): (q: int)
    requires b > 0
    ensures q == a / b
  {
    FloorForms(a, b);
    TruncDiv(a, b) - (if TruncMod(a, b) != 0 && a < 0 then 1 else 0)
  }

  /** `detail::floor_mod`. */
  function FloorMod(a: int, b: int): (r: int)
    requires b > 0
    ensures r == a % b
  {
    FloorForms(a, b);
    TruncMod(a, b) + (if TruncMod(a, b) < 0 then b else 0)
  }

  /** How truncated quotient and remainder relate to the floor forms. */
  lemma FloorForms(a: int, b: int)
    requires b > 0
    ensures a / b == TruncDiv(a, b) - (if TruncMod(a, b) != 0 && a < 0 then 1 else 0)
    ensures a % b == TruncMod(a, b) + (if TruncMod(a, b) < 0 then b else 0)
  {
    if a < 0 {
      var q, r := (-a) / b, (-a) % b;
      assert a == (-q) * b - r;
      if r == 0 {
        DivModUnique(a, b, -q, 0);
      } else {
        assert a == (-q - 1) * b + (b - r);
        DivModUnique(a, b, -q - 1, b - r);
      }
    }
  }

  /** Quotient and remainder are determined by the division equation. */
  lemma DivModUnique(a: int, b: int, q: int, r: int)
    requires b > 0 && 0 <= r < b && a == q * b + r
    ensures a / b == q && a % b == r
  {
    var d := q - a / b;
    assert d * b == a % b - r by {
      assert (q - a / b) * b == q * b - a / b * b;
    }
    if d >= 1 {
      Grow(d, b);
    } else if d <= -1 {
      Grow(-d, b);
    }
  }

  lemma Grow(k: int, b: int)
    requires k >= 1 && b > 0
    ensures k * b >= b
  {
    assert (k - 1) * b >= 0;
  }

  /** `mul_hi_u64_constexpr`: the high half of a product, from four 32-bit half products. */
  function MulHiConstexpr(a: nat, b: nat): (r: nat)
    requires a < TWO_64 && b < TWO_64
  {
    var aLow, aHigh := a % TWO_32, a / TWO_32;
    var bLow, bHigh := b % TWO_32, b / TWO_32;
    var p0, p1, p2, p3 := U64(aLow * bLow), U64(aLow * bHigh), U64(aHigh * bLow), U64(aHigh * bHigh);
    var carry := U64(U64(p0 / TWO_32 + p1 % TWO_32) + p2 % TWO_32) / TWO_32;
    U64(U64(U64(p3 + p1 / TWO_32) + p2 / TWO_32) + carry)
  }

  /** `mul_hi_u64`: the high half of the exact 128-bit product. */
  function MulHi(a: nat, b: nat): (r: nat)
    requires a < TWO_64 && b < TWO_64
    ensures r < TWO_64 && r * TWO_64 <= a * b < (r + 1) * TWO_64
  {
    assert 0 <= a * b < TWO_64 * TWO_64 by { ProductBelow(a, b, TWO_64); }
    a * b / TWO_64
  }

  lemma ProductBelow(x: nat, y: nat, bound: nat)
    requires x < bound && y < bound
    ensures x * y <= (bound - 1) * (bound - 1)
    ensures 0 <= x * y < bound * bound
  {
    var b := bound - 1;
    ProductGrows(x, b, y);
    ProductGrows(y, b, b);
    assert x * y <= b * y && y * b <= b * b && y * b == b * y;
    assert bound * bound == b * b + 2 * b + 1;
  }

  lemma ProductGrows(x: nat, y: nat, k: nat)
    requires x <= y
    ensures 0 <= x * k <= y * k
  {
    assert y * k - x * k == (y - x) * k;
  }

  /** A 64-bit word times another, split at bit 32. */
  lemma HalfProducts(aLow: nat, aHigh: nat, bLow: nat, bHigh: nat)
    ensures (aHigh * TWO_32 + aLow) * (bHigh * TWO_32 + bLow)
         == aHigh * bHigh * TWO_64 + (aLow * bHigh + aHigh * bLow) * TWO_32 + aLow * bLow
  {
    var x, y := aHigh * TWO_32, bHigh * TWO_32;
    assert (x + aLow) * (y + bLow) == x * y + x * bLow + aLow * y + aLow * bLow;
    assert x * y == aHigh * bHigh * TWO_64;
    assert x * bLow == aHigh * bLow * TWO_32;
    assert aLow * y == aLow * bHigh * TWO_32;
  }

  /** Adding the middle halves in 32-bit pieces carries exactly what the full sum carries. */
  lemma CarrySum(p0: nat, p1: nat, p2: nat, p3: nat)
    ensures var carry := (p0 / TWO_32 + p1 % TWO_32 + p2 % TWO_32) / TWO_32;
            (p3 * TWO_64 + (p1 + p2) * TWO_32 + p0) / TWO_64 == p3 + p1 / TWO_32 + p2 / TWO_32 + carry
  {
    var mid := p0 / TWO_32 + p1 % TWO_32 + p2 % TWO_32;
    var high := p3 + p1 / TWO_32 + p2 / TWO_32 + mid / TWO_32;
    var low := (mid % TWO_32) * TWO_32 + p0 % TWO_32;
    DivModUnique(p3 * TWO_64 + (p1 + p2) * TWO_32 + p0, TWO_64, high, low);
  }

  /** The portable multiply-high agrees with the 128-bit one on all 64-bit inputs,
      and none of its additions or multiplications wraps. */
  lemma MulHiAgree(a: nat, b: nat)
    requires a < TWO_64 && b < TWO_64
    ensures MulHiConstexpr(a, b) == MulHi(a, b) == a * b / TWO_64
    ensures var aLow, aHigh, bLow, bHigh := a % TWO_32, a / TWO_32, b % TWO_32, b / TWO_32;
            && aLow * bLow < TWO_64 && aLow * bHigh < TWO_64 && aHigh * bLow < TWO_64 && aHigh * bHigh < TWO_64
            && aLow * bLow / TWO_32 + aLow * bHigh % TWO_32 + aHigh * bLow % TWO_32 < TWO_64
            && var carry := (aLow * bLow / TWO_32 + aLow * bHigh % TWO_32 + aHigh * bLow % TWO_32) / TWO_32;
               aHigh * bHigh + aLow * bHigh / TWO_32 + aHigh * bLow / TWO_32 + carry < TWO_64
  {
    var aLow, aHigh, bLow, bHigh := a % TWO_32, a / TWO_32, b % TWO_32, b / TWO_32;
    ProductBelow(aLow, bLow, TWO_32);
    ProductBelow(aLow, bHigh, TWO_32);
    ProductBelow(aHigh, bLow, TWO_32);
    ProductBelow(aHigh, bHigh, TWO_32);
    HalfProducts(aLow, aHigh, bLow, bHigh);
    CarrySum(aLow * bLow, aLow * bHigh, aHigh * bLow, aHigh * bHigh);
    assert a * b / TWO_64 == MulHi(a, b);
  }
}
