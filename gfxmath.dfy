/** The integer arithmetic of the graphics library: Fast_Distance_2D, the
    16.16 fixed-point FIXP16_MUL and FIXP16_DIV, and Translate_Polygon2D.
    C's 16-bit int and 32-bit long are integers with the ranges stated as
    preconditions; a signed right shift is arithmetic (floor division by a
    power of two), as the AVR compiler does it. */
module GfxMath {
  import opened Bytes
  import opened Raster
  import opened LineClip
  import Pixels

  /** A value of the 32-bit long that FIXP16 is. */
  predicate Long(v: int) {
    -0x8000_0000 <= v < 0x8000_0000
  }

  /** 1.0 in 16.16 fixed point, FIXP16_MAG. */
  const FIXP16_MAG: int := 65536

  /** Fast_Distance_2D (XGS_AVR_GFX_LIB_V010.c:1680-1694): |x| + |y| less
      11/16 of the smaller one, each shifted term rounded down. The
      precondition keeps abs and the sum inside the 16-bit int. The result
      never falls below the larger coordinate nor exceeds the sum. */
  function FastDistance(x: int, y: int): (d: int)
    requires Abs(x) + Abs(y) < 0x8000
    ensures Max(Abs(x), Abs(y)) <= d <= Abs(x) + Abs(y)
    ensures Int16(d)
  {
    var ax, ay := Abs(x), Abs(y);
    var mn := if ax < ay then ax else ay;
    ax + ay - mn / 2 - mn / 4 + mn / 16
  }

  /** The distance ignores the order and the signs of its arguments. */
  lemma FastDistanceSymmetric(x: int, y: int)
    requires Abs(x) + Abs(y) < 0x8000
    ensures FastDistance(x, y) == FastDistance(y, x) == FastDistance(-x, y) == FastDistance(x, -y)
  {
    assert Abs(-x) == Abs(x) && Abs(-y) == Abs(y);
  }

  /** On an axis the estimate is exact. */
  lemma FastDistanceAxis(x: int)
    requires Abs(x) < 0x8000
    ensures FastDistance(x, 0) == Abs(x) && FastDistance(0, x) == Abs(x)
  {
  }

  /** On the diagonal the estimate is more than 3.5% short: for (64, 64) it
      is 84, and 84 * 1.035 is still below the exact distance, the square
      root of 8192. */
  lemma FastDistanceDiagonal()
    ensures FastDistance(64, 64) == 84
    ensures (84 * 1035) * (84 * 1035) < (64 * 64 + 64 * 64) * 1000 * 1000
  {
  }

  /** FIXP16_MUL (XGS_AVR_GFX_LIB_V010.c:2219-2229): both factors shifted
      right by 8 before a 32-bit multiply, whose overflow the caller must
      avoid. */
  function FixMul(a: int, b: int): int
    requires Long(a) && Long(b) && Long((a / 256) * (b / 256))
  {
    (a / 256) * (b / 256)
  }

  /** Whole numbers multiply exactly. */
  lemma FixMulWhole(m: int, n: int)
    requires Long(m * FIXP16_MAG) && Long(n * FIXP16_MAG) && Long(m * n * FIXP16_MAG)
    ensures Long((m * FIXP16_MAG / 256) * (n * FIXP16_MAG / 256))
    ensures FixMul(m * FIXP16_MAG, n * FIXP16_MAG) == m * n * FIXP16_MAG
  {
    assert m * FIXP16_MAG / 256 == m * 256;
    assert n * FIXP16_MAG / 256 == n * 256;
    assert (m * 256) * (n * 256) == m * n * FIXP16_MAG;
  }

  /** Multiplying by 1.0 keeps f but for its low 8 fraction bits. */
  lemma FixMulOne(f: int)
    requires Long(f)
    ensures Long((FIXP16_MAG / 256) * (f / 256))
    ensures FixMul(FIXP16_MAG, f) == f - f % 256
  {
  }

  /** FIXP16_DIV (XGS_AVR_GFX_LIB_V010.c:2203-2215): the dividend shifted
      left by 6 over the divisor shifted right by 10, with C's truncating
      division. The caller must keep the shift inside 32 bits and the
      shifted divisor away from zero, which rules out 0 <= b < 1024 (a small
      negative divisor shifts to -1). */
  function FixDiv(a: int, b: int): int
    requires Long(a) && Long(b) && Long(a * 64) && b / 1024 != 0
  {
    Quot(a * 64, b / 1024)
  }

  /** A truncating division with no remainder is exact. */
  lemma QuotExact(k: int, d: int)
    requires d != 0
    ensures Quot(k * d, d) == k
  {
    var q := Quot(k * d, d);
    QuotRem(k * d, d);
    assert k * d - q * d == (k - q) * d;
    if k != q {
      MulAtLeast(k - q, d);
    }
  }

  lemma MulAtLeast(a: int, b: int)
    requires a != 0 && b != 0
    ensures Abs(a * b) >= Abs(b)
  {
    AbsMul(a, b);
    Pixels.MulLe(1, Abs(a), Abs(b));
  }

  lemma AbsMul(a: int, b: int)
    ensures Abs(a * b) == Abs(a) * Abs(b)
  {
    if a < 0 && b < 0 {
      assert a * b == (-a) * (-b);
    } else if a < 0 {
      assert a * b == -((-a) * b);
      Pixels.MulNonneg(-a, b);
    } else if b < 0 {
      assert a * b == -(a * (-b));
      Pixels.MulNonneg(a, -b);
    } else {
      Pixels.MulNonneg(a, b);
    }
  }

  /** Whole numbers that divide evenly divide exactly. */
  lemma FixDivWhole(m: int, n: int, q: int)
    requires n != 0 && m == q * n
    requires Long(m * FIXP16_MAG) && Long(n * FIXP16_MAG) && Long(m * FIXP16_MAG * 64)
    ensures (n * FIXP16_MAG) / 1024 != 0
    ensures FixDiv(m * FIXP16_MAG, n * FIXP16_MAG) == q * FIXP16_MAG
  {
    assert (n * FIXP16_MAG) / 1024 == n * 64;
    assert m * FIXP16_MAG * 64 == (q * FIXP16_MAG) * (n * 64);
    QuotExact(q * FIXP16_MAG, n * 64);
  }

  /** The integer fields of POLYGON2D; the float vertex list is not part of
      this model. */
  class Polygon2D {
    var state: int
    var numVerts: int
    var x0: int
    var y0: int
    var xv: int
    var yv: int
    var color: int

    constructor (x0: int, y0: int)
      ensures this.x0 == x0 && this.y0 == y0
    {
      this.x0, this.y0 := x0, y0;
    }
  }

  /** Translate_Polygon2D (XGS_AVR_GFX_LIB_V010.c:1793-1808): 0 for a null
      polygon, otherwise 1 with the centre moved by (dx, dy) and nothing
      else changed. */
  method TranslatePolygon(poly: Polygon2D?, dx: int, dy: int) returns (ok: int)
    modifies poly
    ensures poly == null ==> ok == 0
    ensures poly != null ==> ok == 1 && poly.x0 == old(poly.x0) + dx && poly.y0 == old(poly.y0) + dy
    ensures poly != null ==> (poly.state == old(poly.state) && poly.numVerts == old(poly.numVerts) &&
                              poly.xv == old(poly.xv) && poly.yv == old(poly.yv) && poly.color == old(poly.color))
  {
    if poly == null {
      return 0;
    }
    poly.x0 := poly.x0 + dx;
    poly.y0 := poly.y0 + dy;
    return 1;
  }
}
