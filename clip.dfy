/** GFX_Clip_Line (XGS_AVR_GFX_LIB_V010.c:306-575): Cohen-Sutherland
    clipping of a line against the clipping rectangle. The four by-address
    out-parameters and the 0/1 result become an optional pair of end points:
    None is the return of 0, which leaves the caller's points as they were. */
module LineClip {
  import opened Bytes
  import opened Pixels
  import opened Raster

  /** The region codes CLIP_CODE_C .. CLIP_CODE_SW. */
  const CODE_C: uint8 := 0x00
  const CODE_N: uint8 := 0x08
  const CODE_S: uint8 := 0x04
  const CODE_E: uint8 := 0x02
  const CODE_W: uint8 := 0x01
  const CODE_NE: uint8 := 0x0a
  const CODE_SE: uint8 := 0x06
  const CODE_NW: uint8 := 0x09
  const CODE_SW: uint8 := 0x05

  /** The region code of p: north or south of the rectangle (north wins),
      then west or east of it (west wins). */
  function Outcode(cl: Clip, p: Point): (r: uint8)
    ensures r == CODE_C <==> cl.Contains(p)
    ensures r & CODE_N != 0 <==> p.y < cl.minY
    ensures r & CODE_S != 0 <==> cl.minY <= p.y && cl.maxY < p.y
    ensures r & CODE_W != 0 <==> p.x < cl.minX
    ensures r & CODE_E != 0 <==> cl.minX <= p.x && cl.maxX < p.x
  {
    (if p.y < cl.minY then CODE_N else if p.y > cl.maxY then CODE_S else CODE_C) |
    (if p.x < cl.minX then CODE_W else if p.x > cl.maxX then CODE_E else CODE_C)
  }

  /** C's integer division, which truncates toward zero. */
  function Quot(a: int, b: int): int
    requires b != 0
  {
    var m := Abs(a) / Abs(b);
    if (a < 0) == (b < 0) then m else -m
  }

  /** The truncated quotient leaves a remainder smaller than the divisor. */
  lemma QuotRem(a: int, b: int)
    requires b != 0
    ensures Abs(a - Quot(a, b) * b) < Abs(b)
  {
    var m := Abs(a) / Abs(b);
    assert 0 <= Abs(a) - m * Abs(b) < Abs(b);
    if a < 0 {
      if b < 0 {
        assert a - m * b == -(Abs(a) - m * Abs(b));
      } else {
        assert a - -m * b == -(Abs(a) - m * Abs(b));
      }
    } else {
      if b < 0 {
        assert a - -m * b == Abs(a) - m * Abs(b);
      } else {
        assert a - m * b == Abs(a) - m * Abs(b);
      }
    }
  }

  /** (int)(n + 0.5) for an integer n: the conversion truncates toward
      zero, so the half is lost for n >= 0 and rounds n up for n < 0. */
  function Half(n: int): (r: int)
    ensures r == n || (n < 0 && r == n + 1)
  {
    if n >= 0 then n else n + 1
  }

  function Round(n: int, half: bool): int {
    if half then Half(n) else n
  }

  /** Every value GFX_Clip_Line reads is a 16-bit int: the clipping
      globals and the four coordinates. */
  predicate Ints(cl: Clip, a: Point, b: Point) {
    Int16(cl.minX) && Int16(cl.minY) && Int16(cl.maxX) && Int16(cl.maxY) &&
    Int16(a.x) && Int16(a.y) && Int16(b.x) && Int16(b.y)
  }

  /** Where the line from p towards q meets the row y, in the 16-bit int
      arithmetic of the C expression: each difference, the product and the
      quotient wrap, and so does the store of the result into an int. */
  function AtY(p: Point, q: Point, y: int, half: bool): Point
    requires Int16(p.y) && Int16(q.y) && p.y != q.y
  {
    WrapNonzero(q.y - p.y);
    var n := Wrap16(Wrap16(y - p.y) * Wrap16(q.x - p.x));
    Point(Wrap16(Round(p.x + Wrap16(Quot(n, Wrap16(q.y - p.y))), half)), y)
  }

  /** Where the line from p towards q meets the column x, as AtY. */
  function AtX(p: Point, q: Point, x: int, half: bool): Point
    requires Int16(p.x) && Int16(q.x) && p.x != q.x
  {
    WrapNonzero(q.x - p.x);
    var n := Wrap16(Wrap16(x - p.x) * Wrap16(q.y - p.y));
    Point(x, Wrap16(Round(p.y + Wrap16(Quot(n, Wrap16(q.x - p.x))), half)))
  }

  /** No intermediate value of the row crossing leaves the 16-bit int. */
  predicate ExactY(p: Point, q: Point, y: int)
    requires p.y != q.y
  {
    var n, d := (y - p.y) * (q.x - p.x), q.y - p.y;
    Int16(y - p.y) && Int16(q.x - p.x) && Int16(n) && Int16(d) && Int16(Quot(n, d)) && Int16(p.x + Quot(n, d))
  }

  /** No intermediate value of the column crossing leaves the 16-bit int. */
  predicate ExactX(p: Point, q: Point, x: int)
    requires p.x != q.x
  {
    var n, d := (x - p.x) * (q.y - p.y), q.x - p.x;
    Int16(x - p.x) && Int16(q.y - p.y) && Int16(n) && Int16(d) && Int16(Quot(n, d)) && Int16(p.y + Quot(n, d))
  }

  /** No crossing that clipping p towards q can compute wraps. */
  predicate Exact(cl: Clip, p: Point, q: Point) {
    (p.y != q.y ==> ExactY(p, q, cl.minY) && ExactY(p, q, cl.maxY)) &&
    (p.x != q.x ==> ExactX(p, q, cl.minX) && ExactX(p, q, cl.maxX))
  }

  /** A corner region: the crossing of the row y, or of the column x when
      that crossing misses the rectangle. */
  function Corner(cl: Clip, p: Point, q: Point, y: int, x: int): Point
    requires Int16(p.x) && Int16(q.x) && Int16(p.y) && Int16(q.y) && p.y != q.y && p.x != q.x
  {
    var h := AtY(p, q, y, true);
    if h.x < cl.minX || h.x > cl.maxX then AtX(p, q, x, true) else h
  }

  /** One of the two switch statements: the end point p moved onto the
      rectangle's border along the line towards q. Since the codes of p and
      q share no bit, q lies on the other side of every edge p is beyond,
      so no divisor is zero. The single-edge cases add the half only for
      the first end point (half), the corner cases for both. */
  function EndClip(cl: Clip, p: Point, q: Point, half: bool): Point
    requires Ints(cl, p, q) && Outcode(cl, p) & Outcode(cl, q) == 0
  {
    var code := Outcode(cl, p);
    if code == CODE_N then AtY(p, q, cl.minY, half)
    else if code == CODE_S then AtY(p, q, cl.maxY, half)
    else if code == CODE_W then AtX(p, q, cl.minX, half)
    else if code == CODE_E then AtX(p, q, cl.maxX, half)
    else if code == CODE_NE then Corner(cl, p, q, cl.minY, cl.maxX)
    else if code == CODE_SE then Corner(cl, p, q, cl.maxY, cl.maxX)
    else if code == CODE_NW then Corner(cl, p, q, cl.minY, cl.minX)
    else if code == CODE_SW then Corner(cl, p, q, cl.maxY, cl.minX)
    else p
  }

  /** Some((s, e)) is a return of 1 with the clipped end points s and e.
      Every such result lies inside the rectangle, and a line wholly inside
      it is returned as it was. */
  function ClipLine(cl: Clip, a: Point, b: Point): (r: Option<(Point, Point)>)
    requires Ints(cl, a, b)
    ensures r.Some? ==> cl.Contains(r.value.0) && cl.Contains(r.value.1)
    ensures cl.Contains(a) && cl.Contains(b) ==> r == Some((a, b))
  {
    var ca, cb := Outcode(cl, a), Outcode(cl, b);
    if ca & cb != 0 then None
    else if ca == CODE_C && cb == CODE_C then Some((a, b))
    else
      var s, e := EndClip(cl, a, b, true), EndClip(cl, b, a, false);
      if s.x < cl.minX || s.x > cl.maxX || s.y < cl.minY || s.y > cl.maxY ||
         e.x < cl.minX || e.x > cl.maxX || e.y < cl.minY || e.y > cl.maxY
      then None
      else Some((s, e))
  }

  /** Two codes share a bit exactly when both points lie beyond one edge. */
  lemma SharedEdge(cl: Clip, a: Point, b: Point)
    requires Outcode(cl, a) & Outcode(cl, b) != 0
    ensures (a.y < cl.minY && b.y < cl.minY) || (a.y > cl.maxY && b.y > cl.maxY) ||
            (a.x < cl.minX && b.x < cl.minX) || (a.x > cl.maxX && b.x > cl.maxX)
  {
  }

  /** The trivial rejection loses nothing: when the codes share a bit, no
      pixel of the line lies inside the rectangle. */
  lemma ClipRejectInvisible(cl: Clip, a: Point, b: Point)
    requires Ints(cl, a, b) && Outcode(cl, a) & Outcode(cl, b) != 0
    ensures ClipLine(cl, a, b) == None
    ensures Visible(LinePoints(a, b), cl) == []
  {
    var pts := LinePoints(a, b);
    SharedEdge(cl, a, b);
    forall k | 0 <= k < |pts|
      ensures !cl.Contains(pts[k])
    {
      LineInBox(a, b, k);
    }
    NoneVisible(pts, cl);
  }

  /** The cross product of q - p and r - p: zero when r is on the line
      through p and q, and the horizontal (vertical) distance of r from
      that line times the line's height (width) in general. */
  function Cross(p: Point, q: Point, r: Point): int {
    (r.x - p.x) * (q.y - p.y) - (r.y - p.y) * (q.x - p.x)
  }

  /** r is less than two pixels across from the line through p and q,
      measured along a row or along a column. */
  predicate NearLine(p: Point, q: Point, r: Point) {
    Abs(Cross(p, q, r)) < 2 * Abs(q.y - p.y) || Abs(Cross(p, q, r)) < 2 * Abs(q.x - p.x)
  }

  predicate OnBorder(cl: Clip, r: Point) {
    r.x == cl.minX || r.x == cl.maxX || r.y == cl.minY || r.y == cl.maxY
  }

  lemma Deviation(n: int, d: int, h: int)
    requires d != 0 && (h == 0 || h == 1)
    ensures Abs((Quot(n, d) + h) * d - n) < 2 * Abs(d)
  {
    QuotRem(n, d);
    assert (Quot(n, d) + h) * d - n == (Quot(n, d) * d - n) + h * d;
  }

  /** The row crossing lies on the line, up to the truncations, when
      nothing wraps. */
  lemma AtYNear(p: Point, q: Point, y: int, half: bool)
    requires Int16(p.y) && Int16(q.y) && p.y != q.y && ExactY(p, q, y)
    ensures Abs(Cross(p, q, AtY(p, q, y, half))) < 2 * Abs(q.y - p.y)
  {
    var n, d := (y - p.y) * (q.x - p.x), q.y - p.y;
    var r := AtY(p, q, y, half);
    var h := r.x - (p.x + Quot(n, d));
    Deviation(n, d, h);
    assert Cross(p, q, r) == (Quot(n, d) + h) * d - n;
  }

  /** The column crossing lies on the line, up to the truncations, when
      nothing wraps. */
  lemma AtXNear(p: Point, q: Point, x: int, half: bool)
    requires Int16(p.x) && Int16(q.x) && p.x != q.x && ExactX(p, q, x)
    ensures Abs(Cross(p, q, AtX(p, q, x, half))) < 2 * Abs(q.x - p.x)
  {
    var n, d := (x - p.x) * (q.y - p.y), q.x - p.x;
    var r := AtX(p, q, x, half);
    var h := r.y - (p.y + Quot(n, d));
    Deviation(n, d, h);
    assert Cross(p, q, r) == -((Quot(n, d) + h) * d - n);
  }

  /** An end point outside the rectangle is moved onto one of its edges,
      close to the line through both end points when no crossing wraps. */
  lemma EndClipBorder(cl: Clip, p: Point, q: Point, half: bool)
    requires Ints(cl, p, q) && Outcode(cl, p) & Outcode(cl, q) == 0 && !cl.Contains(p)
    requires Exact(cl, p, q)
    ensures OnBorder(cl, EndClip(cl, p, q, half))
    ensures NearLine(p, q, EndClip(cl, p, q, half))
  {
    var code := Outcode(cl, p);
    if code == CODE_N || code == CODE_S {
      AtYNear(p, q, if code == CODE_N then cl.minY else cl.maxY, half);
    } else if code == CODE_W || code == CODE_E {
      AtXNear(p, q, if code == CODE_W then cl.minX else cl.maxX, half);
    } else {
      var y := if code == CODE_NE || code == CODE_NW then cl.minY else cl.maxY;
      var x := if code == CODE_NE || code == CODE_SE then cl.maxX else cl.minX;
      AtYNear(p, q, y, true);
      AtXNear(p, q, x, true);
    }
  }

  /** What a return of 1 promises about each end point: one that was inside
      is kept, one that was outside is moved onto the border of the
      rectangle, less than two pixels across from the original line, as
      long as no crossing wraps. */
  lemma ClipEnds(cl: Clip, a: Point, b: Point)
    requires Ints(cl, a, b) && Exact(cl, a, b) && Exact(cl, b, a) && ClipLine(cl, a, b).Some?
    ensures var (s, e) := ClipLine(cl, a, b).value;
            (cl.Contains(a) ==> s == a) && (!cl.Contains(a) ==> OnBorder(cl, s) && NearLine(a, b, s)) &&
            (cl.Contains(b) ==> e == b) && (!cl.Contains(b) ==> OnBorder(cl, e) && NearLine(b, a, e))
  {
    if !cl.Contains(a) {
      EndClipBorder(cl, a, b, true);
    }
    if !cl.Contains(b) {
      EndClipBorder(cl, b, a, false);
    }
  }

  /** Clipping a clipped line changes nothing more. */
  lemma ClipIdempotent(cl: Clip, a: Point, b: Point)
    requires Ints(cl, a, b) && ClipLine(cl, a, b).Some?
    ensures ClipLine(cl, ClipLine(cl, a, b).value.0, ClipLine(cl, a, b).value.1) == ClipLine(cl, a, b)
  {
  }

  /** A line with an end point on a 160 by 192 screen that the C code
      rejects: (0 - (-300)) * (159 - 0) = 47700 wraps to -17836, so the
      north crossing lands at x = -35, left of the rectangle, where the
      exact arithmetic gives x = 97. */
  lemma ClipWrapRejects()
    ensures var cl, a, b := Clip(0, 0, 159, 191), Point(0, -300), Point(159, 191);
            Ints(cl, a, b) && cl.Contains(b) && ClipLine(cl, a, b) == None
            && Quot((cl.minY - a.y) * (b.x - a.x), b.y - a.y) == 97
  {
    var cl, a, b := Clip(0, 0, 159, 191), Point(0, -300), Point(159, 191);
    assert Wrap16(47700) == -17836;
    assert Quot(-17836, 491) == -36;
    assert EndClip(cl, a, b, true) == Point(-35, 0);
  }
}
