/** The 2-bit-per-pixel bitmap of the XGS AVR graphics library
    (XGS_AVR_GFX_LIB_V010.c): four pixels per byte, pixel x of a row in bits
    2*(x mod 4) .. 2*(x mod 4) + 1 of byte x / 4, rows of width / 4 bytes one
    after the other. This module is the value-level view: a buffer is a
    sequence of bytes, and a pixel is read or replaced in it. */
module Pixels {
  import opened Bytes

  /** The screen: g_screen_width by g_screen_height pixels. */
  datatype Frame = Frame(width: int, height: int) {
    /** A screen whose rows are whole bytes, so every pixel has its own two
        bits. */
    predicate Valid() {
      0 < width && width % 4 == 0 && 0 < height
    }

    /** Bytes per row, g_screen_width >> 2: the row's whole bytes, and
        every byte of the row when the width is a multiple of 4. */
    function Pitch(): (p: int)
      requires 0 <= width
      ensures 0 <= 4 * p <= width < 4 * p + 4
      ensures Valid() ==> 0 < p && 4 * p == width
    {
      width / 4
    }

    /** Size of the video buffer in bytes. */
    function Size(): (n: int)
      requires Valid()
      ensures n >= Pitch()
    {
      Rows(Pitch(), height)
    }

    predicate OnScreen(p: Point) {
      0 <= p.x < width && 0 <= p.y < height
    }
  }

  datatype Point = Point(x: int, y: int)

  /** rows * pitch, kept behind a function so the product stays opaque to
      most proofs. */
  function Rows(pitch: int, rows: int): (n: int)
    requires 0 < pitch && 0 <= rows
    ensures 0 <= n && (rows > 0 ==> n >= pitch)
  {
    rows * pitch
  }

  /** The next row starts a pitch further on. */
  lemma RowsNext(pitch: int, rows: int)
    requires 0 < pitch && 0 <= rows
    ensures Rows(pitch, rows + 1) == Rows(pitch, rows) + pitch
  {
  }

  /** The slot of column x in its byte, x & 3, as a shift-sized value. */
  function Col(x: int): (s: uint8)
    requires 0 <= x
    ensures s < 4 && (s == 0 <==> x % 4 == 0) && (s == 1 <==> x % 4 == 1) && (s == 2 <==> x % 4 == 2)
  {
    var k := x % 4;
    if k == 0 then 0 else if k == 1 then 1 else if k == 2 then 2 else 3
  }

  /** The two bits of slot s (pixel s of the byte), as GFX_Get_Pixel
      extracts them. */
  function Slot(b: uint8, s: uint8): uint8
    requires s < 4
  {
    (b >> (2 * s)) & 3
  }

  /** The byte with slot s replaced by the 2-bit colour c and the other
      slots kept: the mask-and-or of GFX_Plot. */
  function SetSlot(b: uint8, s: uint8, c: uint8): uint8
    requires s < 4 && c < 4
  {
    (b & !(3 << (2 * s))) | (c << (2 * s))
  }

  /** A byte whose four pixels are all c: c | c << 2 | c << 4 | c << 6. */
  function Pattern(c: uint8): uint8
    requires c < 4
  {
    c | (c << 2) | (c << 4) | (c << 6)
  }

  lemma GetSet(b: uint8, s: uint8, c: uint8)
    requires s < 4 && c < 4
    ensures Slot(SetSlot(b, s, c), s) == c
  {
  }

  lemma GetSetOther(b: uint8, s: uint8, t: uint8, c: uint8)
    requires s < 4 && t < 4 && c < 4 && s != t
    ensures Slot(SetSlot(b, s, c), t) == Slot(b, t)
  {
  }

  lemma PatternSlot(c: uint8, s: uint8)
    requires c < 4 && s < 4
    ensures Slot(Pattern(c), s) == c
  {
  }

  /** The byte holding pixel p: (x >> 2) + y * (width >> 2). */
  function Offset(f: Frame, p: Point): (i: int)
    requires f.Valid() && f.OnScreen(p)
    ensures 0 <= i < f.Size()
  {
    OffsetBound(f.Pitch(), f.height, p.x / 4, p.y);
    Rows(f.Pitch(), p.y) + p.x / 4
  }

  lemma OffsetBound(pitch: int, height: int, col: int, row: int)
    requires 0 <= col < pitch && 0 <= row < height
    ensures 0 <= Rows(pitch, row) + col < Rows(pitch, height)
  {
    assert row * pitch <= (height - 1) * pitch;
  }

  /** On a screen whose width is not a multiple of 4 (which Valid rules
      out), the byte address (x >> 2) + y * (width >> 2) of the library
      aliases: pixel (4 * pitch, y), still inside row y, gets the byte and
      the slot of pixel (0, y + 1). */
  lemma RaggedRowsAlias(f: Frame, y: int)
    requires 4 < f.width && f.width % 4 != 0 && 0 <= y
    ensures var x := 4 * f.Pitch();
            x < f.width && Col(x) == Col(0)
            && Rows(f.Pitch(), y) + x / 4 == Rows(f.Pitch(), y + 1) + 0 / 4
  {
    RowsNext(f.Pitch(), y);
  }

  /** Two pixels share a byte only when they are in the same row and the
      same group of four. */
  lemma OffsetShared(f: Frame, p: Point, q: Point)
    requires f.Valid() && f.OnScreen(p) && f.OnScreen(q) && Offset(f, p) == Offset(f, q)
    ensures p.y == q.y && p.x / 4 == q.x / 4
  {
    SameRow(f.Pitch(), p.x / 4, p.y, q.x / 4, q.y);
  }

  lemma SameRow(pitch: int, c1: int, r1: int, c2: int, r2: int)
    requires 0 <= c1 < pitch && 0 <= c2 < pitch && 0 <= r1 && 0 <= r2
    requires r1 * pitch + c1 == r2 * pitch + c2
    ensures r1 == r2 && c1 == c2
  {
    if r1 < r2 {
      RowGap(pitch, r1, r2);
    } else if r2 < r1 {
      RowGap(pitch, r2, r1);
    }
  }

  /** A later row starts at least a whole row further on. */
  lemma RowGap(pitch: int, r1: int, r2: int)
    requires 0 < pitch && r1 < r2
    ensures r1 * pitch + pitch <= r2 * pitch
  {
    var d := r2 - r1 - 1;
    assert r2 == r1 + 1 + d;
    assert r2 * pitch == r1 * pitch + pitch + d * pitch;
    MulNonneg(d, pitch);
  }

  lemma MulNonneg(a: int, b: int)
    requires 0 <= a && 0 <= b
    ensures 0 <= a * b
  {
  }

  /** GFX_Get_Pixel read from a buffer. */
  function PixelAt(buf: seq<uint8>, f: Frame, p: Point): (v: uint8)
    requires f.Valid() && |buf| == f.Size() && f.OnScreen(p)
    ensures v < 4
  {
    Slot(buf[Offset(f, p)], Col(p.x))
  }

  /** The buffer after GFX_Plot(p.x, p.y, c). */
  function WithPixel(buf: seq<uint8>, f: Frame, p: Point, c: uint8): (r: seq<uint8>)
    requires f.Valid() && |buf| == f.Size() && f.OnScreen(p) && c < 4
    ensures |r| == |buf|
  {
    var i := Offset(f, p);
    buf[i := SetSlot(buf[i], Col(p.x), c)]
  }

  /** Plotting sets pixel p to c and leaves every other pixel as it was. */
  lemma PlotPixel(buf: seq<uint8>, f: Frame, p: Point, c: uint8, q: Point)
    requires f.Valid() && |buf| == f.Size() && f.OnScreen(p) && f.OnScreen(q) && c < 4
    ensures PixelAt(WithPixel(buf, f, p, c), f, q) == if q == p then c else PixelAt(buf, f, q)
  {
    var i, j := Offset(f, p), Offset(f, q);
    if q == p {
      GetSet(buf[i], Col(p.x), c);
    } else if i == j {
      OffsetShared(f, p, q);
      assert p.x % 4 != q.x % 4;
      GetSetOther(buf[i], Col(p.x), Col(q.x), c);
    }
  }

  /** The buffer after plotting every point of pts in colour c, in order. */
  function PlotAll(buf: seq<uint8>, f: Frame, pts: seq<Point>, c: uint8): (r: seq<uint8>)
    requires f.Valid() && |buf| == f.Size() && c < 4
    requires forall k :: 0 <= k < |pts| ==> f.OnScreen(pts[k])
    ensures |r| == |buf|
  {
    if |pts| == 0 then buf
    else WithPixel(PlotAll(buf, f, pts[..|pts| - 1], c), f, pts[|pts| - 1], c)
  }

  /** Plotting a list of points colours exactly those points. */
  lemma {:induction false} PlotAllPixels(buf: seq<uint8>, f: Frame, pts: seq<Point>, c: uint8, q: Point)
    requires f.Valid() && |buf| == f.Size() && c < 4 && f.OnScreen(q)
    requires forall k :: 0 <= k < |pts| ==> f.OnScreen(pts[k])
    ensures PixelAt(PlotAll(buf, f, pts, c), f, q) == if q in pts then c else PixelAt(buf, f, q)
    decreases |pts|
  {
    if |pts| > 0 {
      var init := pts[..|pts| - 1];
      PlotAllPixels(buf, f, init, c, q);
      PlotPixel(PlotAll(buf, f, init, c), f, pts[|pts| - 1], c, q);
      assert pts == init + [pts[|pts| - 1]];
    }
  }

  /** Plotting one more point extends the fold. */
  lemma PlotAllStep(buf: seq<uint8>, f: Frame, pts: seq<Point>, k: int, c: uint8)
    requires f.Valid() && |buf| == f.Size() && c < 4 && 0 <= k < |pts|
    requires forall i :: 0 <= i < |pts| ==> f.OnScreen(pts[i])
    ensures PlotAll(buf, f, pts[..k + 1], c) == WithPixel(PlotAll(buf, f, pts[..k], c), f, pts[k], c)
  {
    assert pts[..k + 1][..k] == pts[..k];
  }

  /** Plotting a + b is plotting a, then b. */
  lemma {:induction false} PlotAllAppend(buf: seq<uint8>, f: Frame, a: seq<Point>, b: seq<Point>, c: uint8)
    requires f.Valid() && |buf| == f.Size() && c < 4
    requires forall k :: 0 <= k < |a| ==> f.OnScreen(a[k])
    requires forall k :: 0 <= k < |b| ==> f.OnScreen(b[k])
    ensures forall k :: 0 <= k < |a + b| ==> f.OnScreen((a + b)[k])
    ensures PlotAll(buf, f, a + b, c) == PlotAll(PlotAll(buf, f, a, c), f, b, c)
    decreases |b|
  {
    assert forall k :: 0 <= k < |a + b| ==> (a + b)[k] == if k < |a| then a[k] else b[k - |a|];
    if |b| == 0 {
      assert a + b == a;
    } else {
      var init := b[..|b| - 1];
      PlotAllAppend(buf, f, a, init, c);
      assert (a + b)[..|a + b| - 1] == a + init;
    }
  }

  /** The clipping rectangle g_clip_min_x .. g_clip_max_x by
      g_clip_min_y .. g_clip_max_y, bounds included. */
  datatype Clip = Clip(minX: int, minY: int, maxX: int, maxY: int) {
    predicate Contains(p: Point) {
      minX <= p.x <= maxX && minY <= p.y <= maxY
    }

    /** The rectangle is not empty and lies on the screen, so every pixel
        in it has a byte. */
    predicate Inside(f: Frame) {
      0 <= minX <= maxX < f.width && 0 <= minY <= maxY < f.height
    }
  }

  /** buf with count bytes from start set to v: memset(buf + start, v, count). */
  function Filled(buf: seq<uint8>, start: int, count: int, v: uint8): (r: seq<uint8>)
    requires 0 <= start && 0 <= count && start + count <= |buf|
    ensures |r| == |buf|
  {
    seq(|buf|, i requires 0 <= i < |buf| => if start <= i < start + count then v else buf[i])
  }

  lemma MulLe(a: int, b: int, p: int)
    requires a <= b && 0 <= p
    ensures a * p <= b * p
  {
    assert b * p == a * p + (b - a) * p;
    MulNonneg(b - a, p);
  }

  /** A byte row * pitch + col of a row lies in rows lo .. hi exactly when
      lo <= row <= hi. */
  lemma InRows(pitch: int, row: int, col: int, lo: int, hi: int)
    requires 0 < pitch && 0 <= col < pitch
    ensures (lo * pitch <= row * pitch + col < (hi + 1) * pitch) <==> lo <= row <= hi
  {
    assert (hi + 1) * pitch == hi * pitch + pitch;
    if row < lo {
      RowGap(pitch, row, lo);
    } else if hi < row {
      RowGap(pitch, hi, row);
    } else {
      MulLe(lo, row, pitch);
      MulLe(row, hi, pitch);
    }
  }

  /** The bytes of rows lo .. hi lie inside the buffer. */
  lemma RowBytes(f: Frame, lo: int, hi: int)
    requires f.Valid() && 0 <= lo <= hi < f.height
    ensures 0 <= lo * f.Pitch() && lo * f.Pitch() + Rows(f.Pitch(), hi - lo + 1) <= f.Size()
  {
    var pitch := f.Pitch();
    assert lo * pitch + (hi - lo + 1) * pitch == (hi + 1) * pitch;
    MulLe(hi + 1, f.height, pitch);
    MulNonneg(lo, pitch);
  }

  /** buf with every byte of rows lo .. hi set to v. */
  function FillRows(buf: seq<uint8>, f: Frame, lo: int, hi: int, v: uint8): (r: seq<uint8>)
    requires f.Valid() && |buf| == f.Size() && 0 <= lo <= hi < f.height
    ensures |r| == |buf|
  {
    RowBytes(f, lo, hi);
    Filled(buf, lo * f.Pitch(), Rows(f.Pitch(), hi - lo + 1), v)
  }

  /** Filling rows lo .. hi with the pattern of c (the memset of
      GFX_Fill_Region and GFX_Fill_Screen) colours exactly the pixels of
      those rows. */
  lemma RowsPixels(buf: seq<uint8>, f: Frame, lo: int, hi: int, c: uint8, q: Point)
    requires f.Valid() && |buf| == f.Size() && 0 <= lo <= hi < f.height && c < 4 && f.OnScreen(q)
    ensures PixelAt(FillRows(buf, f, lo, hi, Pattern(c)), f, q) == if lo <= q.y <= hi then c else PixelAt(buf, f, q)
  {
    var pitch := f.Pitch();
    assert lo * pitch + (hi - lo + 1) * pitch == (hi + 1) * pitch;
    InRows(pitch, q.y, q.x / 4, lo, hi);
    if lo <= q.y <= hi {
      PatternSlot(c, Col(q.x));
    }
  }

  /** The points of pts inside the clipping rectangle, in order: the ones
      GFX_Plot_Clipped plots. */
  function Visible(pts: seq<Point>, cl: Clip): (r: seq<Point>)
    ensures forall k :: 0 <= k < |r| ==> cl.Contains(r[k])
    ensures forall k :: 0 <= k < |r| ==> r[k] in pts
  {
    if |pts| == 0 then []
    else
      var init, last := pts[..|pts| - 1], pts[|pts| - 1];
      Visible(init, cl) + if cl.Contains(last) then [last] else []
  }

  /** Visible keeps every point of pts inside the rectangle. */
  lemma {:induction false} VisibleKeeps(pts: seq<Point>, cl: Clip, p: Point)
    requires p in pts && cl.Contains(p)
    ensures p in Visible(pts, cl)
    decreases |pts|
  {
    var init, last := pts[..|pts| - 1], pts[|pts| - 1];
    if p != last {
      assert pts == init + [last];
      VisibleKeeps(init, cl, p);
    }
  }

  /** No point inside the rectangle, nothing visible. */
  lemma {:induction false} NoneVisible(pts: seq<Point>, cl: Clip)
    requires forall k :: 0 <= k < |pts| ==> !cl.Contains(pts[k])
    ensures Visible(pts, cl) == []
    decreases |pts|
  {
    if |pts| > 0 {
      NoneVisible(pts[..|pts| - 1], cl);
    }
  }

  /** Plotting one more point through the clipping test. */
  lemma VisibleStep(pts: seq<Point>, cl: Clip, k: int)
    requires 0 <= k < |pts|
    ensures Visible(pts[..k + 1], cl) == Visible(pts[..k], cl) + if cl.Contains(pts[k]) then [pts[k]] else []
  {
    assert pts[..k + 1][..k] == pts[..k];
  }

  /** Clipping a + b is clipping a, then b. */
  lemma {:induction false} VisibleAppend(a: seq<Point>, b: seq<Point>, cl: Clip)
    ensures Visible(a + b, cl) == Visible(a, cl) + Visible(b, cl)
    decreases |b|
  {
    if |b| == 0 {
      assert a + b == a;
    } else {
      var init := b[..|b| - 1];
      VisibleAppend(a, init, cl);
      assert (a + b)[..|a + b| - 1] == a + init;
    }
  }

  /** Every visible point of a rectangle inside the screen is on screen. */
  lemma VisibleOnScreen(pts: seq<Point>, cl: Clip, f: Frame)
    requires cl.Inside(f)
    ensures forall k :: 0 <= k < |Visible(pts, cl)| ==> f.OnScreen(Visible(pts, cl)[k])
  {
  }

  /** The buffer after sending every point of pts through the clipping
      test, in order. */
  function PlotVisible(buf: seq<uint8>, f: Frame, pts: seq<Point>, cl: Clip, c: uint8): (r: seq<uint8>)
    requires f.Valid() && |buf| == f.Size() && c < 4 && cl.Inside(f)
    ensures |r| == |buf|
  {
    VisibleOnScreen(pts, cl, f);
    PlotAll(buf, f, Visible(pts, cl), c)
  }

  /** One more clipped plot: the pixel is set only when it is inside. */
  lemma PlotVisibleStep(buf: seq<uint8>, f: Frame, pts: seq<Point>, k: int, cl: Clip, c: uint8)
    requires f.Valid() && |buf| == f.Size() && c < 4 && cl.Inside(f) && 0 <= k < |pts|
    ensures PlotVisible(buf, f, pts[..k + 1], cl, c) ==
      if cl.Contains(pts[k]) then WithPixel(PlotVisible(buf, f, pts[..k], cl, c), f, pts[k], c)
      else PlotVisible(buf, f, pts[..k], cl, c)
  {
    var v := Visible(pts[..k], cl);
    VisibleStep(pts, cl, k);
    VisibleOnScreen(pts[..k], cl, f);
    if cl.Contains(pts[k]) {
      PlotAllStep(buf, f, v + [pts[k]], |v|, c);
      assert (v + [pts[k]])[..|v|] == v;
    } else {
      assert v + [] == v;
    }
  }

  /** Clipped plotting of a + b is clipped plotting of a, then of b. */
  lemma PlotVisibleAppend(buf: seq<uint8>, f: Frame, a: seq<Point>, b: seq<Point>, cl: Clip, c: uint8)
    requires f.Valid() && |buf| == f.Size() && c < 4 && cl.Inside(f)
    ensures PlotVisible(buf, f, a + b, cl, c) == PlotVisible(PlotVisible(buf, f, a, cl, c), f, b, cl, c)
  {
    VisibleAppend(a, b, cl);
    VisibleOnScreen(a, cl, f);
    VisibleOnScreen(b, cl, f);
    PlotAllAppend(buf, f, Visible(a, cl), Visible(b, cl), c);
  }
}
