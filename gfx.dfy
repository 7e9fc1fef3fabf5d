/** The bitmap side of the XGS AVR graphics library: the screen size and the
    clipping rectangle are the library's globals (XGS_AVR_GFX_LIB_V010.c:67-77),
    held here by a Display object, and every drawing call works in place on
    the caller's video buffer, an array of packed 2-bit pixels. Each method is
    proved against the value-level functions of module Pixels. */
module Gfx {
  import opened Bytes
  import opened Pixels
  import opened Spans
  import opened Raster
  import opened LineClip

  /** The pixels (x, lo), (x, lo + 1), .. (x, hi), top to bottom. */
  function Column(x: int, lo: int, hi: int): (pts: seq<Point>)
    ensures |pts| == if lo <= hi then hi - lo + 1 else 0
    ensures forall k :: 0 <= k < |pts| ==> pts[k] == Point(x, lo + k)
  {
    if lo <= hi then seq(hi - lo + 1, k => Point(x, lo + k)) else []
  }

  /** A pixel is in a column exactly when it has its x and a y in range. */
  lemma InColumn(x: int, lo: int, hi: int, q: Point)
    ensures q in Column(x, lo, hi) <==> q.x == x && lo <= q.y <= hi
  {
    var pts := Column(x, lo, hi);
    if q.x == x && lo <= q.y <= hi {
      assert pts[q.y - lo] == q;
    }
  }

  /** The rows GFX_Draw_VLine draws, or None when it rejects the line. */
  function VSpan(cl: Clip, y1: int, y2: int, x: int): (r: Option<(int, int)>)
    ensures r.Some? ==> cl.minX <= x <= cl.maxX
    ensures r.Some? ==> cl.minY <= r.value.0 <= r.value.1 <= cl.maxY
    ensures r.Some? ==> r.value.0 == Max(Min(y1, y2), cl.minY) && r.value.1 == Min(Max(y1, y2), cl.maxY)
    ensures r.None? <==> (x < cl.minX || cl.maxX < x || cl.maxY < Min(y1, y2) || Max(y1, y2) < cl.minY
                          || cl.maxY < cl.minY)
  {
    if x > cl.maxX || x < cl.minX then None
    else
      var lo := Min(y1, y2);
      var hi := Max(y1, y2);
      if lo > cl.maxY || hi < cl.minY then None
      else
        var a := if lo < cl.minY then cl.minY else lo;
        var b := if hi > cl.maxY then cl.maxY else hi;
        if a <= b then Some((a, b)) else None
  }

  /** The pixels GFX_Draw_HLine draws on row y, or None when it rejects the
      line. */
  function HClip(cl: Clip, x1: int, x2: int, y: int): (r: Option<(int, int)>)
    requires cl.minX <= cl.maxX
    ensures r.None? <==> (y < cl.minY || cl.maxY < y || cl.maxX < Min(x1, x2) || Max(x1, x2) < cl.minX)
    ensures r.Some? ==> cl.minX <= r.value.0 <= r.value.1 <= cl.maxX
    ensures r.Some? ==> r.value.0 == Max(Min(x1, x2), cl.minX) && r.value.1 == Min(Max(x1, x2), cl.maxX)
  {
    if y > cl.maxY || y < cl.minY then None
    else
      var lo := Min(x1, x2);
      var hi := Max(x1, x2);
      if lo > cl.maxX || hi < cl.minX then None
      else Some((if lo < cl.minX then cl.minX else lo, if hi > cl.maxX then cl.maxX else hi))
  }

  class Display {
    /** g_screen_width and g_screen_height. */
    const width: int
    const height: int
    /** g_clip_min_x, g_clip_max_x, g_clip_min_y, g_clip_max_y. */
    var clipMinX: int
    var clipMaxX: int
    var clipMinY: int
    var clipMaxY: int

    function Screen(): Frame {
      Frame(width, height)
    }

    function Clipping(): Clip
      reads this
    {
      Clip(clipMinX, clipMinY, clipMaxX, clipMaxY)
    }

    /** vb is a whole video buffer for this screen. */
    predicate Fits(vb: array<uint8>) {
      Screen().Valid() && vb.Length == Screen().Size()
    }

    /** The screen size GFX_Init records; the clipping rectangle starts as
        the globals' zero initialisers. */
    constructor(w: int, h: int)
      ensures width == w && height == h
      ensures Clipping() == Clip(0, 0, 0, 0)
    {
      width, height := w, h;
      clipMinX, clipMaxX, clipMinY, clipMaxY := 0, 0, 0, 0;
    }

    /** GFX_Set_Clipping_Rect (XGS_AVR_GFX_LIB_V010.c:272-281). */
    method SetClippingRect(minX: int, minY: int, maxX: int, maxY: int)
      modifies this
      ensures Clipping() == Clip(minX, minY, maxX, maxY)
    {
      clipMinX := minX;
      clipMaxX := maxX;
      clipMinY := minY;
      clipMaxY := maxY;
    }

    /** GFX_Plot: one byte read, masked and written back. */
    method Plot(x: int, y: int, c: uint8, vb: array<uint8>)
      requires Fits(vb) && Screen().OnScreen(Point(x, y)) && c < 4
      modifies vb
      ensures vb[..] == WithPixel(old(vb[..]), Screen(), Point(x, y), c)
    {
      var i := Offset(Screen(), Point(x, y));
      vb[i] := SetSlot(vb[i], Col(x), c);
    }

    /** GFX_Plot of the next point of a path: the buffer that holds the
        first k points of the path plotted then holds the first k + 1. */
    method PlotNext(ghost buf: seq<uint8>, ghost pts: seq<Point>, ghost k: int, x: int, y: int, c: uint8, vb: array<uint8>)
      requires Fits(vb) && |buf| == Screen().Size() && c < 4 && 0 <= k < |pts| && pts[k] == Point(x, y)
      requires forall i :: 0 <= i < |pts| ==> Screen().OnScreen(pts[i])
      requires vb[..] == PlotAll(buf, Screen(), pts[..k], c)
      modifies vb
      ensures vb[..] == PlotAll(buf, Screen(), pts[..k + 1], c)
    {
      PlotAllStep(buf, Screen(), pts, k, c);
      Plot(x, y, c, vb);
    }

    /** GFX_Plot_Clipped: nothing happens outside the clipping rectangle. */
    method PlotClipped(x: int, y: int, c: uint8, vb: array<uint8>)
      requires Fits(vb) && Clipping().Inside(Screen()) && c < 4
      modifies vb
      ensures vb[..] == if Clipping().Contains(Point(x, y)) then WithPixel(old(vb[..]), Screen(), Point(x, y), c)
                        else old(vb[..])
    {
      if x > clipMaxX || x < clipMinX || y > clipMaxY || y < clipMinY {
        return;
      }
      Plot(x, y, c, vb);
    }

    /** GFX_Get_Pixel. */
    function GetPixel(x: int, y: int, vb: array<uint8>): (v: uint8)
      requires Fits(vb) && Screen().OnScreen(Point(x, y))
      reads vb
      ensures v == PixelAt(vb[..], Screen(), Point(x, y))
    {
      (vb[Offset(Screen(), Point(x, y))] >> (2 * Col(x))) & 3
    }

    /** memset(vb + start, v, count). */
    method Memset(vb: array<uint8>, start: int, v: uint8, count: int)
      requires 0 <= start && 0 <= count && start + count <= vb.Length
      modifies vb
      ensures vb[..] == Filled(old(vb[..]), start, count, v)
    {
      ghost var before := vb[..];
      for k := start to start + count
        invariant forall i :: 0 <= i < vb.Length ==> vb[i] == if start <= i < k then v else before[i]
      {
        vb[k] := v;
      }
    }

    /** GFX_Fill_Screen: every byte gets the pattern of c. */
    method FillScreen(c: uint8, vb: array<uint8>)
      requires Fits(vb) && c < 4
      modifies vb
      ensures vb[..] == FillRows(old(vb[..]), Screen(), 0, height - 1, Pattern(c))
    {
      var n := Rows(Screen().Pitch(), height);
      Memset(vb, 0, Pattern(c), n);
    }

    /** GFX_Fill_Region: the rows clamped into the screen and put in order
        are filled. */
    method FillRegion(c: uint8, y1: int, y2: int, vb: array<uint8>)
      requires Fits(vb) && c < 4
      modifies vb
      ensures var lo := Min(Clamp(y1, height), Clamp(y2, height));
              var hi := Max(Clamp(y1, height), Clamp(y2, height));
              vb[..] == FillRows(old(vb[..]), Screen(), lo, hi, Pattern(c))
    {
      var a := y1;
      var b := y2;
      if a < 0 {
        a := 0;
      } else if a >= height {
        a := height - 1;
      }
      if b < 0 {
        b := 0;
      } else if b >= height {
        b := height - 1;
      }
      if b < a {
        a, b := b, a;
      }
      RowBytes(Screen(), a, b);
      Memset(vb, a * Screen().Pitch(), Pattern(c), Rows(Screen().Pitch(), b - a + 1));
    }

    /** GFX_Draw_VLine: the clipped column is plotted top to bottom, one row
        pitch apart. */
    method VLine(y1: int, y2: int, x: int, c: uint8, vb: array<uint8>)
      requires Fits(vb) && Clipping().Inside(Screen()) && c < 4
      modifies vb
      ensures var s := VSpan(Clipping(), y1, y2, x);
              vb[..] == if s.None? then old(vb[..])
                        else PlotAll(old(vb[..]), Screen(), Column(x, s.value.0, s.value.1), c)
    {
      if x > clipMaxX || x < clipMinX {
        return;
      }
      var lo, hi := y1, y2;
      if lo > hi {
        lo, hi := hi, lo;
      }
      if lo > clipMaxY || hi < clipMinY {
        return;
      }
      lo := if lo < clipMinY then clipMinY else lo;
      hi := if hi > clipMaxY then clipMaxY else hi;
      PlotColumn(x, lo, hi, c, vb);
    }

    /** The loop of GFX_Draw_VLine: byte and mask computed once, then one
        byte per row, a pitch apart. */
    method PlotColumn(x: int, lo: int, hi: int, c: uint8, vb: array<uint8>)
      requires Fits(vb) && 0 <= x < width && 0 <= lo <= hi < height && c < 4
      modifies vb
      ensures vb[..] == PlotAll(old(vb[..]), Screen(), Column(x, lo, hi), c)
    {
      ghost var pts := Column(x, lo, hi);
      ghost var buf := vb[..];
      var f := Screen();
      var pitch := f.Pitch();
      var at := lo * pitch + x / 4;
      var s := Col(x);
      for k := 0 to hi - lo + 1
        invariant at == Rows(pitch, lo + k) + x / 4
        invariant vb[..] == PlotAll(buf, f, pts[..k], c)
      {
        PlotAllStep(buf, f, pts, k, c);
        assert Offset(f, pts[k]) == at;
        vb[at] := (vb[at] & !(3 << (2 * s))) | (c << (2 * s));
        RowsNext(pitch, lo + k);
        at := at + pitch;
      }
      assert pts[..hi - lo + 1] == pts;
    }
  
    /** GFX_Draw_HLine: the row is rejected or clipped, then drawn as a
        short span (one 16-bit write) or a long one (partial bytes around a
        memset). */
    method HLine(x1: int, x2: int, y: int, c: uint8, vb: array<uint8>)
      requires Fits(vb) && Clipping().Inside(Screen()) && c < 4
      modifies vb
      ensures var s := HClip(Clipping(), x1, x2, y);
              vb[..] == if s.None? then old(vb[..]) else HSpan(old(vb[..]), Screen(), y, s.value.0, s.value.1, c)
    {
      if y > clipMaxY || y < clipMinY {
        return;
      }
      var lo, hi := x1, x2;
      if lo > hi {
        lo, hi := hi, lo;
      }
      if lo > clipMaxX || hi < clipMinX {
        return;
      }
      lo := if lo < clipMinX then clipMinX else lo;
      hi := if hi > clipMaxX then clipMaxX else hi;
      if 1 + hi - lo < 4 {
        ShortSpan(y, lo, hi, c, vb);
      } else {
        LongSpan(y, lo, hi, c, vb);
      }
    }

    /** Fewer than four pixels: the colors and bitmasks tables give the run,
        shifted to the first pixel's slot (ShortPixels, ShortMask). The low
        byte is always written; the byte after it only when the run reaches
        into it. */
    method ShortSpan(y: int, lo: int, hi: int, c: uint8, vb: array<uint8>)
      requires Fits(vb) && 0 <= y < height && 0 <= lo <= hi < width && hi - lo < 3 && c < 4
      modifies vb
      ensures vb[..] == HSpan(old(vb[..]), Screen(), y, lo, hi, c)
    {
      ghost var buf := vb[..];
      var f := Screen();
      var row := Rows(f.Pitch(), y);
      OffsetBound(f.Pitch(), height, hi / 4, y);
      var xs := row + lo / 4;
      var dx, xp1 := hi - lo, Col(lo);
      var pixels16 := ShortPixels(dx, xp1, c);
      var mask16 := ShortMask(dx, xp1);
      Bridge(lo, hi);
      ShortSpanLow(vb[xs], xp1, dx, RunLength(dx), c);
      ShortSpanReach(xp1, dx, RunLength(dx));
      var b0 := (vb[xs] & !Low(mask16)) | Low(pixels16);
      vb[xs] := b0;
      if High(mask16) != 0 {
        ShortSpanHigh(vb[xs + 1], xp1, dx, RunLength(dx), c);
        var b1 := (vb[xs + 1] & !High(mask16)) | High(pixels16);
        vb[xs + 1] := b1;
        SpanTwoBytes(buf, f, y, lo, hi, c, xs, b0, b1);
      } else {
        SpanOneByte(buf, f, y, lo, hi, c, xs, b0);
      }
    }

    /** Four pixels or more: a partial first byte unless the span starts on
        a byte boundary, a memset of the whole bytes, and a partial last
        byte unless it ends on one. */
    method LongSpan(y: int, lo: int, hi: int, c: uint8, vb: array<uint8>)
      requires Fits(vb) && 0 <= y < height && 0 <= lo && lo + 3 <= hi < width && c < 4
      modifies vb
      ensures vb[..] == HSpan(old(vb[..]), Screen(), y, lo, hi, c)
    {
      ghost var buf := vb[..];
      var f := Screen();
      var row := Rows(f.Pitch(), y);
      OffsetBound(f.Pitch(), height, hi / 4, y);
      ghost var lead := Fill(vb[row + lo / 4], Col(lo), 3, c);
      var xs := lo / 4;
      var xp1 := Col(lo);
      LeadBytes(row + xs, xp1, c, vb);
      if xp1 != 0 {
        xs := xs + 1;
      }
      ghost var led := vb[..];
      var xe := (hi + 1) / 4;
      var xp2 := Col(hi);
      Memset(vb, row + xs, Pattern(c), xe - xs);
      ghost var filled := vb[..];
      ghost var trail := if xp2 == 3 then 0 else Fill(vb[row + xe], 0, xp2, c);
      TrailBytes(row + xe, xp2, c, vb);
      LongSpanSeq(buf, f, y, lo, hi, c, row, xs, xe, lead, trail, led, filled, vb[..]);
    }
  
    /** The first switch of GFX_Draw_HLine: a span starting at slot
        xp1 > 0 of the byte at index at fills that byte from the slot. */
    method LeadBytes(at: int, xp1: uint8, c: uint8, vb: array<uint8>)
      requires 0 <= at < vb.Length && xp1 < 4 && c < 4
      modifies vb
      ensures vb[..] == if xp1 == 0 then old(vb[..]) else old(vb[..])[at := Fill(old(vb[at]), xp1, 3, c)]
    {
      if xp1 == 1 {
        LeadFrom1(vb[at], c);
        vb[at] := (vb[at] & !0xFC) | ((c << 2) | (c << 4) | (c << 6));
      } else if xp1 == 2 {
        LeadFrom2(vb[at], c);
        vb[at] := (vb[at] & !0xF0) | ((c << 4) | (c << 6));
      } else if xp1 == 3 {
        LeadFrom3(vb[at], c);
        vb[at] := (vb[at] & !0xC0) | (c << 6);
      }
    }

    /** The second switch of GFX_Draw_HLine: a span ending at slot xp2 < 3
        of the byte at index at fills that byte up to the slot. */
    method TrailBytes(at: int, xp2: uint8, c: uint8, vb: array<uint8>)
      requires 0 <= at && c < 4 && xp2 < 4 && (xp2 != 3 ==> at < vb.Length)
      modifies vb
      ensures vb[..] == if xp2 == 3 then old(vb[..]) else old(vb[..])[at := Fill(old(vb[at]), 0, xp2, c)]
    {
      if xp2 == 0 {
        TrailTo0(vb[at], c);
        vb[at] := (vb[at] & !0x03) | c;
      } else if xp2 == 1 {
        TrailTo1(vb[at], c);
        vb[at] := (vb[at] & !0x0F) | (c | (c << 2));
      } else if xp2 == 2 {
        TrailTo2(vb[at], c);
        vb[at] := (vb[at] & !0x3F) | (c | (c << 2) | (c << 4));
      }
    }
  
    /** GFX_Draw_Clip_Line (XGS_AVR_GFX_LIB_V010.c:285-302): the line
        clipped to the clipping rectangle, drawn only when the clipper
        returns 1. */
    method DrawClipLine(x0: int, y0: int, x1: int, y1: int, c: uint8, vb: array<uint8>)
      requires Fits(vb) && Clipping().Inside(Screen()) && c < 4
      requires Ints(Clipping(), Point(x0, y0), Point(x1, y1))
      modifies vb
      ensures vb[..] == match ClipLine(Clipping(), Point(x0, y0), Point(x1, y1))
                        case None => old(vb[..])
                        case Some((s, e)) => PlotLine(old(vb[..]), Screen(), s, e, c)
    {
      var clipped := ClipLine(Clipping(), Point(x0, y0), Point(x1, y1));
      if clipped.Some? {
        var (s, e) := clipped.value;
        DrawLine(s.x, s.y, e.x, e.y, c, vb);
      }
    }

    /** GFX_Draw_Line (XGS_AVR_GFX_LIB_V010.c:580-706): Bresenham's line from
        (x0, y0) to (x1, y1), stepping along the axis of the larger
        difference. */
    method DrawLine(x0: int, y0: int, x1: int, y1: int, c: uint8, vb: array<uint8>)
      requires Fits(vb) && c < 4
      requires Screen().OnScreen(Point(x0, y0)) && Screen().OnScreen(Point(x1, y1))
      modifies vb
      ensures forall k :: 0 <= k < |LinePoints(Point(x0, y0), Point(x1, y1))| ==>
        Screen().OnScreen(LinePoints(Point(x0, y0), Point(x1, y1))[k])
      ensures vb[..] == PlotAll(old(vb[..]), Screen(), LinePoints(Point(x0, y0), Point(x1, y1)), c)
    {
      var dx, dy := x1 - x0, y1 - y0;
      var xInc, yInc;
      if dx >= 0 {
        xInc := 1;
      } else {
        xInc := -1;
        dx := -dx;
      }
      if dy >= 0 {
        yInc := 1;
      } else {
        yInc := -1;
        dy := -dy;
      }
      var dx2, dy2 := dx * 2, dy * 2;
      LineOnScreen(Point(x0, y0), Point(x1, y1), Screen());
      if dx > dy {
        assert PlanOf(Point(x0, y0), Point(x1, y1)) == Plan(true, dx, dy, xInc == 1, yInc == 1);
        assert LinePoints(Point(x0, y0), Point(x1, y1)) == LinePath(Point(x0, y0), Plan(true, dx, dy, xInc == 1, yInc == 1));
        LineAlongX(x0, y0, dx, dy, dx2, dy2, xInc, yInc, c, vb);
      } else {
        assert PlanOf(Point(x0, y0), Point(x1, y1)) == Plan(false, dy, dx, xInc == 1, yInc == 1);
        assert LinePoints(Point(x0, y0), Point(x1, y1)) == LinePath(Point(x0, y0), Plan(false, dy, dx, xInc == 1, yInc == 1));
        LineAlongY(x0, y0, dx, dy, dx2, dy2, xInc, yInc, c, vb);
      }
    }

    /** The first loop of GFX_Draw_Line, for |slope| < 1: one pixel per
        column, the row stepping whenever the error is not negative. Each
        pixel is stored with GFX_Plot's read-mask-write. */
    method LineAlongX(x0: int, y0: int, dx: int, dy: int, dx2: int, dy2: int, xInc: int, yInc: int,
                      c: uint8, vb: array<uint8>)
      requires Fits(vb) && c < 4 && 0 <= dy <= dx
      requires (xInc == 1 || xInc == -1) && (yInc == 1 || yInc == -1) && dx2 == 2 * dx && dy2 == 2 * dy
      requires var pts := LinePath(Point(x0, y0), Plan(true, dx, dy, xInc == 1, yInc == 1));
        forall k :: 0 <= k < |pts| ==> Screen().OnScreen(pts[k])
      modifies vb
      ensures vb[..] == PlotAll(old(vb[..]), Screen(), LinePath(Point(x0, y0), Plan(true, dx, dy, xInc == 1, yInc == 1)), c)
    {
      ghost var a, p := Point(x0, y0), Plan(true, dx, dy, xInc == 1, yInc == 1);
      ghost var pts := LinePath(a, p);
      ghost var buf := vb[..];
      ghost var v := 0;
      var x0, y0 := x0, y0;
      var error := dy2 - dx;
      var index := 0;
      while index <= dx
        invariant 0 <= index <= dx + 1
        invariant v == Walk(0, 2 * p.dv - p.du, p.du, p.dv, index).0 && error == Walk(0, 2 * p.dv - p.du, p.du, p.dv, index).1
        invariant Point(x0, y0) == Place(a, p, (index, v))
        invariant vb[..] == PlotAll(buf, Screen(), pts[..index], c)
      {
        LoopStep(a, p, index, v, error, xInc, yInc);
        ghost var next := Walk(0, 2 * p.dv - p.du, p.du, p.dv, index + 1);
        PlotNext(buf, pts, index, x0, y0, c, vb);
        if error >= 0 {
          error := error - dx2;
          y0 := y0 + yInc;
          v := v + 1;
        }
        error := error + dy2;
        x0 := x0 + xInc;
        index := index + 1;
        assert v == next.0 && error == next.1;
      }
      assert pts[..index] == pts;
    }

    /** The second loop of GFX_Draw_Line, for |slope| >= 1: one pixel per
        row, the column stepping whenever the error is not negative. */
    method LineAlongY(x0: int, y0: int, dx: int, dy: int, dx2: int, dy2: int, xInc: int, yInc: int,
                      c: uint8, vb: array<uint8>)
      requires Fits(vb) && c < 4 && 0 <= dx <= dy
      requires (xInc == 1 || xInc == -1) && (yInc == 1 || yInc == -1) && dx2 == 2 * dx && dy2 == 2 * dy
      requires var pts := LinePath(Point(x0, y0), Plan(false, dy, dx, xInc == 1, yInc == 1));
        forall k :: 0 <= k < |pts| ==> Screen().OnScreen(pts[k])
      modifies vb
      ensures vb[..] == PlotAll(old(vb[..]), Screen(), LinePath(Point(x0, y0), Plan(false, dy, dx, xInc == 1, yInc == 1)), c)
    {
      ghost var a, p := Point(x0, y0), Plan(false, dy, dx, xInc == 1, yInc == 1);
      ghost var pts := LinePath(a, p);
      ghost var buf := vb[..];
      ghost var v := 0;
      var x0, y0 := x0, y0;
      var error := dx2 - dy;
      var index := 0;
      while index <= dy
        invariant 0 <= index <= dy + 1
        invariant v == Walk(0, 2 * p.dv - p.du, p.du, p.dv, index).0 && error == Walk(0, 2 * p.dv - p.du, p.du, p.dv, index).1
        invariant Point(x0, y0) == Place(a, p, (index, v))
        invariant vb[..] == PlotAll(buf, Screen(), pts[..index], c)
      {
        LoopStep(a, p, index, v, error, xInc, yInc);
        ghost var next := Walk(0, 2 * p.dv - p.du, p.du, p.dv, index + 1);
        PlotNext(buf, pts, index, x0, y0, c, vb);
        if error >= 0 {
          error := error - dy2;
          x0 := x0 + xInc;
          v := v + 1;
        }
        error := error + dx2;
        y0 := y0 + yInc;
        index := index + 1;
        assert v == next.0 && error == next.1;
      }
      assert pts[..index] == pts;
    }

    /** Four GFX_Plot calls in a row, one per point of q. */
    method PlotFour(q: seq<Point>, c: uint8, vb: array<uint8>)
      requires Fits(vb) && c < 4 && |q| == 4
      requires forall k :: 0 <= k < 4 ==> Screen().OnScreen(q[k])
      modifies vb
      ensures vb[..] == PlotAll(old(vb[..]), Screen(), q, c)
    {
      ghost var buf := vb[..];
      PlotAllStep(buf, Screen(), q, 0, c);
      Plot(q[0].x, q[0].y, c, vb);
      PlotAllStep(buf, Screen(), q, 1, c);
      Plot(q[1].x, q[1].y, c, vb);
      PlotAllStep(buf, Screen(), q, 2, c);
      Plot(q[2].x, q[2].y, c, vb);
      PlotAllStep(buf, Screen(), q, 3, c);
      Plot(q[3].x, q[3].y, c, vb);
      assert q[..4] == q;
    }

    /** The eight GFX_Plot calls of one step of GFX_Draw_Circle: the four
        mirror images of (x, y) around ctr, then those of (y, x). */
    method PlotOctants(ctr: Point, x: int, y: int, c: uint8, vb: array<uint8>)
      requires Fits(vb) && c < 4 && Reaches(Screen(), ctr, x) && Reaches(Screen(), ctr, y)
      modifies vb
      ensures forall k :: 0 <= k < 8 ==> Screen().OnScreen(Octants(ctr, x, y)[k])
      ensures vb[..] == PlotAll(old(vb[..]), Screen(), Octants(ctr, x, y), c)
    {
      ghost var buf := vb[..];
      QuadOnScreen(Screen(), ctr, x, y);
      QuadOnScreen(Screen(), ctr, y, x);
      PlotFour(Quad(ctr, x, y), c, vb);
      PlotFour(Quad(ctr, y, x), c, vb);
      PlotAllAppend(buf, Screen(), Quad(ctr, x, y), Quad(ctr, y, x), c);
    }

    /** GFX_Draw_Circle (XGS_AVR_GFX_LIB_V010.c:931-975): the midpoint
        circle of radius r around (x0, y0), which must lie on the screen. */
    method Circle(x0: int, y0: int, r: int, c: uint8, vb: array<uint8>)
      requires Fits(vb) && c < 4 && Reaches(Screen(), Point(x0, y0), Abs(r))
      modifies vb
      ensures forall k :: 0 <= k < |CirclePoints(Point(x0, y0), r)| ==>
        Screen().OnScreen(CirclePoints(Point(x0, y0), r)[k])
      ensures vb[..] == PlotAll(old(vb[..]), Screen(), CirclePoints(Point(x0, y0), r), c)
    {
      var ctr := Point(x0, y0);
      ghost var buf := vb[..];
      CircleInSquare(ctr, r);
      assert forall k :: 0 <= k < 4 ==> Screen().OnScreen(Ends(ctr, r)[k]);
      PlotFour(Ends(ctr, r), c, vb);
      CircleLoop(ctr, r, c, vb);
      PlotAllAppend(buf, Screen(), Ends(ctr, r), Arc(ctr, Start(r)), c);
    }

    /** The midpoint loop of GFX_Draw_Circle, from x = 0, y = r, f = 1 - r,
        ddF_x = 1, ddF_y = -2 r: the octant pixels of every step. */
    method CircleLoop(ctr: Point, r: int, c: uint8, vb: array<uint8>)
      requires Fits(vb) && c < 4 && Reaches(Screen(), ctr, Abs(r))
      modifies vb
      ensures forall k :: 0 <= k < |Arc(ctr, Start(r))| ==> Screen().OnScreen(Arc(ctr, Start(r))[k])
      ensures vb[..] == PlotAll(old(vb[..]), Screen(), Arc(ctr, Start(r)), c)
    {
      ghost var pts, buf := Arc(ctr, Start(r)), vb[..];
      var f, ddx, ddy, x, y := 1 - r, 1, -2 * r, 0, r;
      ghost var done: seq<Point> := [];
      while x < y
        invariant 0 <= x && y <= r
        invariant pts == done + Arc(ctr, Mid(x, y, f, ddx, ddy))
        invariant forall k :: 0 <= k < |done| ==> Screen().OnScreen(done[k])
        invariant vb[..] == PlotAll(buf, Screen(), done, c)
        decreases y - x
      {
        ghost var s := Mid(x, y, f, ddx, ddy);
        if f >= 0 {
          y := y - 1;
          ddy := ddy + 2;
          f := f + ddy;
        }
        x := x + 1;
        ddx := ddx + 2;
        f := f + ddx;
        assert Step(s) == Mid(x, y, f, ddx, ddy);
        ghost var oct := Octants(ctr, x, y);
        ArcNext(ctr, s, done, pts);
        PlotOctants(ctr, x, y, c, vb);
        PlotAllAppend(buf, Screen(), done, oct, c);
        done := done + oct;
      }
      assert Arc(ctr, Mid(x, y, f, ddx, ddy)) == [];
      assert done == pts;
    }

    /** Four GFX_Plot_Clipped calls in a row. */
    method PlotFourClipped(q: seq<Point>, c: uint8, vb: array<uint8>)
      requires Fits(vb) && Clipping().Inside(Screen()) && c < 4 && |q| == 4
      modifies vb
      ensures vb[..] == PlotVisible(old(vb[..]), Screen(), q, Clipping(), c)
    {
      ghost var buf := vb[..];
      PlotVisibleStep(buf, Screen(), q, 0, Clipping(), c);
      PlotClipped(q[0].x, q[0].y, c, vb);
      PlotVisibleStep(buf, Screen(), q, 1, Clipping(), c);
      PlotClipped(q[1].x, q[1].y, c, vb);
      PlotVisibleStep(buf, Screen(), q, 2, Clipping(), c);
      PlotClipped(q[2].x, q[2].y, c, vb);
      PlotVisibleStep(buf, Screen(), q, 3, Clipping(), c);
      PlotClipped(q[3].x, q[3].y, c, vb);
      assert q[..4] == q;
    }

    /** The eight GFX_Plot_Clipped calls of one step of
        GFX_Draw_Circle_Clipped. */
    method PlotOctantsClipped(ctr: Point, x: int, y: int, c: uint8, vb: array<uint8>)
      requires Fits(vb) && Clipping().Inside(Screen()) && c < 4
      modifies vb
      ensures vb[..] == PlotVisible(old(vb[..]), Screen(), Octants(ctr, x, y), Clipping(), c)
    {
      ghost var buf := vb[..];
      PlotFourClipped(Quad(ctr, x, y), c, vb);
      PlotFourClipped(Quad(ctr, y, x), c, vb);
      PlotVisibleAppend(buf, Screen(), Quad(ctr, x, y), Quad(ctr, y, x), Clipping(), c);
    }

    /** GFX_Draw_Circle_Clipped (XGS_AVR_GFX_LIB_V010.c:979-1027): a circle
        whose square lies wholly off the screen is skipped; otherwise every
        pixel of the circle is sent through the clipping test. */
    method CircleClipped(x0: int, y0: int, r: int, c: uint8, vb: array<uint8>)
      requires Fits(vb) && Clipping().Inside(Screen()) && c < 4
      modifies vb
      ensures vb[..] == if Rejects(Screen(), Point(x0, y0), r) then old(vb[..])
                        else PlotVisible(old(vb[..]), Screen(), CirclePoints(Point(x0, y0), r), Clipping(), c)
    {
      if x0 + r < 0 || x0 - r >= width || y0 + r < 0 || y0 - r >= height {
        return;
      }
      var ctr := Point(x0, y0);
      ghost var buf := vb[..];
      PlotFourClipped(Ends(ctr, r), c, vb);
      CircleLoopClipped(ctr, r, c, vb);
      PlotVisibleAppend(buf, Screen(), Ends(ctr, r), Arc(ctr, Start(r)), Clipping(), c);
    }

    /** The midpoint loop of GFX_Draw_Circle_Clipped. */
    method CircleLoopClipped(ctr: Point, r: int, c: uint8, vb: array<uint8>)
      requires Fits(vb) && Clipping().Inside(Screen()) && c < 4
      modifies vb
      ensures vb[..] == PlotVisible(old(vb[..]), Screen(), Arc(ctr, Start(r)), Clipping(), c)
    {
      ghost var pts, buf := Arc(ctr, Start(r)), vb[..];
      var f, ddx, ddy, x, y := 1 - r, 1, -2 * r, 0, r;
      ghost var done: seq<Point> := [];
      while x < y
        invariant pts == done + Arc(ctr, Mid(x, y, f, ddx, ddy))
        invariant vb[..] == PlotVisible(buf, Screen(), done, Clipping(), c)
        decreases y - x
      {
        ghost var s := Mid(x, y, f, ddx, ddy);
        if f >= 0 {
          y := y - 1;
          ddy := ddy + 2;
          f := f + ddy;
        }
        x := x + 1;
        ddx := ddx + 2;
        f := f + ddx;
        assert Step(s) == Mid(x, y, f, ddx, ddy);
        ghost var oct := Octants(ctr, x, y);
        ArcNext(ctr, s, done, pts);
        PlotOctantsClipped(ctr, x, y, c, vb);
        PlotVisibleAppend(buf, Screen(), done, oct, Clipping(), c);
        done := done + oct;
      }
      assert Arc(ctr, Mid(x, y, f, ddx, ddy)) == [];
      assert done == pts;
    }
  }
}
