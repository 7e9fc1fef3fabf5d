/** Horizontal spans of a packed 2-bit bitmap, byte by byte: the bytes
    GFX_Draw_HLine writes (XGS_AVR_GFX_LIB_V010.c:712-865) and what they mean
    pixel by pixel. */
module Spans {
  import opened Bytes
  import opened Pixels

  /** Slot s of b set to c when it lies in s0 .. s1. */
  function Cover(b: uint8, s: uint8, s0: uint8, s1: uint8, c: uint8): uint8
    requires s < 4 && c < 4
  {
    if s0 <= s <= s1 then SetSlot(b, s, c) else b
  }

  /** b with slots s0 .. s1 (both included) set to c and the rest kept. */
  function Fill(b: uint8, s0: uint8, s1: uint8, c: uint8): uint8
    requires c < 4
  {
    Cover(Cover(Cover(Cover(b, 0, s0, s1, c), 1, s0, s1, c), 2, s0, s1, c), 3, s0, s1, c)
  }

  /** Filling a slot range colours exactly the slots in the range. */
  lemma FillSlot(b: uint8, s0: uint8, s1: uint8, c: uint8, t: uint8)
    requires c < 4 && t < 4
    ensures Slot(Fill(b, s0, s1, c), t) == if s0 <= t <= s1 then c else Slot(b, t)
  {
  }

  /** The first slot of byte column k that the span from pixel lo covers. */
  function First(k: int, lo: int): uint8
    requires 0 <= lo
  {
    if k > lo / 4 then 0 else Col(lo)
  }

  /** The last slot of byte column k that the span up to pixel hi covers. */
  function Last(k: int, hi: int): uint8
    requires 0 <= hi
  {
    if k < hi / 4 then 3 else Col(hi)
  }

  /** Row y of buf with pixels lo .. hi set to c: the byte columns lo / 4 ..
      hi / 4 of the row each get their covered slots filled. */
  function HSpan(buf: seq<uint8>, f: Frame, y: int, lo: int, hi: int, c: uint8): (r: seq<uint8>)
    requires f.Valid() && |buf| == f.Size() && 0 <= y < f.height && 0 <= lo <= hi < f.width && c < 4
    ensures |r| == |buf|
  {
    var start := Rows(f.Pitch(), y);
    seq(|buf|, i requires 0 <= i < |buf| =>
      if start + lo / 4 <= i <= start + hi / 4 then Fill(buf[i], First(i - start, lo), Last(i - start, hi), c)
      else buf[i])
  }

  /** Within one byte, slot order is pixel order. */
  lemma ColOrder(a: int, b: int)
    requires 0 <= a && 0 <= b && a / 4 == b / 4
    ensures Col(a) <= Col(b) <==> a <= b
  {
  }

  /** A span sets exactly pixels lo .. hi of row y to c. */
  lemma HSpanPixels(buf: seq<uint8>, f: Frame, y: int, lo: int, hi: int, c: uint8, q: Point)
    requires f.Valid() && |buf| == f.Size() && 0 <= y < f.height && 0 <= lo <= hi < f.width && c < 4
    requires f.OnScreen(q)
    ensures PixelAt(HSpan(buf, f, y, lo, hi, c), f, q) == if q.y == y && lo <= q.x <= hi then c else PixelAt(buf, f, q)
  {
    var pitch := f.Pitch();
    var start := Rows(pitch, y);
    var i := Offset(f, q);
    var k := q.x / 4;
    InRows(pitch, q.y, k, y, y);
    assert (y + 1) * pitch == start + pitch;
    if q.y == y && lo / 4 <= k <= hi / 4 {
      FillSlot(buf[i], First(k, lo), Last(k, hi), c, Col(q.x));
      if k == lo / 4 {
        ColOrder(lo, q.x);
      }
      if k == hi / 4 {
        ColOrder(q.x, hi);
      }
    }
  }

  /** The 2-bit colour c as a table column, 0 .. 3. */
  function Code(c: uint8): (k: int)
    requires c < 4
    ensures 0 <= k < 4
  {
    if c == 0 then 0 else if c == 1 then 1 else if c == 2 then 2 else 3
  }

  /** The colors table of GFX_Draw_HLine: row n - 1 holds n pixels of each
      colour. */
  const Colors: seq<uint8> := [0x00, 0x01, 0x02, 0x03, 0x00, 0x05, 0x0A, 0x0F, 0x00, 0x15, 0x2A, 0x3F]

  /** The bitmasks table of GFX_Draw_HLine: n pixels' worth of bits. */
  const Bitmasks: seq<uint8> := [0x03, 0x0F, 0x3F]

  /** n pixels of colour c from slot 0 up. */
  function Run(c: uint8, n: uint8): uint8
  {
    if n == 1 then c else if n == 2 then c | (c << 2) else c | (c << 2) | (c << 4)
  }

  function Low(w: uint16): uint8 {
    (w & 0xFF) as uint8
  }

  function High(w: uint16): uint8 {
    (w >> 8) as uint8
  }

  /** The number of pixels, n = dx + 1, of a short span. */
  function RunLength(dx: int): (n: uint8)
    requires 0 <= dx < 3
    ensures 1 <= n <= 3
  {
    if dx == 0 then 1 else if dx == 1 then 2 else 3
  }

  /** The last slot, in the first byte, of a run of n pixels from slot s:
      3 when the run goes on into the next byte. */
  function LastSlot(s: uint8, n: uint8): uint8
  {
    if s + n - 1 < 4 then s + n - 1 else 3
  }

  /** Whether a run of n pixels from slot s reaches into the next byte. */
  predicate Crosses(s: uint8, n: uint8) {
    s + n > 4
  }

  /** The last slot, in the next byte, of a run that crosses into it. */
  function Spill(s: uint8, n: uint8): uint8 {
    s + n - 5
  }

  /** The 16-bit read-modify-write of a run of n pixels from slot s: its
      low byte fills the run, and its high byte changes only when the run
      crosses into the next byte, where it fills the rest of it. */
  lemma ShortWordLow(b0: uint8, c: uint8, s: uint8, n: uint8)
    requires c < 4 && s < 4 && 1 <= n <= 3
    ensures (b0 & !Low((Run(3, n) as uint16) << (2 * s))) | Low((Run(c, n) as uint16) << (2 * s))
            == Fill(b0, s, LastSlot(s, n), c)
  {
    if n == 1 {
      RunOf1(b0, c, s, n);
    } else if n == 2 {
      RunOf2(b0, c, s, n);
    } else {
      RunOf3(b0, c, s, n);
    }
  }

  lemma RunOf1(b0: uint8, c: uint8, s: uint8, n: uint8)
    requires c < 4 && s < 4 && n == 1
    ensures (b0 & !Low((Run(3, n) as uint16) << (2 * s))) | Low((Run(c, n) as uint16) << (2 * s)) == Fill(b0, s, LastSlot(s, n), c)
  {
  }

  lemma RunOf2(b0: uint8, c: uint8, s: uint8, n: uint8)
    requires c < 4 && s < 4 && n == 2
    ensures (b0 & !Low((Run(3, n) as uint16) << (2 * s))) | Low((Run(c, n) as uint16) << (2 * s)) == Fill(b0, s, LastSlot(s, n), c)
  {
  }

  lemma RunOf3(b0: uint8, c: uint8, s: uint8, n: uint8)
    requires c < 4 && s < 4 && n == 3
    ensures (b0 & !Low((Run(3, n) as uint16) << (2 * s))) | Low((Run(c, n) as uint16) << (2 * s)) == Fill(b0, s, LastSlot(s, n), c)
  {
  }

  lemma ShortWordReach(s: uint8, n: uint8)
    requires s < 4 && 1 <= n <= 3
    ensures !Crosses(s, n) <==> High((Run(3, n) as uint16) << (2 * s)) == 0
  {
  }

  lemma ShortWordHigh(b1: uint8, c: uint8, s: uint8, n: uint8)
    requires c < 4 && s < 4 && 1 <= n <= 3 && Crosses(s, n)
    ensures (b1 & !High((Run(3, n) as uint16) << (2 * s))) | High((Run(c, n) as uint16) << (2 * s)) == Fill(b1, 0, Spill(s, n), c)
  {
  }

  /** The tables hold runs of 1 .. 3 pixels. */
  lemma Tables(c: uint8, dx: int)
    requires c < 4 && 0 <= dx < 3
    ensures Colors[dx * 4 + Code(c)] == Run(c, RunLength(dx)) && Bitmasks[dx] == Run(3, RunLength(dx))
  {
  }

  /** The pixels16 and mask16 words GFX_Draw_HLine builds for a span of
      dx + 1 < 4 pixels whose first pixel is in slot s. */
  function ShortPixels(dx: int, s: uint8, c: uint8): uint16
    requires 0 <= dx < 3 && s < 4 && c < 4
  {
    (Colors[dx * 4 + Code(c)] as uint16) << (2 * s)
  }

  function ShortMask(dx: int, s: uint8): uint16
    requires 0 <= dx < 3 && s < 4
  {
    (Bitmasks[dx] as uint16) << (2 * s)
  }

  /** A short span's word write, low byte: the first byte of the span gets
      its slots from s filled. */
  lemma ShortSpanLow(b0: uint8, s: uint8, dx: int, n: uint8, c: uint8)
    requires s < 4 && 0 <= dx < 3 && n == RunLength(dx) && c < 4
    ensures (b0 & !Low(ShortMask(dx, s))) | Low(ShortPixels(dx, s, c)) == Fill(b0, s, LastSlot(s, n), c)
  {
    Tables(c, dx);
    ShortWordLow(b0, c, s, n);
  }

  /** A short span's word write, high byte: it changes exactly when the span
      crosses into the next byte ... */
  lemma ShortSpanReach(s: uint8, dx: int, n: uint8)
    requires s < 4 && 0 <= dx < 3 && n == RunLength(dx)
    ensures !Crosses(s, n) <==> High(ShortMask(dx, s)) == 0
  {
    Tables(0, dx);
    ShortWordReach(s, n);
  }

  /** ... and then fills the span's slots there. */
  lemma ShortSpanHigh(b1: uint8, s: uint8, dx: int, n: uint8, c: uint8)
    requires s < 4 && 0 <= dx < 3 && n == RunLength(dx) && c < 4 && Crosses(s, n)
    ensures (b1 & !High(ShortMask(dx, s))) | High(ShortPixels(dx, s, c)) == Fill(b1, 0, Spill(s, n), c)
  {
    Tables(c, dx);
    ShortWordHigh(b1, c, s, n);
  }

  /** The slot arithmetic of a short span in terms of its pixel columns. */
  lemma Bridge(lo: int, hi: int)
    requires 0 <= lo <= hi < lo + 3
    ensures First(lo / 4, lo) == Col(lo) && Last(lo / 4, hi) == LastSlot(Col(lo), RunLength(hi - lo))
    ensures lo / 4 == hi / 4 <==> !Crosses(Col(lo), RunLength(hi - lo))
    ensures lo / 4 < hi / 4 ==> (hi / 4 == lo / 4 + 1 && First(hi / 4, lo) == 0 &&
                                 Last(hi / 4, hi) == Spill(Col(lo), RunLength(hi - lo)))
  {
  }

  /** The partial first byte of a long span from slot 1, 2 or 3
      (GFX_Draw_HLine's first switch) fills the slots from there on. */
  lemma LeadFrom1(b: uint8, c: uint8)
    requires c < 4
    ensures (b & !0xFC) | ((c << 2) | (c << 4) | (c << 6)) == Fill(b, 1, 3, c)
  {
  }

  lemma LeadFrom2(b: uint8, c: uint8)
    requires c < 4
    ensures (b & !0xF0) | ((c << 4) | (c << 6)) == Fill(b, 2, 3, c)
  {
  }

  lemma LeadFrom3(b: uint8, c: uint8)
    requires c < 4
    ensures (b & !0xC0) | (c << 6) == Fill(b, 3, 3, c)
  {
  }

  /** The partial last byte of a long span up to slot 0, 1 or 2
      (GFX_Draw_HLine's second switch) fills the slots up to there. */
  lemma TrailTo0(b: uint8, c: uint8)
    requires c < 4
    ensures (b & !0x03) | c == Fill(b, 0, 0, c)
  {
  }

  lemma TrailTo1(b: uint8, c: uint8)
    requires c < 4
    ensures (b & !0x0F) | (c | (c << 2)) == Fill(b, 0, 1, c)
  {
  }

  lemma TrailTo2(b: uint8, c: uint8)
    requires c < 4
    ensures (b & !0x3F) | (c | (c << 2) | (c << 4)) == Fill(b, 0, 2, c)
  {
  }

  /** A whole byte of the span is the memset pattern, whatever it held. */
  lemma WholeByte(b: uint8, c: uint8)
    requires c < 4
    ensures Pattern(c) == Fill(b, 0, 3, c)
  {
  }

  /** A span within one byte changes that byte alone. */
  lemma SpanOneByte(buf: seq<uint8>, f: Frame, y: int, lo: int, hi: int, c: uint8, xs: int, b0: uint8)
    requires f.Valid() && |buf| == f.Size() && 0 <= y < f.height && 0 <= lo <= hi < f.width && hi - lo < 3 && c < 4
    requires !Crosses(Col(lo), RunLength(hi - lo)) && xs == Rows(f.Pitch(), y) + lo / 4 && 0 <= xs < |buf|
    requires b0 == Fill(buf[xs], Col(lo), LastSlot(Col(lo), RunLength(hi - lo)), c)
    ensures HSpan(buf, f, y, lo, hi, c) == buf[xs := b0]
  {
    Bridge(lo, hi);
    var span := HSpan(buf, f, y, lo, hi, c);
    forall i | 0 <= i < |buf|
      ensures span[i] == buf[xs := b0][i]
    {
    }
  }

  /** A span over two bytes changes those two bytes alone. */
  lemma SpanTwoBytes(buf: seq<uint8>, f: Frame, y: int, lo: int, hi: int, c: uint8, xs: int, b0: uint8, b1: uint8)
    requires f.Valid() && |buf| == f.Size() && 0 <= y < f.height && 0 <= lo <= hi < f.width && hi - lo < 3 && c < 4
    requires Crosses(Col(lo), RunLength(hi - lo)) && xs == Rows(f.Pitch(), y) + lo / 4 && 0 <= xs && xs + 1 < |buf|
    requires b0 == Fill(buf[xs], Col(lo), LastSlot(Col(lo), RunLength(hi - lo)), c)
    requires b1 == Fill(buf[xs + 1], 0, Spill(Col(lo), RunLength(hi - lo)), c)
    ensures HSpan(buf, f, y, lo, hi, c) == buf[xs := b0][xs + 1 := b1]
  {
    Bridge(lo, hi);
    var span := HSpan(buf, f, y, lo, hi, c);
    forall i | 0 <= i < |buf|
      ensures span[i] == buf[xs := b0][xs + 1 := b1][i]
    {
    }
  }

  /** The long span's writes, as buffers: the lead byte (when the span
      does not start on a byte boundary), the memset of the whole bytes
      first .. xe - 1, and the trail byte (when it does not end on one). */
  lemma LongSpanSeq(buf: seq<uint8>, f: Frame, y: int, lo: int, hi: int, c: uint8, row: int, first: int, xe: int,
                    lead: uint8, trail: uint8, led: seq<uint8>, filled: seq<uint8>, after: seq<uint8>)
    requires f.Valid() && |buf| == f.Size() && 0 <= y < f.height && 0 <= lo && lo + 3 <= hi < f.width && c < 4
    requires row == Rows(f.Pitch(), y) && 0 <= row && row + hi / 4 < |buf|
    requires xe == (hi + 1) / 4 && first == if Col(lo) == 0 then lo / 4 else lo / 4 + 1
    requires lead == Fill(buf[row + lo / 4], Col(lo), 3, c)
    requires led == if Col(lo) == 0 then buf else buf[row + lo / 4 := lead]
    requires 0 <= row + first <= row + xe <= |buf|
    requires filled == Filled(led, row + first, xe - first, Pattern(c))
    requires Col(hi) != 3 ==> row + xe < |buf| && trail == Fill(filled[row + xe], 0, Col(hi), c)
    requires after == if Col(hi) == 3 then filled else filled[row + xe := trail]
    ensures after == HSpan(buf, f, y, lo, hi, c)
  {
    var span := HSpan(buf, f, y, lo, hi, c);
    forall i | 0 <= i < |buf|
      ensures after[i] == span[i]
    {
      LongSpanAt(buf, f, y, lo, hi, c, row, first, xe, lead, trail, led, filled, after, i);
    }
  }

  /** LongSpanSeq, byte by byte. */
  lemma LongSpanAt(buf: seq<uint8>, f: Frame, y: int, lo: int, hi: int, c: uint8, row: int, first: int, xe: int,
                   lead: uint8, trail: uint8, led: seq<uint8>, filled: seq<uint8>, after: seq<uint8>, i: int)
    requires f.Valid() && |buf| == f.Size() && 0 <= y < f.height && 0 <= lo && lo + 3 <= hi < f.width && c < 4
    requires row == Rows(f.Pitch(), y) && 0 <= row && row + hi / 4 < |buf|
    requires xe == (hi + 1) / 4 && first == if Col(lo) == 0 then lo / 4 else lo / 4 + 1
    requires lead == Fill(buf[row + lo / 4], Col(lo), 3, c)
    requires led == if Col(lo) == 0 then buf else buf[row + lo / 4 := lead]
    requires 0 <= row + first <= row + xe <= |buf|
    requires filled == Filled(led, row + first, xe - first, Pattern(c))
    requires Col(hi) != 3 ==> row + xe < |buf| && trail == Fill(filled[row + xe], 0, Col(hi), c)
    requires after == if Col(hi) == 3 then filled else filled[row + xe := trail]
    requires 0 <= i < |buf|
    ensures after[i] == HSpan(buf, f, y, lo, hi, c)[i]
  {
    LongQuarters(lo, hi);
    var k := i - row;
    if k < lo / 4 || hi / 4 < k {
      assert led[i] == buf[i];
      assert i < row + first || row + xe <= i;
      assert filled[i] == led[i];
      assert after[i] == filled[i];
    } else if Col(lo) != 0 && k == lo / 4 {
      assert after[i] == lead;
      assert First(k, lo) == Col(lo) && Last(k, hi) == 3;
    } else if Col(hi) != 3 && k == hi / 4 {
      assert after[i] == trail && filled[i] == buf[i];
      assert First(k, lo) == 0 && Last(k, hi) == Col(hi);
    } else {
      WholeByte(buf[i], c);
      assert after[i] == Pattern(c);
    }
  }

  /** The byte columns of a span of four pixels or more. */
  lemma LongQuarters(lo: int, hi: int)
    requires 0 <= lo && lo + 3 <= hi
    ensures (hi + 1) / 4 == if Col(hi) == 3 then hi / 4 + 1 else hi / 4
  {
  }

  /** As written, a span of fewer than four pixels is stored with one
      16-bit write at the byte of its first pixel (XGS_AVR_GFX_LIB_V010.c:773),
      so the byte after that one is always written as well. This is the
      index of that second byte. */
  function WordStoreSecond(f: Frame, y: int, lo: int): (i: int)
    requires f.Valid() && 0 <= y < f.height && 0 <= lo < f.width
    ensures i == Offset(f, Point(lo, y)) + 1
  {
    Rows(f.Pitch(), y) + lo / 4 + 1
  }

  /** The single last pixel of the last row: its span needs nothing from
      the next byte (the high half of the mask is zero), yet the 16-bit
      store writes the byte one past the end of the buffer. */
  lemma WordStoreOverrun(f: Frame)
    requires f.Valid()
    ensures High(ShortMask(0, Col(f.width - 1))) == 0
    ensures WordStoreSecond(f, f.height - 1, f.width - 1) == f.Size()
  {
    var p := f.Pitch();
    ShortSpanReach(Col(f.width - 1), 0, 1);
    RowsNext(p, f.height - 1);
    assert (f.width - 1) / 4 == p - 1;
  }
}
