/** The 16.16 fixed-point macros of fixedpt_16_16.h. A FIXPONT is a signed
    32-bit integer whose low 16 bits are the fraction (fixedpt_16_16.h:2, 9);
    it is modelled by its two's-complement bit pattern, so the macros' shifts
    and masks are literal. A right shift of a signed value is the arithmetic
    shift avr-gcc emits: the vacated high bits copy the sign bit. */
module FixedPoint {
  import opened Bytes

  /** The patterns of the 16-bit signed values -2^15 .. 2^15 - 1, the
      integers whose INT_TO_FXPONT does not overflow. */
  predicate Short(n: uint32) {
    n < 0x8000 || 0xFFFF_8000 <= n
  }

  /** INT_TO_FXPONT (fixedpt_16_16.h:18): n shifted left by FP_SHIFT. */
  function IntToFx(n: uint32): (f: uint32)
    ensures f & 0xFFFF == 0
  {
    n << 16
  }

  /** INTEGRL_FX_PART (fixedpt_16_16.h:20): f shifted right by FP_SHIFT,
      arithmetically. */
  function IntegralPart(f: uint32): (n: uint32)
  {
    if f & 0x8000_0000 == 0 then f >> 16 else (f >> 16) | 0xFFFF_0000
  }

  /** FRACTION_FX_PART (fixedpt_16_16.h:21): the low 16 bits of f. */
  function FractionPart(f: uint32): (r: uint32)
    ensures r < 0x1_0000
  {
    f & 0xFFFF
  }

  /** FRACT_DISPlAY (fixedpt_16_16.h:22): the fraction in hundredths,
      rounded down, computed in 32-bit unsigned arithmetic. */
  function FractDisplay(f: uint32): (d: uint32)
    ensures d <= 99
  {
    100 * FractionPart(f) / 0x1_0000
  }

  /** MUL_FXPONT (fixedpt_16_16.h:23): the 32-bit product shifted right by
      FP_SHIFT. */
  function MulFx(f1: uint32, f2: uint32): (p: uint32)
  {
    IntegralPart(f1 * f2)
  }

  /** Converting a 16-bit integer and taking the integral part gives it
      back, negative integers included. */
  lemma IntegralOfInt(n: uint32)
    requires Short(n)
    ensures IntegralPart(IntToFx(n)) == n
  {
    if n < 0x8000 {
      PositiveShift(n);
    } else {
      NegativeShift(n);
    }
  }

  lemma PositiveShift(n: uint32)
    requires n < 0x8000
    ensures (n << 16) & 0x8000_0000 == 0 && (n << 16) >> 16 == n
  {
  }

  lemma NegativeShift(n: uint32)
    requires 0xFFFF_8000 <= n
    ensures (n << 16) & 0x8000_0000 != 0 && ((n << 16) >> 16) | 0xFFFF_0000 == n
  {
  }

  /** Only 16-bit integers convert without overflow: any other n loses its
      high bits. */
  lemma IntegralOfLongInt(n: uint32)
    requires !Short(n)
    ensures IntegralPart(IntToFx(n)) != n
  {
  }

  /** A converted integer has no fraction. */
  lemma FractionOfInt(n: uint32)
    ensures FractionPart(IntToFx(n)) == 0
  {
  }

  /** The integral part is a 16-bit signed value and the fraction lies in
      [0, FP_SCALE). */
  lemma PartRanges(f: uint32)
    ensures Short(IntegralPart(f)) && FractionPart(f) < 0x1_0000
  {
    if f & 0x8000_0000 == 0 {
      assert f >> 16 < 0x8000;
    } else {
      assert (f >> 16) | 0xFFFF_0000 >= 0xFFFF_8000;
    }
  }

  /** Every FIXPONT is its integral part shifted back, with its fraction in
      the low bits. */
  lemma Decompose(f: uint32)
    ensures (IntegralPart(f) << 16) + FractionPart(f) == f
  {
    HighHalf(f);
    Rejoin(f, IntegralPart(f));
  }

  /** The low half of the integral part is the high half of f. */
  lemma HighHalf(f: uint32)
    ensures IntegralPart(f) & 0xFFFF == f >> 16
  {
    if f & 0x8000_0000 == 0 {
      SignClear(f);
    } else {
      SignSet(f);
    }
  }

  lemma SignClear(f: uint32)
    ensures (f >> 16) & 0xFFFF == f >> 16
  {
  }

  lemma SignSet(f: uint32)
    ensures ((f >> 16) | 0xFFFF_0000) & 0xFFFF == f >> 16
  {
  }

  /** Any pattern with f's high half, shifted up, rejoins f's low half. */
  lemma Rejoin(f: uint32, high: uint32)
    requires high & 0xFFFF == f >> 16
    ensures (high << 16) | (f & 0xFFFF) == f && (high << 16) + (f & 0xFFFF) == f
  {
  }

  /** One, converted, is the identity of MUL_FXPONT wherever the 32-bit
      product does not overflow. */
  lemma MulOne(f: uint32)
    requires Short(f)
    ensures MulFx(IntToFx(1), f) == f && MulFx(f, IntToFx(1)) == f
  {
    var one := IntToFx(1);
    assert one == 0x1_0000;
    ScaleByOne(f);
    IntegralOfInt(f);
  }

  /** Multiplying by 2^16 is a shift by 16. */
  lemma ScaleByOne(f: uint32)
    ensures 0x1_0000 * f == f << 16 && f * 0x1_0000 == f << 16
  {
  }

  /** The displayed fraction is a two-digit number, the fraction in
      hundredths rounded down: 100 times the fraction cannot wrap. */
  lemma DisplayRange(f: uint32)
    ensures FractDisplay(f) <= 99
    ensures FractDisplay(f) * 0x1_0000 <= 100 * FractionPart(f) < (FractDisplay(f) + 1) * 0x1_0000
  {
  }
}
