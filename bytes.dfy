/** Fixed-width machine types and small integer helpers shared by every
    module of the model. The C sources use uint8_t, uint16_t and uint32_t;
    bit-vectors keep their shifts, masks and truncating conversions literal.
    The signed 16-bit int of the AVR compiler is an integer in range, and
    Wrap16 is the two's-complement truncation its arithmetic performs. */
module Bytes {

  type uint8 = bv8
  type uint16 = bv16
  type uint32 = bv32

  datatype Option<T> = None | Some(value: T)

  /** Low byte of a 32-bit value, as a C assignment of uint32_t to uint8_t truncates. */
  function Low8(x: uint32): uint8 {
    (x & 0xFF) as uint8
  }

  /** The little-endian 16-bit word read from two consecutive bytes. */
  function LittleEndianWord(lo: uint8, hi: uint8): (w: uint16)
    ensures (w & 0xFF) as uint8 == lo && (w >> 8) as uint8 == hi
  {
    (lo as uint16) | ((hi as uint16) << 8)
  }

  /** A value of the AVR's 16-bit int. */
  predicate Int16(v: int) {
    -0x8000 <= v < 0x8000
  }

  /** The 16-bit int that an int-typed C expression of value v yields: v
      reduced modulo 2^16 into -32768 .. 32767. */
  function Wrap16(v: int): (r: int)
    ensures Int16(r)
    ensures (r - v) % 0x10000 == 0
    ensures Int16(v) ==> r == v
  {
    (v + 0x8000) % 0x10000 - 0x8000
  }

  /** The difference of two ints, when not zero, does not wrap to zero. */
  lemma WrapNonzero(v: int)
    requires -0x10000 < v < 0x10000 && v != 0
    ensures Wrap16(v) != 0
  {
    if v < -0x8000 {
      assert Wrap16(v) == v + 0x10000;
    } else if 0x8000 <= v {
      assert Wrap16(v) == v - 0x10000;
    }
  }

  function Min(a: int, b: int): int { if a < b then a else b }
  function Max(a: int, b: int): int { if a < b then b else a }

  /** v clamped into 0 .. n - 1. */
  function Clamp(v: int, n: int): (r: int)
    requires 0 < n
    ensures 0 <= r < n
    ensures 0 <= v < n ==> r == v
    ensures v < 0 ==> r == 0
    ensures n <= v ==> r == n - 1
  {
    if v < 0 then 0 else if v >= n then n - 1 else v
  }
}
