/**
  Machine-width values shared by every component: unsigned bytes, 16-bit
  identities and timestamps, bit tests over a byte, and the two's-complement
  conversions that the C++ casts `(int8_t)` and `(int16_t)` perform.
 */
module Bytes {

  /** `uint8_t` */
  type byte = bv8

  /** `uint16_t`: vendor/product ids and relative timestamps. Arithmetic on
      them wraps modulo 65536 wherever the source casts back to `uint16_t`. */
  type u16 = x: int | 0 <= x < 0x1_0000

  /** The single-bit mask of bit `i`, i.e. `1 << i`. */
  function Mask(i: nat): (m: byte)
    requires i < 8
    ensures m != 0
  {
    match i
    case 0 => 0x01
    case 1 => 0x02
    case 2 => 0x04
    case 3 => 0x08
    case 4 => 0x10
    case 5 => 0x20
    case 6 => 0x40
    case _ => 0x80
  }

  /** Bit `i` of `b` is set. */
  predicate Bit(b: byte, i: nat)
    requires i < 8
  {
    b & Mask(i) != 0
  }

  /** The masks of the eight bits are exactly the one-bit bytes. */
  lemma MaskIsSingleBit(i: nat)
    requires i < 8
    ensures var m := Mask(i);
      m == 1 || m == 2 || m == 4 || m == 8 || m == 16 || m == 32 || m == 64 || m == 128
  {
  }

  /** Bit `i` of an XOR is set exactly where the operands disagree. */
  lemma XorBit(a: byte, b: byte, i: nat)
    requires i < 8
    ensures Bit(a ^ b, i) <==> Bit(a, i) != Bit(b, i)
  {
    MaskIsSingleBit(i);
  }

  /** Bit `i` of an OR is set exactly where one of the operands has it. */
  lemma OrBit(a: byte, b: byte, i: nat)
    requires i < 8
    ensures Bit(a | b, i) <==> Bit(a, i) || Bit(b, i)
  {
    MaskIsSingleBit(i);
  }

  /** Bit `i` of `Mask(j)` is set exactly when `i == j`. */
  lemma MaskBit(i: nat, j: nat)
    requires i < 8 && j < 8
    ensures Bit(Mask(j), i) <==> i == j
  {
  }

  /** A byte is zero exactly when none of its eight bits is set. */
  lemma ZeroIffNoBit(b: byte)
    ensures b == 0 <==> forall i :: 0 <= i < 8 ==> !Bit(b, i)
  {
    if b != 0 {
      assert Bit(b, 0) || Bit(b, 1) || Bit(b, 2) || Bit(b, 3) || Bit(b, 4) || Bit(b, 5) || Bit(b, 6) || Bit(b, 7);
    }
  }

  /** Two bytes are equal exactly when they agree on every bit. */
  lemma EqualIffSameBits(a: byte, b: byte)
    ensures a == b <==> forall i :: 0 <= i < 8 ==> (Bit(a, i) <==> Bit(b, i))
  {
    assert a == b <==> a ^ b == 0;
    ZeroIffNoBit(a ^ b);
    if a != b {
      var i :| 0 <= i < 8 && Bit(a ^ b, i);
      XorBit(a, b, i);
    }
  }

  /** The value of a byte reinterpreted as `int8_t` (two's complement). */
  function Signed8(b: byte): (r: int)
    ensures -128 <= r <= 127
    ensures (r - b as int) % 256 == 0
    ensures r == 0 <==> b == 0
  {
    if b < 0x80 then b as int else b as int - 256
  }

  /** The value an integer keeps when it is stored into an `int16_t`. */
  function Wrap16(x: int): (r: int)
    ensures -32768 <= r <= 32767
    ensures (r - x) % 65536 == 0
  {
    (x + 32768) % 65536 - 32768
  }

  /** Storing a value that already fits into an `int16_t` keeps it. */
  lemma Wrap16Fits(x: int)
    requires -32768 <= x <= 32767
    ensures Wrap16(x) == x
  {
  }

  function Min(a: int, b: int): int
  {
    if a <= b then a else b
  }
}
