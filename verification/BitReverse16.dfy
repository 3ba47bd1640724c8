/** Reversing 16 bits with masks and shifts, as stb_image.h does it. */
module Reverse16 {

  /** stbi__bitreverse16 */
  function BitReverse16(n: bv16): bv16 {
    var a := ((n & 0xAAAA) >> 1) | ((n & 0x5555) << 1);
    var b := ((a & 0xCCCC) >> 2) | ((a & 0x3333) << 2);
    var c := ((b & 0xF0F0) >> 4) | ((b & 0x0F0F) << 4);
    ((c & 0xFF00) >> 8) | ((c & 0x00FF) << 8)
  }

  predicate Has(n: bv16, x: bv16) { n & x != 0 }

  function With(n: bv16, x: bv16): bv16 { n | x }

  predicate OneHot(x: bv16) { x != 0 && x & (x - 1) == 0 }

  lemma WithBit(n: bv16, x: bv16, y: bv16)
    requires OneHot(x) && OneHot(y)
    ensures Has(With(n, x), y) <==> Has(n, y) || x == y
  {
    assert (n | x) & y == (n & y) | (x & y) by { Distributes(n, x, y); }
    Meet(x, y);
    OrZero(n & y, x & y);
  }

  lemma Distributes(n: bv16, x: bv16, y: bv16)
    ensures (n | x) & y == (n & y) | (x & y)
  {}

  lemma Meet(x: bv16, y: bv16)
    requires x != 0 && x & (x - 1) == 0 && y != 0 && y & (y - 1) == 0
    ensures x & y != 0 <==> x == y
  {}

  lemma OrZero(a: bv16, b: bv16)
    ensures a | b != 0 <==> a != 0 || b != 0
  {}

  // Each bit moves to its mirror place.

  lemma Bit0(n: bv16)
    ensures Has(BitReverse16(n), 0x1) <==> Has(n, 0x8000)
  {}

  lemma Bit1(n: bv16)
    ensures Has(BitReverse16(n), 0x2) <==> Has(n, 0x4000)
  {}

  lemma Bit2(n: bv16)
    ensures Has(BitReverse16(n), 0x4) <==> Has(n, 0x2000)
  {}

  lemma Bit3(n: bv16)
    ensures Has(BitReverse16(n), 0x8) <==> Has(n, 0x1000)
  {}

  lemma Bit4(n: bv16)
    ensures Has(BitReverse16(n), 0x10) <==> Has(n, 0x800)
  {}

  lemma Bit5(n: bv16)
    ensures Has(BitReverse16(n), 0x20) <==> Has(n, 0x400)
  {}

  lemma Bit6(n: bv16)
    ensures Has(BitReverse16(n), 0x40) <==> Has(n, 0x200)
  {}

  lemma Bit7(n: bv16)
    ensures Has(BitReverse16(n), 0x80) <==> Has(n, 0x100)
  {}

  lemma Bit8(n: bv16)
    ensures Has(BitReverse16(n), 0x100) <==> Has(n, 0x80)
  {}

  lemma Bit9(n: bv16)
    ensures Has(BitReverse16(n), 0x200) <==> Has(n, 0x40)
  {}

  lemma Bit10(n: bv16)
    ensures Has(BitReverse16(n), 0x400) <==> Has(n, 0x20)
  {}

  lemma Bit11(n: bv16)
    ensures Has(BitReverse16(n), 0x800) <==> Has(n, 0x10)
  {}

  lemma Bit12(n: bv16)
    ensures Has(BitReverse16(n), 0x1000) <==> Has(n, 0x8)
  {}

  lemma Bit13(n: bv16)
    ensures Has(BitReverse16(n), 0x2000) <==> Has(n, 0x4)
  {}

  lemma Bit14(n: bv16)
    ensures Has(BitReverse16(n), 0x4000) <==> Has(n, 0x2)
  {}

  lemma Bit15(n: bv16)
    ensures Has(BitReverse16(n), 0x8000) <==> Has(n, 0x1)
  {}
}
