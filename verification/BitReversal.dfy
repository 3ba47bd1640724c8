/** Reversing the order of bits, and which numbers agree in their low bits. */
module BitReversal {
  import opened Shifts
  import opened Reverse16

  function Bit(x: nat, i: nat): nat { Shr(x, i) % 2 }

  /** The low `n` bits of `x`, read as a number with the lowest bit first. */
  function Rev(x: nat, n: nat): nat {
    if n == 0 then 0 else 2 * Rev(x, n - 1) + Bit(x, n - 1)
  }

  // ---------------------------------------------------------------- words of 16 bits

  /** 1 << i */
  function Mask(i: nat): bv16
    requires i < 16
  {
    match i
    case 0 => 0x1 case 1 => 0x2 case 2 => 0x4 case 3 => 0x8
    case 4 => 0x10 case 5 => 0x20 case 6 => 0x40 case 7 => 0x80
    case 8 => 0x100 case 9 => 0x200 case 10 => 0x400 case 11 => 0x800
    case 12 => 0x1000 case 13 => 0x2000 case 14 => 0x4000 case _ => 0x8000
  }

  /** The low `n` bits of `x` as a word. */
  function Word(x: nat, n: nat): bv16
    requires n <= 16
    decreases n
  {
    if n == 0 then 0 else if Bit(x, n - 1) == 1 then With(Word(x, n - 1), Mask(n - 1)) else Word(x, n - 1)
  }

  /** The bits of a word from bit `i` on as a number. */
  function Number(w: bv16, i: nat): nat
    requires i <= 16
    decreases 16 - i
  {
    if i == 16 then 0 else (if Has(w, Mask(i)) then 1 else 0) + 2 * Number(w, i + 1)
  }

  /** stbi__bit_reverse: reverse 16 bits, and shift. */
  function BitReverse(v: nat, bits: nat): nat
    requires bits <= 16
  {
    Shr(Number(BitReverse16(Word(v, 16)), 0), 16 - bits)
  }

  lemma MasksDiffer(i: nat, j: nat)
    requires i < 16 && j < 16
    ensures OneHot(Mask(i)) && (Mask(i) == Mask(j) <==> i == j)
  {}

  lemma {:induction false} WordBit(x: nat, n: nat, i: nat)
    requires n <= 16 && i < 16
    ensures Has(Word(x, n), Mask(i)) <==> i < n && Bit(x, i) == 1
    decreases n
  {
    hide Bit, Mask, OneHot, With, Has;
    if n > 0 {
      WordBit(x, n - 1, i);
      MasksDiffer(n - 1, i);
      MasksDiffer(i, n - 1);
      WithBit(Word(x, n - 1), Mask(n - 1), Mask(i));
    } else {
      NoBits(Mask(i));
    }
  }

  lemma NoBits(x: bv16)
    ensures !Has(0, x)
  {}

  /** The mask-and-shift steps of stbi__bitreverse16 move bit `i` to bit 15 - `i`. */
  lemma BitReverse16Spec(w: bv16, i: nat)
    requires i < 16
    ensures Has(BitReverse16(w), Mask(i)) <==> Has(w, Mask(15 - i))
  {
    hide BitReverse16, Has;
    match i
    case 0 => Bit0(w);
    case 1 => Bit1(w);
    case 2 => Bit2(w);
    case 3 => Bit3(w);
    case 4 => Bit4(w);
    case 5 => Bit5(w);
    case 6 => Bit6(w);
    case 7 => Bit7(w);
    case 8 => Bit8(w);
    case 9 => Bit9(w);
    case 10 => Bit10(w);
    case 11 => Bit11(w);
    case 12 => Bit12(w);
    case 13 => Bit13(w);
    case 14 => Bit14(w);
    case _ => Bit15(w);
  }

  lemma {:induction false} ReversedFrom(x: nat, n: nat)
    requires n <= 16
    ensures Number(BitReverse16(Word(x, 16)), 16 - n) == Rev(x, n)
  {
    hide Bit, Mask, BitReverse16, Has, Word;
    if n > 0 {
      ReversedFrom(x, n - 1);
      BitReverse16Spec(Word(x, 16), 16 - n);
      WordBit(x, 16, n - 1);
      BitIsBit(x, n - 1);
    }
  }

  lemma BitIsBit(x: nat, i: nat)
    ensures Bit(x, i) == 0 || Bit(x, i) == 1
  {}

  /** Reversing and shifting gives the low bits in reverse. */
  lemma BitReverseIs(v: nat, bits: nat)
    requires bits <= 16
    ensures BitReverse(v, bits) == Rev(v, bits)
  {
    hide Rev, Number, Word, BitReverse16, Bit;
    ReversedFrom(v, 16);
    RevPrefix(v, 16, bits);
  }

  lemma {:induction false} RevPrefix(x: nat, n: nat, m: nat)
    requires m <= n
    ensures Shr(Rev(x, n), n - m) == Rev(x, m)
    decreases n
  {
    if m < n { RevPrefix(x, n - 1, m); }
  }

  lemma {:induction false} RevBound(x: nat, n: nat)
    ensures Rev(x, n) < Shl(1, n)
  {
    if n > 0 { RevBound(x, n - 1); }
  }

  lemma {:induction false} RevCons(x: nat, n: nat)
    requires n > 0
    ensures Rev(x, n) == Shl(x % 2, n - 1) + Rev(x / 2, n - 1)
  {
    if n > 1 { RevCons(x, n - 1); }
  }

  /** Higher bits do not matter. */
  lemma {:induction false} RevLow(r: nat, q: nat, k: nat, n: nat)
    requires n <= k
    ensures Rev(r + Shl(q, k), n) == Rev(r, n)
    decreases n
  {
    if n > 0 {
      RevLow(r, q, k, n - 1);
      LowBits(r, q, k, n - 1);
    }
  }

  lemma {:induction false} ShrSum(r: nat, q: nat, k: nat)
    requires r < Shl(1, k)
    ensures Shr(r + Shl(q, k), k) == q
    decreases k
  {
    if k > 0 {
      assert (r + Shl(q, k)) / 2 == r / 2 + Shl(q, k - 1);
      ShrSum(r / 2, q, k - 1);
    }
  }

  /** Reversing twice gives the number back. */
  lemma {:induction false} RevTwice(x: nat, n: nat)
    requires x < Shl(1, n)
    ensures Rev(Rev(x, n), n) == x
    decreases n
  {
    if n > 0 {
      var b, r := x % 2, Rev(x / 2, n - 1);
      RevCons(x, n);
      RevTwice(x / 2, n - 1);
      RevBound(x / 2, n - 1);
      RevLow(r, b, n - 1, n - 1);
      ShrSum(r, b, n - 1);
    }
  }

  // ---------------------------------------------------------------- agreeing in low bits

  ghost predicate LowEq(a: nat, b: nat, n: nat)
    decreases n
  {
    n == 0 || (a % 2 == b % 2 && LowEq(a / 2, b / 2, n - 1))
  }

  lemma {:induction false} RevEqLow(a: nat, b: nat, n: nat)
    ensures Rev(a, n) == Rev(b, n) <==> LowEq(a, b, n)
    decreases n
  {
    if n > 0 {
      RevCons(a, n);
      RevCons(b, n);
      RevBound(a / 2, n - 1);
      RevBound(b / 2, n - 1);
      RevEqLow(a / 2, b / 2, n - 1);
      ShlZero(n - 1);
    }
  }

  lemma {:induction false} ShlZero(n: nat)
    ensures Shl(0, n) == 0
  {
    if n > 0 { ShlZero(n - 1); }
  }

  /** Different numbers that agree in `n` bits are at least 2^n apart. */
  lemma {:induction false} LowGap(a: nat, b: nat, n: nat)
    requires LowEq(a, b, n) && a < b
    ensures b >= a + Shl(1, n)
    decreases n
  {
    if n > 0 { LowGap(a / 2, b / 2, n - 1); }
  }

  lemma {:induction false} LowNext(a: nat, n: nat)
    ensures LowEq(a, a + Shl(1, n), n)
    decreases n
  {
    if n > 0 {
      assert (a + Shl(1, n)) / 2 == a / 2 + Shl(1, n - 1);
      LowNext(a / 2, n - 1);
    }
  }

  /** The numbers that start with the reversed code, in steps of 2^n. */
  lemma RevSteps(code: nat, n: nat, j: nat)
    requires Rev(j, n) == code
    ensures Rev(j + Shl(1, n), n) == code
    ensures forall i | j < i < j + Shl(1, n) :: Rev(i, n) != code
  {
    LowNext(j, n);
    RevEqLow(j, j + Shl(1, n), n);
    forall i | j < i < j + Shl(1, n)
      ensures Rev(i, n) != code
    {
      RevEqLow(j, i, n);
      if LowEq(j, i, n) { LowGap(j, i, n); }
    }
  }

  lemma RevStart(code: nat, n: nat)
    requires code < Shl(1, n) && n <= 16
    ensures BitReverse(code, n) == Rev(code, n) < Shl(1, n) && Rev(Rev(code, n), n) == code
    ensures forall i: nat | i < Rev(code, n) :: Rev(i, n) != code
  {
    BitReverseIs(code, n);
    RevBound(code, n);
    RevTwice(code, n);
    forall i: nat | i < Rev(code, n)
      ensures Rev(i, n) != code
    {
      RevEqLow(i, Rev(code, n), n);
      if LowEq(i, Rev(code, n), n) { LowGap(i, Rev(code, n), n); }
    }
  }
}
