/** Shifting natural numbers right and left, without division by variables. */
module Shifts {

  /** x >> k */
  function Shr(x: nat, k: nat): nat
    decreases k
  {
    if k == 0 then x else Shr(x / 2, k - 1)
  }

  lemma {:induction false} ShrStep(x: nat, k: nat)
    ensures Shr(x, k + 1) == Shr(x, k) / 2
    decreases k
  {
    if k > 0 { ShrStep(x / 2, k - 1); }
  }

  lemma {:induction false} ShrAdd(x: nat, k: nat, m: nat)
    ensures Shr(x, k + m) == Shr(Shr(x, k), m)
    decreases k
  {
    if k > 0 { ShrAdd(x / 2, k - 1, m); }
  }

  lemma {:induction false} ShrLess(x: nat, y: nat, k: nat)
    requires Shr(x, k) < Shr(y, k)
    ensures x < y
    decreases k
  {
    if k > 0 { ShrLess(x / 2, y / 2, k - 1); }
  }

  /** What is left after a shift was at least twice as large one bit earlier. */
  lemma {:induction false} ShrAtLeast(x: nat, k: nat)
    requires k > 0 && Shr(x, k) >= 1
    ensures x >= 2
    decreases k
  {
    if k > 1 { ShrAtLeast(x / 2, k - 1); }
  }

  lemma ShrEight(x: nat)
    ensures Shr(x, 7) == x / 0x80 && Shr(x, 8) == x / 0x100
  {
    assert Shr(x, 3) == x / 8;
    ShrAdd(x, 3, 4);
    assert Shr(x / 8, 4) == x / 8 / 16;
    ShrStep(x, 7);
  }

  lemma Shr24(x: nat)
    ensures Shr(x, 16) == x / 0x1_0000 && Shr(x, 24) == x / 0x100_0000
  {
    hide Shr;
    ShrEight(x);
    ShrAdd(x, 8, 8);
    ShrEight(x / 0x100);
    ShrAdd(x, 16, 8);
    ShrEight(x / 0x1_0000);
  }

  lemma Shr48(x: nat)
    ensures Shr(x, 48) == x / 0x1_0000_0000_0000
  {
    Shr24(x);
    ShrAdd(x, 24, 24);
    Shr24(x / 0x100_0000);
  }

  lemma Shr63(x: nat)
    ensures Shr(x, 63) == x / 0x8000_0000_0000_0000
    ensures Shr(x, 64) == x / 0x1_0000_0000_0000_0000
  {
    var y := x / 0x1_0000_0000_0000;
    Shr48(x);
    ShrAdd(x, 48, 15);
    ShrAdd(y, 8, 7);
    ShrEight(y);
    ShrEight(y / 0x100);
    ShrStep(x, 63);
  }

  /** The low `n` bits of `x`: x & ((1 << n) - 1). */
  function Low(x: nat, n: nat): nat
    decreases n
  {
    if n == 0 then 0 else x % 2 + 2 * Low(x / 2, n - 1)
  }

  /** q << k, unbounded */
  function Shl(q: nat, k: nat): nat {
    if k == 0 then q else 2 * Shl(q, k - 1)
  }

  lemma {:induction false} ShlAdd(q: nat, k: nat, m: nat)
    ensures Shl(q, k + m) == Shl(Shl(q, k), m)
  {
    if m > 0 { ShlAdd(q, k, m - 1); }
  }

  lemma ShlSeven(q: nat)
    ensures Shl(q, 7) == 0x80 * q
  {
    ShlAdd(q, 1, 1);
    ShlAdd(q, 2, 1);
    ShlAdd(q, 3, 1);
    ShlAdd(q, 4, 1);
    ShlAdd(q, 5, 1);
    ShlAdd(q, 6, 1);
  }

  lemma Shl21(q: nat)
    ensures Shl(q, 21) == 0x20_0000 * q
  {
    ShlSeven(q);
    ShlAdd(q, 7, 7);
    ShlSeven(0x80 * q);
    ShlAdd(q, 14, 7);
    ShlSeven(0x4000 * q);
  }

  lemma Shl63(q: nat)
    ensures Shl(q, 63) == 0x8000_0000_0000_0000 * q
  {
    Shl21(q);
    ShlAdd(q, 21, 21);
    Shl21(0x20_0000 * q);
    ShlAdd(q, 42, 21);
    Shl21(0x400_0000_0000 * q);
  }

  /** Bits below position k are not touched by adding a multiple of 2^k. */
  lemma {:induction false} LowBits(a: nat, q: nat, k: nat, j: nat)
    requires j < k
    ensures Shr(a + Shl(q, k), j) % 2 == Shr(a, j) % 2
    decreases j
  {
    assert (a + Shl(q, k)) / 2 == a / 2 + Shl(q, k - 1);
    if j > 0 { LowBits(a / 2, q, k - 1, j - 1); }
  }
}
