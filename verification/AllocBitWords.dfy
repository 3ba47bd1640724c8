/** Words of 32 bits, and single bits in them. */
module BitWords {
  function Twice(x: bv32): bv32 { x << 1 }

  function Half(x: bv32): bv32 { x >> 1 }

  predicate Has(m: bv32, x: bv32) { m & x != 0 }

  /** mark_treemap and mark_smallmap */
  function Mark(m: bv32, x: bv32): bv32 { m | x }

  /** clear_treemap and clear_smallmap */
  function Clear(m: bv32, x: bv32): bv32 { m & !x }

  function Common(m: bv32, x: bv32): bv32 { m & x }

  /** left_bits(x): all bits to the left of the least bit of `x`. */
  function LeftBits(x: bv32): bv32 { (x << 1) | (!(x << 1) + 1) }

  predicate OneHot(x: bv32) { x != 0 && x & (x - 1) == 0 }

  lemma ShiftedHot(x: bv32)
    requires OneHot(x) && Twice(x) != 0
    ensures OneHot(Twice(x)) && Below(x, Twice(x))
  {}

  predicate Below(x: bv32, y: bv32) { x < y }

  lemma BelowOrder(x: bv32, y: bv32, z: bv32)
    ensures Below(x, y) && Below(y, z) ==> Below(x, z)
    ensures Below(x, y) ==> x != y && !Below(y, x)
  {}

  lemma MarkBit(m: bv32, x: bv32, y: bv32)
    requires OneHot(x) && OneHot(y)
    ensures Has(Mark(m, x), y) <==> Has(m, y) || x == y
  {
    assert (m | x) & y == (m & y) | (x & y) by { Distributes(m, x, y); }
    Meet(x, y);
    OrZero(m & y, x & y);
  }

  lemma Distributes(m: bv32, x: bv32, y: bv32)
    ensures (m | x) & y == (m & y) | (x & y)
  {}

  lemma Meet(x: bv32, y: bv32)
    requires x != 0 && x & (x - 1) == 0 && y != 0 && y & (y - 1) == 0
    ensures x & y != 0 <==> x == y
  {}

  lemma OrZero(a: bv32, b: bv32)
    ensures a | b != 0 <==> a != 0 || b != 0
  {}

  lemma ClearBit(m: bv32, x: bv32, y: bv32)
    requires OneHot(x) && OneHot(y)
    ensures Has(Clear(m, x), y) <==> Has(m, y) && x != y
  {
    Meet(x, y);
    if x == y { Gone(m, x); } else { Stays(m, x, y); }
  }

  lemma Gone(m: bv32, x: bv32)
    ensures (m & !x) & x == 0
  {}

  lemma Stays(m: bv32, x: bv32, y: bv32)
    requires x & y == 0
    ensures (m & !x) & y == m & y
  {}

  lemma LeftOfBit(m: bv32, x: bv32, y: bv32)
    requires OneHot(x) && OneHot(y)
    ensures Has(Common(LeftBits(x), m), y) <==> Below(x, y) && Has(m, y)
  {
    LeftMeet(x, y);
    Whole(LeftBits(x), y);
    CommonMeet(LeftBits(x), m, y);
  }

  lemma LeftMeet(x: bv32, y: bv32)
    requires x != 0 && x & (x - 1) == 0 && y != 0 && y & (y - 1) == 0
    ensures LeftBits(x) & y != 0 <==> x < y
  {}

  lemma Whole(a: bv32, y: bv32)
    requires y != 0 && y & (y - 1) == 0
    ensures a & y == 0 || a & y == y
  {}

  lemma CommonMeet(a: bv32, m: bv32, y: bv32)
    ensures (a & m) & y == (a & y) & m
    ensures y & m == m & y
  {}

  lemma HalfTwice(m: bv32, x: bv32)
    ensures Has(Half(m), x) <==> Has(m, Twice(x))
  {}

  lemma TwiceTwice(m: bv32, x: bv32)
    requires OneHot(x)
    ensures Twice(x) != 0 ==> (Has(Twice(m), Twice(x)) <==> Has(m, x))
  {}

  lemma TwiceFirst(m: bv32)
    ensures !Has(Twice(m), 1)
  {}

  predicate Odd(m: bv32) { m & 1 != 0 }

  predicate Low2(m: bv32) { m & 3 != 0 }

  lemma SmallWords(m: bv32)
    ensures (Has(m, 1) <==> Odd(m)) && (Low2(m) <==> Has(m, 1) || Has(m, Twice(1)))
  {}

  lemma HalfLess(m: bv32)
    requires m != 0 && !Odd(m)
    ensures Half(m) != 0 && Half(m) < m
  {}

  lemma Swapped(x: bv32, y: bv32)
    ensures Common(x, y) == Common(y, x)
  {}
}
