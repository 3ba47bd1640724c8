/** The 32-bit bin maps of lj_alloc.c: one bit for each bin. */
module BinMaps {
  import opened BitWords

  /** idx2bit(i); nothing is left of the bit when it is shifted out. */
  function Idx2Bit(i: nat): bv32 { if i == 0 then 1 else Twice(Idx2Bit(i - 1)) }

  /** treemap_is_marked and smallmap_is_marked */
  predicate Marked(m: bv32, i: nat) { Has(m, Idx2Bit(i)) }

  /** The bins that a map marks. */
  ghost function Bins(m: bv32): (s: set<nat>)
    ensures forall i: nat :: (i in s <==> i < 32 && Marked(m, i))
  {
    set i: nat | i < 32 && Marked(m, i)
  }

  /** m >> i and m << i, bit by bit. */
  function ShiftRight(m: bv32, i: nat): bv32
    decreases i
  {
    if i == 0 then m else ShiftRight(Half(m), i - 1)
  }

  function ShiftLeft(m: bv32, i: nat): bv32
    decreases i
  {
    if i == 0 then m else ShiftLeft(Twice(m), i - 1)
  }

  /** lj_ffs */
  function Ffs(m: bv32): nat
    requires m != 0
    decreases m
  {
    if Odd(m) then 0
    else
      HalfLess(m);
      1 + Ffs(Half(m))
  }

  // ---------------------------------------------------------------- single bits

  lemma {:induction false} NoBit(i: nat)
    requires i >= 32
    ensures Idx2Bit(i) == 0
  {
    if i > 32 {
      NoBit(i - 1);
    } else {
      TopBit();
    }
  }

  lemma TopBit()
    ensures Idx2Bit(31) == 0x8000_0000
  {
    assert Idx2Bit(4) == 0x10;
    assert Idx2Bit(8) == 0x100;
    assert Idx2Bit(12) == 0x1000;
    assert Idx2Bit(16) == 0x1_0000;
    assert Idx2Bit(20) == 0x10_0000;
    assert Idx2Bit(24) == 0x100_0000;
    assert Idx2Bit(28) == 0x1000_0000;
  }

  lemma {:induction false} SomeBit(i: nat)
    requires i < 32
    ensures Idx2Bit(i) != 0
    decreases 32 - i
  {
    if i < 31 { SomeBit(i + 1); } else { TopBit(); }
  }

  lemma {:induction false} OneBit(i: nat)
    requires i < 32
    ensures OneHot(Idx2Bit(i))
  {
    if i > 0 {
      OneBit(i - 1);
      SomeBit(i);
      ShiftedHot(Idx2Bit(i - 1));
    }
  }

  lemma {:induction false} BitOrder(i: nat, j: nat)
    requires i < j < 32
    ensures Below(Idx2Bit(i), Idx2Bit(j))
    decreases j
  {
    hide OneHot, Below, Twice;
    OneBit(j - 1);
    SomeBit(j);
    ShiftedHot(Idx2Bit(j - 1));
    if i < j - 1 {
      BitOrder(i, j - 1);
      BelowOrder(Idx2Bit(i), Idx2Bit(j - 1), Idx2Bit(j));
    }
  }

  lemma BitsDiffer(i: nat, j: nat)
    requires i < 32 && j < 32
    ensures OneHot(Idx2Bit(i)) && OneHot(Idx2Bit(j))
    ensures (Idx2Bit(i) == Idx2Bit(j) <==> i == j) && (Below(Idx2Bit(i), Idx2Bit(j)) <==> i < j)
  {
    hide OneHot, Below, Idx2Bit;
    OneBit(i);
    OneBit(j);
    BelowOrder(Idx2Bit(i), Idx2Bit(j), Idx2Bit(i));
    BelowOrder(Idx2Bit(j), Idx2Bit(i), Idx2Bit(j));
    if i < j { BitOrder(i, j); }
    if j < i { BitOrder(j, i); }
  }

  // ---------------------------------------------------------------- the maps as sets of bins

  lemma MarkOne(m: bv32, i: nat, j: nat)
    requires i < 32 && j < 32
    ensures Marked(Mark(m, Idx2Bit(i)), j) <==> Marked(m, j) || i == j
    ensures Marked(Clear(m, Idx2Bit(i)), j) <==> Marked(m, j) && i != j
    ensures Marked(Common(LeftBits(Idx2Bit(i)), m), j) <==> Marked(m, j) && j > i
  {
    hide Idx2Bit, OneHot, LeftBits, Below, Mark, Clear, Common, Has;
    BitsDiffer(i, j);
    MarkBit(m, Idx2Bit(i), Idx2Bit(j));
    ClearBit(m, Idx2Bit(i), Idx2Bit(j));
    LeftOfBit(m, Idx2Bit(i), Idx2Bit(j));
  }

  lemma SameBins(m: bv32, s: set<nat>)
    requires forall j: nat :: (j in s <==> j < 32 && Marked(m, j))
    ensures Bins(m) == s
  {
    hide Marked;
  }

  /** mark_treemap and mark_smallmap add one bin, clear_treemap and clear_smallmap remove one. */
  lemma MarkSpec(m: bv32, i: nat)
    requires i < 32
    ensures Bins(Mark(m, Idx2Bit(i))) == Bins(m) + {i} && Bins(Clear(m, Idx2Bit(i))) == Bins(m) - {i}
    ensures Marked(m, i) <==> i in Bins(m)
  {
    hide Idx2Bit, Marked, Mark, Clear;
    var more, less := Mark(m, Idx2Bit(i)), Clear(m, Idx2Bit(i));
    forall j: nat | j < 32
      ensures (Marked(more, j) <==> Marked(m, j) || i == j) && (Marked(less, j) <==> Marked(m, j) && i != j)
    {
      MarkOne(m, i, j);
    }
    SameBins(more, Bins(m) + {i});
    SameBins(less, Bins(m) - {i});
  }

  /** left_bits(idx2bit(i)) & map keeps exactly the marked bins above bin i. */
  lemma LeftBitsSpec(m: bv32, i: nat)
    requires i < 32
    ensures Bins(Common(LeftBits(Idx2Bit(i)), m)) == set j | j in Bins(m) && j > i
  {
    hide Idx2Bit, LeftBits, Marked, Common;
    var left := Common(LeftBits(Idx2Bit(i)), m);
    forall j: nat | j < 32
      ensures Marked(left, j) <==> Marked(m, j) && j > i
    {
      MarkOne(m, i, j);
    }
    SameBins(left, set j | j in Bins(m) && j > i);
  }

  lemma NextBit(i: nat)
    ensures Idx2Bit(i + 1) == Twice(Idx2Bit(i)) && Idx2Bit(0) == 1 && Idx2Bit(1) == Twice(1)
  {
    hide Twice;
    assert Idx2Bit(0) == 1;
  }

  lemma RightOne(m: bv32, i: nat)
    ensures Marked(Half(m), i) <==> Marked(m, i + 1)
  {
    hide Idx2Bit, Has, Half, Twice, OneHot;
    HalfTwice(m, Idx2Bit(i));
    NextBit(i);
  }

  lemma LeftOne(m: bv32, i: nat)
    requires i < 32
    ensures Marked(Twice(m), i) <==> i > 0 && Marked(m, i - 1)
  {
    hide Idx2Bit, Has, Half, Twice, OneHot;
    NextBit(0);
    TwiceFirst(m);
    if i > 0 {
      SomeBit(i);
      OneBit(i - 1);
      NextBit(i - 1);
      TwiceTwice(m, Idx2Bit(i - 1));
    }
  }

  lemma {:induction false} RightSpec(m: bv32, i: nat, j: nat)
    ensures Marked(ShiftRight(m, i), j) <==> Marked(m, i + j)
    decreases i
  {
    hide Marked, Half;
    if i > 0 {
      RightSpec(Half(m), i - 1, j);
      RightOne(m, i - 1 + j);
    }
  }

  lemma {:induction false} LeftSpec(m: bv32, i: nat, j: nat)
    requires j < 32
    ensures Marked(ShiftLeft(m, i), j) <==> j >= i && Marked(m, j - i)
    decreases i
  {
    hide Marked, Twice;
    if i > 0 {
      LeftSpec(Twice(m), i - 1, j);
      if j >= i - 1 { LeftOne(m, j - (i - 1)); }
    }
  }

  lemma NotBeyond(m: bv32, i: nat)
    requires Marked(m, i)
    ensures i < 32
  {
    if i >= 32 { NoBit(i); }
  }

  /** A map is zero exactly when it marks nothing, and lj_ffs finds the lowest bin. */
  lemma {:induction false} FfsSpec(m: bv32)
    requires m != 0
    ensures Ffs(m) in Bins(m) && forall j | j in Bins(m) :: Ffs(m) <= j
    decreases m
  {
    hide Marked, Half, Odd;
    FirstBits(m);
    if !Odd(m) {
      HalfLess(m);
      FfsSpec(Half(m));
      RightOne(m, Ffs(Half(m)));
      NotBeyond(m, Ffs(Half(m)) + 1);
      forall j | j in Bins(m)
        ensures Ffs(m) <= j
      {
        if j > 0 { RightOne(m, j - 1); }
      }
    }
  }

  lemma FirstBits(m: bv32)
    ensures (Marked(m, 0) <==> Odd(m)) && (Low2(m) <==> Marked(m, 0) || Marked(m, 1))
  {
    hide Twice, Has, Idx2Bit, Odd, Low2;
    NextBit(0);
    SmallWords(m);
  }

  lemma NoneMarked(i: nat)
    ensures !Marked(0, i)
  {}

  lemma EmptySpec(m: bv32)
    ensures m == 0 <==> Bins(m) == {}
  {
    hide Marked;
    if m != 0 { FfsSpec(m); }
    forall i: nat
      ensures !Marked(0, i)
    {
      NoneMarked(i);
    }
  }

  // ---------------------------------------------------------------- the small map

  /** What malloc makes of smallmap >> idx. */
  lemma SmallBits(m: bv32, i: nat)
    requires i < 32
    ensures var bits := ShiftRight(m, i);
      && (Low2(bits) <==> i in Bins(m) || i + 1 in Bins(m))
      && (Odd(bits) <==> i in Bins(m))
      && (bits != 0 <==> exists j :: j in Bins(m) && j >= i)
      && Bins(Common(ShiftLeft(bits, i), LeftBits(Idx2Bit(i)))) == set j | j in Bins(m) && j > i
  {
    hide Marked, Idx2Bit, LeftBits, ShiftLeft, ShiftRight, Common, Odd, Low2;
    var bits := ShiftRight(m, i);
    FirstBits(bits);
    RightSpec(m, i, 0);
    RightSpec(m, i, 1);
    if Marked(m, i + 1) { NotBeyond(m, i + 1); }
    NonZeroAbove(m, i);
    LeftAbove(m, i);
  }

  lemma NonZeroAbove(m: bv32, i: nat)
    ensures ShiftRight(m, i) != 0 <==> exists j :: j in Bins(m) && j >= i
  {
    hide Marked, ShiftRight;
    var bits := ShiftRight(m, i);
    EmptySpec(bits);
    if bits != 0 {
      var j :| j in Bins(bits);
      RightSpec(m, i, j);
      NotBeyond(m, i + j);
      assert i + j in Bins(m);
    }
    if j :| j in Bins(m) && j >= i {
      RightSpec(m, i, j - i);
      assert j - i in Bins(bits);
    }
  }

  lemma LeftAbove(m: bv32, i: nat)
    requires i < 32
    ensures Bins(Common(ShiftLeft(ShiftRight(m, i), i), LeftBits(Idx2Bit(i)))) == set j | j in Bins(m) && j > i
  {
    hide Marked, Idx2Bit, LeftBits, ShiftLeft, ShiftRight, Common;
    var back := ShiftLeft(ShiftRight(m, i), i);
    LeftBitsSpec(back, i);
    Swapped(back, LeftBits(Idx2Bit(i)));
    forall j: nat | j < 32 && j > i
      ensures j in Bins(back) <==> j in Bins(m)
    {
      LeftSpec(ShiftRight(m, i), i, j);
      RightSpec(m, i, j - i);
    }
  }
}
