/** stbi__zhuffman: the tables stb_image.h builds from a list of code lengths, and the proof
    that they say the same as the canonical code. */
module HuffmanTable {
  import opened Shifts
  import opened BitReversal
  import opened HuffmanCode

  const FAST_BITS := 9
  const FAST_SIZE := 512

  // ---------------------------------------------------------------- where the tables agree

  /** The place of a symbol in the list sorted by code. */
  function Slot(L: Lengths, sym: nat): nat
    requires sym < |L|
  {
    FirstSymbol(L, L[sym]) + CountUpTo(L, sym, L[sym])
  }

  /** The low bits of `j`, in stream order, are the codeword of `sym`, and it is short. */
  ghost predicate FastMatch(L: Lengths, j: nat, sym: nat) {
    sym < |L| && 0 < L[sym] <= FAST_BITS && Rev(j, L[sym]) == Code(L, sym)
  }

  /** An entry of the fast table, when the first `n` symbols have been entered. */
  ghost predicate FastEntry(L: Lengths, v: nat, j: nat, n: nat) {
    if v == 0 then forall sym: nat | sym < n :: !FastMatch(L, j, sym)
    else v % 512 < n && FastMatch(L, j, v % 512) && v / 512 == L[v % 512]
  }

  ghost predicate FastUpTo(L: Lengths, fast: seq<nat>, n: nat) {
    |fast| == FAST_SIZE && forall j: nat {:trigger FastEntry(L, fast[j], j, n)} | j < FAST_SIZE :: FastEntry(L, fast[j], j, n)
  }

  ghost predicate SlotFilled(L: Lengths, size: seq<nat>, value: seq<nat>, sym: nat)
    requires sym < |L|
  {
    L[sym] > 0 ==> Slot(L, sym) < |size| == |value| && size[Slot(L, sym)] == L[sym] && value[Slot(L, sym)] == sym
  }

  ghost predicate SlotsUpTo(L: Lengths, size: seq<nat>, value: seq<nat>, n: nat) {
    n <= |L| && forall sym: nat {:trigger SlotFilled(L, size, value, sym)} | sym < n :: SlotFilled(L, size, value, sym)
  }

  /** The per-length tables, for lengths below `n`. */
  ghost predicate LengthsUpTo(L: Lengths, firstcode: seq<nat>, firstsymbol: seq<nat>, maxcode: seq<nat>, n: nat) {
    && |firstcode| == 16 && |firstsymbol| == 16 && |maxcode| == 17 && n <= 16
    && forall s: nat | 1 <= s < n :: firstcode[s] == First(L, s) && firstsymbol[s] == FirstSymbol(L, s) && maxcode[s] == MaxCode(L, s)
  }

  // ---------------------------------------------------------------- places

  /** How many of the first `n` symbols have codes of fewer than `s` bits. */
  function Shorter(L: Lengths, n: nat, s: nat): nat
    requires n <= |L|
  {
    if s <= 1 then 0 else Shorter(L, n, s - 1) + CountUpTo(L, n, s - 1)
  }

  lemma {:induction false} ShorterStep(L: Lengths, n: nat, s: nat)
    requires n < |L|
    ensures Shorter(L, n + 1, s) == Shorter(L, n, s) + if 0 < L[n] < s then 1 else 0
    decreases s
  {
    if s > 1 { ShorterStep(L, n, s - 1); }
  }

  lemma {:induction false} ShorterBound(L: Lengths, n: nat, s: nat)
    requires n <= |L|
    ensures Shorter(L, n, s) <= n
    decreases n
  {
    if n == 0 {
      ShorterNone(L, s);
    } else {
      ShorterStep(L, n - 1, s);
      ShorterBound(L, n - 1, s);
    }
  }

  lemma {:induction false} ShorterNone(L: Lengths, s: nat)
    ensures Shorter(L, 0, s) == 0
  {
    if s > 1 { ShorterNone(L, s - 1); }
  }

  lemma {:induction false} FirstSymbolShorter(L: Lengths, s: nat)
    ensures FirstSymbol(L, s) == Shorter(L, |L|, s)
  {
    if s > 0 { FirstSymbolShorter(L, s - 1); }
  }

  lemma {:induction false} FirstSymbolOrder(L: Lengths, s: nat, r: nat)
    requires s < r
    ensures FirstSymbol(L, s) + Count(L, s) <= FirstSymbol(L, r)
    decreases r
  {
    if s < r - 1 { FirstSymbolOrder(L, s, r - 1); }
  }

  lemma SlotBound(L: Lengths, sym: nat)
    requires Proper(L) && sym < |L| && L[sym] > 0
    ensures Slot(L, sym) < FirstSymbol(L, L[sym]) + Count(L, L[sym]) <= |L|
  {
    CountOrder(L, sym, |L|, L[sym]);
    FirstSymbolOrder(L, L[sym], 16);
    FirstSymbolShorter(L, 16);
    ShorterBound(L, |L|, 16);
  }

  lemma SlotsDiffer(L: Lengths, a: nat, b: nat)
    requires Proper(L) && a < b < |L| && L[a] > 0 && L[b] > 0
    ensures Slot(L, a) != Slot(L, b)
  {
    CountOrder(L, a, |L|, L[a]);
    CountOrder(L, b, |L|, L[b]);
    if L[a] == L[b] {
      CountOrder(L, a, b, L[a]);
    } else if L[a] < L[b] {
      FirstSymbolOrder(L, L[a], L[b]);
    } else {
      FirstSymbolOrder(L, L[b], L[a]);
    }
  }

  // ---------------------------------------------------------------- entering one symbol

  /** At most one short codeword matches. */
  lemma FastUnique(L: Lengths, j: nat, a: nat, b: nat)
    requires FastMatch(L, j, a) && FastMatch(L, j, b)
    ensures a == b
  {
    RevPrefix(j, 16, L[a]);
    RevPrefix(j, 16, L[b]);
    PrefixFree(L, Rev(j, 16), a, b);
  }

  /** One more symbol, when exactly the matching entries have been set; none of them was in use. */
  lemma FastStep(L: Lengths, fast: seq<nat>, fast': seq<nat>, n: nat)
    requires FastUpTo(L, fast, n) && n < |L| <= 288 && |fast'| == FAST_SIZE
    requires forall j: nat | j < FAST_SIZE :: fast'[j] == if FastMatch(L, j, n) then L[n] * 512 + n else fast[j]
    ensures FastUpTo(L, fast', n + 1) && forall j: nat | j < FAST_SIZE && FastMatch(L, j, n) :: fast[j] == 0
  {
    forall j: nat | j < FAST_SIZE
      ensures FastEntry(L, fast'[j], j, n + 1) && (FastMatch(L, j, n) ==> fast[j] == 0)
    {
      assert FastEntry(L, fast[j], j, n);
      if FastMatch(L, j, n) && fast[j] != 0 { FastUnique(L, j, n, fast[j] % 512); }
      if FastMatch(L, j, n) {
        assert fast'[j] % 512 == n && fast'[j] / 512 == L[n];
      }
    }
  }

  lemma SlotStep(L: Lengths, size: seq<nat>, value: seq<nat>, n: nat)
    requires Proper(L) && SlotsUpTo(L, size, value, n) && n < |L| && L[n] > 0 && |size| == |value| == 288
    ensures Slot(L, n) < 288
    ensures SlotsUpTo(L, size[Slot(L, n) := L[n]], value[Slot(L, n) := n], n + 1)
  {
    SlotBound(L, n);
    var size', value' := size[Slot(L, n) := L[n]], value[Slot(L, n) := n];
    forall sym: nat | sym < n + 1
      ensures SlotFilled(L, size', value', sym)
    {
      if sym < n {
        assert SlotFilled(L, size, value, sym);
        if L[sym] > 0 { SlotsDiffer(L, sym, n); }
      }
    }
  }

  // ---------------------------------------------------------------- the tables

  class Huffman {
    const fast: array<nat>
    const firstcode: array<nat>
    const maxcode: array<nat>
    const firstsymbol: array<nat>
    const size: array<nat>
    const value: array<nat>

    constructor ()
      ensures Shaped() && fresh(fast) && fresh(firstcode) && fresh(maxcode) && fresh(firstsymbol) && fresh(size) && fresh(value)
    {
      fast := new nat[FAST_SIZE];
      firstcode := new nat[16];
      maxcode := new nat[17];
      firstsymbol := new nat[16];
      size := new nat[288];
      value := new nat[288];
    }

    ghost function Arrays(): set<array<nat>> { {fast, firstcode, maxcode, firstsymbol, size, value} }

    ghost predicate Shaped() {
      && fast.Length == FAST_SIZE && firstcode.Length == 16 && maxcode.Length == 17 && firstsymbol.Length == 16
      && size.Length == 288 && value.Length == 288
      && fast !in {firstcode, maxcode, firstsymbol, size, value} && firstcode !in {maxcode, firstsymbol, size, value}
      && maxcode !in {firstsymbol, size, value} && firstsymbol !in {size, value} && size != value
    }

    /** The tables say what the canonical code of `L` says. */
    ghost predicate TablesFor(L: Lengths)
      reads fast, firstcode, maxcode, firstsymbol, size, value
    {
      && Shaped() && Proper(L) && FastUpTo(L, fast[..], |L|) && SlotsUpTo(L, size[..], value[..], |L|)
      && LengthsUpTo(L, firstcode[..], firstsymbol[..], maxcode[..], 16) && maxcode[16] == 0x1_0000
    }

    /** The inner loop over the fast table: all entries whose low bits are the code. */
    method FillFast(s: nat, code: nat, fastv: nat)
      requires Shaped() && 0 < s <= FAST_BITS && code < Shl(1, s)
      modifies fast
      ensures forall j: nat | j < FAST_SIZE :: fast[j] == if Rev(j, s) == code then fastv else old(fast[j])
    {
      hide BitReverse, Rev, Shl;
      var j := BitReverse(code, s);
      RevStart(code, s);
      while j < FAST_SIZE
        invariant Rev(j, s) == code
        invariant forall m: nat | m < FAST_SIZE :: fast[m] == if m < j && Rev(m, s) == code then fastv else old(fast[m])
        decreases FAST_SIZE - j
      {
        fast[j] := fastv;
        RevSteps(code, s, j);
        j := j + Shl(1, s);
      }
    }

    /** The first loop: how many symbols have each length. */
    method CountLengths(L: Lengths) returns (sizes: array<nat>)
      requires Proper(L)
      ensures fresh(sizes) && sizes.Length == 17 && forall s: nat | s < 16 :: sizes[s] == Count(L, s)
    {
      sizes := new nat[17](_ => 0);
      for i := 0 to |L|
        invariant forall s: nat | s < 16 :: sizes[s] == CountUpTo(L, i, s)
      {
        sizes[L[i]] := sizes[L[i]] + 1;
      }
      sizes[0] := 0;
    }

    method WriteFirst(nextCode: array<nat>, i: nat, code: nat, k: nat)
      requires Shaped() && nextCode !in Arrays() && nextCode.Length == 16 && i < 16
      modifies firstcode, firstsymbol, nextCode
      ensures firstcode[..] == old(firstcode[..])[i := Cast16(code)] && firstsymbol[..] == old(firstsymbol[..])[i := Cast16(k)]
      ensures nextCode[..] == old(nextCode[..])[i := code]
    {
      nextCode[i] := code;
      firstcode[i] := Cast16(code);
      firstsymbol[i] := Cast16(k);
    }

    method WriteMax(i: nat, code: nat)
      requires Shaped() && i < 16
      modifies maxcode
      ensures maxcode[..] == old(maxcode[..])[i := Shl(code, 16 - i)]
    {
      maxcode[i] := Shl(code, 16 - i);
    }

    method WriteSlot(c: nat, s: nat, i: nat)
      requires Shaped() && c < 288
      modifies size, value
      ensures size[..] == old(size[..])[c := s] && value[..] == old(value[..])[c := i]
    {
      size[c] := s;
      value[c] := i;
    }

    /** One round of the loop that assigns the first codes. */
    method AssignLength(L: Lengths, count: nat, nextCode: array<nat>, i: nat, code: nat, k: nat) returns (ok: bool, code': nat, k': nat)
      requires Proper(L) && Shaped() && nextCode !in Arrays() && nextCode.Length == 16 && 1 <= i <= 15 && count == Count(L, i)
      requires code == First(L, i) && k == FirstSymbol(L, i) && FitsUpTo(L, i)
      requires LengthsUpTo(L, firstcode[..], firstsymbol[..], maxcode[..], i) && FirstsUpTo(L, nextCode[..], i)
      modifies firstcode, maxcode, firstsymbol, nextCode
      ensures !ok ==> !Kraft(L)
      ensures ok ==> LengthsUpTo(L, firstcode[..], firstsymbol[..], maxcode[..], i + 1) && FirstsUpTo(L, nextCode[..], i + 1)
      ensures ok ==> code' == First(L, i + 1) && k' == FirstSymbol(L, i + 1) && FitsUpTo(L, i + 1)
    {
      CastsLossless(L, i);
      AssignStep(L, i);
      LengthsStep(L, firstcode[..], firstsymbol[..], maxcode[..], nextCode[..], i);
      hide LengthsUpTo, FirstsUpTo, FitsUpTo, Cast16, Kraft, First, FirstSymbol, Count, MaxCode, Shl;
      WriteFirst(nextCode, i, code, k);
      code', k' := code + count, k;
      if count != 0 {
        if code' - 1 >= Shl(1, i) {
          OutOfCodes(L, i);
          return false, code', k';
        }
      }
      WriteMax(i, code');
      FitsStep(L, i);
      code' := 2 * code';
      k' := k' + count;
      ok := true;
    }

    /** The loop that assigns the first code of each length; it fails when a length runs out
        of codes. */
    method AssignCodes(L: Lengths, sizes: array<nat>) returns (ok: bool, nextCode: array<nat>)
      requires Proper(L) && Shaped() && sizes.Length == 17 && sizes !in Arrays() && forall s: nat | s < 16 :: sizes[s] == Count(L, s)
      modifies firstcode, maxcode, firstsymbol
      ensures ok <==> Kraft(L)
      ensures ok ==> LengthsUpTo(L, firstcode[..], firstsymbol[..], maxcode[..], 16)
      ensures fresh(nextCode) && nextCode.Length == 16 && (ok ==> FirstsUpTo(L, nextCode[..], 16))
    {
      nextCode := new nat[16];
      var code: nat, k: nat := 0, 0;
      NothingYet(L, firstcode[..], firstsymbol[..], maxcode[..], nextCode[..]);
      FirstsAtOne(L);
      hide LengthsUpTo, FirstsUpTo, FitsUpTo, Kraft, First, FirstSymbol, Count;
      for i := 1 to 16
        invariant code == First(L, i) && k == FirstSymbol(L, i) && FitsUpTo(L, i)
        invariant LengthsUpTo(L, firstcode[..], firstsymbol[..], maxcode[..], i) && FirstsUpTo(L, nextCode[..], i)
      {
        ok, code, k := AssignLength(L, sizes[i], nextCode, i, code, k);
        if !ok {
          return false, nextCode;
        }
      }
      AllFit(L);
      ok := true;
    }

    /** One round of the loop that enters the symbols. */
    method EnterSymbol(L: Lengths, nextCode: array<nat>, i: nat)
      requires Proper(L) && Shaped() && Kraft(L) && LengthsUpTo(L, firstcode[..], firstsymbol[..], maxcode[..], 16)
      requires nextCode.Length == 16 && nextCode !in Arrays() && i < |L| && NextsAt(L, nextCode[..], i)
      requires FastUpTo(L, fast[..], i) && SlotsUpTo(L, size[..], value[..], i)
      modifies fast, size, value, nextCode
      ensures FastUpTo(L, fast[..], i + 1) && SlotsUpTo(L, size[..], value[..], i + 1) && NextsAt(L, nextCode[..], i + 1)
    {
      var s: nat := L[i];
      ghost var fast0 := fast[..];
      hide FastUpTo, SlotsUpTo, Kraft, Shl, First, FirstSymbol;
      if s != 0 {
        CodeFits(L, i);
        SlotStep(L, size[..], value[..], i);
        var c := nextCode[s] - firstcode[s] + firstsymbol[s];
        WriteSlot(c, s, i);
        if s <= FAST_BITS {
          FillFast(s, nextCode[s], s * 512 + i);
        }
        nextCode[s] := nextCode[s] + 1;
      } else {
        SlotSkip(L, size[..], value[..], i);
      }
      FastStep(L, fast0, fast[..], i);
    }

    /** The loop that enters the symbols. */
    method EnterSymbols(L: Lengths, nextCode: array<nat>)
      requires Proper(L) && Shaped() && Kraft(L) && LengthsUpTo(L, firstcode[..], firstsymbol[..], maxcode[..], 16)
      requires nextCode.Length == 16 && nextCode !in Arrays() && FirstsUpTo(L, nextCode[..], 16)
      requires forall j: nat | j < FAST_SIZE :: fast[j] == 0
      modifies fast, size, value, nextCode
      ensures FastUpTo(L, fast[..], |L|) && SlotsUpTo(L, size[..], value[..], |L|)
    {
      hide LengthsUpTo, Proper;
      NothingEntered(L, fast[..], size[..], value[..]);
      hide FastUpTo, SlotsUpTo, Kraft, LengthsUpTo;
      for i := 0 to |L|
        invariant NextsAt(L, nextCode[..], i)
        invariant FastUpTo(L, fast[..], i) && SlotsUpTo(L, size[..], value[..], i)
        invariant LengthsUpTo(L, firstcode[..], firstsymbol[..], maxcode[..], 16)
      {
        EnterSymbol(L, nextCode, i);
      }
    }

    /** stbi__zbuild_huffman: it accepts exactly the length lists that satisfy the Kraft
        inequality, and then the tables agree with the canonical code. */
    method Build(L: Lengths) returns (ok: bool)
      requires Proper(L) && Shaped()
      modifies fast, firstcode, maxcode, firstsymbol, size, value
      ensures ok <==> Kraft(L)
      ensures ok ==> TablesFor(L)
    {
      for j := 0 to FAST_SIZE
        invariant forall m: nat | m < j :: fast[m] == 0
      {
        fast[j] := 0;
      }
      var sizes := CountLengths(L);
      for i := 1 to 16
      {
        if sizes[i] > Shl(1, i) {
          if Kraft(L) { FitsAt(L, i); }
          return false;
        }
      }
      var nextCode;
      ok, nextCode := AssignCodes(L, sizes);
      if ok {
        maxcode[16] := 0x1_0000;
        EnterSymbols(L, nextCode);
      }
    }
  }

  function Cast16(x: nat): nat { x % 0x1_0000 }

  ghost predicate FirstsUpTo(L: Lengths, nextCode: seq<nat>, n: nat) {
    n <= |nextCode| && forall s: nat | 1 <= s < n :: nextCode[s] == First(L, s)
  }

  ghost predicate FitsUpTo(L: Lengths, n: nat) { forall s: nat | 1 <= s < n :: Limit(L, s) <= Shl(1, s) }

  /** next_code, when the first `n` symbols have been entered. */
  ghost predicate NextsAt(L: Lengths, nextCode: seq<nat>, n: nat) {
    |nextCode| == 16 && n <= |L| && forall s: nat | 1 <= s < 16 :: nextCode[s] == First(L, s) + CountUpTo(L, n, s)
  }

  lemma OutOfCodes(L: Lengths, i: nat)
    requires i <= MAX_BITS && First(L, i) + Count(L, i) > Shl(1, i)
    ensures !Kraft(L)
  {
    if Kraft(L) { FitsAt(L, i); }
  }

  lemma NothingYet(L: Lengths, firstcode: seq<nat>, firstsymbol: seq<nat>, maxcode: seq<nat>, nextCode: seq<nat>)
    requires |firstcode| == 16 && |firstsymbol| == 16 && |maxcode| == 17 && |nextCode| == 16
    ensures LengthsUpTo(L, firstcode, firstsymbol, maxcode, 1) && FirstsUpTo(L, nextCode, 1) && FitsUpTo(L, 1)
  {}

  lemma FitsStep(L: Lengths, i: nat)
    requires FitsUpTo(L, i) && Limit(L, i) <= Shl(1, i)
    ensures FitsUpTo(L, i + 1)
  {}

  lemma NothingEntered(L: Lengths, fast: seq<nat>, size: seq<nat>, value: seq<nat>)
    requires |fast| == FAST_SIZE && forall j: nat | j < FAST_SIZE :: fast[j] == 0
    ensures FastUpTo(L, fast, 0) && SlotsUpTo(L, size, value, 0)
  {}

  lemma SlotSkip(L: Lengths, size: seq<nat>, value: seq<nat>, n: nat)
    requires SlotsUpTo(L, size, value, n) && n < |L| && L[n] == 0
    ensures SlotsUpTo(L, size, value, n + 1)
  {}

  lemma AllFit(L: Lengths)
    requires FitsUpTo(L, 16)
    ensures Kraft(L)
  {
    KraftIffFits(L);
  }

  lemma FirstsAtOne(L: Lengths)
    ensures First(L, 1) == 0 && FirstSymbol(L, 1) == 0
  {}

  lemma AssignStep(L: Lengths, i: nat)
    requires 1 <= i <= 15
    ensures First(L, i + 1) == 2 * (First(L, i) + Count(L, i)) && FirstSymbol(L, i + 1) == FirstSymbol(L, i) + Count(L, i)
    ensures MaxCode(L, i) == Shl(First(L, i) + Count(L, i), 16 - i)
  {}

  lemma Cast16Small(x: nat)
    requires x < 0x1_0000
    ensures Cast16(x) == x
  {}

  /** The casts to stbi__uint16 lose nothing. */
  lemma CastsLossless(L: Lengths, i: nat)
    requires Proper(L) && 1 <= i <= 15 && FitsUpTo(L, i)
    ensures Cast16(First(L, i)) == First(L, i) <= Shl(1, i) && Cast16(FirstSymbol(L, i)) == FirstSymbol(L, i)
  {
    hide Cast16;
    ShlBound(i);
    FirstSymbolSmall(L, i);
    if i > 1 {
      assert Limit(L, i - 1) <= Shl(1, i - 1);
      ShlBound(i - 1);
    }
    Cast16Small(First(L, i));
    Cast16Small(FirstSymbol(L, i));
  }

  lemma LengthsStep(L: Lengths, firstcode: seq<nat>, firstsymbol: seq<nat>, maxcode: seq<nat>, nextCode: seq<nat>, i: nat)
    requires LengthsUpTo(L, firstcode, firstsymbol, maxcode, i) && FirstsUpTo(L, nextCode, i) && 1 <= i <= 15 && |nextCode| == 16
    ensures LengthsUpTo(L, firstcode[i := First(L, i)], firstsymbol[i := FirstSymbol(L, i)], maxcode[i := MaxCode(L, i)], i + 1)
    ensures FirstsUpTo(L, nextCode[i := First(L, i)], i + 1)
  {}

  lemma ShlBound(i: nat)
    requires 1 <= i <= 15
    ensures Shl(1, i) <= 0x8000 && Shl(1, i + 1) == 2 * Shl(1, i)
  {
    ShlOrderUp(i, 15);
    ShlSeven(1);
    ShlAdd(1, 7, 7);
    ShlSeven(0x80);
    assert Shl(1, 15) == 2 * Shl(1, 14);
  }

  lemma {:induction false} ShlOrderUp(i: nat, n: nat)
    requires i <= n
    ensures Shl(1, i) <= Shl(1, n)
    decreases n
  {
    if i < n { ShlOrderUp(i, n - 1); }
  }

  lemma FirstSymbolSmall(L: Lengths, s: nat)
    requires Proper(L)
    ensures FirstSymbol(L, s) <= 288
  {
    FirstSymbolShorter(L, s);
    ShorterBound(L, |L|, s);
  }

  lemma CodeFits(L: Lengths, i: nat)
    requires Proper(L) && Kraft(L) && i < |L| && L[i] > 0
    ensures Code(L, i) < Shl(1, L[i])
  {
    CodeRange(L, i);
    FitsAt(L, L[i]);
  }
}
