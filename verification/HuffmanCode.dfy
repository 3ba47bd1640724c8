/** Canonical prefix codes as section 3.2.2 of RFC 1951 defines them, and what makes a list of
    code lengths a code. A codeword is a number together with its length in bits. */
module HuffmanCode {
  import opened Shifts

  const MAX_BITS := 15

  type Lengths = seq<nat>

  ghost predicate Proper(L: Lengths) { |L| <= 288 && forall i | 0 <= i < |L| :: L[i] <= MAX_BITS }

  /** How many of the first `n` symbols have codes of `s` bits. */
  function CountUpTo(L: Lengths, n: nat, s: nat): (c: nat)
    requires n <= |L|
    ensures c <= n
  {
    if n == 0 then 0 else CountUpTo(L, n - 1, s) + if L[n - 1] == s then 1 else 0
  }

  /** bl_count, with bl_count[0] = 0. */
  function Count(L: Lengths, s: nat): nat { if s == 0 then 0 else CountUpTo(L, |L|, s) }

  /** next_code: the smallest code of `s` bits. */
  function First(L: Lengths, s: nat): nat {
    if s == 0 then 0 else 2 * (First(L, s - 1) + Count(L, s - 1))
  }

  /** One past the largest code of `s` bits. */
  function Limit(L: Lengths, s: nat): nat { First(L, s) + Count(L, s) }

  /** The code of a symbol: codes of one length are consecutive, in the order of the symbols. */
  function Code(L: Lengths, sym: nat): nat
    requires sym < |L|
  {
    First(L, L[sym]) + CountUpTo(L, sym, L[sym])
  }

  /** How many symbols have codes of fewer than `s` bits. */
  function FirstSymbol(L: Lengths, s: nat): nat {
    if s == 0 then 0 else FirstSymbol(L, s - 1) + Count(L, s - 1)
  }

  // ---------------------------------------------------------------- which lengths make a code

  /** The Kraft sum of the codes of up to `s` bits, in units of 2^-15. */
  function KraftSum(L: Lengths, s: nat): nat
    requires s <= MAX_BITS
  {
    if s == 0 then 0 else KraftSum(L, s - 1) + Shl(Count(L, s), MAX_BITS - s)
  }

  ghost predicate Kraft(L: Lengths) { KraftSum(L, MAX_BITS) <= Shl(1, MAX_BITS) }

  lemma {:induction false} ShlSum(a: nat, b: nat, n: nat)
    ensures Shl(a + b, n) == Shl(a, n) + Shl(b, n)
  {
    if n > 0 { ShlSum(a, b, n - 1); }
  }

  lemma {:induction false} ShlOrder(a: nat, b: nat, n: nat)
    ensures a <= b <==> Shl(a, n) <= Shl(b, n)
  {
    if n > 0 { ShlOrder(a, b, n - 1); }
  }

  lemma ShlDouble(a: nat, n: nat)
    ensures Shl(2 * a, n) == Shl(a, n + 1)
  {
    ShlAdd(a, 1, n);
  }

  /** The codes of up to `s` bits fill exactly the share the Kraft sum gives them. */
  lemma {:induction false} LimitIsKraft(L: Lengths, s: nat)
    requires s <= MAX_BITS
    ensures Shl(Limit(L, s), MAX_BITS - s) == KraftSum(L, s)
  {
    ShlSum(First(L, s), Count(L, s), MAX_BITS - s);
    if s > 0 {
      LimitIsKraft(L, s - 1);
      ShlDouble(Limit(L, s - 1), MAX_BITS - s);
    }
  }

  lemma {:induction false} KraftGrows(L: Lengths, s: nat)
    requires s <= MAX_BITS
    ensures KraftSum(L, s) <= KraftSum(L, MAX_BITS)
    decreases MAX_BITS - s
  {
    if s < MAX_BITS { KraftGrows(L, s + 1); }
  }

  /** The Kraft inequality holds if and only if no length runs out of codes. */
  lemma KraftIffFits(L: Lengths)
    ensures Kraft(L) <==> forall s | 1 <= s <= MAX_BITS :: Limit(L, s) <= Shl(1, s)
  {
    if Kraft(L) {
      forall s: nat | 1 <= s <= MAX_BITS
        ensures Limit(L, s) <= Shl(1, s)
      {
        FitsAt(L, s);
      }
    }
    LimitIsKraft(L, MAX_BITS);
  }

  lemma FitsAt(L: Lengths, s: nat)
    requires Kraft(L) && s <= MAX_BITS
    ensures Limit(L, s) <= Shl(1, s)
  {
    LimitIsKraft(L, s);
    KraftGrows(L, s);
    ShlAdd(1, s, MAX_BITS - s);
    ShlOrder(Limit(L, s), Shl(1, s), MAX_BITS - s);
  }

  // ---------------------------------------------------------------- decoding 16 bits

  /** k < q << n exactly when k >> n < q. */
  lemma {:induction false} ShrBelow(k: nat, q: nat, n: nat)
    ensures k < Shl(q, n) <==> Shr(k, n) < q
    decreases n
  {
    if n > 0 {
      ShrBelow(k / 2, q, n - 1);
    }
  }

  /** maxcode[s]: all 16-bit numbers below it start with a code of at most `s` bits. */
  function MaxCode(L: Lengths, s: nat): nat
    requires s <= 16
  {
    if s == 16 then 0x1_0000 else Shl(Limit(L, s), 16 - s)
  }

  lemma MaxCodeStep(L: Lengths, s: nat)
    requires 0 < s <= MAX_BITS
    ensures MaxCode(L, s - 1) == Shl(First(L, s), 16 - s) <= MaxCode(L, s)
  {
    ShlDouble(Limit(L, s - 1), 16 - s);
    ShlOrder(First(L, s), Limit(L, s), 16 - s);
  }

  lemma {:induction false} MaxCodeOrder(L: Lengths, s: nat, r: nat)
    requires s <= r <= MAX_BITS
    ensures MaxCode(L, s) <= MaxCode(L, r)
    decreases r - s
  {
    if s < r {
      MaxCodeStep(L, r);
      MaxCodeOrder(L, s, r - 1);
    }
  }

  /** The first `s` bits of `k` are a code of `s` bits exactly when `s` is the first length
      whose limit exceeds `k`. */
  lemma CodeAtLength(L: Lengths, k: nat, s: nat)
    requires 0 < s <= MAX_BITS
    ensures First(L, s) <= Shr(k, 16 - s) < Limit(L, s) <==> MaxCode(L, s - 1) <= k < MaxCode(L, s)
  {
    MaxCodeStep(L, s);
    ShrBelow(k, First(L, s), 16 - s);
    ShrBelow(k, Limit(L, s), 16 - s);
  }

  /** The codeword of `sym` begins the 16 bits `k`, most significant bit first. */
  ghost predicate Begins(L: Lengths, k: nat, sym: nat) {
    sym < |L| && 0 < L[sym] <= MAX_BITS && Shr(k, 16 - L[sym]) == Code(L, sym)
  }

  lemma {:induction false} CountOrder(L: Lengths, a: nat, b: nat, s: nat)
    requires a <= b <= |L|
    ensures CountUpTo(L, a, s) <= CountUpTo(L, b, s)
    ensures a < b && L[a] == s ==> CountUpTo(L, a, s) < CountUpTo(L, b, s)
  {
    if a < b { CountOrder(L, a, b - 1, s); }
  }

  lemma CodeRange(L: Lengths, sym: nat)
    requires sym < |L| && L[sym] > 0
    ensures First(L, L[sym]) <= Code(L, sym) < Limit(L, L[sym])
  {
    CountOrder(L, sym, |L|, L[sym]);
  }

  /** No codeword is a prefix of another one: at most one begins any 16 bits. */
  lemma PrefixFree(L: Lengths, k: nat, a: nat, b: nat)
    requires Begins(L, k, a) && Begins(L, k, b)
    ensures a == b
  {
    CodeRange(L, a);
    CodeRange(L, b);
    CodeAtLength(L, k, L[a]);
    CodeAtLength(L, k, L[b]);
    if L[a] < L[b] { MaxCodeOrder(L, L[a], L[b] - 1); }
    if L[b] < L[a] { MaxCodeOrder(L, L[b], L[a] - 1); }
    if a < b { CountOrder(L, a, b, L[a]); }
    if b < a { CountOrder(L, b, a, L[b]); }
  }

  /** Every number below the count of a length belongs to a symbol of that length. */
  lemma {:induction false} SymbolWithRank(L: Lengths, n: nat, s: nat, m: nat) returns (sym: nat)
    requires n <= |L| && m < CountUpTo(L, n, s)
    ensures sym < n && L[sym] == s && CountUpTo(L, sym, s) == m
  {
    if L[n - 1] == s && CountUpTo(L, n - 1, s) == m {
      sym := n - 1;
    } else {
      sym := SymbolWithRank(L, n - 1, s, m);
    }
  }

  /** A length whose codes include the first bits of `k` gives the symbol. */
  lemma SymbolAt(L: Lengths, k: nat, s: nat) returns (sym: nat)
    requires 0 < s <= MAX_BITS && MaxCode(L, s - 1) <= k < MaxCode(L, s)
    ensures Begins(L, k, sym) && L[sym] == s && CountUpTo(L, sym, s) == Shr(k, 16 - s) - First(L, s)
  {
    CodeAtLength(L, k, s);
    sym := SymbolWithRank(L, |L|, s, Shr(k, 16 - s) - First(L, s));
  }

  /** Beyond the last limit no codeword fits. */
  lemma NoSymbol(L: Lengths, k: nat, sym: nat)
    requires k >= MaxCode(L, MAX_BITS)
    ensures !Begins(L, k, sym)
  {
    if Begins(L, k, sym) {
      CodeRange(L, sym);
      CodeAtLength(L, k, L[sym]);
      MaxCodeOrder(L, L[sym], MAX_BITS);
    }
  }

  // ---------------------------------------------------------------- the two rules

  lemma {:induction false} LimitBelow(L: Lengths, s: nat, r: nat)
    requires s < r
    ensures Shl(Limit(L, s), r - s) <= First(L, r)
    decreases r
  {
    if s < r - 1 {
      LimitBelow(L, s, r - 1);
      ShlDouble(Limit(L, s), r - 1 - s);
      ShlTwice(Limit(L, s), r - 1 - s);
    }
  }

  lemma {:induction false} ShlTwice(x: nat, n: nat)
    ensures Shl(x, n + 1) == 2 * Shl(x, n)
  {
    if n > 0 { ShlTwice(x, n - 1); }
  }

  /** Section 3.2.2 of RFC 1951: the codes of one length are consecutive, in the order of their symbols,
      and shorter codes come before longer ones when compared bit by bit. */
  lemma CanonicalRules(L: Lengths, a: nat, b: nat)
    requires a < |L| && b < |L| && L[a] > 0 && L[b] > 0
    ensures L[a] == L[b] && a < b ==> Code(L, a) < Code(L, b)
    ensures L[a] == L[b] && a < b && (forall c | a < c < b :: L[c] != L[a]) ==> Code(L, b) == Code(L, a) + 1
    ensures L[a] < L[b] ==> Code(L, a) < Shr(Code(L, b), L[b] - L[a])
  {
    if L[a] == L[b] && a < b {
      CountOrder(L, a, b, L[a]);
      if forall c | a < c < b :: L[c] != L[a] { NoneBetween(L, a, b); }
    }
    if L[a] < L[b] {
      CodeRange(L, a);
      CodeRange(L, b);
      LimitBelow(L, L[a], L[b]);
      ShrBelow(Code(L, b), Limit(L, L[a]), L[b] - L[a]);
    }
  }

  lemma {:induction false} NoneBetween(L: Lengths, a: nat, b: nat)
    requires a < b <= |L| && forall c | a < c < b :: L[c] != L[a]
    ensures CountUpTo(L, b, L[a]) == CountUpTo(L, a, L[a]) + 1
    decreases b
  {
    if a < b - 1 { NoneBetween(L, a, b - 1); }
  }
}
