/** Huffman tables of JPEG as Annex C of ITU-T T.81 builds them. Seen as 16-bit numbers, the
    strings that begin with the codeword of one symbol follow those of the symbol before. */
module JpegHuffman {
  import opened Shifts
  import opened HuffmanCode

  type Sizes = seq<nat>

  /** Code lengths from 1 to 16, never decreasing. */
  ghost predicate Sorted(S: Sizes) {
    && |S| <= 256 && (forall k | 0 <= k < |S| :: 1 <= S[k] <= 16)
    && (forall j, k | 0 <= j <= k < |S| :: S[j] <= S[k])
  }

  /** How many 16-bit strings begin with a codeword of `s` bits. */
  function Share(s: nat): nat
    requires s <= 16
  {
    Shl(1, 16 - s)
  }

  /** The first 16-bit string that begins with codeword `k`. */
  ghost function Start(S: Sizes, k: nat): nat
    requires Sorted(S) && k <= |S|
  {
    if k == 0 then 0 else Start(S, k - 1) + Share(S[k - 1])
  }

  /** HUFFCODE(K) */
  ghost function CodeOf(S: Sizes, k: nat): nat
    requires Sorted(S) && k < |S|
  {
    Shr(Start(S, k), 16 - S[k])
  }

  /** The codewords fit into their lengths. */
  ghost predicate Fits(S: Sizes)
    requires Sorted(S)
  {
    Start(S, |S|) <= 0x1_0000
  }

  /** The codeword of symbol `k` begins the 16 bits `v`. */
  ghost predicate Begins16(S: Sizes, v: nat, k: nat)
    requires Sorted(S)
  {
    k < |S| && Shr(v, 16 - S[k]) == CodeOf(S, k)
  }

  // ---------------------------------------------------------------- arithmetic of shifts

  lemma {:induction false} ShrShl(q: nat, n: nat)
    ensures Shr(Shl(q, n), n) == q
    decreases n
  {
    if n > 0 { ShrShl(q, n - 1); }
  }

  /** Codewords start at multiples of their share. */
  lemma {:induction false} Aligned(S: Sizes, k: nat)
    requires Sorted(S) && k < |S|
    ensures Start(S, k) == Shl(CodeOf(S, k), 16 - S[k])
  {
    hide Shl, Shr;
    if k == 0 {
      ShlZero16(16 - S[0]);
    } else {
      Aligned(S, k - 1);
      var s, t := S[k - 1], S[k];
      ShlSum(CodeOf(S, k - 1), 1, 16 - s);
      ShlAdd(CodeOf(S, k - 1) + 1, t - s, 16 - t);
      ShrShl(Shl(CodeOf(S, k - 1) + 1, t - s), 16 - t);
    }
  }

  lemma {:induction false} ShlZero16(n: nat)
    ensures Shl(0, n) == 0 && Shr(0, n) == 0
  {
    if n > 0 { ShlZero16(n - 1); }
  }

  /** HUFFCODE counts up, and shifts when codes get longer. */
  lemma NextCodeword(S: Sizes, k: nat)
    requires Sorted(S) && k + 1 < |S|
    ensures CodeOf(S, k + 1) == Shl(CodeOf(S, k) + 1, S[k + 1] - S[k])
  {
    hide Shl, Shr;
    Aligned(S, k);
    var s, t := S[k], S[k + 1];
    ShlSum(CodeOf(S, k), 1, 16 - s);
    ShlAdd(CodeOf(S, k) + 1, t - s, 16 - t);
    ShrShl(Shl(CodeOf(S, k) + 1, t - s), 16 - t);
  }

  /** A codeword begins exactly the strings of its own share. */
  lemma BeginsIs(S: Sizes, v: nat, k: nat)
    requires Sorted(S) && k < |S|
    ensures Begins16(S, v, k) <==> Start(S, k) <= v < Start(S, k + 1)
  {
    hide Shl, Shr;
    Aligned(S, k);
    ShlSum(CodeOf(S, k), 1, 16 - S[k]);
    ShrBelow(v, CodeOf(S, k), 16 - S[k]);
    ShrBelow(v, CodeOf(S, k) + 1, 16 - S[k]);
  }

  lemma {:induction false} StartOrder(S: Sizes, j: nat, k: nat)
    requires Sorted(S) && j <= k <= |S|
    ensures Start(S, j) <= Start(S, k)
    ensures j < k ==> Start(S, j + 1) <= Start(S, k)
    decreases k
  {
    if j < k { StartOrder(S, j, k - 1); }
  }

  /** No codeword is a prefix of another. */
  lemma OneBegins(S: Sizes, v: nat, j: nat, k: nat)
    requires Sorted(S) && Begins16(S, v, j) && Begins16(S, v, k)
    ensures j == k
  {
    BeginsIs(S, v, j);
    BeginsIs(S, v, k);
    if j < k { StartOrder(S, j, k); }
    if k < j { StartOrder(S, k, j); }
  }

  /** Some codeword begins every string below the end of the last share. */
  lemma {:induction false} FindSymbol(S: Sizes, v: nat, n: nat) returns (k: nat)
    requires Sorted(S) && n <= |S| && v < Start(S, n)
    ensures k < n && Begins16(S, v, k)
    decreases n
  {
    if v >= Start(S, n - 1) {
      k := n - 1;
      BeginsIs(S, v, k);
    } else {
      k := FindSymbol(S, v, n - 1);
    }
  }

  // ---------------------------------------------------------------- by length

  /** How many of the first `n` codewords have at most `j` bits. */
  function UpTo(S: Sizes, j: nat, n: nat): (c: nat)
    requires n <= |S|
    ensures c <= n
  {
    if n == 0 then 0 else if S[n - 1] <= j then n else UpTo(S, j, n - 1)
  }

  lemma {:induction false} UpToIs(S: Sizes, j: nat, n: nat)
    requires Sorted(S) && n <= |S|
    ensures var c := UpTo(S, j, n); (forall k | 0 <= k < c :: S[k] <= j) && (forall k | c <= k < n :: S[k] > j)
    decreases n
  {
    if n > 0 && S[n - 1] > j { UpToIs(S, j, n - 1); }
  }

  /** All codewords of at most `j` bits. */
  function Shorter(S: Sizes, j: nat): (c: nat)
    ensures c <= |S|
  {
    UpTo(S, j, |S|)
  }

  lemma {:induction false} UpToAt(S: Sizes, j: nat, k: nat, n: nat)
    requires Sorted(S) && k <= n <= |S| && (k > 0 ==> S[k - 1] <= j) && (k < |S| ==> S[k] > j)
    ensures UpTo(S, j, n) == k
    decreases n
  {
    if k < n {
      assert S[k] <= S[n - 1];
      UpToAt(S, j, k, n - 1);
    }
  }

  /** The first length whose codewords are not exhausted below `v`, and the symbol there. */
  lemma ByLength(S: Sizes, v: nat, j: nat) returns (k: nat)
    requires Sorted(S) && 0 < j <= 16 && Start(S, Shorter(S, j - 1)) <= v < Start(S, Shorter(S, j))
    ensures k < |S| && S[k] == j && Begins16(S, v, k)
    ensures k == Shorter(S, j - 1) + Shr(v, 16 - j) - Shr(Start(S, Shorter(S, j - 1)), 16 - j)
  {
    hide Shr, Shl;
    var a, b := Shorter(S, j - 1), Shorter(S, j);
    UpToIs(S, j - 1, |S|);
    UpToIs(S, j, |S|);
    k := FindSymbol(S, v, b);
    BeginsIs(S, v, k);
    if k < a { StartOrder(S, k, a); }
    assert S[k] == j && a < |S| && S[a] == j by { assert S[a] <= S[k]; }
    SameLength(S, a, k);
  }

  /** Codewords of one length are consecutive. */
  lemma {:induction false} SameLength(S: Sizes, a: nat, k: nat)
    requires Sorted(S) && a <= k < |S| && S[a] == S[k]
    ensures CodeOf(S, k) == CodeOf(S, a) + (k - a)
    decreases k
  {
    hide Shr, Shl;
    if a < k {
      assert S[a] <= S[k - 1] <= S[k];
      SameLength(S, a, k - 1);
      NextCodeword(S, k - 1);
      ShlNone(CodeOf(S, k - 1) + 1);
    }
  }

  lemma ShlNone(q: nat)
    ensures Shl(q, 0) == q
  {}
}
