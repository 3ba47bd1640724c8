/** The Huffman table of stb_image.h's JPEG decoder. */
module JpegTable {
  import opened Shifts
  import opened HuffmanCode
  import opened JpegHuffman

  const FAST_BITS := 9

  /** The first `i` lengths of a BITS list written out, HUFFSIZE. */
  function SizeList(count: seq<nat>, i: nat): (S: Sizes)
    requires i <= |count|
  {
    if i == 0 then [] else SizeList(count, i - 1) + seq<nat>(count[i - 1], _ => i)
  }

  ghost predicate Rising(S: Sizes, top: nat) {
    (forall k | 0 <= k < |S| :: 1 <= S[k] <= top) && forall j, k | 0 <= j <= k < |S| :: S[j] <= S[k]
  }

  lemma {:induction false} SizesUpTo(count: seq<nat>, i: nat)
    requires i <= |count|
    ensures Rising(SizeList(count, i), i)
  {
    if i > 0 {
      SizesUpTo(count, i - 1);
      RisingOn(SizeList(count, i - 1), i, count[i - 1]);
    }
  }

  lemma RisingOn(A: Sizes, i: nat, n: nat)
    requires i > 0 && Rising(A, i - 1)
    ensures Rising(A + seq<nat>(n, _ => i), i)
  {
    var S := A + seq<nat>(n, _ => i);
    forall j, k | 0 <= j <= k < |S|
      ensures S[j] <= S[k]
    {
      if k < |A| { assert A[j] <= A[k]; }
    }
  }

  lemma {:induction false} SizesGrow(count: seq<nat>, i: nat, n: nat)
    requires i <= n <= |count|
    ensures |SizeList(count, i)| <= |SizeList(count, n)| && SizeList(count, n)[..|SizeList(count, i)|] == SizeList(count, i)
    decreases n
  {
    if i < n {
      SizesGrow(count, i, n - 1);
      var S := SizeList(count, n - 1);
      assert (S + seq<nat>(count[n - 1], _ => n))[..|SizeList(count, i)|] == S[..|SizeList(count, i)|];
    }
  }

  /** Codeword `i` begins the nine bits `t`. */
  ghost predicate Matches9(S: Sizes, t: nat, i: nat)
    requires Sorted(S)
  {
    i < |S| && S[i] <= FAST_BITS && Shr(t, FAST_BITS - S[i]) == CodeOf(S, i)
  }

  /** An entry of the fast table; 255 says that there is no symbol with a short codeword, and
      cannot name the symbol with that number. */
  ghost predicate FastEntry(S: Sizes, v: nat, t: nat, n: nat)
    requires Sorted(S)
  {
    && v <= 255 && (v < 255 ==> v < n && Matches9(S, t, v))
    && (v == 255 ==> forall i: nat | i < n && i < 255 :: !Matches9(S, t, i))
  }

  ghost predicate FastTable(S: Sizes, fast: seq<nat>, n: nat)
    requires Sorted(S)
  {
    |fast| == 512 && forall t | 0 <= t < 512 :: FastEntry(S, fast[t], t, n)
  }

  /** The limits and offsets up to length `j`. */
  ghost predicate LengthTable(S: Sizes, maxcode: seq<nat>, delta: seq<int>, j: nat)
    requires Sorted(S)
  {
    && |maxcode| == 18 && |delta| == 17 && j <= 16
    && (forall i {:trigger maxcode[i]} | 1 <= i <= j :: maxcode[i] == Start(S, Shorter(S, i)))
    && (forall i {:trigger delta[i]} | 1 <= i <= j :: delta[i] == Shorter(S, i - 1) - Shr(Start(S, Shorter(S, i - 1)), 16 - i))
  }

  // ---------------------------------------------------------------- one length

  /** Running code and symbol before length `j`. */
  ghost predicate Reached(S: Sizes, j: nat, k: nat, code: nat)
    requires Sorted(S)
  {
    1 <= j <= 16 && k == Shorter(S, j - 1) && Start(S, k) == Shl(code, 16 - j)
  }

  lemma ReachedFirst(S: Sizes)
    requires Sorted(S)
    ensures Reached(S, 1, 0, 0)
  {
    UpToAt(S, 0, 0, |S|);
    ShlZero16(15);
  }

  /** One codeword of length `j`. */
  lemma NextOfLength(S: Sizes, j: nat, k: nat, code: nat)
    requires Sorted(S) && 1 <= j <= 16 && k < |S| && S[k] == j && Start(S, k) == Shl(code, 16 - j)
    ensures CodeOf(S, k) == code && Start(S, k + 1) == Shl(code + 1, 16 - j)
  {
    hide Shl, Shr;
    ShrShl(code, 16 - j);
    ShlSum(code, 1, 16 - j);
  }

  /** All codewords of length `j` are done. */
  lemma LengthDone(S: Sizes, j: nat, k: nat, a: nat)
    requires Sorted(S) && 1 <= j <= 16 && a == Shorter(S, j - 1) <= k <= |S| && (k < |S| ==> S[k] != j) && forall q | a <= q < k :: S[q] == j
    ensures k == Shorter(S, j)
  {
    UpToIs(S, j - 1, |S|);
    UpToAt(S, j, k, |S|);
  }

  /** The check for too many codewords. */
  lemma Overflows(code: nat, j: nat)
    requires 1 <= j <= 16
    ensures Shl(1, j) < code <==> Shl(code, 16 - j) > 0x1_0000
  {
    hide Shl;
    ShlAdd(1, j, 16 - j);
    ShlOrder(code, Shl(1, j), 16 - j);
    Sixteen();
  }

  lemma Sixteen()
    ensures Shl(1, 16) == 0x1_0000
  {
    ShlSeven(1);
    ShlAdd(1, 7, 7);
    ShlSeven(0x80);
    ShlAdd(1, 14, 1);
    ShlAdd(1, 15, 1);
  }

  class Table {
    const fast: array<nat>
    const code: array<nat>
    const values: array<nat>
    const size: array<nat>
    const maxcode: array<nat>
    const delta: array<int>

    constructor ()
      ensures Shaped() && fresh(fast) && fresh(code) && fresh(values) && fresh(size) && fresh(maxcode) && fresh(delta)
    {
      fast := new nat[512](_ => 255);
      code := new nat[256](_ => 0);
      values := new nat[256](_ => 0);
      size := new nat[257](_ => 0);
      maxcode := new nat[18](_ => 0);
      delta := new int[17](_ => 0);
    }

    ghost predicate Shaped() {
      && fast.Length == 512 && code.Length == 256 && values.Length == 256 && size.Length == 257 && maxcode.Length == 18 && delta.Length == 17
      && fast != code && fast != values && fast != size && fast != maxcode && code != values && code != size && code != maxcode
      && values != size && values != maxcode && size != maxcode
    }

    /** The sizes are stored, with a zero behind them. */
    ghost predicate SizesIn(S: Sizes)
      reads size
    {
      Shaped() && Sorted(S) && size[..|S|] == S && size[|S|] == 0
    }

    /** The table is that of the codewords with these lengths. */
    ghost predicate TableFor(S: Sizes)
      reads size, maxcode, delta, fast
    {
      && SizesIn(S) && Fits(S) && LengthTable(S, maxcode[..], delta[..], 16) && maxcode[17] == 0xffff_ffff && FastTable(S, fast[..], |S|)
    }

    /** The size list of Annex C. */
    method FillSizes(count: seq<nat>) returns (k: nat)
      requires Shaped() && |count| == 16 && |SizeList(count, 16)| <= 256
      modifies size
      ensures SizesIn(SizeList(count, 16)) && k == |SizeList(count, 16)|
    {
      k := 0;
      for i := 0 to 16
        invariant k == |SizeList(count, i)| && k <= 256 && size[..k] == SizeList(count, i)
      {
        SizesGrow(count, i + 1, 16);
        for j := 0 to count[i]
          invariant k == |SizeList(count, i)| + j && size[..k] == SizeList(count, i) + seq<nat>(j, _ => i + 1)
        {
          size[k] := i + 1;
          k := k + 1;
          assert size[..k] == size[..k - 1] + [i + 1];
        }
      }
      size[k] := 0;
      SizesUpTo(count, 16);
      assert size[..k] == SizeList(count, 16);
    }

    /** The codewords of one length. */
    method AssignLength(j: nat, k0: nat, code0: nat, ghost S: Sizes) returns (ok: bool, k: nat, c: nat)
      requires SizesIn(S) && Reached(S, j, k0, code0) && Start(S, k0) <= 0x1_0000
      modifies code
      ensures ok <==> Start(S, Shorter(S, j)) <= 0x1_0000
      ensures k == Shorter(S, j) && Start(S, k) == Shl(c, 16 - j)
      ensures forall q | 0 <= q < 256 && !(k0 <= q < k) :: code[q] == old(code[q])
      ensures forall q | k0 <= q < k :: code[q] == CodeOf(S, q) % 0x1_0000
    {
      hide Shl, Shr, Start, Shorter, CodeOf;
      k, c := k0, code0;
      while size[k] == j
        invariant k0 <= k <= |S| && Start(S, k) == Shl(c, 16 - j) && forall q | k0 <= q < k :: S[q] == j
        invariant forall q | 0 <= q < 256 && !(k0 <= q < k) :: code[q] == old(code[q])
        invariant forall q | k0 <= q < k :: code[q] == CodeOf(S, q) % 0x1_0000
        decreases |S| - k
      {
        SizeAt(S, k, j);
        NextOfLength(S, j, k, c);
        code[k] := c % 0x1_0000;
        c, k := c + 1, k + 1;
      }
      SizeEnds(S, k, j);
      LengthDone(S, j, k, k0);
      Overflows(c, j);
      ok := k == k0 || c - 1 < Shl(1, j);
    }

    lemma SizeAt(S: Sizes, k: nat, j: nat)
      requires SizesIn(S) && k <= |S| && j > 0 && size[k] == j
      ensures k < |S| && S[k] == j
    {
      assert k < |S| ==> size[..|S|][k] == size[k];
    }

    lemma SizeEnds(S: Sizes, k: nat, j: nat)
      requires SizesIn(S) && k <= |S| && size[k] != j
      ensures k < |S| ==> S[k] != j
    {
      assert k < |S| ==> size[..|S|][k] == size[k];
    }

    /** The codewords of all lengths; it fails exactly if they do not fit. */
    method AssignCodes(ghost S: Sizes) returns (ok: bool)
      requires SizesIn(S)
      modifies code, maxcode, delta
      ensures ok <==> Fits(S)
      ensures ok ==> LengthTable(S, maxcode[..], delta[..], 16) && maxcode[17] == 0xffff_ffff
      ensures ok ==> forall q | 0 <= q < |S| :: code[q] == CodeOf(S, q) % 0x1_0000
    {
      hide Shl, Shr, Start, Shorter, CodeOf;
      var k, c := 0, 0;
      ReachedFirst(S);
      StartNone(S);
      for j := 1 to 17
        invariant 0 <= k <= |S| && Start(S, k) <= 0x1_0000 && (j <= 16 ==> Reached(S, j, k, c)) && k == Shorter(S, j - 1)
        invariant LengthTable(S, maxcode[..], delta[..], j - 1)
        invariant forall q | 0 <= q < k :: code[q] == CodeOf(S, q) % 0x1_0000
      {
        ghost var k0, c0 := k, c;
        delta[j] := k - c;
        ok, k, c := AssignLength(j, k, c, S);
        LengthsFit(S, j);
        if !ok { return; }
        maxcode[j] := Shl(c, 16 - j);
        ShrShl(c0, 16 - j);
        ReachedNext(S, j, k, c);
        c := 2 * c;
      }
      maxcode[17] := 0xffff_ffff;
      AllLengths(S);
      ok := true;
    }

    lemma StartNone(S: Sizes)
      requires Sorted(S)
      ensures Start(S, 0) == 0
    {}

    lemma LengthsFit(S: Sizes, j: nat)
      requires Sorted(S)
      ensures Fits(S) ==> Start(S, Shorter(S, j)) <= 0x1_0000
    {
      StartOrder(S, Shorter(S, j), |S|);
    }

    lemma AllLengths(S: Sizes)
      requires Sorted(S)
      ensures Shorter(S, 16) == |S|
    {
      UpToAt(S, 16, |S|, |S|);
    }

    lemma ReachedNext(S: Sizes, j: nat, k: nat, c: nat)
      requires Sorted(S) && 1 <= j <= 16 && k == Shorter(S, j) && Start(S, k) == Shl(c, 16 - j)
      ensures j < 16 ==> Reached(S, j + 1, k, 2 * c)
    {
      if j < 16 { ShlDouble(c, 15 - j); }
    }

    /** The fast table. */
    method FillFast(n: nat, ghost S: Sizes)
      requires SizesIn(S) && Fits(S) && n == |S| && forall q | 0 <= q < n :: code[q] == CodeOf(S, q) % 0x1_0000
      modifies fast
      ensures FastTable(S, fast[..], n)
    {
      hide Shl, Shr, Start, CodeOf, FastEntry;
      forall t | 0 <= t < 512 {
        fast[t] := 255;
      }
      NoneYet(S, fast[..]);
      for i := 0 to n
        invariant FastTable(S, fast[..], i)
      {
        assert size[..|S|][i] == size[i];
        var s := size[i];
        ghost var were := fast[..];
        if s <= FAST_BITS {
          FastRange(S, i);
          var c, m := Shl(code[i], FAST_BITS - s), Shl(1, FAST_BITS - s);
          FillRange(c, m, i);
        }
        FastStep(S, were, fast[..], i);
      }
    }

    method FillRange(c: nat, m: nat, i: nat)
      requires Shaped() && c + m <= 512
      modifies fast
      ensures forall t | 0 <= t < 512 :: fast[t] == if c <= t < c + m then i % 256 else old(fast[t])
    {
      for j := 0 to m
        invariant forall t | 0 <= t < 512 :: fast[t] == if c <= t < c + j then i % 256 else old(fast[t])
      {
        fast[c + j] := i % 256;
      }
    }

    /** stbi__build_huffman: it fails exactly if the codewords do not fit into their lengths. */
    method Build(count: seq<nat>) returns (ok: bool)
      requires Shaped() && |count| == 16 && |SizeList(count, 16)| <= 256
      modifies fast, code, size, maxcode, delta
      ensures Sorted(SizeList(count, 16)) && (ok <==> Fits(SizeList(count, 16)))
      ensures ok ==> TableFor(SizeList(count, 16))
    {
      var k := FillSizes(count);
      ghost var S := SizeList(count, 16);
      ok := AssignCodes(S);
      if ok {
        FillFast(k, S);
      }
    }
  }

  lemma NoneYet(S: Sizes, fast: seq<nat>)
    requires Sorted(S) && |fast| == 512 && forall t | 0 <= t < 512 :: fast[t] == 255
    ensures FastTable(S, fast, 0)
  {}

  /** The nine-bit strings that begin with a short codeword. */
  lemma FastRange(S: Sizes, i: nat)
    requires Sorted(S) && Fits(S) && i < |S| && S[i] <= FAST_BITS
    ensures CodeOf(S, i) < 0x1_0000
    ensures var c, m := Shl(CodeOf(S, i), FAST_BITS - S[i]), Shl(1, FAST_BITS - S[i]);
      c + m <= 512 && forall t: nat :: (Matches9(S, t, i) <==> c <= t < c + m)
  {
    hide Shl, Shr;
    var q, n := CodeOf(S, i), FAST_BITS - S[i];
    Aligned(S, i);
    ShlSum(q, 1, n);
    ShlSum(q, 1, 16 - S[i]);
    ShlAdd(q + 1, n, 7);
    StartOrder(S, i, |S|);
    ShlSeven(Shl(q + 1, n));
    ShlAtLeast(q, 16 - S[i]);
    forall t: nat
      ensures Matches9(S, t, i) <==> Shl(q, n) <= t < Shl(q, n) + Shl(1, n)
    {
      ShrBelow(t, q, n);
      ShrBelow(t, q + 1, n);
    }
  }

  lemma {:induction false} ShlAtLeast(q: nat, n: nat)
    ensures Shl(q, n) >= q && Shl(q + 1, n) > q
    decreases n
  {
    if n > 0 { ShlAtLeast(q, n - 1); }
  }

  /** At most one short codeword begins nine bits. */
  lemma OneMatches9(S: Sizes, t: nat, a: nat, b: nat)
    requires Sorted(S) && Matches9(S, t, a) && Matches9(S, t, b)
    ensures a == b
  {
    hide Shl, Shr;
    var v := Shl(t, 7);
    ShrShl(t, 7);
    ShrAdd(v, 7, FAST_BITS - S[a]);
    ShrAdd(v, 7, FAST_BITS - S[b]);
    OneBegins(S, v, a, b);
  }

  /** One more symbol in the fast table. */
  lemma FastStep(S: Sizes, fast: seq<nat>, fast': seq<nat>, i: nat)
    requires Sorted(S) && Fits(S) && i < |S| && FastTable(S, fast, i) && |fast'| == 512
    requires S[i] > FAST_BITS ==> fast' == fast
    requires S[i] <= FAST_BITS ==> var c, m := Shl(CodeOf(S, i), FAST_BITS - S[i]), Shl(1, FAST_BITS - S[i]);
      forall t | 0 <= t < 512 :: fast'[t] == if c <= t < c + m then i % 256 else fast[t]
    ensures FastTable(S, fast', i + 1)
  {
    hide Shl, Shr, Start, CodeOf;
    if S[i] <= FAST_BITS { FastRange(S, i); }
    forall t | 0 <= t < 512
      ensures FastEntry(S, fast'[t], t, i + 1)
    {
      assert FastEntry(S, fast[t], t, i);
      if Matches9(S, t, i) {
        forall q: nat | q < i + 1 && q < 255 && Matches9(S, t, q)
          ensures q == i
        {
          OneMatches9(S, t, q, i);
        }
      }
    }
  }
}
