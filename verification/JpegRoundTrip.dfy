/** From the coefficients of a block to the bytes of a scan and back: what an encoder of ITU-T T.81
    writes, and that it is decoded to these coefficients. */
module JpegRoundTrip {
  import opened Shifts
  import opened HuffmanCode
  import opened InflateBits
  import opened BitWriter
  import opened JpegHuffman
  import opened JpegTable
  import opened JpegStream
  import opened JpegZigzag
  import opened JpegFastAc
  import opened JpegDecode

  // ---------------------------------------------------------------- the encoder of section F.1.2.2

  /** CSIZE: how many bits the magnitude has. */
  function Csize(a: nat): nat { if a == 0 then 0 else 1 + Csize(a / 2) }

  function Magnitude(v: int): nat { if v < 0 then -v else v }

  /** The low `n` bits of a positive value, and of a negative one less one. */
  function LowBits(v: int, n: nat): int { if v > 0 then v else v - 1 + Shl(1, n) }

  ghost predicate HasSymbol(S: Sizes, values: seq<nat>, rs: nat) { exists k: nat :: k < |S| <= |values| && values[k] == rs }

  /** The codeword of a symbol. */
  ghost function CodeFor(S: Sizes, values: seq<nat>, rs: nat): seq<nat>
    requires Sorted(S) && HasSymbol(S, values, rs)
  {
    var k: nat :| k < |S| <= |values| && values[k] == rs;
    HighFirst(CodeOf(S, k), S[k])
  }

  /** Sixteen zeros, `n` times. */
  ghost function Zeros16(S: Sizes, values: seq<nat>, n: nat): seq<nat>
    requires Sorted(S) && (n > 0 ==> HasSymbol(S, values, 0xf0))
  {
    if n == 0 then [] else CodeFor(S, values, 0xf0) + Zeros16(S, values, n - 1)
  }

  /** There is a codeword for everything that has to be sent from coefficient `k` on, behind `run` zeros. */
  ghost predicate Sendable(S: Sizes, values: seq<nat>, zz: seq<int>, k: nat, run: nat)
    requires |zz| == 64
    decreases 64 - k
  {
    if k >= 64 then run > 0 ==> HasSymbol(S, values, 0)
    else if zz[k] == 0 then Sendable(S, values, zz, k + 1, run + 1)
    else
      var n := Csize(Magnitude(zz[k]));
      && (run >= 16 ==> HasSymbol(S, values, 0xf0)) && n < 16 && HasSymbol(S, values, 16 * (run % 16) + n)
      && Sendable(S, values, zz, k + 1, 0)
  }

  /** Figure F.2: runs of zeros and values, and the end of the block if there are zeros at its end. */
  ghost function AcBits(S: Sizes, values: seq<nat>, zz: seq<int>, k: nat, run: nat): seq<nat>
    requires Sorted(S) && |zz| == 64 && Sendable(S, values, zz, k, run)
    decreases 64 - k
  {
    if k >= 64 then (if run > 0 then CodeFor(S, values, 0) else [])
    else if zz[k] == 0 then AcBits(S, values, zz, k + 1, run + 1)
    else
      var n := Csize(Magnitude(zz[k]));
      CsizeIs(Magnitude(zz[k]));
      Zeros16(S, values, run / 16) + (CodeFor(S, values, 16 * (run % 16) + n) + HighFirst(LowBits(zz[k], n), n)) + AcBits(S, values, zz, k + 1, 0)
  }

  lemma {:induction false} CsizeIs(a: nat)
    ensures a < Shl(1, Csize(a)) && (a > 0 ==> Csize(a) > 0 && Shl(1, Csize(a) - 1) <= a)
  {
    if a > 0 {
      CsizeIs(a / 2);
      ShlTwice(1, Csize(a / 2));
      if a / 2 > 0 { ShlTwice(1, Csize(a / 2) - 1); }
    }
  }

  /** EXTEND undoes it. */
  lemma ExtendLow(v: int)
    requires v != 0
    ensures var n := Csize(Magnitude(v)); n > 0 && 0 <= LowBits(v, n) < Shl(1, n) && Extend(LowBits(v, n), n) == v
  {
    var n := Csize(Magnitude(v));
    CsizeIs(Magnitude(v));
    ShlTwice(1, n - 1);
  }

  // ---------------------------------------------------------------- reading it

  ghost predicate BitsIn(P: Bytes, at: nat, b: seq<nat>) { forall j | 0 <= j < |b| :: BitAt(P, at + j) == b[j] }

  lemma BitsParts(P: Bytes, at: nat, a: seq<nat>, b: seq<nat>)
    requires BitsIn(P, at, a + b)
    ensures BitsIn(P, at, a) && BitsIn(P, at + |a|, b)
  {
    hide BitAt;
    forall j | 0 <= j < |a|
      ensures BitAt(P, at + j) == a[j]
    {
      assert (a + b)[j] == a[j];
    }
    forall j | 0 <= j < |b|
      ensures BitAt(P, at + |a| + j) == b[j]
    {
      assert (a + b)[|a| + j] == b[j];
    }
  }

  lemma {:induction false} ReadsHighFirst(P: Bytes, at: nat, c: nat, n: nat)
    requires c < Shl(1, n) && BitsIn(P, at, HighFirst(c, n))
    ensures Window(P, at, n) == c
    decreases n
  {
    hide BitAt;
    if n > 0 {
      BitsParts(P, at, HighFirst(c / 2, n - 1), [c % 2]);
      ReadsHighFirst(P, at, c / 2, n - 1);
      assert [c % 2][0] == c % 2;
    }
  }

  lemma CodeFits(S: Sizes, k: nat)
    requires Sorted(S) && Fits(S) && k < |S|
    ensures CodeOf(S, k) < Shl(1, S[k])
  {
    hide Shr;
    Aligned(S, k);
    StartOrder(S, k, |S|);
    ShlAdd(1, S[k], 16 - S[k]);
    ShlOrder(Shl(1, S[k]), CodeOf(S, k), 16 - S[k]);
    Sixteen();
  }

  lemma Sixteen()
    ensures Shl(1, 16) == 0x1_0000
  {
    ShlSeven(1);
    ShlSeven(Shl(1, 7));
  }

  lemma NextIs(S: Sizes, P: Bytes, at: nat, k: nat)
    requires Sorted(S) && k < |S| && Window(P, at, S[k]) == CodeOf(S, k)
    ensures Next16(S, P, at, k)
  {
    hide Window, CodeOf, Shr;
    WindowShr(P, at, S[k], 16 - S[k]);
  }

  /** The codeword of a symbol is read as the symbol. */
  lemma ReadsCode16(S: Sizes, values: seq<nat>, P: Bytes, at: nat, rs: nat) returns (k: nat)
    requires Sorted(S) && Fits(S) && |S| <= |values| && AllBytes(values) && HasSymbol(S, values, rs) && BitsIn(P, at, CodeFor(S, values, rs))
    ensures k < |S| && values[k] == rs && AcAt(S, values, P, at) == AcOf(S, values, P, at, k) && |CodeFor(S, values, rs)| == S[k]
  {
    hide Shl, Shr, Start, CodeOf, BitAt, BitsIn, Window, HighFirst, Fits, AllBytes, AcOf, AcAt;
    k :| k < |S| && values[k] == rs && CodeFor(S, values, rs) == HighFirst(CodeOf(S, k), S[k]);
    CodeFits(S, k);
    ReadsHighFirst(P, at, CodeOf(S, k), S[k]);
    NextIs(S, P, at, k);
    AcAtIs(S, values, P, at, k);
  }

  /** The block, its coefficients from number `k` on stored where they belong. */
  function Shown(zz: seq<int>, dequant: seq<nat>, data: seq<int>, k: nat): (r: seq<int>)
    requires |zz| == |dequant| == |data| == 64
    ensures |r| == 64
    decreases 64 - k
  {
    if k >= 64 then data
    else Shown(zz, dequant, if zz[k] == 0 then data else data[Zigzag(k) := Short16(zz[k] * dequant[Zigzag(k)])], k + 1)
  }

  ghost predicate Tables(S: Sizes, values: seq<nat>, dequant: seq<nat>) {
    Sorted(S) && Fits(S) && |S| <= |values| && AllBytes(values) && |dequant| == 64
  }

  lemma ReadsEnd(S: Sizes, values: seq<nat>, P: Bytes, at: nat)
    requires Sorted(S) && Fits(S) && |S| <= |values| && AllBytes(values) && HasSymbol(S, values, 0) && BitsIn(P, at, CodeFor(S, values, 0))
    ensures AcAt(S, values, P, at) == Found(EndOfBlock, at + |CodeFor(S, values, 0)|)
  {
    hide BitsIn, AcAt, CodeFor, Window;
    var k := ReadsCode16(S, values, P, at, 0);
  }

  lemma {:induction false} ReadsZeros(S: Sizes, values: seq<nat>, P: Bytes, at: nat, kd: nat, n: nat, data: seq<int>, dequant: seq<nat>)
    requires Tables(S, values, dequant) && |data| == 64 && (n > 0 ==> HasSymbol(S, values, 0xf0)) && kd + 16 * n < 64
    requires BitsIn(P, at, Zeros16(S, values, n))
    ensures BlockFrom(S, values, P, at, kd, data, dequant) == BlockFrom(S, values, P, at + |Zeros16(S, values, n)|, kd + 16 * n, data, dequant)
    decreases n
  {
    hide BitsIn, AcAt, CodeFor, BlockFrom, Window;
    if n > 0 {
      var code := CodeFor(S, values, 0xf0);
      BitsParts(P, at, code, Zeros16(S, values, n - 1));
      var k := ReadsCode16(S, values, P, at, 0xf0);
      BlockStep(S, values, P, at, kd, data, dequant);
      ReadsZeros(S, values, P, at + |code|, kd + 16, n - 1, data, dequant);
    }
  }

  /** A coefficient behind fewer than sixteen zeros. */
  lemma ReadsValue(S: Sizes, values: seq<nat>, P: Bytes, at: nat, run: nat, v: int, n: nat)
    requires Sorted(S) && Fits(S) && |S| <= |values| && AllBytes(values) && run < 16 && v != 0 && n == Csize(Magnitude(v)) < 16
    requires HasSymbol(S, values, 16 * run + n) && 0 <= LowBits(v, n)
    requires BitsIn(P, at, CodeFor(S, values, 16 * run + n) + HighFirst(LowBits(v, n), n))
    ensures AcAt(S, values, P, at) == Found(Coefficient(run, v), at + |CodeFor(S, values, 16 * run + n)| + n)
  {
    hide BitsIn, AcAt, CodeFor, Window, Extend, LowBits, Csize, Shl, HighFirst;
    var code := CodeFor(S, values, 16 * run + n);
    ExtendLow(v);
    BitsParts(P, at, code, HighFirst(LowBits(v, n), n));
    var k := ReadsCode16(S, values, P, at, 16 * run + n);
    ReadsHighFirst(P, at + |code|, LowBits(v, n), n);
    assert (16 * run + n) % 16 == n && (16 * run + n) / 16 == run;
  }

  lemma {:induction false} ReadsBlock(S: Sizes, values: seq<nat>, P: Bytes, at: nat, zz: seq<int>, k: nat, run: nat, data: seq<int>, dequant: seq<nat>)
    requires Tables(S, values, dequant) && |data| == |zz| == 64 && run < k <= 64 && Sendable(S, values, zz, k, run)
    requires BitsIn(P, at, AcBits(S, values, zz, k, run))
    ensures BlockFrom(S, values, P, at, k - run, data, dequant) == Block(Shown(zz, dequant, data, k), at + |AcBits(S, values, zz, k, run)|)
    decreases 64 - k
  {
    hide BitsIn, AcAt, CodeFor, BlockFrom, Zeros16, Short16, Zigzag, HighFirst, LowBits, Csize;
    BlockStep(S, values, P, at, k - run, data, dequant);
    if k == 64 {
      if run > 0 { ReadsEnd(S, values, P, at); }
    } else if zz[k] == 0 {
      ReadsBlock(S, values, P, at, zz, k + 1, run + 1, data, dequant);
    } else {
      var n := Csize(Magnitude(zz[k]));
      ExtendLow(zz[k]);
      var a, b, c := Zeros16(S, values, run / 16), CodeFor(S, values, 16 * (run % 16) + n) + HighFirst(LowBits(zz[k], n), n), AcBits(S, values, zz, k + 1, 0);
      BitsParts(P, at, a + b, c);
      BitsParts(P, at, a, b);
      ReadsZeros(S, values, P, at, k - run, run / 16, data, dequant);
      ReadsValue(S, values, P, at + |a|, run % 16, zz[k], n);
      BlockStep(S, values, P, at + |a|, k - run % 16, data, dequant);
      var data' := data[Zigzag(k) := Short16(zz[k] * dequant[Zigzag(k)])];
      ReadsBlock(S, values, P, at + |a| + |b|, zz, k + 1, 0, data', dequant);
    }
  }

  /** Each coefficient is at its own place, and the others have not been touched. */
  lemma {:induction false} ShownIs(zz: seq<int>, dequant: seq<nat>, data: seq<int>, k: nat, j: nat)
    requires |zz| == |dequant| == |data| == 64 && k <= 64 && j < 64
    ensures Shown(zz, dequant, data, k)[Zigzag(j)] == if j >= k && zz[j] != 0 then Short16(zz[j] * dequant[Zigzag(j)]) else data[Zigzag(j)]
    decreases 64 - k
  {
    hide Zigzag, Short16;
    if k < 64 {
      var data' := if zz[k] == 0 then data else data[Zigzag(k) := Short16(zz[k] * dequant[Zigzag(k)])];
      ShownIs(zz, dequant, data', k + 1, j);
      if j != k { Apart(j, k); }
    }
  }

  // ---------------------------------------------------------------- bytes

  function BitOr1(b: seq<nat>, i: nat): nat { if i < |b| then b[i] % 2 else 1 }

  /** `n` bits, the first one highest. */
  function HighByte(b: seq<nat>, i: nat, n: nat): nat { if n == 0 then 0 else 2 * HighByte(b, i, n - 1) + BitOr1(b, i + n - 1) }

  /** The bits in bytes, filled up with ones. */
  function HighBytes(b: seq<nat>): Bytes {
    seq<nat>((|b| + 7) / 8, v requires 0 <= v < (|b| + 7) / 8 => HighByte(b, 8 * v, 8))
  }

  lemma {:induction false} HighByteBit(b: seq<nat>, i: nat, n: nat, j: nat)
    requires j < n
    ensures Shr(HighByte(b, i, n), n - 1 - j) % 2 == BitOr1(b, i + j)
    decreases n
  {
    if j < n - 1 { HighByteBit(b, i, n - 1, j); }
  }

  lemma HighBytesBit(b: seq<nat>, k: nat)
    requires k < |b|
    ensures BitAt(HighBytes(b), k) == b[k] % 2
  {
    var v, j := k / 8, k % 8;
    HighByteBit(b, 8 * v, 8, j);
    assert v < (|b| + 7) / 8;
  }

  /** A zero byte behind each 0xff. */
  function Stuffed(P: Bytes): Bytes { if P == [] then [] else (if P[0] == 0xff then [0xff, 0] else [P[0]]) + Stuffed(P[1..]) }

  /** The end of the data, or a marker. */
  predicate ScanEnds(rest: Bytes) { rest == [] || (|rest| >= 2 && rest[0] == 0xff && rest[1] != 0) }

  lemma {:induction false} StuffedPayload(before: Bytes, P: Bytes, rest: Bytes)
    requires ScanEnds(rest)
    ensures Payload(before + Stuffed(P) + rest, |before|) == P
    decreases |P|
  {
    var data, p := before + Stuffed(P) + rest, |before|;
    if P != [] {
      var first := if P[0] == 0xff then [0xff, 0] else [P[0]];
      assert data == before + first + Stuffed(P[1..]) + rest;
      StuffedPayload(before + first, P[1..], rest);
      assert data[p] == P[0] && (P[0] == 0xff ==> data[p + 1] == 0);
    } else {
      assert data == before + rest;
    }
  }

  /** Each coefficient that is not zero is there, times its factor, at its place; the rest is as before. */
  ghost predicate Restored(zz: seq<int>, dequant: seq<nat>, block: seq<int>, shown: seq<int>)
    requires |zz| == |dequant| == |block| == 64
  {
    |shown| == 64 && forall k: nat | k < 64 :: CoefficientAt(zz, dequant, block, shown, k)
  }

  ghost predicate CoefficientAt(zz: seq<int>, dequant: seq<nat>, block: seq<int>, shown: seq<int>, k: nat)
    requires |zz| == |dequant| == |block| == |shown| == 64 && k < 64
  {
    var z := Zigzag(k);
    shown[z] == if k > 0 && zz[k] != 0 then Short16(zz[k] * dequant[z]) else block[z]
  }

  /** The bytes of a scan with the block behind `bits`, filled up to whole bytes and stuffed. */
  ghost function ScanBytes(S: Sizes, values: seq<nat>, zz: seq<int>, before: Bytes, bits: seq<nat>, after: seq<nat>, rest: Bytes): Bytes
    requires Sorted(S) && |zz| == 64 && Sendable(S, values, zz, 1, 0)
  {
    before + Stuffed(HighBytes(bits + AcBits(S, values, zz, 1, 0) + after)) + rest
  }

  /** From coefficients to the bytes of a scan and back, whatever comes before and behind the block: the
      decoder restores the coefficients, and stops behind the last bit of the block. */
  lemma BlockRoundTrip(S: Sizes, values: seq<nat>, zz: seq<int>, before: Bytes, bits: seq<nat>, after: seq<nat>, rest: Bytes, block: seq<int>, dequant: seq<nat>)
    returns (shown: seq<int>)
    requires Tables(S, values, dequant) && |block| == |zz| == 64 && Sendable(S, values, zz, 1, 0) && ScanEnds(rest)
    ensures BlockFrom(S, values, Payload(ScanBytes(S, values, zz, before, bits, after, rest), |before|), |bits|, 1, block, dequant)
      == Block(shown, |bits| + |AcBits(S, values, zz, 1, 0)|)
    ensures Restored(zz, dequant, block, shown)
  {
    hide BitAt, HighBytes, BlockFrom, Payload, Stuffed, AcBits, Sendable, Fits, AllBytes;
    var b := AcBits(S, values, zz, 1, 0);
    var all := bits + b + after;
    StuffedPayload(before, HighBytes(all), rest);
    AcBitsAre(S, values, zz, 1, 0);
    forall j | 0 <= j < |b|
      ensures BitAt(HighBytes(all), |bits| + j) == b[j]
    {
      HighBytesBit(all, |bits| + j);
      assert all[|bits| + j] == b[j];
    }
    ReadsBlock(S, values, HighBytes(all), |bits|, zz, 1, 0, block, dequant);
    shown := Shown(zz, dequant, block, 1);
    AllShown(zz, dequant, block);
  }

  /** The same for the decoder itself, with a table that overlooks nothing: unless the scan is at its end
      the block is decoded, and holds the coefficients. */
  method DecodeWritten(z: Bits, h: Table, fastAc: array<int>, block: array<int>, dequant: seq<nat>, ghost S: Sizes, ghost zz: seq<int>) returns (ok: bool)
    requires z.Valid() && h.TableFor(S) && AllBytes(h.values[..]) && z.Filler(S, h.values[..], fastAc) && Complete(S)
    requires block.Length == |dequant| == |zz| == 64 && block != fastAc && block != h.delta
    requires Sendable(S, h.values[..], zz, 1, 0) && BitsIn(z.P, z.at, AcBits(S, h.values[..], zz, 1, 0))
    modifies z, block
    ensures ok ==> z.Valid() && z.at == old(z.at) + |AcBits(S, old(h.values[..]), zz, 1, 0)| && Restored(zz, dequant, old(block[..]), block[..])
    ensures !ok ==> z.at + 16 > 8 * |z.P|
  {
    hide BitsIn, AcBits, Sendable, BlockFrom, Restored, Shown, AllBytes, Fits;
    ReadsBlock(S, h.values[..], z.P, z.at, zz, 1, 0, block[..], dequant);
    AllShown(zz, dequant, block[..]);
    ghost var lost;
    ok, lost := z.AcBlock(h, fastAc, block, dequant, S);
  }

  lemma AllShown(zz: seq<int>, dequant: seq<nat>, block: seq<int>)
    requires |zz| == |dequant| == |block| == 64
    ensures Restored(zz, dequant, block, Shown(zz, dequant, block, 1))
  {
    hide Zigzag, Shown, Short16;
    forall k: nat | k < 64
      ensures CoefficientAt(zz, dequant, block, Shown(zz, dequant, block, 1), k)
    {
      ShownIs(zz, dequant, block, 1, k);
    }
  }

  lemma {:induction false} AcBitsAre(S: Sizes, values: seq<nat>, zz: seq<int>, k: nat, run: nat)
    requires Sorted(S) && |zz| == 64 && Sendable(S, values, zz, k, run)
    ensures AreBits(AcBits(S, values, zz, k, run))
    decreases 64 - k
  {
    hide Csize, LowBits;
    if k >= 64 {
    } else if zz[k] == 0 {
      AcBitsAre(S, values, zz, k + 1, run + 1);
    } else {
      ExtendLow(zz[k]);
      ZerosAre(S, values, run / 16);
      AcBitsAre(S, values, zz, k + 1, 0);
    }
  }

  lemma {:induction false} ZerosAre(S: Sizes, values: seq<nat>, n: nat)
    requires Sorted(S) && (n > 0 ==> HasSymbol(S, values, 0xf0))
    ensures AreBits(Zeros16(S, values, n))
    decreases n
  {
    if n > 0 { ZerosAre(S, values, n - 1); }
  }
}
