/** The table that decodes a short AC code and its bits in one step. */
module JpegFastAc {
  import opened Shifts
  import opened HuffmanCode
  import opened InflateBits
  import opened JpegHuffman
  import opened JpegTable
  import opened JpegStream

  // ---------------------------------------------------------------- what the standard says

  /** EXTEND of section F.2.2.1. */
  function Extend(v: nat, n: nat): int
    requires n > 0
  {
    if v < Shl(1, n - 1) then v - Shl(1, n) + 1 else v
  }

  /** It gives each value of a magnitude category once. */
  lemma ExtendCategory(v: nat, n: nat)
    requires n > 0 && v < Shl(1, n)
    ensures var e := Extend(v, n); Shl(1, n - 1) <= (if e < 0 then -e else e) < Shl(1, n)
    ensures forall w: nat | w < Shl(1, n) && Extend(w, n) == Extend(v, n) :: w == v
  {}

  /** What one AC code gives: a coefficient behind a run of zeros, sixteen zeros, the end of the
      block, or nothing. */
  datatype Ac = Coefficient(run: nat, value: int) | SixteenZeros | EndOfBlock | NoCode

  /** An AC code, and where the stream goes on behind it and its bits. */
  datatype Found = Found(ac: Ac, at: nat)

  /** The code of symbol `k` and the bits behind it. */
  ghost function AcOf(S: Sizes, values: seq<nat>, P: Bytes, at: nat, k: nat): Found
    requires Sorted(S) && k < |S| <= |values| && AllBytes(values)
  {
    var rs, rest := values[k], at + S[k];
    if rs % 16 > 0 then Found(Coefficient(rs / 16, Extend(Window(P, rest, rs % 16), rs % 16)), rest + rs % 16)
    else Found(if rs == 0xf0 then SixteenZeros else EndOfBlock, rest)
  }

  /** The codeword of symbol `k` comes next. */
  ghost predicate Next16(S: Sizes, P: Bytes, at: nat, k: nat)
    requires Sorted(S)
  {
    Begins16(S, Window(P, at, 16), k)
  }

  /** Section F.2.2.2: whatever codeword comes next. */
  ghost function AcAt(S: Sizes, values: seq<nat>, P: Bytes, at: nat): Found
    requires Sorted(S) && |S| <= |values| && AllBytes(values)
  {
    if exists k: nat :: Next16(S, P, at, k) then
      var k: nat :| Next16(S, P, at, k);
      AcOf(S, values, P, at, k)
    else Found(NoCode, at)
  }

  lemma AcAtIs(S: Sizes, values: seq<nat>, P: Bytes, at: nat, k: nat)
    requires Sorted(S) && |S| <= |values| && AllBytes(values) && Next16(S, P, at, k)
    ensures AcAt(S, values, P, at) == AcOf(S, values, P, at, k)
  {
    hide Window, Begins16;
    forall j: nat | Next16(S, P, at, j)
      ensures j == k
    {
      OneBegins(S, Window(P, at, 16), j, k);
    }
  }

  // ---------------------------------------------------------------- the fast table

  function Magnitude(c: nat, len: nat, n: nat): int
    requires 0 < n && len + n <= FAST_BITS
  {
    Extend(Low(Shr(c, FAST_BITS - len - n), n), n)
  }

  /** The nine bits `c` hold a whole code, that of symbol `k`, with its bits, and the value is a
      signed byte. Symbol 255 has no place in the fast table. */
  ghost predicate Whole(S: Sizes, values: seq<nat>, c: nat, k: nat)
    requires Sorted(S) && |S| <= |values| && AllBytes(values)
  {
    && k < 255 && k < |S| && Matches9(S, c, k) && values[k] % 16 > 0 && S[k] + values[k] % 16 <= FAST_BITS
    && -128 <= Magnitude(c, S[k], values[k] % 16) <= 127
  }

  /** A small value, a run of zeros and a number of bits in sixteen bits. */
  function Packed(value: int, run: nat, bits: nat): int { 256 * value + 16 * run + bits }

  /** An entry of the fast AC table: filled exactly if a whole code is there, and with what it
      stands for. */
  ghost predicate AcEntry(S: Sizes, values: seq<nat>, r: int, c: nat)
    requires Sorted(S) && |S| <= |values| && AllBytes(values)
  {
    && -0x8000 <= r < 0x8000
    && (r != 0 <==> exists k: nat :: Whole(S, values, c, k))
    && forall k: nat | Whole(S, values, c, k) :: r == Packed(Magnitude(c, S[k], values[k] % 16), values[k] / 16, S[k] + values[k] % 16)
  }

  /** r >> 8, (r >> 4) & 15 and r & 15 */
  lemma Unpack(m: int, run: nat, s: nat)
    requires run < 16 && s < 16
    ensures var r := Packed(m, run, s); r / 256 == m && r / 16 % 16 == run && r % 16 == s
    ensures -128 <= m <= 127 ==> -0x8000 <= Packed(m, run, s) < 0x8000
  {
    var r := Packed(m, run, s);
    var q := 16 * m + run;
    assert r == 16 * q + s;
    Quotient(q, s);
    Quotient(m, run);
    assert r / 256 == q / 16;
  }

  lemma Quotient(q: int, s: nat)
    requires s < 16
    ensures (16 * q + s) / 16 == q && (16 * q + s) % 16 == s
  {}

  /** stbi__build_fast_ac: the entries are those of exactly the codes that fit with their bits. */
  method BuildFastAc(h: Table, fastAc: array<int>, ghost S: Sizes)
    requires h.TableFor(S) && fastAc.Length == 512 && fastAc != h.delta && AllBytes(h.values[..])
    modifies fastAc
    ensures forall c | 0 <= c < 512 :: AcEntry(S, h.values[..], fastAc[c], c)
  {
    hide Shl, Shr, Start, CodeOf, Extend, Magnitude, Low, AcEntry, Matches9, Packed;
    for i := 0 to 512
      invariant forall c | 0 <= c < i :: AcEntry(S, h.values[..], fastAc[c], c)
    {
      var fast := h.fast[i];
      fastAc[i] := 0;
      assert FastEntry(S, h.fast[..][i], i, |S|);
      if fast < 255 {
        var rs := h.values[fast];
        assert rs == h.values[..][fast];
        HighHalf(rs);
        var run, magbits, len := rs / 16 % 16, rs % 16, h.size[fast];
        assert h.size[..|S|][fast] == len;
        if magbits > 0 && len + magbits <= FAST_BITS {
          MagnitudeIs(i, len, magbits);
          var k: int := Shr(Low(Shl(i, len), FAST_BITS), FAST_BITS - magbits);
          var m := Shl(1, magbits - 1);
          if k < m { k := k - Shl(1, magbits) + 1; }
          if -128 <= k <= 127 {
            fastAc[i] := Packed(k, run, len + magbits);
          }
        }
      }
      EntryIs(S, h.values[..], fastAc[i], i, fast);
    }
  }

  /** The code for one entry is right. */
  lemma HighHalf(v: nat)
    requires v < 256
    ensures v / 16 % 16 == v / 16
  {}

  lemma EntryIs(S: Sizes, values: seq<nat>, r: int, c: nat, fast: nat)
    requires Sorted(S) && |S| <= |values| && AllBytes(values) && FastEntry(S, fast, c, |S|)
    requires r == if fast < 255 && Whole(S, values, c, fast)
                  then Packed(Magnitude(c, S[fast], values[fast] % 16), values[fast] / 16, S[fast] + values[fast] % 16) else 0
    ensures AcEntry(S, values, r, c)
  {
    hide Shl, Shr, Start, CodeOf, Magnitude, Low, Matches9;
    forall k: nat | Whole(S, values, c, k)
      ensures k == fast
    {
      if fast < 255 { OneMatches9(S, c, k, fast); }
    }
    if fast < 255 && Whole(S, values, c, fast) {
      Unpack(Magnitude(c, S[fast], values[fast] % 16), values[fast] / 16, S[fast] + values[fast] % 16);
    }
  }

  /** The bits of the magnitude, as the code takes them. */
  lemma MagnitudeIs(c: nat, len: nat, n: nat)
    requires 0 < n && len + n <= FAST_BITS
    ensures var k := Shr(Low(Shl(c, len), FAST_BITS), FAST_BITS - n);
      Magnitude(c, len, n) == if k < Shl(1, n - 1) then k - Shl(1, n) + 1 else k
  {
    hide Shl, Shr, Low;
    LowShl(c, len, FAST_BITS);
    var x := Low(c, FAST_BITS - len);
    ShrAdd(Shl(x, len), len, FAST_BITS - n - len);
    ShrShl(x, len);
    ShrLow(c, FAST_BITS - len, FAST_BITS - n - len);
  }

  lemma {:induction false} ShrLow(x: nat, n: nat, k: nat)
    requires k <= n
    ensures Shr(Low(x, n), k) == Low(Shr(x, k), n - k)
    decreases k
  {
    if k > 0 { ShrLow(x / 2, n - 1, k - 1); }
  }

  /** An entry of the table stands for what comes next in the stream: the same run, the same
      value, and the same place behind it. */
  lemma FastIsSlow(S: Sizes, values: seq<nat>, r: int, P: Bytes, at: nat)
    requires Sorted(S) && |S| <= |values| && AllBytes(values) && r != 0 && AcEntry(S, values, r, Window(P, at, FAST_BITS))
    ensures AcAt(S, values, P, at) == Found(Coefficient(r / 16 % 16, r / 256), at + r % 16)
  {
    hide Shl, Shr, Low, Start, CodeOf, Extend, Window, AcAt;
    var c := Window(P, at, FAST_BITS);
    var k: nat :| Whole(S, values, c, k);
    var n := values[k] % 16;
    Unpack(Magnitude(c, S[k], n), values[k] / 16, S[k] + n);
    ShortBegins(S, P, at, k);
    AcAtIs(S, values, P, at, k);
    WindowShr(P, at, S[k] + n, FAST_BITS - S[k] - n);
    WindowLow(P, at, S[k], n);
  }

  /** A codeword that begins the next nine bits begins the next sixteen. */
  lemma ShortBegins(S: Sizes, P: Bytes, at: nat, k: nat)
    requires Sorted(S) && k < |S| && S[k] <= FAST_BITS
    ensures Matches9(S, Window(P, at, FAST_BITS), k) <==> Next16(S, P, at, k)
  {
    hide Shl, Shr, Start, Window;
    WindowShr(P, at, S[k], FAST_BITS - S[k]);
    WindowShr(P, at, S[k], 16 - S[k]);
  }

  // ---------------------------------------------------------------- step by step

  /** The slow path finds the length of the next codeword. */
  lemma SlowFinds(S: Sizes, v: nat, j: nat, maxcode: seq<nat>, delta: seq<int>) returns (k: nat)
    requires Sorted(S) && LengthTable(S, maxcode, delta, 16) && 0 < j <= 16 && v < maxcode[j] && v >= Start(S, Shorter(S, j - 1))
    ensures Begins16(S, v, k) && S[k] == j && k == Shr(v, 16 - j) + delta[j]
  {
    hide Shr, Shl;
    k := ByLength(S, v, j);
  }

  /** Symbol 255 comes next, and its codeword is short: the entry of the fast table looks as if
      there were no short codeword. */
  ghost predicate Overlooked(S: Sizes, P: Bytes, at: nat)
    requires Sorted(S)
  {
    |S| == 256 && S[255] <= FAST_BITS && Next16(S, P, at, 255)
  }

  /** The table is complete: no stream contains an overlooked symbol. */
  ghost predicate Complete(S: Sizes)
    requires Sorted(S)
  {
    |S| < 256 || S[255] > FAST_BITS
  }

  /** No short codeword begins the buffer if the fast table has no entry for it. */
  lemma FastMisses(S: Sizes, P: Bytes, at: nat)
    requires Sorted(S) && FastEntry(S, 255, Window(P, at, FAST_BITS), |S|)
    ensures Window(P, at, 16) >= Start(S, Shorter(S, FAST_BITS)) <==> !Overlooked(S, P, at)
  {
    hide Shr, Shl, Start, Window;
    var v, n := Window(P, at, 16), Shorter(S, FAST_BITS);
    UpToIs(S, FAST_BITS, |S|);
    if v < Start(S, n) {
      var k := FindSymbol(S, v, n);
      ShortBegins(S, P, at, k);
    }
    if Overlooked(S, P, at) {
      BeginsIs(S, v, 255);
      StartOrder(S, 256, n);
    }
  }

  /** The slow path takes ten bits for an overlooked symbol, at least one too many. */
  lemma OverlookedLimits(S: Sizes, P: Bytes, at: nat, maxcode: seq<nat>, delta: seq<int>)
    requires Sorted(S) && Fits(S) && LengthTable(S, maxcode, delta, 16) && Overlooked(S, P, at)
    ensures Window(P, at, 16) < maxcode[FAST_BITS + 1]
    ensures 0 <= Window(P, at, FAST_BITS + 1) + delta[FAST_BITS + 1] <= 255
  {
    hide Shr, Shl, Start, Window;
    var v, j := Window(P, at, 16), FAST_BITS + 1;
    UpToAt(S, FAST_BITS, 256, 256);
    UpToAt(S, j, 256, 256);
    BeginsIs(S, v, 255);
    LastStart(S);
    WindowShr(P, at, j, 16 - j);
    ShrBelow(v, Shr(Start(S, 256), 16 - j), 16 - j);
    ShrOrder(Start(S, 255), v, 16 - j);
  }

  /** Ten-bit strings that begin with the last of 256 short codewords. */
  lemma LastStart(S: Sizes)
    requires Sorted(S) && Fits(S) && |S| == 256 && S[255] <= FAST_BITS
    ensures Start(S, 256) == Shl(Shr(Start(S, 256), 6), 6) && Shr(Start(S, 256), 6) <= Shr(Start(S, 255), 6) + 256
    ensures Shr(Start(S, 256), 6) <= 1024
  {
    hide Shr, Start;
    var s := S[255];
    Aligned(S, 255);
    var c := CodeOf(S, 255);
    hide CodeOf, Shl;
    ShlSum(c, 1, 16 - s);
    StartNext(S, 255);
    ShlAdd(c, 10 - s, 6);
    ShlAdd(c + 1, 10 - s, 6);
    ShrShl(Shl(c, 10 - s), 6);
    ShrShl(Shl(c + 1, 10 - s), 6);
    ShlSum(c, 1, 10 - s);
    AtLeastEight(S);
    ShlSmall(10 - s);
    ShrBelow(Start(S, 256), 1025, 6);
    assert Shl(1025, 6) > 0x1_0000 by { ShlSix(1025); }
  }

  lemma StartNext(S: Sizes, k: nat)
    requires Sorted(S) && k < |S|
    ensures Start(S, k + 1) == Start(S, k) + Shl(1, 16 - S[k])
  {}

  lemma ShlSix(q: nat)
    ensures Shl(q, 6) == 64 * q
  {
    ShlAdd(q, 1, 5);
    ShlAdd(2 * q, 1, 4);
    ShlAdd(4 * q, 1, 3);
    ShlAdd(8 * q, 1, 2);
    ShlAdd(16 * q, 1, 1);
  }

  lemma ShlSmall(n: nat)
    requires n <= 2
    ensures Shl(1, n) <= 4
  {}

  /** 256 codewords of one length or less need at least eight bits. */
  lemma AtLeastEight(S: Sizes)
    requires Sorted(S) && Fits(S) && |S| == 256 && S[255] <= FAST_BITS
    ensures S[255] >= 8
  {
    if S[255] <= 7 {
      AllLong(S, 256);
      assert false;
    }
  }

  lemma {:induction false} AllLong(S: Sizes, n: nat)
    requires Sorted(S) && n <= |S| == 256 && S[255] <= 7
    ensures Start(S, n) >= 512 * n
  {
    if n > 0 {
      AllLong(S, n - 1);
      assert S[n - 1] <= S[255];
      ShlAdd(1, 9, 7 - S[n - 1]);
      ShlAtLeast(Shl(1, 9), 7 - S[n - 1]);
      assert Shl(1, 9) == 512 by { ShlSeven(1); }
    }
  }

  lemma {:induction false} ShrOrder(a: nat, b: nat, n: nat)
    requires a <= b
    ensures Shr(a, n) <= Shr(b, n)
    decreases n
  {
    if n > 0 { ShrOrder(a / 2, b / 2, n - 1); }
  }

  /** A table overlooks no symbol in any stream exactly if it is complete. */
  lemma CompleteIff(S: Sizes)
    requires Sorted(S) && Fits(S)
    ensures Complete(S) <==> forall P: Bytes, at: nat | AllBytes(P) :: !Overlooked(S, P, at)
  {
    if !Complete(S) {
      var P := BeginsWith(S, 255);
      assert Overlooked(S, P, 0);
    }
  }

  /** A stream that begins with a symbol. */
  lemma BeginsWith(S: Sizes, k: nat) returns (P: Bytes)
    requires Sorted(S) && Fits(S) && k < |S|
    ensures AllBytes(P) && Next16(S, P, 0, k)
  {
    hide Start, Shr, Shl, CodeOf, Window;
    var v := Start(S, k);
    StartNext(S, k);
    StartOrder(S, k + 1, |S|);
    ShlPositive(16 - S[k]);
    P := [v / 256, v % 256];
    WindowTwo(P);
    BeginsIs(S, v, k);
  }

  lemma {:induction false} ShlPositive(n: nat)
    ensures Shl(1, n) > 0
  {
    if n > 0 { ShlPositive(n - 1); }
  }

  lemma WindowTwo(P: Bytes)
    requires AllBytes(P) && |P| == 2
    ensures Window(P, 0, 16) == 256 * P[0] + P[1]
  {
    hide Window;
    WindowSplit(P, 0, 8, 8);
    WindowByte(P, 0);
    WindowByte(P, 1);
    ShlSeven(P[0]);
    assert Shl(P[0], 8) == 256 * P[0];
  }

  /** 255 codewords of eight bits and one of nine. */
  function AllSymbols(): Sizes { seq<nat>(256, i requires 0 <= i < 256 => if i < 255 then 8 else 9) }

  /** A table that a file may contain: after the bytes 0xff 0x00 (the zero is not even stuffing)
      comes symbol 255 with nine bits, but the code takes ten. */
  lemma Example()
    ensures Sorted(AllSymbols()) && Fits(AllSymbols()) && Overlooked(AllSymbols(), [0xff, 0], 0)
  {
    hide Start, Shl, Shr, CodeOf, Window;
    var S := AllSymbols();
    assert S[255] == 9;
    EightBits(255);
    StartNext(S, 255);
    ShlSeven(1);
    WindowTwo([0xff, 0]);
    BeginsIs(S, 0xff00, 255);
  }

  lemma {:induction false} EightBits(n: nat)
    requires n <= 255
    ensures Start(AllSymbols(), n) == 256 * n
  {
    if n > 0 {
      EightBits(n - 1);
      assert AllSymbols()[n - 1] == 8;
      assert Share(8) == 256 by { ShlSeven(1); }
    }
  }

  lemma NoneBegins(S: Sizes, P: Bytes, at: nat)
    requires Sorted(S) && Window(P, at, 16) >= Start(S, Shorter(S, 16))
    ensures forall k: nat :: !Next16(S, P, at, k)
  {
    UpToAt(S, 16, |S|, |S|);
    var v := Window(P, at, 16);
    hide Window, Start, CodeOf;
    forall k: nat
      ensures !Next16(S, P, at, k)
    {
      if k < |S| {
        BeginsIs(S, v, k);
        StartOrder(S, k, |S|);
      }
    }
  }
}
