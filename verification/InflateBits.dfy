/** The bit buffer of stb_image.h's inflate, and Huffman decoding on it. The stream is read
    bit by bit, lowest bit of each byte first, and goes on with zeros after its end. */
module InflateBits {
  import opened Shifts
  import opened BitReversal
  import opened HuffmanCode
  import opened HuffmanTable

  type Bytes = seq<nat>

  ghost predicate AllBytes(data: Bytes) { forall i | 0 <= i < |data| :: data[i] < 256 }

  // ---------------------------------------------------------------- the stream

  function StreamBit(data: Bytes, n: nat): (b: nat)
    ensures b < 2
  {
    if n / 8 < |data| then Bit(data[n / 8], n % 8) else 0
  }

  /** `n` bits from position `p` on, as a number whose lowest bit comes first. */
  function ReadBits(data: Bytes, p: nat, n: nat): nat
    decreases n
  {
    if n == 0 then 0 else StreamBit(data, p) + 2 * ReadBits(data, p + 1, n - 1)
  }

  /** The same bits as a Huffman code is packed: the highest bit comes first. */
  function CodeBits(data: Bytes, p: nat, n: nat): nat {
    if n == 0 then 0 else 2 * CodeBits(data, p, n - 1) + StreamBit(data, p + n - 1)
  }

  lemma {:induction false} ReadBound(data: Bytes, p: nat, n: nat)
    ensures ReadBits(data, p, n) < Shl(1, n)
    decreases n
  {
    hide StreamBit;
    if n > 0 { ReadBound(data, p + 1, n - 1); }
  }

  lemma {:induction false} ReadSplit(data: Bytes, p: nat, m: nat, n: nat)
    ensures ReadBits(data, p, m + n) == ReadBits(data, p, m) + Shl(ReadBits(data, p + m, n), m)
    decreases m
  {
    hide StreamBit;
    if m > 0 { ReadSplit(data, p + 1, m - 1, n); }
  }

  lemma {:induction false} ReadShr(data: Bytes, p: nat, n: nat, k: nat)
    requires k <= n
    ensures Shr(ReadBits(data, p, n), k) == ReadBits(data, p + k, n - k)
    decreases k
  {
    hide StreamBit;
    if k > 0 { ReadShr(data, p + 1, n - 1, k - 1); }
  }

  lemma {:induction false} ReadLow(data: Bytes, p: nat, m: nat, n: nat)
    requires n <= m
    ensures Low(ReadBits(data, p, m), n) == ReadBits(data, p, n)
    decreases n
  {
    hide StreamBit;
    if n > 0 { ReadLow(data, p + 1, m - 1, n - 1); }
  }

  /** Reversing the low bits of the buffer gives the code at its start. */
  lemma {:induction false} RevRead(data: Bytes, p: nat, m: nat, n: nat)
    requires n <= m
    ensures Rev(ReadBits(data, p, m), n) == CodeBits(data, p, n)
    decreases n
  {
    hide StreamBit;
    if n > 0 {
      RevRead(data, p, m, n - 1);
      ReadShr(data, p, m, n - 1);
    }
  }

  lemma {:induction false} LowBelow(x: nat, n: nat)
    ensures Low(x, n) < Shl(1, n)
    decreases n
  {
    if n > 0 { LowBelow(x / 2, n - 1); }
  }

  lemma {:induction false} LowAll(x: nat, n: nat)
    requires x < Shl(1, n)
    ensures Low(x, n) == x
    decreases n
  {
    if n > 0 { LowAll(x / 2, n - 1); }
  }

  lemma {:induction false} ReadInByte(data: Bytes, v: nat, i: nat, n: nat)
    requires i + n <= 8
    ensures ReadBits(data, 8 * v + i, n) == if v < |data| then Low(Shr(data[v], i), n) else 0
    decreases n
  {
    if n > 0 {
      ReadInByte(data, v, i + 1, n - 1);
      assert (8 * v + i) / 8 == v && (8 * v + i) % 8 == i;
      if v < |data| { ShrStep(data[v], i); }
    }
  }

  /** What stbi__zget8 returns for the byte with number `v`. */
  function ByteAt(data: Bytes, v: nat): nat { if v < |data| then data[v] else 0 }

  lemma ReadByte(data: Bytes, v: nat)
    requires AllBytes(data)
    ensures ReadBits(data, 8 * v, 8) == ByteAt(data, v)
  {
    hide StreamBit, ReadBits;
    ReadInByte(data, v, 0, 8);
    if v < |data| {
      ShlSeven(1);
      assert Shl(1, 8) == 256;
      LowAll(data[v], 8);
    }
  }

  // ---------------------------------------------------------------- what decoding means

  /** The codeword of `sym` is next in the stream. */
  ghost predicate Coded(L: Lengths, data: Bytes, p: nat, sym: nat) {
    sym < |L| && 0 < L[sym] <= MAX_BITS && CodeBits(data, p, L[sym]) == Code(L, sym)
  }

  lemma {:induction false} CodePrefix(data: Bytes, p: nat, n: nat, m: nat)
    requires m <= n
    ensures Shr(CodeBits(data, p, n), n - m) == CodeBits(data, p, m)
    decreases n
  {
    hide StreamBit;
    if m < n {
      CodePrefix(data, p, n - 1, m);
    }
  }

  lemma CodedBegins(L: Lengths, data: Bytes, p: nat, sym: nat)
    ensures Coded(L, data, p, sym) <==> Begins(L, CodeBits(data, p, 16), sym)
  {
    if sym < |L| && L[sym] <= MAX_BITS { CodePrefix(data, p, 16, L[sym]); }
  }

  /** Decoding is a function. */
  lemma CodedUnique(L: Lengths, data: Bytes, p: nat, a: nat, b: nat)
    requires Coded(L, data, p, a) && Coded(L, data, p, b)
    ensures a == b
  {
    CodedBegins(L, data, p, a);
    CodedBegins(L, data, p, b);
    PrefixFree(L, CodeBits(data, p, 16), a, b);
  }

  lemma {:induction false} CodeBound(data: Bytes, p: nat, n: nat)
    ensures CodeBits(data, p, n) < Shl(1, n)
  {
    hide StreamBit;
    if n > 0 { CodeBound(data, p, n - 1); }
  }

  // ---------------------------------------------------------------- the two ways to decode

  /** An entry of the fast table that is set is the next symbol. */
  lemma FastHit(L: Lengths, data: Bytes, p: nat, fast: seq<nat>, j: nat)
    requires FastUpTo(L, fast, |L|) && j == ReadBits(data, p, FAST_BITS) && j < FAST_SIZE && fast[j] != 0
    ensures Coded(L, data, p, fast[j] % 512) && fast[j] / 512 == L[fast[j] % 512] <= FAST_BITS
  {
    var sym := fast[j] % 512;
    assert FastEntry(L, fast[j], j, |L|);
    RevRead(data, p, FAST_BITS, L[sym]);
  }

  /** Below the limit of some length there is a first such length. */
  lemma {:induction false} FirstBelow(L: Lengths, k: nat, n: nat) returns (s: nat)
    requires 0 < n <= MAX_BITS && k < MaxCode(L, n)
    ensures 0 < s <= n && MaxCode(L, s - 1) <= k < MaxCode(L, s)
  {
    if n > 1 && k < MaxCode(L, n - 1) {
      s := FirstBelow(L, k, n - 1);
    } else {
      ShlZero(16);
      s := n;
    }
  }

  /** An entry that is not set means a longer code, or none. */
  lemma FastMiss(L: Lengths, data: Bytes, p: nat, fast: seq<nat>, j: nat)
    requires FastUpTo(L, fast, |L|) && j == ReadBits(data, p, FAST_BITS) && j < FAST_SIZE && fast[j] == 0
    ensures CodeBits(data, p, 16) >= MaxCode(L, FAST_BITS)
  {
    var k := CodeBits(data, p, 16);
    assert FastEntry(L, fast[j], j, |L|);
    if k < MaxCode(L, FAST_BITS) {
      var s := FirstBelow(L, k, FAST_BITS);
      var sym := SymbolAt(L, k, s);
      CodedBegins(L, data, p, sym);
      RevRead(data, p, FAST_BITS, s);
      assert FastMatch(L, j, sym);
    }
  }

  /** What the slow path finds: a length, and with it the symbol. */
  lemma SlowHit(L: Lengths, data: Bytes, p: nat, s: nat, size: seq<nat>, value: seq<nat>)
    requires 0 < s <= MAX_BITS && MaxCode(L, s - 1) <= CodeBits(data, p, 16) < MaxCode(L, s) && SlotsUpTo(L, size, value, |L|)
    ensures var b := Shr(CodeBits(data, p, 16), 16 - s) - First(L, s) + FirstSymbol(L, s);
      0 <= b < |size| == |value| && size[b] == s && Coded(L, data, p, value[b]) && L[value[b]] == s
  {
    var sym := SymbolAt(L, CodeBits(data, p, 16), s);
    CodedBegins(L, data, p, sym);
    assert SlotFilled(L, size, value, sym);
  }

  lemma SlowMiss(L: Lengths, data: Bytes, p: nat, sym: nat)
    requires CodeBits(data, p, 16) >= MaxCode(L, MAX_BITS)
    ensures !Coded(L, data, p, sym)
  {
    CodedBegins(L, data, p, sym);
    NoSymbol(L, CodeBits(data, p, 16), sym);
  }
}
