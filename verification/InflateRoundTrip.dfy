/** From a text to compressed data and back: what a compressor of RFC 1951 may write, and that a block
    written so is read as what it stands for. */
module InflateRoundTrip {
  import opened Shifts
  import opened HuffmanCode
  import opened HuffmanTable
  import opened InflateBits
  import opened InflateTokens
  import opened BitWriter
  import opened InflateEnds
  import opened Inflate

  /** A byte, or a copy of `len` bytes from `dist` bytes before; the compressor has chosen the length
      code 257 + `i` and the distance code `d` for it. */
  datatype Item = Byte(b: nat) | Copy(len: nat, i: nat, dist: nat, d: nat)

  predicate HasCode(L: Lengths, sym: nat) { sym < |L| && 0 < L[sym] }

  /** The codes there are allow for the item, and the chosen ranges contain its numbers. */
  predicate Sendable(L: Lengths, D: Lengths, x: Item) {
    match x
    case Byte(b) => b < 256 && HasCode(L, b)
    case Copy(len, i, dist, d) =>
      && i <= 28 && HasCode(L, 257 + i) && LengthStart(i) <= len < LengthStart(i) + Shl(1, ExtraBitsOfLength(i))
      && d <= 29 && HasCode(D, d) && DistStart(d) <= dist < DistStart(d) + Shl(1, ExtraBitsOfDist(d))
  }

  function Codeword(L: Lengths, sym: nat): seq<nat>
    requires HasCode(L, sym)
  {
    HighFirst(Code(L, sym), L[sym])
  }

  /** Section 3.2.5: a codeword; for a copy also the extra bits of its length, the codeword of its
      distance and the extra bits of that. */
  function ItemBits(L: Lengths, D: Lengths, x: Item): seq<nat>
    requires Sendable(L, D, x)
  {
    match x
    case Byte(b) => Codeword(L, b)
    case Copy(len, i, dist, d) =>
      Codeword(L, 257 + i) + BitsOf(len - LengthStart(i), ExtraBitsOfLength(i)) + Codeword(D, d) + BitsOf(dist - DistStart(d), ExtraBitsOfDist(d))
  }

  ghost predicate AllSendable(L: Lengths, D: Lengths, items: seq<Item>) { forall x <- items :: Sendable(L, D, x) }

  /** The items one after the other, and the end of the block. */
  ghost function BlockBits(L: Lengths, D: Lengths, items: seq<Item>): (b: seq<nat>)
    requires AllSendable(L, D, items) && HasCode(L, 256)
    ensures AreBits(b)
  {
    if items == [] then Codeword(L, 256) else ItemBits(L, D, items[0]) + BlockBits(L, D, items[1..])
  }

  /** What the items stand for, behind the output `out`. */
  function Appended(out: seq<nat>, x: Item): seq<nat> {
    match x
    case Byte(b) => out + [b]
    case Copy(len, _, dist, _) => if 0 < dist <= |out| then Expand(out, dist, len) else out
  }

  function Text(out: seq<nat>, items: seq<Item>): seq<nat>
    decreases |items|
  {
    if items == [] then out else Text(Appended(out, items[0]), items[1..])
  }

  /** Copies do not reach back beyond the start of the output. */
  predicate InReach(out: seq<nat>, items: seq<Item>)
    decreases |items|
  {
    items != [] ==> (items[0].Copy? ==> items[0].dist <= |out|) && InReach(Appended(out, items[0]), items[1..])
  }

  // ---------------------------------------------------------------- reading what was written

  ghost predicate BitsAt(data: Bytes, p: nat, b: seq<nat>) { forall j | 0 <= j < |b| :: StreamBit(data, p + j) == b[j] }

  lemma BitsParts(data: Bytes, p: nat, a: seq<nat>, b: seq<nat>)
    requires BitsAt(data, p, a + b)
    ensures BitsAt(data, p, a) && BitsAt(data, p + |a|, b)
  {
    hide StreamBit;
    forall j | 0 <= j < |a|
      ensures StreamBit(data, p + j) == a[j]
    {
      assert (a + b)[j] == a[j];
    }
    forall j | 0 <= j < |b|
      ensures StreamBit(data, p + |a| + j) == b[j]
    {
      assert (a + b)[|a| + j] == b[j];
    }
  }

  lemma {:induction false} ReadsHighFirst(data: Bytes, p: nat, c: nat, n: nat)
    requires c < Shl(1, n) && BitsAt(data, p, HighFirst(c, n))
    ensures CodeBits(data, p, n) == c
    decreases n
  {
    hide StreamBit;
    if n > 0 {
      BitsParts(data, p, HighFirst(c / 2, n - 1), [c % 2]);
      ReadsHighFirst(data, p, c / 2, n - 1);
      assert [c % 2][0] == c % 2;
    }
  }

  /** A codeword is read as its symbol. */
  lemma ReadsCodeword(L: Lengths, data: Bytes, p: nat, sym: nat)
    requires Proper(L) && Kraft(L) && HasCode(L, sym) && BitsAt(data, p, Codeword(L, sym))
    ensures Symbol(L, data, p) == sym && |Codeword(L, sym)| == L[sym]
  {
    CodeRange(L, sym);
    FitsAt(L, L[sym]);
    ReadsHighFirst(data, p, Code(L, sym), L[sym]);
    assert Coded(L, data, p, sym);
    CodedUnique(L, data, p, Symbol(L, data, p), sym);
  }

  lemma ReadsNumber(data: Bytes, p: nat, n: nat, start: nat, w: nat)
    requires start <= n < start + Shl(1, w) && BitsAt(data, p, BitsOf(n - start, w))
    ensures start + ReadBits(data, p, w) == n
  {
    ReadsCode(data, p, n - start, w);
  }

  ghost function TokenOf(x: Item): Token {
    match x
    case Byte(b) => Literal(b)
    case Copy(len, _, dist, _) => Match(len, dist)
  }

  ghost predicate Codes(L: Lengths, D: Lengths) { Proper(L) && Kraft(L) && Proper(D) && Kraft(D) && HasCode(L, 256) }

  lemma ReadsItem(L: Lengths, D: Lengths, data: Bytes, p: nat, x: Item)
    requires Codes(L, D) && Sendable(L, D, x) && BitsAt(data, p, ItemBits(L, D, x))
    ensures NextToken(L, D, data, p) == Read(TokenOf(x), p + |ItemBits(L, D, x)|)
  {
    hide StreamBit, BitsAt, Symbol, Shl, ReadBits, Codeword, BitsOf, LengthStart, ExtraBitsOfLength, DistStart, ExtraBitsOfDist, Proper, Kraft;
    match x
    case Byte(b) =>
      ReadsCodeword(L, data, p, b);
    case Copy(len, i, dist, d) =>
      var a, b, c, e := Codeword(L, 257 + i), BitsOf(len - LengthStart(i), ExtraBitsOfLength(i)), Codeword(D, d), BitsOf(dist - DistStart(d), ExtraBitsOfDist(d));
      BitsParts(data, p, a + b + c, e);
      BitsParts(data, p, a + b, c);
      BitsParts(data, p, a, b);
      ReadsCodeword(L, data, p, 257 + i);
      ReadsNumber(data, p + |a|, len, LengthStart(i), ExtraBitsOfLength(i));
      ReadsCodeword(D, data, p + |a| + |b|, d);
      ReadsNumber(data, p + |a| + |b| + |c|, dist, DistStart(d), ExtraBitsOfDist(d));
  }

  lemma ReadsEnd(L: Lengths, D: Lengths, data: Bytes, p: nat)
    requires Codes(L, D) && BitsAt(data, p, Codeword(L, 256))
    ensures NextToken(L, D, data, p) == Read(EndOfBlock, p + |Codeword(L, 256)|)
  {
    hide BitsAt, Symbol, Codeword, Proper, Kraft;
    ReadsCodeword(L, data, p, 256);
  }

  lemma TokenAppends(out: seq<nat>, x: Item)
    ensures x.Byte? ==> TokenOf(x) == Literal(x.b) && Appended(out, x) == out + [x.b]
    ensures x.Copy? && 0 < x.dist <= |out| ==> TokenOf(x) == Match(x.len, x.dist) && Appended(out, x) == Expand(out, x.dist, x.len)
  {}

  /** A block is read as the items that were written, up to its end code and no further. */
  lemma {:induction false} ReadsBlock(L: Lengths, D: Lengths, data: Bytes, p: nat, out: seq<nat>, items: seq<Item>, n: nat)
    requires Codes(L, D) && AllSendable(L, D, items) && InReach(out, items) && n > |items|
    requires BitsAt(data, p, BlockBits(L, D, items))
    ensures Tokens(L, D, data, p, out, n) == Done(p + |BlockBits(L, D, items)|, Text(out, items))
    decreases n
  {
    hide BitsAt, NextToken, Codeword, Proper, Kraft, ItemBits, Appended, Expand, AreBits;
    if items == [] {
      ReadsEnd(L, D, data, p);
    } else {
      var x := items[0];
      BitsParts(data, p, ItemBits(L, D, x), BlockBits(L, D, items[1..]));
      ReadsItem(L, D, data, p, x);
      TokenAppends(out, x);
      ReadsBlock(L, D, data, p + |ItemBits(L, D, x)|, Appended(out, x), items[1..], n - 1);
    }
  }

  /** From items to bytes and back: whatever stands before the block and behind it, and whichever codes
      of the right ranges the compressor has chosen, the decoder gives the text the items stand for, and
      stops behind the last bit of the block. */
  lemma RoundTrip(L: Lengths, D: Lengths, before: seq<nat>, items: seq<Item>, after: seq<nat>, out: seq<nat>, n: nat)
    requires Codes(L, D) && AllSendable(L, D, items) && InReach(out, items) && n > |items|
    ensures var b := BlockBits(L, D, items); var data := Bytewise(before + b + after);
      AllBytes(data) && Tokens(L, D, data, |before|, out, n) == Done(|before| + |b|, Text(out, items))
  {
    hide Bytewise, Proper, Kraft, AllSendable, StreamBit, Tokens, InReach, Text;
    var b := BlockBits(L, D, items);
    var all := before + b + after;
    forall j | 0 <= j < |b|
      ensures StreamBit(Bytewise(all), |before| + j) == b[j]
    {
      BytewiseBit(all, |before| + j);
      assert all[|before| + j] == b[j];
    }
    BytewiseBytes(all);
    ReadsBlock(L, D, Bytewise(all), |before|, out, items, n);
  }

  /** A stored block: its length and the complement of that, low byte first, and the bytes. */
  function StoredBytes(text: Bytes): Bytes
    requires |text| < 0x1_0000
  {
    [|text| % 256, |text| / 256, 255 - |text| % 256, 255 - |text| / 256] + text
  }

  lemma StoredRoundTrip(before: Bytes, text: Bytes, after: Bytes, p: nat, out: seq<nat>)
    requires |text| < 0x1_0000 && AlignUp8(p) == 8 * |before|
    ensures Stored(before + StoredBytes(text) + after, p, out) == Done(8 * (|before| + |StoredBytes(text)|), out + text)
  {
    var data, q, b := before + StoredBytes(text) + after, |before|, StoredBytes(text);
    assert forall i | 0 <= i < |b| :: data[q + i] == b[i];
    assert data[q + 4..q + 4 + |text|] == text;
  }

  /** The same for the decoder itself: it ends where the block does, with the text behind its output,
      unless its memory does not suffice. */
  method InflateWritten(z: ZBuf, h: Huffman, hd: Huffman, L: Lengths, D: Lengths, ghost items: seq<Item>, memory: nat, rounds: nat) returns (e: Event)
    requires z.BitsOk() && z.zout <= z.out.Length && (z.expandable ==> z.out.Length > 0) && h.TablesFor(L) && hd.TablesFor(D) && |D| <= 32
    requires z.out !in h.Arrays() + hd.Arrays()
    requires Codes(L, D) && AllSendable(L, D, items) && InReach(z.Out(), items) && rounds > |items|
    requires BitsAt(z.data, z.At(), BlockBits(L, D, items))
    modifies z, z.out
    ensures z.BitsOk() && z.zout <= z.out.Length
    ensures e == Ended || e == Full
    ensures e == Ended ==> z.At() == old(z.At()) + |BlockBits(L, D, items)| && z.Out() == Text(old(z.Out()), items)
  {
    hide Tokens, BlockBits, Text, Hangs, Filled, StoppedAt, BitsAt, AllSendable, InReach, Codes;
    ReadsBlock(L, D, z.data, z.At(), z.Out(), items, rounds);
    ghost var stray, k;
    e, stray, k := z.ParseHuffmanBlock(h, hd, L, D, memory, rounds);
  }
}
