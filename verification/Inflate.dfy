/** The inflate state of stb_image.h and its block decoders. */
module Inflate {
  import opened Shifts
  import opened BitReversal
  import opened HuffmanCode
  import opened HuffmanTable
  import opened InflateBits
  import opened InflateTokens
  import opened InflateEnds

  class ZBuf {
    /** The bytes from zbuffer to zbuffer_end, and how many are used up. */
    const data: Bytes
    var pos: nat
    var numBits: nat
    var codeBuffer: nat
    /** How many bytes have been fetched, counting the zeros after the end. */
    ghost var fetched: nat

    var out: array<nat>
    var zout: nat
    const expandable: bool

    constructor (data: Bytes, out: array<nat>, expandable: bool)
      requires AllBytes(data)
      ensures BitsOk() && At() == 0 && this.data == data && this.out == out && zout == 0 && this.expandable == expandable
    {
      this.data, this.out, this.expandable := data, out, expandable;
      pos, numBits, codeBuffer, zout := 0, 0, 0, 0;
      fetched := 0;
    }

    /** The position of the next bit of the stream. */
    ghost function At(): nat
      requires numBits <= 8 * fetched
      reads this
    {
      8 * fetched - numBits
    }

    /** The buffer holds the next bits of the stream. */
    ghost predicate BitsOk()
      reads this
    {
      && AllBytes(data) && pos == (if fetched < |data| then fetched else |data|)
      && numBits <= 8 * fetched && numBits <= 32 && codeBuffer == ReadBits(data, At(), numBits)
    }

    /** stbi__zget8 */
    method Get8() returns (b: nat)
      requires pos <= |data| && pos == (if fetched < |data| then fetched else |data|)
      modifies `pos, `fetched
      ensures b == ByteAt(data, old(fetched)) && fetched == old(fetched) + 1 && pos == (if fetched < |data| then fetched else |data|)
    {
      if pos >= |data| {
        b := 0;
      } else {
        b := data[pos];
        pos := pos + 1;
      }
      fetched := fetched + 1;
    }

    lemma Fetch(n: nat, at: nat, v: nat)
      requires AllBytes(data) && n <= 24 && at + n == 8 * v
      ensures ReadBits(data, at, n) < Shl(1, n)
      ensures ReadBits(data, at, n + 8) == ReadBits(data, at, n) + Shl(ByteAt(data, v), n)
    {
      hide ReadBits, StreamBit, Shl;
      ReadBound(data, at, n);
      ReadSplit(data, at, n, 8);
      ReadByte(data, v);
    }

    /** stbi__fill_bits: the buffer grows, the stream stays where it is. Since the buffer is
        below 1 << num_bits, as the code asserts, the bitwise or is an addition. */
    method FillBits()
      requires BitsOk() && numBits <= 24
      modifies `pos, `fetched, `numBits, `codeBuffer
      ensures BitsOk() && At() == old(At()) && numBits > 24
    {
      hide StreamBit, ReadBits, Shl;
      var more := true;
      while more
        invariant BitsOk() && At() == old(At()) && (more <==> numBits <= 24)
        decreases 32 - numBits
      {
        Fetch(numBits, At(), fetched);
        assert codeBuffer < Shl(1, numBits);
        var b := Get8();
        codeBuffer := codeBuffer + Shl(b, numBits);
        numBits := numBits + 8;
        more := numBits <= 24;
      }
    }

    lemma Take(n: nat)
      requires BitsOk() && n <= numBits
      ensures Low(codeBuffer, n) == ReadBits(data, At(), n) && Shr(codeBuffer, n) == ReadBits(data, At() + n, numBits - n)
    {
      hide Low, Shr, ReadBits;
      ReadLow(data, At(), numBits, n);
      ReadShr(data, At(), numBits, n);
    }

    /** Drops `n` bits of the buffer. */
    method Skip(n: nat)
      requires BitsOk() && n <= numBits
      modifies `numBits, `codeBuffer
      ensures BitsOk() && At() == old(At()) + n && numBits == old(numBits) - n
    {
      hide StreamBit, ReadBits, Shr, Low;
      Take(n);
      codeBuffer := Shr(codeBuffer, n);
      numBits := numBits - n;
    }

    /** stbi__zreceive: the next `n` bits of the stream. */
    method Receive(n: nat) returns (k: nat)
      requires BitsOk() && n <= 16
      modifies `pos, `fetched, `numBits, `codeBuffer
      ensures BitsOk() && At() == old(At()) + n && k == ReadBits(data, old(At()), n)
      ensures n <= old(numBits) ==> numBits == old(numBits) - n && fetched == old(fetched)
    {
      if numBits < n {
        FillBits();
      }
      Take(n);
      k := Low(codeBuffer, n);
      Skip(n);
    }

    // ---------------------------------------------------------------- Huffman symbols

    /** stbi__zhuffman_decode_slowpath */
    method DecodeSlow(h: Huffman, L: Lengths) returns (r: int)
      requires BitsOk() && numBits >= 16 && h.TablesFor(L) && CodeBits(data, At(), 16) >= MaxCode(L, FAST_BITS)
      modifies `numBits, `codeBuffer
      ensures BitsOk()
      ensures r >= 0 ==> Coded(L, data, old(At()), r) && At() == old(At()) + L[r]
      ensures r < 0 ==> r == -1 && At() == old(At()) && forall sym :: !Coded(L, data, At(), sym)
    {
      hide StreamBit, ReadBits, Shl, BitReverse, Rev, CodeBits, AllBytes;
      RevRead(data, At(), numBits, 16);
      BitReverseIs(codeBuffer, 16);
      var k := BitReverse(codeBuffer, 16);
      assert k == CodeBits(data, At(), 16);
      CodeBound16(data, At());
      var s := FAST_BITS + 1;
      while k >= h.maxcode[s]
        invariant FAST_BITS + 1 <= s <= 16 && k >= MaxCode(L, s - 1)
        decreases 16 - s
      {
        s := s + 1;
      }
      if s == 16 {
        forall sym: nat
          ensures !Coded(L, data, At(), sym)
        {
          SlowMiss(L, data, At(), sym);
        }
        return -1;
      }
      SlowHit(L, data, At(), s, h.size[..], h.value[..]);
      var b := Shr(k, 16 - s) - h.firstcode[s] + h.firstsymbol[s];
      assert h.size[b] == s;
      Skip(s);
      return h.value[b];
    }

    lemma CodeBound16(d: Bytes, p: nat)
      ensures CodeBits(d, p, 16) < 0x1_0000
    {
      CodeBound(d, p, 16);
      ShlSeven(1);
      ShlAdd(1, 7, 7);
      ShlSeven(0x80);
      assert Shl(1, 16) == 0x1_0000;
    }

    /** stbi__zhuffman_decode: the symbol whose codeword comes next, or -1 exactly when there
        is none. */
    method Decode(h: Huffman, L: Lengths) returns (r: int)
      requires BitsOk() && h.TablesFor(L)
      modifies `pos, `fetched, `numBits, `codeBuffer
      ensures BitsOk()
      ensures r >= 0 ==> Coded(L, data, old(At()), r) && At() == old(At()) + L[r]
      ensures r < 0 ==> r == -1 && At() == old(At()) && forall sym :: !Coded(L, data, At(), sym)
    {
      hide StreamBit, ReadBits, Shl;
      if numBits < 16 {
        FillBits();
      }
      Take(FAST_BITS);
      LowBound(codeBuffer);
      var b := h.fast[Low(codeBuffer, FAST_BITS)];
      if b != 0 {
        FastHit(L, data, At(), h.fast[..], Low(codeBuffer, FAST_BITS));
        var s := b / 512;
        Skip(s);
        return b % 512;
      }
      FastMiss(L, data, At(), h.fast[..], Low(codeBuffer, FAST_BITS));
      r := DecodeSlow(h, L);
    }

    lemma LowBound(x: nat)
      ensures Low(x, FAST_BITS) < FAST_SIZE
    {
      LowBelow(x, FAST_BITS);
      ShlSeven(1);
      assert Shl(1, 9) == 512;
    }

    // ---------------------------------------------------------------- the output

    /** What has been written so far. */
    ghost function Out(): seq<nat>
      requires zout <= out.Length
      reads this, out
    {
      out[..zout]
    }

    /** stbi__zexpand: room for `n` more bytes, in a larger buffer that starts with the same
        bytes. `memory` bounds what realloc can give. */
    method Grow(n: nat, memory: nat) returns (ok: bool)
      requires zout <= out.Length && (expandable ==> out.Length > 0)
      modifies `out
      ensures zout <= out.Length && Out() == old(Out())
      ensures ok <==> expandable && Doubled(old(out.Length), zout + n) <= memory
      ensures ok ==> fresh(out) && out.Length == Doubled(old(out.Length), zout + n) && zout + n <= out.Length
      ensures !ok ==> out == old(out)
    {
      if !expandable {
        return false;
      }
      var limit := out.Length;
      while zout + n > limit
        invariant limit >= out.Length && Doubled(limit, zout + n) == Doubled(out.Length, zout + n)
        decreases zout + n - limit
      {
        limit := 2 * limit;
      }
      if limit > memory {
        return false;
      }
      var q := new nat[limit];
      var was := out;
      for i := 0 to was.Length
        invariant out == was && was[..] == old(out[..]) && q[..i] == was[..i]
      {
        q[i] := was[i];
      }
      out := q;
      ok := true;
    }

    /** The test before the output is written, and the call of stbi__zexpand. */
    method Room(n: nat, memory: nat) returns (ok: bool)
      requires zout <= out.Length && (expandable ==> out.Length > 0)
      modifies `out
      ensures zout <= out.Length && Out() == old(Out()) && (out == old(out) || (fresh(out) && out.Length <= memory)) && out.Length >= old(out.Length)
      ensures ok ==> zout + n <= out.Length
      ensures !ok ==> out == old(out) && NoRoom(expandable, out.Length, zout, n, memory)
    {
      ok := true;
      if zout + n > out.Length {
        ok := Grow(n, memory);
      }
    }

    method Emit(b: nat)
      requires zout < out.Length
      modifies out, `zout
      ensures zout == old(zout) + 1 && Out() == old(Out()) + [b]
    {
      out[zout] := b;
      zout := zout + 1;
    }

    /** The loop for runs of one byte. */
    method CopyRun(len: nat)
      requires 1 <= zout && zout + len <= out.Length
      modifies out, `zout
      ensures zout == old(zout) + len && Out() == Expand(old(Out()), 1, len)
    {
      ghost var before, start := Out(), zout;
      var v := out[zout - 1];
      for i := 0 to len
        invariant zout == start + i && Out() == Expand(before, 1, i) && v == before[start - 1]
      {
        ExpandRun(before, i);
        Emit(v);
      }
    }

    /** The loop for other distances. For a distance of zero, which only a reserved code
        gives, nothing is said about the bytes. */
    method CopyBack(len: nat, dist: nat)
      requires dist <= zout && zout + len <= out.Length
      modifies out, `zout
      ensures zout == old(zout) + len
      ensures dist > 0 ==> Out() == Expand(old(Out()), dist, len)
    {
      ghost var before, start := Out(), zout;
      var p := zout - dist;
      for i := 0 to len
        invariant zout == start + i && p == start + i - dist
        invariant dist > 0 ==> Out() == Expand(before, dist, i)
      {
        Emit(out[p]);
        p := p + 1;
      }
    }

    // ---------------------------------------------------------------- compressed blocks

    method ReadLength(i: nat) returns (len: nat)
      requires BitsOk() && i <= 30
      modifies `pos, `fetched, `numBits, `codeBuffer
      ensures BitsOk() && len == LengthBase(i) + ReadBits(data, old(At()), LengthExtra(i)) && At() == old(At()) + LengthExtra(i)
      ensures i <= 28 ==> LengthBase(i) == LengthStart(i) && LengthExtra(i) == ExtraBitsOfLength(i)
    {
      hide StreamBit, ReadBits, Shl, LengthBase, LengthExtra, LengthStart;
      LengthFacts(i);
      len := LengthBase(i);
      if LengthExtra(i) != 0 {
        var k := Receive(LengthExtra(i));
        len := len + k;
      }
    }

    method ReadDist(i: nat) returns (dist: nat)
      requires BitsOk() && i <= 31
      modifies `pos, `fetched, `numBits, `codeBuffer
      ensures BitsOk() && dist == DistBase(i) + ReadBits(data, old(At()), DistExtra(i)) && At() == old(At()) + DistExtra(i)
      ensures i <= 29 ==> DistBase(i) == DistStart(i) && DistExtra(i) == ExtraBitsOfDist(i)
    {
      hide StreamBit, ReadBits, Shl, DistBase, DistExtra, DistStart;
      DistFacts(i);
      dist := DistBase(i);
      if DistExtra(i) != 0 {
        var k := Receive(DistExtra(i));
        dist := dist + k;
      }
    }

    /** The checks and the copy of a match. */
    method Copy(len: nat, dist: nat, memory: nat) returns (e: Event)
      requires zout <= out.Length && (expandable ==> out.Length > 0)
      modifies out, `out, `zout
      ensures zout <= out.Length && (out == old(out) || (fresh(out) && out.Length <= memory)) && out.Length >= old(out.Length)
      ensures dist > |old(Out())| <==> e == Failed
      ensures e == Full ==> Out() == old(Out()) && NoRoom(expandable, out.Length, zout, len, memory)
      ensures e == Emitted ==> zout == old(zout) + len && (dist > 0 ==> Out() == Expand(old(Out()), dist, len))
      ensures e != Ended
    {
      if zout < dist {
        return Failed;
      }
      var ok := Room(len, memory);
      if !ok {
        return Full;
      }
      if dist == 1 {
        CopyRun(len);
      } else {
        CopyBack(len, dist);
      }
      e := Emitted;
    }

    /** The part of a round that copies, for the length code 257 + `i`. */
    method MatchRound(hd: Huffman, D: Lengths, i: nat, memory: nat) returns (e: Event, ghost stray: bool)
      requires BitsOk() && zout <= out.Length && (expandable ==> out.Length > 0) && hd.TablesFor(D) && |D| <= 32 && i <= 30
      requires out !in hd.Arrays()
      modifies this, out
      ensures BitsOk() && zout <= out.Length && (out == old(out) || (fresh(out) && out.Length <= memory)) && out.Length >= old(out.Length)
      ensures i <= 28 ==> (stray <==> MatchToken(D, data, old(At()), i).token.Reserved?)
      ensures i <= 28 && !stray ==> Effect(MatchToken(D, data, old(At()), i), old(Out()), e, At(), Out())
      ensures Paced(MatchPace(D, data, old(At()), i), expandable, old(zout), memory, e, At(), zout, out.Length)
    {
      hide StreamBit, ReadBits, Shl, LengthStart, DistStart, ExtraBitsOfLength, ExtraBitsOfDist, Expand, NoRoom, LengthsUpTo, AllBytes, Proper, CodeBits, FastUpTo, SlotsUpTo, First;
      hide LengthBase, LengthExtra, DistBase, DistExtra, MatchToken, MatchPace, Symbol;
      var len := ReadLength(i);
      ghost var p1 := At();
      var z := Decode(hd, D);
      SymbolIs(D, data, p1, z);
      MatchIs(D, data, old(At()), i, z);
      if z < 0 {
        return Failed, false;
      }
      stray := z > 29;
      var dist := ReadDist(z);
      e := Copy(len, dist, memory);
    }

    /** One round of the loop of stbi__parse_huffman_block. `stray` tells that the stream used
        a code RFC 1951 reserves. */
    method Round(h: Huffman, hd: Huffman, L: Lengths, D: Lengths, memory: nat) returns (e: Event, ghost stray: bool)
      requires BitsOk() && zout <= out.Length && (expandable ==> out.Length > 0) && h.TablesFor(L) && hd.TablesFor(D) && |D| <= 32
      requires out !in h.Arrays() + hd.Arrays()
      modifies this, out
      ensures BitsOk() && zout <= out.Length && (out == old(out) || (fresh(out) && out.Length <= memory)) && out.Length >= old(out.Length)
      ensures stray <==> NextToken(L, D, data, old(At())).token.Reserved?
      ensures !stray ==> Effect(NextToken(L, D, data, old(At())), old(Out()), e, At(), Out())
      ensures Paced(PaceAt(L, D, data, old(At())), expandable, old(zout), memory, e, At(), zout, out.Length)
    {
      hide StreamBit, ReadBits, Shl, MatchToken, MatchPace, NoRoom, LengthsUpTo, Symbol, FirstSymbol;
      stray := false;
      var z := Decode(h, L);
      SymbolIs(L, data, old(At()), z);
      if z < 256 {
        if z < 0 {
          return Failed, false;
        }
        var ok := Room(1, memory);
        if !ok {
          return Full, false;
        }
        Emit(z);
        return Emitted, false;
      }
      if z == 256 {
        return Ended, false;
      }
      e, stray := MatchRound(hd, D, z - 257, memory);
      if z > 285 {
        stray := true;
      }
    }

    /** The rounds of stbi__parse_huffman_block; `k` is the number of whole rounds. */
    method Rounds(h: Huffman, hd: Huffman, L: Lengths, D: Lengths, memory: nat, rounds: nat) returns (e: Event, ghost stray: bool, ghost k: nat)
      requires BitsOk() && zout <= out.Length && (expandable ==> out.Length > 0) && h.TablesFor(L) && hd.TablesFor(D) && |D| <= 32
      requires out !in h.Arrays() + hd.Arrays()
      modifies this, out
      ensures BitsOk() && zout <= out.Length && (out == old(out) || (fresh(out) && out.Length <= memory)) && out.Length >= old(out.Length)
      ensures stray ==> Tokens(L, D, data, old(At()), old(Out()), rounds) == Undefined
      ensures !stray ==> Agrees(Tokens(L, D, data, old(At()), old(Out()), rounds), e, At(), Out())
      ensures !stray && e == Full ==> StoppedAt(Tokens(L, D, data, old(At()), old(Out()), k), Out())
      ensures k <= rounds && WalkEnds(Walk(L, D, data, old(At()), old(zout), rounds), e, At(), zout)
      ensures e == Full ==> k < rounds
      ensures e == Full ==> Filled(L, D, data, Walk(L, D, data, old(At()), old(zout), k), expandable, memory, zout, out.Length)
    {
      hide StreamBit, ReadBits, Shl, NextToken, Expand, NoRoom, Tokens, Agrees, Effect, FastUpTo, SlotsUpTo, LengthsUpTo, Proper, AllBytes;
      hide Walk, PaceAt, Paced, WalkEnds, StoppedAt, Filled;
      stray, k := false, 0;
      ghost var p0, out0, size0 := At(), Out(), zout;
      OutOfRounds(L, D, data, p0, out0);
      for i := 0 to rounds
        invariant BitsOk() && zout <= out.Length && (out == old(out) || (fresh(out) && out.Length <= memory)) && out.Length >= old(out.Length)
        invariant h.TablesFor(L) && hd.TablesFor(D) && k == i && |Out()| == zout
        invariant if stray then Tokens(L, D, data, p0, out0, rounds) == Undefined else Tokens(L, D, data, p0, out0, i) == Unfinished(At(), Out())
        invariant Walk(L, D, data, p0, size0, i) == Going(At(), zout)
      {
        ghost var p, before, odd := At(), Out(), false;
        e, odd := Round(h, hd, L, D, memory);
        ghost var were := stray;
        stray := stray || odd;
        if !were { TokenRound(L, D, data, p0, out0, i, rounds, p, before, e, At(), Out(), odd); }
        WalkRound(L, D, data, p0, size0, i, rounds, p, |before|, expandable, memory, e, At(), zout, out.Length);
        if e != Emitted { return; }
        k := i + 1;
      }
      e := Emitted;
      AllRounds(L, D, data, p0, out0, rounds, stray, At(), Out());
    }

    /** stbi__parse_huffman_block, cut off after so many rounds. The result is what the tokens of
        RFC 1951 give, up to the first reserved code, if there is one. The loop comes to an end
        after at most as many rounds as there is memory, and as there are bits if there are
        reserved codes, unless it hangs. */
    method ParseHuffmanBlock(h: Huffman, hd: Huffman, L: Lengths, D: Lengths, memory: nat, rounds: nat) returns (e: Event, ghost stray: bool, ghost k: nat)
      requires BitsOk() && zout <= out.Length && (expandable ==> out.Length > 0) && h.TablesFor(L) && hd.TablesFor(D) && |D| <= 32
      requires out !in h.Arrays() + hd.Arrays()
      modifies this, out
      ensures BitsOk() && zout <= out.Length && (out == old(out) || (fresh(out) && out.Length <= memory)) && out.Length >= old(out.Length)
      ensures stray ==> Tokens(L, D, data, old(At()), old(Out()), rounds) == Undefined
      ensures !stray ==> Agrees(Tokens(L, D, data, old(At()), old(Out()), rounds), e, At(), Out())
      ensures !stray && e == Full ==> StoppedAt(Tokens(L, D, data, old(At()), old(Out()), k), Out())
      ensures e == Full ==> k < rounds && Filled(L, D, data, Walk(L, D, data, old(At()), old(zout), k), expandable, memory, zout, out.Length)
      ensures !stray && rounds > Larger(old(out.Length), memory) - old(zout) ==> e != Emitted
      ensures !Hangs(L, D, data, old(At()), old(zout)) && rounds > 8 * |data| + Larger(old(out.Length), memory) - old(zout) ==> e != Emitted
      ensures Hangs(L, D, data, old(At()), old(zout)) ==> e == Emitted || e == Full
    {
      hide StreamBit, ReadBits, Shl, Tokens, Walk, Hangs, Filled, StoppedAt;
      ghost var p, before, size := At(), Out(), zout;
      e, stray, k := Rounds(h, hd, L, D, memory, rounds);
      TokensGrow(L, D, data, p, before, rounds);
      ghost var most := Larger(old(out.Length), memory);
      if rounds > 8 * |data| + most - size && !Hangs(L, D, data, p, size) {
        EndsInTime(L, D, data, p, size, rounds - 8 * |data|);
      }
      if Hangs(L, D, data, p, size) { HangsForEver(L, D, data, p, size, rounds); }
    }

    // ---------------------------------------------------------------- stored blocks

    /** The bytes that are still in the bit buffer are the first of the header. */
    method DrainHeader(header: array<nat>) returns (k: nat)
      requires BitsOk() && numBits % 8 == 0 && header.Length == 4
      modifies header, `numBits, `codeBuffer
      ensures BitsOk() && numBits == 0 && k <= 4 && At() == old(At()) + 8 * k
      ensures forall i: nat | i < k :: header[i] == ByteAt(data, old(At()) / 8 + i)
    {
      hide StreamBit, ReadBits, Shl, Low, AllBytes, Shr;
      k := 0;
      ghost var v := At() / 8;
      assert At() == 8 * v;
      while numBits > 0
        invariant BitsOk() && numBits % 8 == 0 && numBits + 8 * k <= 32 && At() == 8 * (v + k) && fetched == old(fetched)
        invariant forall i: nat | i < k :: header[i] == ByteAt(data, v + i)
      {
        Take(8);
        ReadByte(data, v + k);
        header[k] := Low(codeBuffer, 8);
        k := k + 1;
        Skip(8);
      }
    }

    /** The rest of the header comes from the input itself. */
    method FillHeader(header: array<nat>, k: nat)
      requires BitsOk() && numBits == 0 && header.Length == 4 && k <= 4 && 8 * k <= At()
      requires forall i: nat | i < k :: header[i] == ByteAt(data, At() / 8 - k + i)
      modifies header, `pos, `fetched
      ensures BitsOk() && numBits == 0 && At() == old(At()) + 8 * (4 - k)
      ensures forall i: nat | i < 4 :: header[i] == ByteAt(data, old(At()) / 8 - k + i)
    {
      ghost var v := At() / 8 - k;
      for j := k to 4
        invariant BitsOk() && numBits == 0 && fetched == v + j
        invariant forall i: nat | i < j :: header[i] == ByteAt(data, v + i)
      {
        var b := Get8();
        header[j] := b;
      }
    }

    method CopyStored(len: nat)
      requires BitsOk() && numBits == 0 && pos + len <= |data| && zout + len <= out.Length && pos == fetched
      modifies out, `zout, `pos, `fetched
      ensures BitsOk() && At() == old(At()) + 8 * len && zout <= out.Length
      ensures Out() == old(Out()) + data[old(pos)..old(pos) + len]
    {
      hide StreamBit;
      ghost var before, start := Out(), zout;
      var from := pos;
      for i := 0 to len
        invariant zout == start + i && Out() == before + data[from..from + i]
        invariant pos == from && fetched == from && numBits == 0 && codeBuffer == old(codeBuffer)
      {
        Emit(data[from + i]);
      }
      pos := pos + len;
      fetched := fetched + len;
    }

    /** Bits up to the next byte boundary are skipped. */
    method DiscardBits()
      requires BitsOk()
      modifies `pos, `fetched, `numBits, `codeBuffer
      ensures BitsOk() && numBits % 8 == 0 && At() == AlignUp8(old(At())) && At() % 8 == 0
    {
      hide StreamBit, ReadBits, AlignUp8;
      ghost var p0, n := At(), numBits;
      RestOf8(n);
      var rest := numBits % 8;
      if rest != 0 {
        var discarded := Receive(rest);
      }
      Boundary(p0, At(), numBits);
    }

    lemma RestOf8(n: nat)
      ensures n % 8 < 8 && n % 8 <= n && (n - n % 8) % 8 == 0
    {
      assert n == 8 * (n / 8) + n % 8;
    }

    method ReadHeader() returns (len: nat, nlen: nat)
      requires BitsOk()
      modifies `pos, `fetched, `numBits, `codeBuffer
      ensures BitsOk() && numBits == 0
      ensures fetched == AlignUp8(old(At())) / 8 + 4
      ensures var q := AlignUp8(old(At())) / 8; len == ByteAt(data, q) + 256 * ByteAt(data, q + 1)
      ensures var q := AlignUp8(old(At())) / 8; nlen == ByteAt(data, q + 2) + 256 * ByteAt(data, q + 3)
    {
      hide StreamBit, ReadBits, Shl, Low, AlignUp8, ByteAt;
      DiscardBits();
      ghost var q := At() / 8;
      var header := new nat[4];
      var k := DrainHeader(header);
      FillHeader(header, k);
      len, nlen := header[1] * 256 + header[0], header[3] * 256 + header[2];
      assert header[0] == ByteAt(data, q + 0);
    }

    /** stbi__parse_uncompressed_block: the bytes in the bit buffer are not lost, and the block
        is copied exactly when its header and its length are right. */
    method ParseUncompressedBlock(memory: nat) returns (e: Event)
      requires BitsOk() && zout <= out.Length && (expandable ==> out.Length > 0)
      modifies this, out
      ensures BitsOk() && zout <= out.Length && (out == old(out) || (fresh(out) && out.Length <= memory)) && out.Length >= old(out.Length)
      ensures e in {Ended, Failed, Full}
      ensures e == Failed <==> Stored(data, old(At()), old(Out())) == Corrupt
      ensures e == Ended ==> Stored(data, old(At()), old(Out())) == Done(At(), Out())
      ensures e == Full ==> Out() == old(Out()) && StoredFull(Stored(data, old(At()), old(Out())), expandable, old(out.Length), old(zout), memory)
    {
      hide StreamBit, ReadBits, Shl, Low, AlignUp8, ByteAt, Doubled;
      ghost var p0, out0 := At(), Out();
      var len, nlen := ReadHeader();
      StoredIf(data, p0, out0);
      if nlen != 0xFFFF - len {
        return Failed;
      }
      if pos + len > |data| {
        return Failed;
      }
      if zout + len > out.Length {
        var ok := Grow(len, memory);
        if !ok {
          return Full;
        }
      }
      CopyStored(len);
      e := Ended;
    }

    /** When a stored block is right; bytes after the end cannot complete its header. */
    lemma StoredIf(d: Bytes, p: nat, before: seq<nat>)
      requires AllBytes(d)
      ensures var q := AlignUp8(p) / 8;
        var len, nlen := ByteAt(d, q) + 256 * ByteAt(d, q + 1), ByteAt(d, q + 2) + 256 * ByteAt(d, q + 3);
        len <= 0xFFFF && (nlen == 0xFFFF - len && q + 4 > |d| ==> len > 0)
        && (if nlen == 0xFFFF - len && q + 4 + len <= |d| then Stored(d, p, before) == Done(8 * (q + 4 + len), before + d[q + 4..q + 4 + len])
            else Stored(d, p, before) == Corrupt)
    {
      hide AlignUp8;
      HeaderBytes(d, AlignUp8(p) / 8);
    }

    lemma Boundary(p0: nat, p: nat, n: nat)
      requires 8 * fetched == p + n && n % 8 == 0 && p0 <= p < p0 + 8
      ensures p == AlignUp8(p0) && p % 8 == 0
    {}

    /** Bytes after the end cannot complete a header. */
    lemma HeaderBytes(d: Bytes, q: nat)
      requires AllBytes(d)
      ensures ByteAt(d, q) < 256 && ByteAt(d, q + 1) < 256 && ByteAt(d, q + 2) < 256 && ByteAt(d, q + 3) < 256
      ensures q + 4 > |d| ==> ByteAt(d, q + 3) == 0
    {}
  }

  /** How the outcome of a block shows in what the loop returns. */
  ghost predicate Agrees(o: Outcome, e: Event, at: nat, out: seq<nat>) {
    match e
    case Ended => o == Done(at, out)
    case Failed => o == Corrupt
    case Emitted => o == Unfinished(at, out)
    case Full => true
  }

  /** A stored block that is right, but too long. */
  ghost predicate StoredFull(o: Outcome, expandable: bool, length: nat, zout: nat, memory: nat) {
    o.Done? && |o.out| > length && (!expandable || Doubled(length, |o.out|) > memory)
  }

  /** All whole rounds, when there was no room for more. */
  ghost predicate StoppedAt(o: Outcome, out: seq<nat>) { o.Unfinished? && o.out == out }

  /** How the outcome of the rounds, reserved codes included, shows in what the loop returns. */
  ghost predicate WalkEnds(o: Walked, e: Event, at: nat, size: nat) {
    match e
    case Emitted => o == Going(at, size)
    case Full => true
    case _ => o == Halted
  }

  /** The next round would have needed more room than there is. */
  ghost predicate Filled(L: Lengths, D: Lengths, data: Bytes, o: Walked, expandable: bool, memory: nat, zout: nat, length: nat) {
    && o.Going? && o.size == zout
    && var r := PaceAt(L, D, data, o.at);
       r.Adds? && r.needs <= zout && NoRoom(expandable, length, zout, r.n, memory)
  }

  /** What a round does with the output, reserved codes included. */
  ghost predicate Paced(r: Pace, expandable: bool, size: nat, memory: nat, e: Event, at: nat, zout: nat, length: nat) {
    match r
    case Stops => e == Ended || e == Failed
    case Adds(n, needs, next) =>
      if needs > size then e == Failed
      else (e == Emitted && at == next && zout == size + n) || (e == Full && zout == size && NoRoom(expandable, length, zout, n, memory))
  }

  lemma OutOfRounds(L: Lengths, D: Lengths, data: Bytes, p: nat, out: seq<nat>)
    ensures Tokens(L, D, data, p, out, 0) == Unfinished(p, out) && Walk(L, D, data, p, |out|, 0) == Going(p, |out|)
  {}

  /** One more round, as tokens. */
  lemma TokenRound(L: Lengths, D: Lengths, data: Bytes, p0: nat, out0: seq<nat>, i: nat, rounds: nat, p: nat, before: seq<nat>,
                   e: Event, at: nat, after: seq<nat>, odd: bool)
    requires i < rounds && Tokens(L, D, data, p0, out0, i) == Unfinished(p, before)
    requires odd <==> NextToken(L, D, data, p).token.Reserved?
    requires !odd ==> Effect(NextToken(L, D, data, p), before, e, at, after)
    ensures odd ==> Tokens(L, D, data, p0, out0, rounds) == Undefined
    ensures !odd && e == Emitted ==> Tokens(L, D, data, p0, out0, i + 1) == Unfinished(at, after)
    ensures !odd && e != Emitted ==> Agrees(Tokens(L, D, data, p0, out0, rounds), e, at, after)
    ensures !odd && e == Full ==> StoppedAt(Tokens(L, D, data, p0, out0, i), after)
  {
    hide NextToken, Expand;
    TokensSplit(L, D, data, p0, out0, i, rounds - i);
    TokensSplit(L, D, data, p0, out0, i, 1);
    OutOfRounds(L, D, data, at, after);
  }

  /** One more round, as positions and sizes. */
  lemma WalkRound(L: Lengths, D: Lengths, data: Bytes, p0: nat, size0: nat, i: nat, rounds: nat, p: nat, size: nat,
                  expandable: bool, memory: nat, e: Event, at: nat, zout: nat, length: nat)
    requires i < rounds && Walk(L, D, data, p0, size0, i) == Going(p, size)
    requires Paced(PaceAt(L, D, data, p), expandable, size, memory, e, at, zout, length)
    ensures e == Emitted ==> Walk(L, D, data, p0, size0, i + 1) == Going(at, zout)
    ensures e != Emitted ==> WalkEnds(Walk(L, D, data, p0, size0, rounds), e, at, zout)
    ensures e == Full ==> Filled(L, D, data, Walk(L, D, data, p0, size0, i), expandable, memory, zout, length)
  {
    hide PaceAt, NoRoom;
    WalkSplit(L, D, data, p0, size0, i, rounds - i);
    WalkSplit(L, D, data, p0, size0, i, 1);
  }

  lemma AllRounds(L: Lengths, D: Lengths, data: Bytes, p0: nat, out0: seq<nat>, rounds: nat, stray: bool, at: nat, out: seq<nat>)
    requires !stray ==> Tokens(L, D, data, p0, out0, rounds) == Unfinished(at, out)
    ensures !stray ==> Agrees(Tokens(L, D, data, p0, out0, rounds), Emitted, at, out)
    ensures WalkEnds(Going(at, |out|), Emitted, at, |out|)
  {}

  datatype Event = Emitted | Ended | Failed | Full

  /** The length of a buffer after it has been doubled until `need` bytes fit. */
  function Doubled(length: nat, need: nat): (d: nat)
    decreases need - length
    ensures d >= length && (length > 0 ==> d >= need)
  {
    if need <= length || length == 0 then length else Doubled(2 * length, need)
  }

  /** There is no room for `n` bytes: the buffer is fixed, or a larger one exceeds the memory. */
  predicate NoRoom(expandable: bool, length: nat, zout: nat, n: nat, memory: nat) {
    zout + n > length && (!expandable || Doubled(length, zout + n) > memory)
  }

  function Larger(a: nat, b: nat): nat { if a < b then b else a }

  /** What a round does with a token. */
  ghost predicate Effect(r: Read, before: seq<nat>, e: Event, at: nat, after: seq<nat>) {
    match r.token
    case Literal(b) => (e == Emitted && at == r.at && after == before + [b]) || (e == Full && after == before)
    case EndOfBlock => e == Ended && at == r.at && after == before
    case Match(len, dist) =>
      if dist == 0 || dist > |before| then e == Failed
      else (e == Emitted && at == r.at && after == Expand(before, dist, len)) || (e == Full && after == before)
    case NoCode => e == Failed
    case Reserved => true
  }

  /** The match whose distance code is `z`, or a negative `z` for none. */
  lemma MatchIs(D: Lengths, data: Bytes, p: nat, i: nat, z: int)
    requires i <= 30 && (i <= 28 ==> LengthBase(i) == LengthStart(i) && LengthExtra(i) == ExtraBitsOfLength(i))
    requires var d := Symbol(D, data, p + LengthExtra(i)); if z < 0 then d >= |D| else d == z < |D| <= 32
    ensures var p1 := p + LengthExtra(i); var len := LengthBase(i) + ReadBits(data, p, LengthExtra(i));
      && MatchPace(D, data, p, i) == (if z < 0 then Stops
           else Adds(len, DistBase(z) + ReadBits(data, p1 + D[z], DistExtra(z)), p1 + D[z] + DistExtra(z)))
      && (i <= 28 ==> MatchToken(D, data, p, i) == if z < 0 then Read(NoCode, p1)
           else if z > 29 then Read(Reserved, p1 + D[z])
           else Read(Match(len, DistStart(z) + ReadBits(data, p1 + D[z], ExtraBitsOfDist(z))), p1 + D[z] + ExtraBitsOfDist(z)))
  {
    hide ReadBits, Symbol, LengthStart, DistStart, ExtraBitsOfLength, ExtraBitsOfDist, LengthBase, LengthExtra, DistBase, DistExtra;
  }

  /** What Decode returns is the symbol of the token. */
  lemma SymbolIs(L: Lengths, data: Bytes, p: nat, r: int)
    requires if r < 0 then forall sym :: !Coded(L, data, p, sym) else Coded(L, data, p, r)
    ensures if r < 0 then Symbol(L, data, p) >= |L| else Symbol(L, data, p) == r
  {
    var s := Symbol(L, data, p);
    if r >= 0 && s < |L| { CodedUnique(L, data, p, s, r); }
  }

  lemma LengthFacts(i: nat)
    requires i <= 30
    ensures i <= 28 ==> LengthExtra(i) == ExtraBitsOfLength(i) && LengthBase(i) == LengthStart(i)
    ensures LengthExtra(i) <= 5
    ensures forall data: Bytes, p: nat :: ReadBits(data, p, 0) == 0
  {
    if i <= 28 { LengthTable(i); }
  }

  lemma DistFacts(i: nat)
    requires i <= 31
    ensures i <= 29 ==> DistExtra(i) == ExtraBitsOfDist(i) && DistBase(i) == DistStart(i)
    ensures DistExtra(i) <= 13 && (i > 29 ==> DistBase(i) == 0)
    ensures forall data: Bytes, p: nat :: ReadBits(data, p, 0) == 0
  {
    if i <= 29 { DistTable(i); }
  }
}
