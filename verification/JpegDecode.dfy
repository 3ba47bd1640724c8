/** Decoding the AC coefficients of a JPEG block from a scan. */
module JpegDecode {
  import opened Shifts
  import opened HuffmanCode
  import opened InflateBits
  import opened JpegHuffman
  import opened JpegTable
  import opened JpegStream
  import opened JpegZigzag
  import opened JpegFastAc

  /** The part of stbi__jpeg that reads the bits of a scan. */
  class Bits {
    const data: Bytes
    var pos: nat
    var nomore: bool
    var codeBuffer: nat
    var codeBits: int
    /** All bytes of the scan, how many of them have been fetched, and the next bit. */
    ghost const P: Bytes
    ghost var got: nat
    ghost var at: nat

    constructor (data: Bytes, pos: nat)
      requires AllBytes(data)
      ensures Valid() && at == 0 && P == Payload(data, pos)
    {
      this.data, this.pos := data, pos;
      nomore, codeBuffer, codeBits := false, 0, 0;
      P, got, at := Payload(data, pos), 0, 0;
      new;
      PayloadBytes(data, pos);
      assert P[0..] == P;
    }

    /** The bytes still to come. */
    ghost predicate Rest()
      reads `pos, `got
    {
      if got <= |P| then P[got..] == Payload(data, pos) else pos >= |data|
    }

    /** The buffer holds the next bits of the scan. */
    ghost predicate Valid()
      reads this
    {
      && AllBytes(data) && AllBytes(P) && codeBits <= 32 && at + codeBits == 8 * got
      && codeBuffer == Held(P, at, codeBits)
      && if nomore then got >= |P| else codeBits >= 0 && Rest()
    }

    method Get8() returns (b: nat)
      modifies `pos
      ensures b == ByteAt(data, old(pos)) && pos == old(pos) + 1
    {
      b := if pos < |data| then data[pos] else 0;
      pos := pos + 1;
    }

    /** One byte of the scan, or a marker. */
    method NextByte() returns (b: nat, marker: bool)
      requires AllBytes(data) && AllBytes(P) && !nomore && Rest()
      modifies `pos
      ensures marker ==> got == |P|
      ensures !marker ==> b == ByteAt(P, got) && if got + 1 <= |P| then P[got + 1..] == Payload(data, pos) else pos >= |data|
    {
      ghost var rest := P[if got <= |P| then got else |P|..];
      assert got < |P| ==> rest[0] == P[got] && rest[1..] == P[got + 1..];
      b := Get8();
      marker := false;
      if b == 0xff {
        var c := Get8();
        marker := c != 0;
      }
    }

    /** One more byte in the buffer, a zero behind the end. */
    method AddByte(b: nat)
      requires AllBytes(P) && codeBits <= 24 && at + codeBits == 8 * got && codeBuffer == Held(P, at, codeBits)
      requires b == ByteAt(P, got) && (codeBits < 0 ==> got >= |P|)
      modifies `codeBuffer, `codeBits, `got
      ensures got == old(got) + 1 && codeBits == old(codeBits) + 8 && codeBuffer == Held(P, at, codeBits)
    {
      hide Shl, Window;
      if codeBits >= 0 {
        HeldByte(P, at, codeBits, got);
      } else {
        HeldPastEnd(P, at, codeBits);
        HeldPastEnd(P, at, codeBits + 8);
        ZeroShifts(24 - codeBits);
      }
      codeBuffer := codeBuffer + Shl(b, 24 - codeBits);
      codeBits := codeBits + 8;
      got := got + 1;
    }

    /** stbi__grow_buffer_unsafe. If it stops at a marker, the buffer holds all that is left. */
    method Grow()
      requires Valid() && codeBits <= 24
      modifies this
      ensures Valid() && at == old(at) && codeBits >= old(codeBits)
      ensures codeBits > 24 || (nomore && at + codeBits == 8 * |P|)
    {
      hide Held, Payload, AllBytes, Shl;
      while true
        invariant Valid() && codeBits <= 24 && codeBits >= old(codeBits) && at == old(at)
        decreases 24 - codeBits
      {
        var b := 0;
        if !nomore {
          var marker;
          b, marker := NextByte();
          if marker {
            nomore := true;
            return;
          }
        }
        AddByte(b);
        if codeBits > 24 { return; }
      }
    }

    /** What a look at the first bits of the buffer shows. */
    lemma Look(n: nat)
      requires Valid() && n <= 32 && (n <= codeBits || nomore)
      ensures Top(codeBuffer, n) == Window(P, at, n)
    {
      HeldTop(P, at, codeBits, n);
    }

    /** code_buffer <<= s, code_bits -= s */
    method Shift(s: nat)
      requires Valid() && s <= 32 && (s <= codeBits || nomore)
      modifies `codeBuffer, `codeBits, `at
      ensures Valid() && at == old(at) + s && codeBits == old(codeBits) - s
    {
      hide Held, Payload, AllBytes;
      HeldLeft(P, at, codeBits, s);
      codeBuffer := Left(codeBuffer, s);
      codeBits := codeBits - s;
      at := at + s;
    }

    /** Sixteen bits, or all that is left of the scan. */
    ghost predicate Filled()
      reads this
    {
      codeBits >= 16 || (nomore && at + codeBits == 8 * |P|)
    }

    /** Whatever codeword comes next goes past the end of the scan. */
    ghost predicate CutOff(S: Sizes, p: nat)
      requires Sorted(S)
    {
      forall k: nat | Next16(S, P, p, k) :: p + S[k] > 8 * |P|
    }

    /** The symbol from the fast table. */
    method Short(h: Table, k: nat, ghost S: Sizes) returns (r: int)
      requires Valid() && Filled() && h.TableFor(S) && k < 255 && k < |S| && Matches9(S, Window(P, at, FAST_BITS), k)
      modifies this
      ensures Next16(S, P, old(at), k) && !Overlooked(S, P, old(at))
      ensures r >= 0 ==> Valid() && r == h.values[k] && at == old(at) + S[k]
      ensures r < 0 ==> r == -1 && CutOff(S, old(at)) && at == old(at)
    {
      hide Shr, Shl, Start, CodeOf, Window, Payload, Held, AllBytes, Begins16;
      ShortBegins(S, P, at, k);
      OnlyNext(S, P, at, k);
      var s := h.size[k];
      assert h.size[..|S|][k] == s;
      if s > codeBits { return -1; }
      Shift(s);
      r := h.values[k];
    }

    /** The search for the length of the codeword. */
    method FindLength(h: Table, temp: nat, ghost S: Sizes) returns (k: nat)
      requires h.TableFor(S) && temp < 0x1_0000
      ensures FAST_BITS < k <= 17 && (k <= 16 ==> temp < h.maxcode[k])
      ensures forall j | FAST_BITS < j < k :: temp >= h.maxcode[j]
    {
      k := FAST_BITS + 1;
      while temp >= h.maxcode[k]
        invariant FAST_BITS < k <= 17 && forall j | FAST_BITS < j < k :: temp >= h.maxcode[j]
        decreases 17 - k
      {
        k := k + 1;
      }
    }

    /** The symbol from the limits and offsets. */
    method Long(h: Table, ghost S: Sizes) returns (r: int, ghost sym: nat)
      requires Valid() && Filled() && h.TableFor(S) && FastEntry(S, 255, Window(P, at, FAST_BITS), |S|)
      modifies this
      ensures r >= 0 ==> Valid()
      ensures r >= 0 && !Overlooked(S, P, old(at)) ==> Next16(S, P, old(at), sym) && at == old(at) + S[sym]
      ensures r >= 0 ==> sym < 256 && r == h.values[sym]
      ensures r < 0 ==> r == -1 && at == old(at)
      ensures r < 0 && !Overlooked(S, P, old(at)) ==> CutOff(S, old(at))
      ensures r >= 0 && Overlooked(S, P, old(at)) ==> at == old(at) + FAST_BITS + 1
    {
      hide Shr, Shl, Start, Top, CodeOf, Window, Overlooked, Payload, Held, AllBytes, Begins16, FastEntry;
      Look(16);
      var temp := Top(codeBuffer, 16);
      WindowLimits(P, at);
      var k := FindLength(h, temp, S);
      sym := LongFinds(S, P, at, k, h.maxcode[..], h.delta[..]);
      if k == 17 {
        codeBits := codeBits - 16;
        return -1, sym;
      }
      if k > codeBits { return -1, sym; }
      Look(k);
      var i := Top(codeBuffer, k) + h.delta[k];
      sym := i;
      Shift(k);
      r := h.values[i];
    }

    /** stbi__jpeg_huff_decode: the symbol whose codeword comes next, or -1 if there is none or
        the scan ends within it. An overlooked symbol is always decoded wrong. */
    method HuffDecode(h: Table, ghost S: Sizes) returns (r: int, ghost sym: nat)
      requires Valid() && h.TableFor(S)
      modifies this
      ensures r >= 0 ==> Valid()
      ensures r >= 0 && !Overlooked(S, P, old(at)) ==> Next16(S, P, old(at), sym) && at == old(at) + S[sym]
      ensures r >= 0 ==> sym < 256 && r == h.values[sym]
      ensures r < 0 ==> r == -1 && at == old(at)
      ensures r < 0 && !Overlooked(S, P, old(at)) ==> CutOff(S, old(at))
      ensures r >= 0 && Overlooked(S, P, old(at)) ==> at != old(at) + S[255]
    {
      hide Shr, Shl, Start, Top, CodeOf, Window, Payload, Held, AllBytes, Begins16;
      if codeBits < 16 { Grow(); }
      Look(FAST_BITS);
      WindowLimits(P, at);
      var c := Top(codeBuffer, FAST_BITS);
      var k := h.fast[c];
      assert FastEntry(S, h.fast[..][c], c, |S|);
      if k < 255 {
        sym := k;
        r := Short(h, k, S);
      } else {
        r, sym := Long(h, S);
      }
    }

    /** stbi__extend_receive */
    method ExtendReceive(n: nat) returns (v: int)
      requires Valid() && 0 < n <= 15
      modifies this
      ensures Valid() && v == Extend(Window(P, old(at), n), n) && at == old(at) + n
    {
      hide Shr, Shl, Top, Left, Low, Held, Window, Payload, AllBytes;
      if codeBits < n { Grow(); }
      Look(n);
      HeldBound(P, at, codeBits);
      HeldLeft(P, at, codeBits, n);
      SignIsFirst(codeBuffer, n);
      RotateParts(codeBuffer, n);
      var sgn := codeBuffer >= 0x8000_0000;
      var k: nat := Left(codeBuffer, n) + Top(codeBuffer, n);
      codeBuffer := k - Low(k, n);
      k := Low(k, n);
      codeBits := codeBits - n;
      at := at + n;
      v := if sgn then k else k - Shl(1, n) + 1;
    }

    // ---------------------------------------------------------------- AC codes

    ghost predicate Filler(S: Sizes, values: seq<nat>, fastAc: array<int>)
      requires Sorted(S) && |S| <= |values| && AllBytes(values)
      reads fastAc
    {
      fastAc.Length == 512 && forall c | 0 <= c < 512 :: AcEntry(S, values, fastAc[c], c)
    }

    /** What the code does with an entry of the fast AC table. */
    method FastStep(r: int, h: Table, ghost S: Sizes) returns (a: Ac)
      requires Valid() && Filled() && h.TableFor(S) && AllBytes(h.values[..])
      requires r != 0 && AcEntry(S, h.values[..], r, Window(P, at, FAST_BITS))
      modifies this
      ensures Valid() && Found(a, at) == AcAt(S, h.values[..], P, old(at)) && a.Coefficient? && a.run < 16
    {
      hide Shr, Shl, Window, Payload, Held, AcEntry, AcAt;
      FastIsSlow(S, h.values[..], r, P, at);
      Shift(r % 16);
      a := Coefficient(r / 16 % 16, r / 256);
    }

    /** What it does without one. */
    method SlowStep(h: Table, ghost S: Sizes) returns (a: Ac)
      requires Valid() && h.TableFor(S) && AllBytes(h.values[..])
      modifies this
      ensures a != NoCode ==> Valid()
      ensures a != NoCode && !Overlooked(S, P, old(at)) ==> Found(a, at) == AcAt(S, h.values[..], P, old(at))
      ensures a == NoCode ==> at == old(at)
      ensures a == NoCode && !Overlooked(S, P, old(at)) ==> CutOff(S, old(at))
      ensures a.Coefficient? ==> a.run < 16
    {
      hide Shr, Shl, Window, Payload, Held, AcAt, Begins16, Overlooked, Extend;
      ghost var p := at;
      var rs, sym := HuffDecode(h, S);
      if rs < 0 { return NoCode; }
      assert h.values[..][sym] == rs;
      if !Overlooked(S, P, p) { AcAtIs(S, h.values[..], P, p, sym); }
      var s := rs % 16;
      if s == 0 {
        a := if rs == 0xf0 then SixteenZeros else EndOfBlock;
      } else {
        var v := ExtendReceive(s);
        a := Coefficient(rs / 16, v);
      }
    }

    /** One AC code, by the table if it has an entry and else code and bits one after the other. */
    method AcStep(h: Table, fastAc: array<int>, ghost S: Sizes) returns (a: Ac)
      requires Valid() && h.TableFor(S) && AllBytes(h.values[..]) && Filler(S, h.values[..], fastAc)
      modifies this
      ensures a != NoCode ==> Valid()
      ensures a != NoCode && !Overlooked(S, P, old(at)) ==> Found(a, at) == AcAt(S, h.values[..], P, old(at))
      ensures a == NoCode ==> at == old(at)
      ensures a == NoCode && !Overlooked(S, P, old(at)) ==> CutOff(S, old(at))
      ensures a.Coefficient? ==> a.run < 16
    {
      hide Shr, Shl, Top, Window, Payload, Held, AllBytes, AcAt, Begins16, Overlooked, AcEntry;
      if codeBits < 16 { Grow(); }
      Look(FAST_BITS);
      WindowLimits(P, at);
      var r := fastAc[Top(codeBuffer, FAST_BITS)];
      if r != 0 {
        a := FastStep(r, h, S);
      } else {
        a := SlowStep(h, S);
      }
    }

    lemma NothingNext(S: Sizes, values: seq<nat>, p: nat)
      requires Sorted(S) && |S| <= |values| && AllBytes(values) && CutOff(S, p) && p + 16 <= 8 * |P|
      ensures AcAt(S, values, P, p).ac == NoCode
    {
      hide Window, CodeOf;
    }

    // ---------------------------------------------------------------- a block

    /** What the standard makes of the block from bit `p` on. */
    ghost function Expected(S: Sizes, values: seq<nat>, p: nat, k: nat, data: seq<int>, dequant: seq<nat>): Decoded
      requires Sorted(S) && |S| <= |values| && AllBytes(values) && |data| == |dequant| == 64
    {
      BlockFrom(S, values, P, p, k, data, dequant)
    }

    /** The AC part of stbi__jpeg_decode_block. The coefficients that are stored, and where, are
        those of the standard, and it fails only for a broken block or at the end of the scan; if
        the table is incomplete, up to the first symbol that it overlooks. */
    method AcBlock(h: Table, fastAc: array<int>, block: array<int>, dequant: seq<nat>, ghost S: Sizes) returns (ok: bool, ghost lost: Lost)
      requires Valid() && h.TableFor(S) && AllBytes(h.values[..]) && Filler(S, h.values[..], fastAc)
      requires block.Length == |dequant| == 64 && block != fastAc && block != h.delta
      modifies this, block
      ensures Complete(S) ==> lost == Nowhere
      ensures lost == Nowhere && ok ==> Valid() && Expected(S, h.values[..], old(at), 1, old(block[..]), dequant) == Block(block[..], at)
      ensures lost == Nowhere && !ok ==> Expected(S, h.values[..], old(at), 1, old(block[..]), dequant) == Broken || at + 16 > 8 * |P|
      ensures lost != Nowhere ==> |lost.data| == 64 && lost.k < 64 && Overlooked(S, P, lost.at)
      ensures lost != Nowhere ==> Expected(S, h.values[..], old(at), 1, old(block[..]), dequant) == Expected(S, h.values[..], lost.at, lost.k, lost.data, dequant)
    {
      hide Payload, Held, AllBytes, AcAt, Next16, Overlooked, AcEntry, BlockFrom, Zigzag, CutOff, FastTable, LengthTable;
      ghost var V, all := h.values[..], Expected(S, h.values[..], at, 1, block[..], dequant);
      NeverOverlooked(S, P);
      var k := 1;
      lost := Nowhere;
      while k < 64
        invariant 1 <= k <= 79 && Valid() && h.TableFor(S) && h.values[..] == V && Filler(S, V, fastAc)
        invariant Complete(S) ==> lost == Nowhere
        invariant lost == Nowhere ==> all == Expected(S, V, at, k, block[..], dequant)
        invariant lost != Nowhere ==> |lost.data| == 64 && lost.k < 64 && Overlooked(S, P, lost.at) && all == Expected(S, V, lost.at, lost.k, lost.data, dequant)
        decreases 64 - k
      {
        ghost var p, before := at, block[..];
        if lost == Nowhere && Overlooked(S, P, p) { lost := Somewhere(p, k, before); }
        BlockStep(S, V, P, p, k, before, dequant);
        var a := AcStep(h, fastAc, S);
        match a
        case NoCode =>
          if lost == Nowhere && at + 16 <= 8 * |P| { NothingNext(S, V, p); }
          return false, lost;
        case EndOfBlock => return true, lost;
        case SixteenZeros => k := k + 16;
        case Coefficient(run, value) =>
          var zig := Zigzag(k + run);
          block[zig] := Short16(value * dequant[zig]);
          k := k + run + 1;
      }
      BlockStep(S, V, P, at, k, block[..], dequant);
      ok := true;
    }
  }

  /** Where a block has been left because of an overlooked symbol, and what it was until then. */
  datatype Lost = Nowhere | Somewhere(at: nat, k: nat, data: seq<int>)

  // ---------------------------------------------------------------- lemmas

  /** At most one symbol comes next. */
  lemma OnlyNext(S: Sizes, P: Bytes, at: nat, k: nat)
    requires Sorted(S) && Next16(S, P, at, k)
    ensures forall j: nat | Next16(S, P, at, j) :: j == k
  {
    hide Window, Begins16;
    forall j: nat | Next16(S, P, at, j)
      ensures j == k
    {
      OneBegins(S, Window(P, at, 16), j, k);
    }
  }

  lemma WindowLimits(P: Bytes, at: nat)
    ensures Window(P, at, FAST_BITS) < 512 && Window(P, at, 16) < 0x1_0000
  {
    hide Window, Shl;
    WindowBound(P, at, 9);
    WindowBound(P, at, 16);
    Sixteen();
    ShlSeven(1);
    ShlAdd(1, 7, 2);
    ShlTwo(0x80);
  }

  lemma ShlTwo(q: nat)
    ensures Shl(q, 2) == 4 * q
  {
    assert Shl(q, 2) == 2 * Shl(q, 1);
  }

  /** The length that the search finds. */
  lemma LongFinds(S: Sizes, P: Bytes, at: nat, k: nat, maxcode: seq<nat>, delta: seq<int>) returns (sym: nat)
    requires Sorted(S) && Fits(S) && |S| <= 256 && LengthTable(S, maxcode, delta, 16) && FastEntry(S, 255, Window(P, at, FAST_BITS), |S|)
    requires FAST_BITS < k <= 17 && (k <= 16 ==> Window(P, at, 16) < maxcode[k]) && forall j | FAST_BITS < j < k :: Window(P, at, 16) >= maxcode[j]
    ensures k <= 16 ==> 0 <= Window(P, at, k) + delta[k] < 256
    ensures Overlooked(S, P, at) ==> k == FAST_BITS + 1
    ensures !Overlooked(S, P, at) && k == 17 ==> forall q: nat :: !Next16(S, P, at, q)
    ensures !Overlooked(S, P, at) && k <= 16 ==> Next16(S, P, at, sym) && S[sym] == k && sym == Window(P, at, k) + delta[k]
    ensures !Overlooked(S, P, at) && k <= 16 ==> forall q: nat | Next16(S, P, at, q) :: q == sym
  {
    hide Window, Shl, Shr, Start, CodeOf, Overlooked, FastEntry;
    FastMisses(S, P, at);
    sym := 0;
    if Overlooked(S, P, at) {
      OverlookedLimits(S, P, at, maxcode, delta);
    } else {
      var v := Window(P, at, 16);
      assert v >= Start(S, Shorter(S, k - 1)) by {
        if k > FAST_BITS + 1 { assert v >= maxcode[k - 1]; }
      }
      if k == 17 {
        NoneBegins(S, P, at);
      } else {
        sym := SlowFinds(S, v, k, maxcode, delta);
        WindowShr(P, at, k, 16 - k);
        OnlyNext(S, P, at, sym);
      }
    }
  }

  /** The sign bit of the buffer is the first of the bits received. */
  lemma SignIsFirst(buf: nat, n: nat)
    requires buf < TWO32 && 0 < n <= 15
    ensures buf >= 0x8000_0000 <==> Top(buf, n) >= Shl(1, n - 1)
  {
    hide Shr, Shl;
    ShrAdd(buf, 32 - n, n - 1);
    ShrBelow(Top(buf, n), 1, n - 1);
    ShrBelow(buf, 1, 31);
    Thirtytwo();
    ShlAdd(1, 31, 1);
    ShlOnce(Shl(1, 31));
  }

  lemma ShlOnce(q: nat)
    ensures Shl(q, 1) == 2 * q
  {}

  /** A rotation keeps the first bits as the last ones. */
  lemma RotateParts(buf: nat, n: nat)
    requires buf < TWO32 && 0 < n <= 15
    ensures var k := Left(buf, n) + Top(buf, n); Low(k, n) == Top(buf, n) && k - Low(k, n) == Left(buf, n)
  {
    hide Shr, Shl, Low;
    var t := Top(buf, n);
    Thirtytwo();
    ShlAdd(1, n, 32 - n);
    ShrBelow(buf, Shl(1, n), 32 - n);
    LowSum(Low(buf, 32 - n), t, n);
    LowAll(t, n);
  }

  lemma {:induction false} LowSum(q: nat, t: nat, n: nat)
    ensures Low(Shl(q, n) + t, n) == Low(t, n)
    decreases n
  {
    if n > 0 {
      LowSum(q, t / 2, n - 1);
      assert (Shl(q, n) + t) / 2 == Shl(q, n - 1) + t / 2;
    }
  }

  // ---------------------------------------------------------------- blocks

  /** (short) x */
  function Short16(x: int): int { (x + 0x8000) % 0x1_0000 - 0x8000 }

  datatype Decoded = Block(data: seq<int>, at: nat) | Broken

  /** A block from its coefficient number `k` on: runs of zeros and values, in zigzag order, up
      to the end of the block. */
  ghost function BlockFrom(S: Sizes, values: seq<nat>, P: Bytes, at: nat, k: nat, data: seq<int>, dequant: seq<nat>): Decoded
    requires Sorted(S) && |S| <= |values| && AllBytes(values) && |data| == |dequant| == 64
    decreases 64 - k
  {
    if k >= 64 then Block(data, at)
    else
      var found := AcAt(S, values, P, at);
      match found.ac
      case NoCode => Broken
      case EndOfBlock => Block(data, found.at)
      case SixteenZeros => BlockFrom(S, values, P, found.at, k + 16, data, dequant)
      case Coefficient(run, value) =>
        if k + run >= 79 then Broken
        else
          var zig := Zigzag(k + run);
          BlockFrom(S, values, P, found.at, k + run + 1, data[zig := Short16(value * dequant[zig])], dequant)
  }

  /** One code of a block. */
  lemma BlockStep(S: Sizes, values: seq<nat>, P: Bytes, at: nat, k: nat, data: seq<int>, dequant: seq<nat>)
    requires Sorted(S) && |S| <= |values| && AllBytes(values) && |data| == |dequant| == 64
    ensures var found := AcAt(S, values, P, at);
      k < 64 ==> match found.ac
        case NoCode => BlockFrom(S, values, P, at, k, data, dequant) == Broken
        case EndOfBlock => BlockFrom(S, values, P, at, k, data, dequant) == Block(data, found.at)
        case SixteenZeros => BlockFrom(S, values, P, at, k, data, dequant) == BlockFrom(S, values, P, found.at, k + 16, data, dequant)
        case Coefficient(run, value) => k + run < 79 ==>
          var zig := Zigzag(k + run);
          BlockFrom(S, values, P, at, k, data, dequant)
          == BlockFrom(S, values, P, found.at, k + run + 1, data[zig := Short16(value * dequant[zig])], dequant)
    ensures k >= 64 ==> BlockFrom(S, values, P, at, k, data, dequant) == Block(data, at)
  {
    hide AcAt, Zigzag, Short16;
  }

  /** An incomplete table is the only reason to overlook a symbol. */
  lemma NeverOverlooked(S: Sizes, P: Bytes)
    requires Sorted(S)
    ensures Complete(S) ==> forall at: nat :: !Overlooked(S, P, at)
  {}
}
