/** The GIF raster decoder of stb_image.h. */
module Gif {
  import opened Shifts
  import opened InflateBits
  import opened GifRows
  import opened GifLzw

  /** Four bytes: an entry of the colour table, or a pixel. */
  datatype Quad = Quad(a: nat, b: nat, c: nat, d: nat)

  // ---------------------------------------------------------------- sub-blocks

  function Slice(data: Bytes, p: nat, n: nat): (s: Bytes)
    ensures |s| == n && forall i | 0 <= i < n :: s[i] == ByteAt(data, p + i)
  {
    seq<nat>(n, i requires 0 <= i < n => ByteAt(data, p + i))
  }

  /** The contents of the sub-blocks from `p` on, up to the empty one. */
  function Blocks(data: Bytes, p: nat): Bytes
    decreases |data| - p
  {
    var n := ByteAt(data, p);
    if n == 0 then [] else Slice(data, p + 1, n) + Blocks(data, p + 1 + n)
  }

  // ---------------------------------------------------------------- pixels in their order

  /** The number of the pixel in column `c` of the row that is drawn as number `i`. */
  function Nth(w: nat, i: nat, c: nat): nat { i * w + c }

  lemma NthOrder(w: nat, i: nat, c: nat, j: nat, d: nat)
    requires c < w && d < w
    ensures Nth(w, i, c) < Nth(w, j, d) <==> i < j || (i == j && c < d)
    ensures Nth(w, i, w) == Nth(w, i + 1, 0)
  {
    if i < j { Rows2(w, i, j); }
    if j < i { Rows2(w, j, i); }
  }

  lemma NthNext(w: nat, i: nat, c: nat)
    ensures Nth(w, i, c + 1) == Nth(w, i, c) + 1
  {}

  lemma SettledFirst(h: nat, c: Cursor)
    requires c.step > 0
    ensures c.y < h ==> Rows(h, c) != [] && Rows(h, c)[0] == c.y
  {}

  lemma Rows2(w: nat, i: nat, j: nat)
    requires i < j
    ensures i * w + w <= j * w
  {
    var k := j - i - 1;
    assert j * w == (i + 1 + k) * w == i * w + w + k * w;
  }

  /** A colour replaces a pixel unless it is transparent. */
  function Blend(before: Quad, c: Quad): Quad { if c.d >= 128 then Quad(c.c, c.b, c.a, c.d) else before }

  /** Entry `i` of a colour table that starts at `p`: red, green and blue are kept backwards, and the
      transparent one is marked. */
  function TableEntry(data: Bytes, p: nat, i: nat, transp: int): Quad {
    Quad(ByteAt(data, p + 3 * i + 2), ByteAt(data, p + 3 * i + 1), ByteAt(data, p + 3 * i), if transp == i then 0 else 255)
  }

  /** stbi__gif_parse_colortable */
  method ParseColortable(data: Bytes, p: nat, pal: array<Quad>, n: nat, transp: int)
    requires n <= pal.Length
    modifies pal
    ensures forall i | 0 <= i < n :: pal[i] == TableEntry(data, p, i, transp)
    ensures forall i | n <= i < pal.Length :: pal[i] == old(pal[i])
  {
    var at := p;
    for i := 0 to n
      invariant at == p + 3 * i && forall j | 0 <= j < i :: pal[j] == TableEntry(data, p, j, transp)
      invariant forall j | i <= j < pal.Length :: pal[j] == old(pal[j])
    {
      pal[i] := Quad(ByteAt(data, at + 2), ByteAt(data, at + 1), ByteAt(data, at), if transp == i then 0 else 255);
      at := at + 3;
    }
  }

  /** A symbol is drawn in the colour the file has for it: red, green, blue and opaque. The transparent
      one leaves the pixel alone. */
  lemma DrawnColour(before: Quad, data: Bytes, p: nat, i: nat, transp: int)
    ensures Blend(before, TableEntry(data, p, i, transp))
      == if i == transp then before else Quad(ByteAt(data, p + 3 * i), ByteAt(data, p + 3 * i + 1), ByteAt(data, p + 3 * i + 2), 255)
  {}

  // ---------------------------------------------------------------- the string table as links

  /** Each code links to the one whose string is its own without the last symbol. */
  ghost predicate Entry(st: State, prefix: seq<int>, first: seq<nat>, suffix: seq<nat>, c: nat)
    requires |prefix| == |first| == |suffix| == MAXCODES
  {
    c < |st.table| && IsString(st, c) ==>
      var s := st.table[c];
      && c < MAXCODES && s != [] && first[c] == s[0] && suffix[c] == s[|s| - 1] < 256 && s[0] < 256
      && if |s| == 1 then prefix[c] == -1
         else 0 <= prefix[c] < c && IsString(st, prefix[c]) && st.table[prefix[c]] == s[..|s| - 1]
  }

  ghost predicate Rep(st: State, prefix: seq<int>, first: seq<nat>, suffix: seq<nat>) {
    && |prefix| == |first| == |suffix| == MAXCODES
    && forall c: nat {:trigger Entry(st, prefix, first, suffix, c)} :: Entry(st, prefix, first, suffix, c)
  }

  /** Only the table matters. */
  lemma RepSame(st: State, st': State, prefix: seq<int>, first: seq<nat>, suffix: seq<nat>)
    requires Rep(st, prefix, first, suffix) && st'.table == st.table && st'.cs == st.cs
    ensures Rep(st', prefix, first, suffix)
  {
    forall c: nat
      ensures Entry(st', prefix, first, suffix, c)
    {
      assert Entry(st, prefix, first, suffix, c);
    }
  }

  lemma RepInitial(cs: nat, started: bool, prefix: seq<int>, first: seq<nat>, suffix: seq<nat>)
    requires |prefix| == |first| == |suffix| == MAXCODES && Clear(cs) <= MAXCODES
    requires forall c | 0 <= c < Clear(cs) :: prefix[c] == -1 && first[c] == c % 256 && suffix[c] == c % 256
    ensures Rep(Initial(cs, started), prefix, first, suffix)
  {
    hide Clear;
    var st := Initial(cs, started);
    forall c: nat
      ensures Entry(st, prefix, first, suffix, c)
    {}
  }

  /** A new entry, as the decoder writes it: its own first symbol stands in for the string of a
      code that is not there yet. */
  lemma RepAdds(st: State, code: nat, prefix: seq<int>, first: seq<nat>, suffix: seq<nat>)
    requires Ok(st) && Rep(st, prefix, first, suffix) && IsString(st, st.last) && |st.table| < MAXCODES
    requires IsString(st, code) || code == |st.table|
    ensures var p := |st.table|; var first' := first[p := first[st.last]];
      Rep(st.(table := st.table + [NewString(st, code)]), prefix[p := st.last], first', suffix[p := first'[code]])
  {
    var p := |st.table|;
    var first' := first[p := first[st.last]];
    var st' := st.(table := st.table + [NewString(st, code)]);
    var prefix', suffix' := prefix[p := st.last], suffix[p := first'[code]];
    assert Entry(st, prefix, first, suffix, st.last) && Entry(st, prefix, first, suffix, code);
    var s := NewString(st, code);
    assert s[..|s| - 1] == st.table[st.last] && s[0] == st.table[st.last][0];
    hide Clear;
    forall c: nat
      ensures Entry(st', prefix', first', suffix', c)
    {
      assert Entry(st, prefix, first, suffix, c);
    }
  }

  /** Clearing leaves the single symbols where they are. */
  ghost predicate Singles(cs: nat, prefix: seq<int>, first: seq<nat>, suffix: seq<nat>) {
    && |prefix| == |first| == |suffix| == MAXCODES && Clear(cs) <= MAXCODES
    && forall c | 0 <= c < Clear(cs) :: prefix[c] == -1 && first[c] == c % 256 && suffix[c] == c % 256
  }

  class GifImage {
    const data: Bytes
    var pos: nat
    const prefix: array<int>
    const first: array<nat>
    const suffix: array<nat>
    const palette: seq<Quad>
    /** The canvas, and the part of it that the image covers. */
    const out: array2<Quad>
    const left: nat
    const top: nat
    const w: nat
    const h: nat
    const interlaced: bool
    var x: nat
    var row: Cursor
    /** All symbols so far, the number of rows done, and the canvas before. */
    ghost var sent: Str
    ghost var done: nat
    ghost const before: (nat, nat) -> Quad
    /** The bit buffer, and how much is left of the sub-block. */
    var bits: nat
    var validBits: nat
    var len: nat
    ghost var got: nat
    /** The state of the string table. */
    var lzwCs: nat
    var avail: nat
    var codesize: nat
    var oldcode: int
    var cleared: bool
    ghost var st: State

    constructor (data: Bytes, palette: seq<Quad>, out: array2<Quad>, left: nat, top: nat, w: nat, h: nat, interlaced: bool,
                 ghost before: (nat, nat) -> Quad)
      requires AllBytes(data) && |palette| == 256 && w > 0 && left + w <= out.Length1 && top + h <= out.Length0
      requires forall r: nat, c: nat | r < out.Length0 && c < out.Length1 :: out[r, c] == before(r, c)
      ensures Shaped() && fresh(prefix) && fresh(first) && fresh(suffix) && pos == 0 && sent == [] && Shown()
      ensures this.out == out && this.data == data
    {
      this.data, this.palette, this.out := data, palette, out;
      this.left, this.top, this.w, this.h, this.interlaced := left, top, w, h, interlaced;
      this.before := before;
      pos, x, row := 0, 0, Start(interlaced);
      sent, done := [], 0;
      bits, validBits, len, got := 0, 0, 0, 0;
      lzwCs, avail, codesize, oldcode, cleared := 0, 0, 0, -1, false;
      st := Initial(0, false);
      prefix := new int[MAXCODES](_ => 0);
      first := new nat[MAXCODES](_ => 0);
      suffix := new nat[MAXCODES](_ => 0);
      new;
      EachRowOnce(h, interlaced);
      SettledFirst(h, Start(interlaced));
      assert Order()[0..] == Order();
      assert Placed(0);
    }

    ghost predicate Shaped()
    {
      && AllBytes(data) && |palette| == 256 && w > 0 && left + w <= out.Length1 && top + h <= out.Length0
      && prefix.Length == first.Length == suffix.Length == MAXCODES && first != suffix
    }

    // ---------------------------------------------------------------- drawing

    ghost function Order(): seq<nat> { Rows(h, Start(interlaced)) }

    /** After the symbols `t`, the pixel in column `c` of row number `i` of the order. */
    ghost predicate PixelIs(t: Str, i: nat, c: nat)
      requires Shaped()
      reads out
    {
      i < h && c < w && |Order()| == h && Order()[i] < h ==>
        var r, k := top + Order()[i], left + c;
        out[r, k] == if Nth(w, i, c) < |t| then Blend(before(r, k), Colour(t[Nth(w, i, c)])) else before(r, k)
    }

    ghost function Colour(s: nat): Quad { if s < |palette| then palette[s] else Quad(0, 0, 0, 0) }

    ghost predicate Inside(r: nat, k: nat) { top <= r < top + h && left <= k < left + w }

    /** Exactly the symbols `t` have been drawn, in their order. */
    ghost predicate Pixels(t: Str)
      requires Shaped()
      reads out
    {
      && (forall i: nat, c: nat {:trigger PixelIs(t, i, c)} :: PixelIs(t, i, c))
      && (forall r: nat, k: nat | r < out.Length0 && k < out.Length1 && !Inside(r, k) :: out[r, k] == before(r, k))
    }

    ghost predicate OrderOk() {
      |Order()| == h && NoDuplicates(Order()) && (forall z: nat :: z in Order() <==> z < h) && (forall i | 0 <= i < h :: Order()[i] < h)
    }

    /** Where the next of the symbols goes, `n` having come already. */
    ghost predicate Placed(n: nat)
      requires w > 0
      reads `x, `row, `done
    {
      && OrderOk() && done <= h && row.step > 0 && x < w
      && Rows(h, row) == Order()[done..] && (row.y < h <==> done < h)
      && if done < h then n == Nth(w, done, x) && row.y == Order()[done] else n >= Nth(w, h, 0)
    }

    ghost predicate Shown()
      reads `x, `row, `done, `sent, out
    {
      Shaped() && Placed(|sent|) && Pixels(sent)
    }

    /** The next row. */
    method NextRow()
      requires row.step > 0 && row.y < h
      modifies `row
      ensures row == Settle(h, old(Cursor(row.y + row.step, row.step, row.parse)))
    {
      row := row.(y := row.y + row.step);
      while row.y >= h && row.parse > 0
        invariant Settle(h, row) == Settle(h, old(Cursor(row.y + row.step, row.step, row.parse)))
        decreases row.parse
      {
        row := Cursor(Spacing(row.parse) / 2, Spacing(row.parse), row.parse - 1);
      }
    }

    lemma AllDrawn(t: Str, s: nat)
      requires Shaped() && Placed(|t|) && Pixels(t) && done == h
      ensures Pixels(t + [s])
    {
      hide Order, OrderOk, Blend, Colour, Nth;
      forall i: nat, c: nat
        ensures PixelIs(t + [s], i, c)
      {
        assert PixelIs(t, i, c);
        if i < h && c < w {
          NthOrder(w, i, c, h, 0);
        }
      }
    }

    /** Two pixels in the order are two places on the canvas, with numbers of their own. */
    lemma OtherPixel(i: nat, c: nat)
      requires w > 0 && OrderOk() && done < h && x < w && i < h && c < w && !(i == done && c == x)
      ensures Nth(w, i, c) != Nth(w, done, x) && (Order()[i] != Order()[done] || c != x)
    {
      hide Order, Nth;
      NthOrder(w, i, c, done, x);
      NthOrder(w, done, x, i, c);
    }

    /** One pixel, where the cursor is. */
    method PutPixel(s: nat)
      requires Shown() && s < 256 && done < h
      modifies out
      ensures Shaped() && Pixels(sent + [s])
    {
      hide Order, Nth, Rows;
      var c := palette[s];
      ghost var were := out;
      label L:
      if c.d >= 128 {
        out[top + row.y, left + x] := Quad(c.c, c.b, c.a, c.d);
      }
      forall i: nat, k: nat
        ensures PixelIs(sent + [s], i, k)
      {
        assert old@L(PixelIs(sent, i, k));
        if i < h && k < w && !(i == done && k == x) { OtherPixel(i, k); }
      }
    }

    /** The part of stbi__out_gif_code behind the recursion. */
    method Plot(s: nat)
      requires Shown() && s < 256
      modifies `x, `row, `sent, `done, out
      ensures Shown() && sent == old(sent) + [s]
    {
      hide Pixels, Order, Nth, NoDuplicates;
      if row.y >= h {
        AllDrawn(sent, s);
        sent := sent + [s];
        return;
      }
      PutPixel(s);
      Advance(s);
    }

    method Advance(ghost s: nat)
      requires Shaped() && Placed(|sent|) && Pixels(sent + [s]) && done < h
      modifies `x, `row, `sent, `done
      ensures Shown() && sent == old(sent) + [s]
    {
      hide Order, Pixels, Nth;
      ghost var t := sent + [s];
      NthOrder(w, done, x, done, x);
      NthNext(w, done, x);
      RowAfter();
      sent := t;
      x := x + 1;
      if x >= w {
        x := 0;
        NextRow();
        done := done + 1;
      }
    }

    /** The rows behind the one that has been filled. */
    lemma RowAfter()
      requires Shaped() && Placed(|sent|) && done < h
      ensures var next := Settle(h, Cursor(row.y + row.step, row.step, row.parse));
        && next.step > 0 && Rows(h, next) == Order()[done + 1..] && (next.y < h <==> done + 1 < h)
        && (done + 1 < h ==> next.y == Order()[done + 1])
    {
      hide Order;
      var c := Cursor(row.y + row.step, row.step, row.parse);
      SettledRows(h, c);
      assert Order()[done..][1..] == Order()[done + 1..];
      assert Rows(h, row) == [row.y] + Rows(h, c);
      assert Rows(h, c) == Rows(h, row)[1..];
      SettledFirst(h, Settle(h, c));
    }

    /** stbi__out_gif_code: the string of a code, its first symbol first. */
    method OutCode(code: nat, ghost st: State)
      requires Shown() && IsString(st, code) && Rep(st, prefix[..], first[..], suffix[..])
      modifies `x, `row, `sent, `done, out
      ensures Shown() && sent == old(sent) + st.table[code]
      decreases code
    {
      assert Entry(st, prefix[..], first[..], suffix[..], code);
      ghost var s := st.table[code];
      if prefix[code] >= 0 {
        OutCode(prefix[code], st);
        assert s == s[..|s| - 1] + [s[|s| - 1]];
      } else {
        assert s == [s[0]];
      }
      Plot(suffix[code]);
    }

    // ---------------------------------------------------------------- reading bits

    /** stbi__get8; after the end of the data there are zeros. */
    method Get8() returns (b: nat)
      modifies `pos
      ensures b == ByteAt(data, old(pos)) && pos == old(pos) + 1
    {
      b := if pos < |data| then data[pos] else 0;
      pos := pos + 1;
    }

    ghost function Payload(): Bytes { Blocks(data, 1) }

    /** The position of the next bit. */
    ghost function Bit(): int
      reads `got, `validBits
    {
      8 * got - validBits
    }

    /** The buffer holds the next bits of the payload, and the rest of it is still to be read. */
    ghost predicate Reading()
      reads `pos, `bits, `validBits, `len, `got
    {
      && AllBytes(data) && AllBytes(Payload()) && got <= |Payload()| && validBits <= 8 * got
      && Payload()[got..] == Slice(data, pos, len) + Blocks(data, pos + len)
      && bits == ReadBits(Payload(), Bit(), validBits)
    }

    /** One more byte, from the next sub-block if need be; `more` is false at the end. */
    method Fetch() returns (more: bool)
      requires Reading()
      modifies `pos, `bits, `validBits, `len, `got
      ensures more ==> Reading() && got == old(got) + 1 && Bit() == old(Bit())
      ensures !more ==> old(got) == |Payload()|
    {
      hide ReadBits, StreamBit, Shl, Blocks, Slice, Payload, ByteAt;
      if len == 0 {
        more := NextBlock();
        if !more { return; }
      }
      SliceFirst(pos, len);
      FetchedBits(bits, validBits, got);
      ghost var rest := Payload()[got..];
      assert rest[0] == Payload()[got] && rest[1..] == Payload()[got + 1..];
      len := len - 1;
      var b := Get8();
      bits := bits + Shl(b, validBits);
      validBits := validBits + 8;
      got := got + 1;
      more := true;
    }

    /** The start of the next sub-block. */
    method NextBlock() returns (more: bool)
      requires Reading() && len == 0
      modifies `pos, `len
      ensures more ==> Reading() && len > 0
      ensures !more ==> got == |Payload()|
    {
      hide ReadBits, StreamBit, Shl, Blocks, Slice, Payload, ByteAt;
      BlockStarts(pos);
      len := Get8();
      more := len > 0;
    }

    lemma BlockStarts(p: nat)
      ensures Slice(data, p, 0) + Blocks(data, p) == if ByteAt(data, p) == 0 then [] else Slice(data, p + 1, ByteAt(data, p)) + Blocks(data, p + 1 + ByteAt(data, p))
    {}

    lemma SliceFirst(p: nat, n: nat)
      requires n > 0
      ensures var s := Slice(data, p, n) + Blocks(data, p + n);
        s[0] == ByteAt(data, p) && s[1..] == Slice(data, p + 1, n - 1) + Blocks(data, p + 1 + (n - 1))
    {
      hide Blocks;
      assert Slice(data, p, n)[1..] == Slice(data, p + 1, n - 1);
      assert Slice(data, p, n) == [ByteAt(data, p)] + Slice(data, p + 1, n - 1);
    }

    lemma FetchedBits(b: nat, n: nat, v: nat)
      requires AllBytes(Payload()) && v < |Payload()| && n <= 8 * v && b == ReadBits(Payload(), 8 * v - n, n)
      ensures ReadBits(Payload(), 8 * v - n, n + 8) == b + Shl(Payload()[v], n)
    {
      hide ReadBits, StreamBit, Shl, Blocks;
      ReadSplit(Payload(), 8 * v - n, n, 8);
      ReadByte(Payload(), v);
    }

    /** The next code. */
    method TakeCode() returns (code: nat)
      requires Reading() && codesize <= validBits
      modifies `bits, `validBits
      ensures Reading() && Bit() == old(Bit()) + codesize && code == ReadBits(Payload(), old(Bit()), codesize)
      ensures validBits == old(validBits) - codesize
    {
      hide ReadBits, StreamBit, Shl, Blocks, Low, Shr;
      ReadLow(Payload(), Bit(), validBits, codesize);
      ReadShr(Payload(), Bit(), validBits, codesize);
      code := Low(bits, codesize);
      bits := Shr(bits, codesize);
      validBits := validBits - codesize;
    }

    // ---------------------------------------------------------------- the table

    ghost predicate Coding()
      reads `lzwCs, `avail, `codesize, `oldcode, `cleared, `st, prefix, first, suffix
    {
      && Shaped() && Ok(st) && codesize > 0 && lzwCs == st.cs && avail == |st.table| && codesize == st.width && oldcode == st.last && cleared == st.started
      && Rep(st, prefix[..], first[..], suffix[..]) && Singles(lzwCs, prefix[..], first[..], suffix[..])
    }

    /** The loop that sets up the single symbols. */
    method StartTable(cs: nat)
      requires Shaped() && cs <= 12
      modifies prefix, first, suffix, `lzwCs, `avail, `codesize, `oldcode, `cleared, `st
      ensures Coding() && st == Initial(cs, false)
    {
      hide Initial;
      ClearSmall(cs);
      var clear := Shl(1, cs);
      hide Shl;
      for i := 0 to clear
        invariant forall k | 0 <= k < i :: prefix[k] == -1 && first[k] == k % 256 && suffix[k] == k % 256
      {
        prefix[i] := -1;
        first[i] := i % 256;
        suffix[i] := i % 256;
      }
      ClearTable(cs, false);
    }

    lemma ClearSmall(cs: nat)
      requires cs <= 12
      ensures Clear(cs) <= MAXCODES
    {
      ShlSeven(1);
      ShlGrows(cs, 12);
      ShlAdd(1, 7, 5);
      ShlAdd(0x80, 4, 1);
    }

    /** A clear code. */
    method ClearTable(cs: nat, started: bool)
      requires Shaped() && Singles(cs, prefix[..], first[..], suffix[..])
      modifies `lzwCs, `avail, `codesize, `oldcode, `cleared, `st
      ensures Coding() && st == Initial(cs, started)
    {
      RepInitial(cs, started, prefix[..], first[..], suffix[..]);
      lzwCs, avail, codesize, oldcode, cleared := cs, Shl(1, cs) + 2, cs + 1, -1, started;
      st := Initial(cs, started);
    }

    /** The entry for the code before and this one. */
    method AddEntry(code: nat)
      requires Coding() && oldcode >= 0 && avail < MAXCODES && (IsString(st, code) || code == avail)
      modifies prefix, first, suffix, `avail, `st
      ensures Coding() && st == old(st).(table := old(st).table + [NewString(old(st), code)])
      ensures codesize == old(codesize)
    {
      RepAdds(st, code, prefix[..], first[..], suffix[..]);
      hide Rep, Ok, IsString;
      ghost var st' := st.(table := st.table + [NewString(st, code)]);
      var p := avail;
      avail := avail + 1;
      prefix[p] := oldcode;
      first[p] := first[oldcode];
      var own, other := first[p], first[code];
      suffix[p] := if code == avail then own else other;
      st := st';
    }

    // ---------------------------------------------------------------- codes

    /** The string of a code is drawn, and the codes may get wider. */
    method DrawString(code: nat)
      requires Coding() && Shown() && IsString(st, code)
      modifies `codesize, `oldcode, `st, `x, `row, `sent, `done, out
      ensures Coding() && Shown() && st == Widened(old(st).(last := code)) && sent == old(sent) + old(st).table[code]
    {
      hide Shown, Rep, Singles, Ok, Low;
      OutCode(code, st);
      ghost var st' := Widened(st.(last := code));
      WidenedOk(st, code);
      RepSame(st, st', prefix[..], first[..], suffix[..]);
      if Low(avail, codesize) == 0 && avail <= 0x0fff {
        codesize := codesize + 1;
      }
      oldcode := code;
      st := st';
    }

    /** One code: cleared, finished, drawn, or an error. */
    method UseCode(code: nat) returns (v: Verdict)
      requires Coding() && Shown()
      modifies prefix, first, suffix, out, `avail, `codesize, `oldcode, `cleared, `lzwCs, `st, `x, `row, `sent, `done
      ensures Shown()
      ensures match Next(old(st), code)
        case Emit(s, next) => v == More && Coding() && st == next && sent == old(sent) + s
        case Restart(next) => v == More && Coding() && st == next && sent == old(sent)
        case Finish => v == Ends && sent == old(sent)
        case Bad => v == Fails && sent == old(sent)
    {
      hide Shown, Rep, Singles, Widened, Initial, NewString, Ok;
      var clear := Shl(1, lzwCs);
      if code == clear {
        ClearTable(lzwCs, true);
        v := More;
      } else if code == clear + 1 {
        v := Ends;
      } else if code > avail || !cleared {
        v := Fails;
      } else if oldcode < 0 {
        if code == avail { return Fails; }
        DrawString(code);
        v := More;
      } else if avail >= MAXCODES {
        v := Fails;
      } else {
        AddEntry(code);
        DrawString(code);
        v := More;
      }
    }

    lemma PayloadBytes()
      requires AllBytes(data)
      ensures AllBytes(Payload())
    {
      BlocksAreBytes(data, 1);
    }

    /** stbi__process_gif_raster: the picture of exactly the symbols that the specification
        gives, and an error in exactly the same cases. */
    method Process() returns (ok: bool)
      requires Shaped() && Shown() && sent == [] && pos == 0 && bits == 0 && validBits == 0 && len == 0 && got == 0
      modifies this, prefix, first, suffix, out
      ensures Shown()
      ensures ByteAt(data, 0) > 12 ==> !ok && sent == []
      ensures ByteAt(data, 0) <= 12 ==>
        var r := Raster(Payload(), 0, Initial(ByteAt(data, 0), false)); ok == r.ok && sent == r.out
    {
      hide Shown, Initial, Raster, Next, Payload, Ok, ReadBits, Rep, Singles;
      var cs := Get8();
      if cs > 12 { return false; }
      StartTable(cs);
      PayloadBytes();
      StartReading();
      ghost var all := Raster(Payload(), 0, st);
      ok := RasterLoop(all);
    }

    lemma StartReading()
      requires AllBytes(data) && AllBytes(Payload()) && pos == 1 && bits == 0 && validBits == 0 && len == 0 && got == 0
      ensures Reading()
    {
      hide Blocks;
      assert Slice(data, 1, 0) == [] && Payload()[0..] == Payload();
    }

    method RasterLoop(ghost all: Drawn) returns (ok: bool)
      requires Coding() && Shown() && Reading() && sent == [] && Ok(st) && Bit() == 0 && all == Raster(Payload(), 0, st)
      modifies this, prefix, first, suffix, out
      ensures Shown() && ok == all.ok && sent == all.out
    {
      hide Shown, Rep, Singles, Ok, Payload, Initial, ReadBits, Next, IsString, Blocks, Slice;
      while true
        invariant Coding() && Shown() && Reading() && Bit() >= 0
        invariant all == Drawn(sent + Raster(Payload(), Bit(), st).out, Raster(Payload(), Bit(), st).ok)
        decreases |Payload()| - got, validBits
      {
        if validBits < codesize {
          var more := Fetch();
          if !more {
            assert sent + [] == sent;
            return true;
          }
        } else {
          ghost var at, was, before := Bit(), sent, st;
          var code := TakeCode();
          var v := UseCode(code);
          RasterStep(Payload(), at, before, was);
          if v == Ends { return true; }
          if v == Fails { return false; }
        }
      }
    }
  }

  datatype Verdict = More | Ends | Fails

  /** One code of the specification's raster. */
  lemma RasterStep(d: Bytes, p: nat, st: State, was: Str)
    requires Ok(st) && p + st.width <= 8 * |d|
    ensures var r := Raster(d, p, st);
      match Next(st, ReadBits(d, p, st.width))
      case Emit(s, next) =>
        var more := Raster(d, p + st.width, next); r.ok == more.ok && was + r.out == was + s + more.out
      case Restart(next) => r == Raster(d, p + st.width, next)
      case Finish => r.ok && was + r.out == was
      case Bad => !r.ok && was + r.out == was
  {
    hide Next, Ok, ReadBits;
  }

  lemma WidenedOk(st: State, code: nat)
    requires Ok(st) && IsString(st, code)
    ensures Ok(Widened(st.(last := code)))
  {}

  lemma {:induction false} BlocksAreBytes(data: Bytes, p: nat)
    requires AllBytes(data)
    ensures AllBytes(Blocks(data, p))
    decreases |data| - p
  {
    if ByteAt(data, p) != 0 { BlocksAreBytes(data, p + 1 + ByteAt(data, p)); }
  }

  lemma {:induction false} ShlGrows(a: nat, b: nat)
    requires a <= b
    ensures Shl(1, a) <= Shl(1, b)
    decreases b
  {
    if a < b { ShlGrows(a, b - 1); }
  }
}
