/** Compressors of Appendix F of the GIF89a specification, and what the decoder makes of what
    they write. */
module GifCompress {
  import opened Shifts
  import opened InflateBits
  import opened BitWriter
  import opened GifLzw

  // ---------------------------------------------------------------- the compressor

  /** The width after a code has been sent: codes get wider when the number of the entry that
      comes next no longer fits. */
  function Wider(st: State): nat {
    if |st.table| < MAXCODES && |st.table| >= Shl(1, st.width) then st.width + 1 else st.width
  }

  /** The compressor after it has sent `code` for the beginning of `s`: the string with the
      symbol behind it joins the table, unless the table is full. */
  function Sent(st: State, code: nat, s: Str): State
    requires IsString(st, code)
  {
    var t, next := st.table[code], st.(last := code, width := Wider(st));
    if |t| < |s| && |st.table| < MAXCODES then next.(table := st.table + [t + [s[|t|]]]) else next
  }

  /** `codes` may be what a compressor sends for `s`: each code stands for a prefix of what is
      left. The table is cleared whenever the compressor likes, and the end code comes last. */
  ghost predicate Compresses(st: State, s: Str, codes: seq<nat>)
    requires Ok(st)
    decreases |codes|
  {
    if codes == [] then s == []
    else if codes[0] == Clear(st.cs) then Compresses(Initial(st.cs, true), s, codes[1..])
    else if codes[0] == Clear(st.cs) + 1 then s == [] && codes[1..] == []
    else
      && IsString(st, codes[0]) && st.started && st.table[codes[0]] <= s
      && Compresses(Sent(st, codes[0], s), s[|st.table[codes[0]]|..], codes[1..])
  }

  // ---------------------------------------------------------------- codes

  /** No string code comes when the decoder's table is full: `n` string codes have come since the
      last clear code, and all but the first have added an entry. */
  predicate Fits(cs: nat, n: nat, codes: seq<nat>)
    decreases |codes|
  {
    if codes == [] then true
    else if codes[0] == Clear(cs) then Fits(cs, 0, codes[1..])
    else if codes[0] == Clear(cs) + 1 then true
    else (n == 0 || Clear(cs) + n + 1 < MAXCODES) && Fits(cs, n + 1, codes[1..])
  }

  /** The decoder is one string behind the compressor, until both tables are full. */
  ghost predicate Behind(st: State, cst: State, s: Str, n: nat)
    requires Ok(st) && Ok(cst)
  {
    && st.cs == cst.cs && st.last == cst.last && st.started == cst.started
    && (n == 0 <==> st.last == -1) && |st.table| == Clear(st.cs) + 2 + (if n == 0 then 0 else n - 1)
    && if n == 0 then st.table == cst.table
       else s != [] ==> cst.table == if |st.table| < MAXCODES then st.table + [st.table[st.last] + [s[0]]] else st.table
  }

  lemma SentOk(st: State, code: nat, s: Str)
    requires Ok(st) && IsString(st, code)
    ensures Ok(Sent(st, code, s)) && Sent(st, code, s).cs == st.cs
  {}

  /** Whatever a compressor makes of a text, the decoder gives back the text if no string code
      comes when its table is full, and otherwise fails behind a prefix of the text. */
  lemma {:induction false} Decompresses(st: State, cst: State, s: Str, codes: seq<nat>, n: nat)
    requires Ok(st) && Ok(cst) && Compresses(cst, s, codes) && Behind(st, cst, s, n)
    ensures var r := Decoded(st, codes); (r.ok <==> Fits(st.cs, n, codes)) && r.out <= s && (r.ok ==> r.out == s)
    decreases |codes|
  {
    hide Ok, Initial, Sent, Next, Clear, Behind;
    BehindSame(st, cst, s, n);
    if codes != [] {
      if codes[0] == Clear(st.cs) {
        Restarts(st, s);
        Decompresses(Initial(st.cs, true), Initial(st.cs, true), s, codes[1..], 0);
      } else if codes[0] == Clear(st.cs) + 1 {
        Finishes(st);
      } else {
        if n == 0 || Clear(st.cs) + n + 1 < MAXCODES {
          var c, t := codes[0], cst.table[codes[0]];
          SameString(st, cst, s, c, n);
          Decompresses(Next(st, c).next, Sent(cst, c, s), s[|t|..], codes[1..], n + 1);
          PrefixAgain(s, t, Decoded(Next(st, c).next, codes[1..]).out);
        } else {
          FullRefuses(st, cst, s, codes[0], n);
        }
      }
    }
  }

  lemma PrefixAgain(s: Str, t: Str, more: Str)
    requires t <= s && more <= s[|t|..]
    ensures t + more <= s && (more == s[|t|..] ==> t + more == s)
  {
    assert s == t + s[|t|..];
  }

  lemma Restarts(st: State, s: Str)
    requires Ok(st)
    ensures var first := Initial(st.cs, true); Ok(first) && first.cs == st.cs && Behind(first, first, s, 0)
    ensures Next(st, Clear(st.cs)) == Restart(Initial(st.cs, true))
  {}

  lemma Finishes(st: State)
    requires Ok(st)
    ensures Next(st, Clear(st.cs) + 1) == Finish
  {}

  lemma BehindSame(st: State, cst: State, s: Str, n: nat)
    requires Ok(st) && Ok(cst) && Behind(st, cst, s, n)
    ensures st.cs == cst.cs
  {}

  /** The code is known to the decoder, or is the one string that is missing. */
  lemma SameString(st: State, cst: State, s: Str, c: nat, n: nat)
    requires Ok(st) && Ok(cst) && Behind(st, cst, s, n) && IsString(cst, c) && cst.started && cst.table[c] <= s
    requires n == 0 || Clear(st.cs) + n + 1 < MAXCODES
    ensures Next(st, c).Emit? && Next(st, c).s == cst.table[c] && Ok(Sent(cst, c, s))
    ensures Behind(Next(st, c).next, Sent(cst, c, s), s[|cst.table[c]|..], n + 1)
    ensures Next(st, c).next.table == cst.table && Next(st, c).next.width == Widened(st.(table := cst.table)).width
  {
    SentOk(cst, c, s);
    var t := cst.table[c];
    assert t != [] && s[0] == t[0];
    if n > 0 {
      assert NewString(st, c) == st.table[st.last] + [s[0]];
    }
  }

  /** A full table takes no string code; the decoder fails at once. */
  lemma FullRefuses(st: State, cst: State, s: Str, c: nat, n: nat)
    requires Ok(st) && Ok(cst) && Behind(st, cst, s, n) && IsString(cst, c) && cst.started && cst.table[c] <= s
    requires n > 0 && Clear(st.cs) + n + 1 >= MAXCODES
    ensures Next(st, c) == Bad
  {
    assert cst.table[c] != [];
  }

  // ---------------------------------------------------------------- the first failing input

  function Zeros(n: nat): (s: seq<nat>)
    ensures |s| == n
  {
    seq<nat>(n, _ => 0)
  }

  lemma ZerosRest(n: nat)
    requires n > 0
    ensures Zeros(n)[0] == 0 && Zeros(n)[1..] == Zeros(n - 1) && [0] <= Zeros(n)
  {}

  /** A row of zeros, one code for each, without a clear code in between. */
  function Plain(cs: nat, n: nat): seq<nat> { [Clear(cs)] + Zeros(n) }

  /** It is what a compressor may write, and the decoder gives up at the code that would be the
      first one without room: with eight bits it is number 3840. */
  lemma PlainFails(cs: nat, n: nat)
    ensures Compresses(Initial(cs, false), Zeros(n), Plain(cs, n))
    ensures Decoded(Initial(cs, false), Plain(cs, n)) == Drawn(Zeros(n), true) <==> n <= 1 || Clear(cs) + n < MAXCODES
    ensures Clear(8) + 3840 == MAXCODES
  {
    var first := Initial(cs, true);
    ClearPositive(cs);
    assert Plain(cs, n)[1..] == Zeros(n);
    ZerosCompress(first, n);
    ZerosFit(cs, 0, n);
    var cst := Initial(cs, false);
    Decompresses(cst, cst, Zeros(n), Plain(cs, n), 0);
    assert Clear(8) == 256 by { ShlSeven(1); }
  }

  lemma {:induction false} ClearPositive(cs: nat)
    ensures Clear(cs) > 0
  {
    if cs > 0 { ClearPositive(cs - 1); }
  }

  lemma {:induction false} ZerosCompress(st: State, n: nat)
    requires Ok(st) && st.started && Clear(st.cs) > 0 && st.table[0] == [0]
    ensures Compresses(st, Zeros(n), Zeros(n))
    decreases n
  {
    if n > 0 {
      ZerosRest(n);
      SentOk(st, 0, Zeros(n));
      SentFirst(st, Zeros(n));
      ZerosCompress(Sent(st, 0, Zeros(n)), n - 1);
    }
  }

  lemma SentFirst(st: State, s: Str)
    requires Ok(st) && IsString(st, 0) && st.table[0] == [0]
    ensures var next := Sent(st, 0, s); next.started == st.started && next.table[0] == [0]
  {}

  lemma {:induction false} ZerosFit(cs: nat, k: nat, n: nat)
    requires Clear(cs) > 0
    ensures Fits(cs, k, Zeros(n)) <==> n == 0 || k + n <= 1 || Clear(cs) + k + n < MAXCODES
    decreases n
  {
    if n > 0 {
      ZerosRest(n);
      ZerosFit(cs, k + 1, n - 1);
    }
  }

  // ---------------------------------------------------------------- bits

  /** A list of codes in a bit stream, each with the width the compressor has at that time. */
  ghost predicate Packed(d: Bytes, p: nat, st: State, s: Str, codes: seq<nat>)
    requires Ok(st) && Compresses(st, s, codes)
    decreases |codes|
  {
    if codes == [] then p + st.width > 8 * |d|
    else
      && p + st.width <= 8 * |d| && ReadBits(d, p, st.width) == codes[0]
      && if codes[0] == Clear(st.cs) then Packed(d, p + st.width, Initial(st.cs, true), s, codes[1..])
         else if codes[0] == Clear(st.cs) + 1 then true
         else Packed(d, p + st.width, Sent(st, codes[0], s), s[|st.table[codes[0]]|..], codes[1..])
  }

  /** Both sides use the same width, and it is enough for every code there is. */
  ghost predicate SameWidth(st: State, cst: State) {
    st.width == cst.width && |cst.table| <= Shl(1, cst.width)
  }

  lemma {:induction false} LowZero(x: nat, n: nat)
    requires 0 < x <= Shl(1, n)
    ensures Low(x, n) == 0 <==> x == Shl(1, n)
    decreases n
  {
    if n > 0 { LowZero((x + 1) / 2, n - 1); LowOdd(x, n); }
  }

  lemma LowOdd(x: nat, n: nat)
    requires n > 0
    ensures x % 2 == 1 ==> Low(x, n) != 0
  {}

  lemma WidthsAgree(st: State, cst: State, s: Str, c: nat)
    requires Ok(cst) && IsString(cst, c) && SameWidth(st, cst)
    ensures SameWidth(Widened(st.(table := cst.table)), Sent(cst, c, s))
  {
    LowZero(|cst.table|, cst.width);
  }

  /** Appendix F demands at least two bits for a symbol. With none the two sides disagree. */
  lemma FirstWidths(cs: nat)
    ensures cs >= 1 <==> SameWidth(Initial(cs, true), Initial(cs, true))
  {
    if cs >= 1 { ClearPositive(cs - 1); }
  }

  /** With the widths of the compressor the decoder reads the codes that were sent. */
  lemma {:induction false} PackedRaster(d: Bytes, p: nat, st: State, cst: State, s: Str, codes: seq<nat>, n: nat)
    requires Ok(st) && Ok(cst) && Compresses(cst, s, codes) && Behind(st, cst, s, n) && SameWidth(st, cst) && st.cs >= 1
    requires Packed(d, p, cst, s, codes)
    ensures Raster(d, p, st) == Decoded(st, codes)
    decreases |codes|
  {
    hide Ok, Initial, Sent, Next, Clear, Behind, Shl, ReadBits;
    BehindSame(st, cst, s, n);
    if codes != [] {
      if codes[0] == Clear(st.cs) {
        var first := Initial(st.cs, true);
        Restarts(st, s);
        FirstWidths(st.cs);
        PackedRaster(d, p + st.width, first, first, s, codes[1..], 0);
      } else if codes[0] == Clear(st.cs) + 1 {
        Finishes(st);
      } else {
        if n == 0 || Clear(st.cs) + n + 1 < MAXCODES {
          var c := codes[0];
          SameString(st, cst, s, c, n);
          WidthsAgree(st, cst, s, c);
          PackedRaster(d, p + st.width, Next(st, c).next, Sent(cst, c, s), s[|cst.table[c]|..], codes[1..], n + 1);
        } else {
          FullRefuses(st, cst, s, codes[0], n);
        }
      }
    }
  }

  // ---------------------------------------------------------------- writing the bits

  /** The bits a compressor writes. */
  ghost function Written(st: State, s: Str, codes: seq<nat>): (b: seq<nat>)
    requires Ok(st) && Compresses(st, s, codes)
    ensures forall i | 0 <= i < |b| :: b[i] < 2
    decreases |codes|
  {
    if codes == [] then []
    else
      BitsOf(codes[0], st.width) +
      if codes[0] == Clear(st.cs) then Written(Initial(st.cs, true), s, codes[1..])
      else if codes[0] == Clear(st.cs) + 1 then []
      else Written(Sent(st, codes[0], s), s[|st.table[codes[0]]|..], codes[1..])
  }

  /** The end code has been sent. */
  predicate Ends(cs: nat, codes: seq<nat>) { codes != [] && codes[|codes| - 1] == Clear(cs) + 1 }

  lemma {:induction false} WrittenPacked(b: seq<nat>, p: nat, st: State, s: Str, codes: seq<nat>)
    requires Ok(st) && Compresses(st, s, codes) && Ends(st.cs, codes) && st.cs >= 1 && SameWidth(st, st)
    requires p <= |b| && b[p..] == Written(st, s, codes)
    ensures Packed(Bytewise(b), p, st, s, codes)
    decreases |codes|
  {
    hide Ok, Initial, Sent, Clear, Shl, ReadBits, Bytewise, BitsOf, SameWidth;
    var c, w := codes[0], st.width;
    WrittenCode(b, p, st, s, codes);
    if c == Clear(st.cs) {
      Restarts(st, s);
      FirstWidths(st.cs);
      WrittenPacked(b, p + w, Initial(st.cs, true), s, codes[1..]);
    } else if c != Clear(st.cs) + 1 {
      SentOk(st, c, s);
      WidthsAgree(st, st, s, c);
      SameWidths(Widened(st), Sent(st, c, s));
      WrittenPacked(b, p + w, Sent(st, c, s), s[|st.table[c]|..], codes[1..]);
    }
  }

  lemma SameWidths(st: State, cst: State)
    requires SameWidth(st, cst)
    ensures SameWidth(cst, cst)
  {}

  /** The first code, and what comes behind it. */
  lemma WrittenCode(b: seq<nat>, p: nat, st: State, s: Str, codes: seq<nat>)
    requires Ok(st) && Compresses(st, s, codes) && codes != [] && SameWidth(st, st)
    requires p <= |b| && b[p..] == Written(st, s, codes)
    ensures var d, c, w := Bytewise(b), codes[0], st.width;
      p + w <= |b| <= 8 * |d| && ReadBits(d, p, w) == c && b[p + w..] == Written(st, s, codes)[w..]
  {
    hide Initial, Sent, Clear, Shl, ReadBits, StreamBit, Ok;
    var d, c, w := Bytewise(b), codes[0], st.width;
    assert b[p + w..] == b[p..][w..];
    CodeFits(st, c);
    forall i | p <= i < p + w
      ensures StreamBit(d, i) == BitsOf(c, w)[i - p]
    {
      BytewiseBit(b, i);
      assert b[i] == b[p..][i - p];
    }
    ReadsCode(d, p, c, w);
  }

  lemma CodeFits(st: State, c: nat)
    requires Ok(st) && |st.table| <= Shl(1, st.width) && (IsString(st, c) || c == Clear(st.cs) || c == Clear(st.cs) + 1)
    ensures c < Shl(1, st.width)
  {}

  /** From a text to bytes and back: what any compressor of Appendix F writes, bit by bit, the
      decoder turns into the text, if and only if no code comes when its table is full. */
  lemma RoundTrip(cs: nat, s: Str, codes: seq<nat>)
    requires cs >= 1 && Compresses(Initial(cs, false), s, codes) && Ends(cs, codes)
    ensures var d := Bytewise(Written(Initial(cs, false), s, codes));
      && AllBytes(d)
      && (Raster(d, 0, Initial(cs, false)) == Drawn(s, true) <==> Fits(cs, 0, codes))
      && (!Fits(cs, 0, codes) ==> !Raster(d, 0, Initial(cs, false)).ok)
  {
    var st := Initial(cs, false);
    var b := Written(st, s, codes);
    FirstWidths(cs);
    assert b[0..] == b;
    WrittenPacked(b, 0, st, s, codes);
    PackedRaster(Bytewise(b), 0, st, st, s, codes, 0);
    Decompresses(st, st, s, codes, 0);
    BytewiseBytes(b);
  }
}
