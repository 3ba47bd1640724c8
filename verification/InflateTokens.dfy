/** What a block of compressed data means: the tokens of sections 3.2.4 and 3.2.5 of RFC 1951
    and their effect on the output. */
module InflateTokens {
  import opened Shifts
  import opened HuffmanCode
  import opened InflateBits

  /** stbi__zlength_base */
  function LengthBase(z: nat): nat {
    match z
    case 0 => 3 case 1 => 4 case 2 => 5 case 3 => 6 case 4 => 7 case 5 => 8
    case 6 => 9 case 7 => 10 case 8 => 11 case 9 => 13 case 10 => 15 case 11 => 17
    case 12 => 19 case 13 => 23 case 14 => 27 case 15 => 31 case 16 => 35 case 17 => 43
    case 18 => 51 case 19 => 59 case 20 => 67 case 21 => 83 case 22 => 99 case 23 => 115
    case 24 => 131 case 25 => 163 case 26 => 195 case 27 => 227 case 28 => 258 case _ => 0
  }

  /** stbi__zlength_extra */
  function LengthExtra(z: nat): nat {
    match z
    case 0 => 0 case 1 => 0 case 2 => 0 case 3 => 0 case 4 => 0 case 5 => 0
    case 6 => 0 case 7 => 0 case 8 => 1 case 9 => 1 case 10 => 1 case 11 => 1
    case 12 => 2 case 13 => 2 case 14 => 2 case 15 => 2 case 16 => 3 case 17 => 3
    case 18 => 3 case 19 => 3 case 20 => 4 case 21 => 4 case 22 => 4 case 23 => 4
    case 24 => 5 case 25 => 5 case 26 => 5 case 27 => 5 case _ => 0
  }

  /** stbi__zdist_base */
  function DistBase(z: nat): nat {
    match z
    case 0 => 1 case 1 => 2 case 2 => 3 case 3 => 4 case 4 => 5 case 5 => 7
    case 6 => 9 case 7 => 13 case 8 => 17 case 9 => 25 case 10 => 33 case 11 => 49
    case 12 => 65 case 13 => 97 case 14 => 129 case 15 => 193 case 16 => 257 case 17 => 385
    case 18 => 513 case 19 => 769 case 20 => 1025 case 21 => 1537 case 22 => 2049 case 23 => 3073
    case 24 => 4097 case 25 => 6145 case 26 => 8193 case 27 => 12289 case 28 => 16385 case 29 => 24577
    case _ => 0
  }

  /** stbi__zdist_extra */
  function DistExtra(z: nat): nat {
    match z
    case 0 => 0 case 1 => 0 case 2 => 0 case 3 => 0 case 4 => 1 case 5 => 1
    case 6 => 2 case 7 => 2 case 8 => 3 case 9 => 3 case 10 => 4 case 11 => 4
    case 12 => 5 case 13 => 5 case 14 => 6 case 15 => 6 case 16 => 7 case 17 => 7
    case 18 => 8 case 19 => 8 case 20 => 9 case 21 => 9 case 22 => 10 case 23 => 10
    case 24 => 11 case 25 => 11 case 26 => 12 case 27 => 12 case 28 => 13 case 29 => 13
    case _ => 0
  }

  /** How RFC 1951 lays out the lengths: after the first eight, groups of four codes with one
      more extra bit in each group, without gaps; the last code stands for 258 alone. */
  function ExtraBitsOfLength(i: nat): nat { if i < 8 || i >= 28 then 0 else i / 4 - 1 }

  function LengthStart(i: nat): (n: nat)
    ensures n >= 3
  {
    if i < 8 then 3 + i else if i >= 28 then 258 else 3 + Shl(4 + i % 4, i / 4 - 1)
  }

  /** The distances: after the first four, groups of two codes. */
  function ExtraBitsOfDist(i: nat): nat { if i < 4 then 0 else i / 2 - 1 }

  function DistStart(i: nat): (n: nat)
    ensures n > 0
  {
    if i < 4 then 1 + i else 1 + Shl(2 + i % 2, i / 2 - 1)
  }

  /** The ranges of consecutive lengths meet; only 258 can be coded in two ways. */
  lemma LengthsGapless(i: nat)
    requires i < 27
    ensures LengthStart(i) + Shl(1, ExtraBitsOfLength(i)) == LengthStart(i + 1)
  {
    var q, r := i / 4, i % 4;
    assert (i + 1) / 4 == (if r == 3 then q + 1 else q) && (i + 1) % 4 == if r == 3 then 0 else r + 1;
    if i >= 8 {
      Consecutive(4 + r, q - 1);
      Consecutive(4, q - 1);
    }
  }

  lemma DistancesGapless(i: nat)
    ensures DistStart(i) + Shl(1, ExtraBitsOfDist(i)) == DistStart(i + 1)
  {
    var q, r := i / 2, i % 2;
    assert (i + 1) / 2 == (if r == 1 then q + 1 else q) && (i + 1) % 2 == if r == 1 then 0 else 1;
    if i >= 4 {
      Consecutive(2 + r, q - 1);
      Consecutive(2, q - 1);
    }
  }

  /** Every length from 3 to 258 can be sent, and so can every distance up to 32768. */
  lemma EveryLength(n: nat) returns (i: nat)
    requires 3 <= n <= 258
    ensures i <= 28 && LengthStart(i) <= n < LengthStart(i) + Shl(1, ExtraBitsOfLength(i))
  {
    hide LengthStart, ExtraBitsOfLength, Shl;
    LengthTable(27);
    FirstRows();
    PowerIs(5);
    i := LengthBelow(n, 27);
  }

  lemma {:induction false} LengthBelow(n: nat, j: nat) returns (i: nat)
    requires j <= 27 && 3 <= n < LengthStart(j) + Shl(1, ExtraBitsOfLength(j))
    ensures i <= 27 && LengthStart(i) <= n < LengthStart(i) + Shl(1, ExtraBitsOfLength(i))
  {
    hide LengthStart, ExtraBitsOfLength, Shl;
    i := j;
    if n < LengthStart(j) {
      FirstStarts();
      LengthsGapless(j - 1);
      i := LengthBelow(n, j - 1);
    }
  }

  lemma FirstStarts()
    ensures LengthStart(0) == 3 && DistStart(0) == 1
  {}

  lemma EveryDistance(n: nat) returns (i: nat)
    requires 1 <= n <= 32768
    ensures i <= 29 && DistStart(i) <= n < DistStart(i) + Shl(1, ExtraBitsOfDist(i))
  {
    hide DistStart, ExtraBitsOfDist, Shl;
    DistTable(29);
    FirstRows();
    PowerIs(13);
    i := DistBelow(n, 29);
  }

  lemma {:induction false} DistBelow(n: nat, j: nat) returns (i: nat)
    requires j <= 29 && 1 <= n < DistStart(j) + Shl(1, ExtraBitsOfDist(j))
    ensures i <= 29 && DistStart(i) <= n < DistStart(i) + Shl(1, ExtraBitsOfDist(i))
  {
    hide DistStart, ExtraBitsOfDist, Shl;
    i := j;
    if n < DistStart(j) {
      FirstStarts();
      DistancesGapless(j - 1);
      i := DistBelow(n, j - 1);
    }
  }

  lemma Consecutive(q: nat, e: nat)
    ensures Shl(q, e) + Shl(1, e) == Shl(q + 1, e) && Shl(2 * q, e) == Shl(q, e + 1)
  {
    ShlSum(q, 1, e);
    ShlDouble(q, e);
  }

  function Power(e: nat): nat {
    match e
    case 0 => 1 case 1 => 2 case 2 => 4 case 3 => 8 case 4 => 16 case 5 => 32 case 6 => 64
    case 7 => 128 case 8 => 256 case 9 => 512 case 10 => 1024 case 11 => 2048 case 12 => 4096
    case 13 => 8192 case _ => 0
  }

  lemma {:induction false} PowerIs(e: nat)
    requires e <= 13
    ensures Power(e) == Shl(1, e)
  {
    if e > 0 { PowerIs(e - 1); }
  }

  lemma LengthRow(i: nat)
    requires i <= 28
    ensures LengthExtra(i) == ExtraBitsOfLength(i) <= 5 && (i < 27 ==> LengthBase(i + 1) == LengthBase(i) + Power(LengthExtra(i)))
  {}

  /** The tables are those of RFC 1951: each range starts where the one before it ends. */
  lemma {:induction false} LengthTable(i: nat)
    requires i <= 28
    ensures LengthExtra(i) == ExtraBitsOfLength(i) && LengthBase(i) == LengthStart(i)
  {
    hide LengthStart, ExtraBitsOfLength, LengthBase, LengthExtra, Shl, Power;
    LengthRow(i);
    FirstRows();
    if 0 < i < 28 {
      LengthTable(i - 1);
      LengthRow(i - 1);
      LengthsGapless(i - 1);
      PowerIs(LengthExtra(i - 1));
    }
  }

  lemma FirstRows()
    ensures LengthStart(0) == LengthBase(0) && LengthStart(28) == LengthBase(28) && DistStart(0) == DistBase(0)
    ensures LengthBase(27) == 227 && LengthExtra(27) == 5 && DistBase(29) == 24577 && DistExtra(29) == 13
  {}

  lemma DistRow(i: nat)
    requires i <= 29
    ensures DistExtra(i) == ExtraBitsOfDist(i) <= 13 && (i < 29 ==> DistBase(i + 1) == DistBase(i) + Power(DistExtra(i)))
  {}

  lemma {:induction false} DistTable(i: nat)
    requires i <= 29
    ensures DistExtra(i) == ExtraBitsOfDist(i) && DistBase(i) == DistStart(i)
  {
    hide DistStart, ExtraBitsOfDist, DistBase, DistExtra, Shl, Power;
    DistRow(i);
    FirstRows();
    if i > 0 {
      DistTable(i - 1);
      DistRow(i - 1);
      DistancesGapless(i - 1);
      PowerIs(DistExtra(i - 1));
    }
  }

  // ---------------------------------------------------------------- LZ77

  /** `len` bytes copied from `dist` bytes back, one after the other: the copy may overlap
      what it produces. */
  function Expand(out: seq<nat>, dist: nat, len: nat): (r: seq<nat>)
    requires 0 < dist <= |out|
    ensures |r| == |out| + len && r[..|out|] == out
  {
    if len == 0 then out else var e := Expand(out, dist, len - 1); e + [e[|e| - dist]]
  }

  /** The copy repeats the last `dist` bytes. */
  lemma {:induction false} ExpandPeriodic(out: seq<nat>, dist: nat, len: nat, i: nat)
    requires 0 < dist <= |out| && |out| <= i < |out| + len
    ensures Expand(out, dist, len)[i] == Expand(out, dist, len)[i - dist]
    decreases len
  {
    if i < |out| + len - 1 { ExpandPeriodic(out, dist, len - 1, i); }
  }

  /** k modulo d */
  function Phase(k: nat, d: nat): (m: nat)
    requires d > 0
    ensures m < d
    decreases k
  {
    if k < d then k else Phase(k - d, d)
  }

  /** It is the last `dist` bytes over and over, however they overlap. */
  lemma {:induction false} ExpandRepeats(out: seq<nat>, dist: nat, len: nat, k: nat)
    requires 0 < dist <= |out| && k < len
    ensures Expand(out, dist, len)[|out| + k] == out[|out| - dist + Phase(k, dist)]
    decreases k
  {
    hide Expand;
    var e := Expand(out, dist, len);
    ExpandPeriodic(out, dist, len, |out| + k);
    if k >= dist {
      ExpandRepeats(out, dist, len, k - dist);
    } else {
      assert e[..|out|][|out| + k - dist] == e[|out| + k - dist];
    }
  }

  /** With distance one, a run of the last byte. */
  lemma {:induction false} ExpandRun(out: seq<nat>, len: nat)
    requires |out| > 0
    ensures var r := Expand(out, 1, len); r[|r| - 1] == out[|out| - 1]
  {
    if len > 0 { ExpandRun(out, len - 1); }
  }

  // ---------------------------------------------------------------- tokens

  datatype Token = Literal(b: nat) | EndOfBlock | Match(len: nat, dist: nat) | NoCode | Reserved

  datatype Read = Read(token: Token, at: nat)

  datatype Outcome = Done(at: nat, out: seq<nat>) | Corrupt | Unfinished(at: nat, out: seq<nat>) | Undefined

  /** The symbol whose codeword comes next, or |L| if there is none. */
  ghost function Symbol(L: Lengths, data: Bytes, p: nat): (sym: nat)
    ensures sym < |L| ==> Coded(L, data, p, sym)
    ensures sym >= |L| ==> forall s: nat :: !Coded(L, data, p, s)
  {
    if exists s: nat :: Coded(L, data, p, s) then
      var s: nat :| Coded(L, data, p, s);
      s
    else |L|
  }

  /** The next token, with the length codes `L` and the distance codes `D`. */
  ghost function NextToken(L: Lengths, D: Lengths, data: Bytes, p: nat): Read {
    var sym := Symbol(L, data, p);
    if sym >= |L| then Read(NoCode, p)
    else
      var p1 := p + L[sym];
      if sym < 256 then Read(Literal(sym), p1)
      else if sym == 256 then Read(EndOfBlock, p1)
      else if sym > 285 then Read(Reserved, p1)
      else MatchToken(D, data, p1, sym - 257)
  }

  ghost function MatchToken(D: Lengths, data: Bytes, p: nat, i: nat): Read
    requires i <= 28
  {
    var len := LengthStart(i) + ReadBits(data, p, ExtraBitsOfLength(i));
    var p1 := p + ExtraBitsOfLength(i);
    var d := Symbol(D, data, p1);
    if d >= |D| then Read(NoCode, p1)
    else
      var p2 := p1 + D[d];
      if d > 29 then Read(Reserved, p2)
      else Read(Match(len, DistStart(d) + ReadBits(data, p2, ExtraBitsOfDist(d))), p2 + ExtraBitsOfDist(d))
  }

  /** The effect of at most `n` tokens. */
  ghost function Tokens(L: Lengths, D: Lengths, data: Bytes, p: nat, out: seq<nat>, n: nat): Outcome
    decreases n
  {
    if n == 0 then Unfinished(p, out)
    else
      var r := NextToken(L, D, data, p);
      match r.token
      case Literal(b) => Tokens(L, D, data, r.at, out + [b], n - 1)
      case EndOfBlock => Done(r.at, out)
      case Match(len, dist) => if dist == 0 || dist > |out| then Corrupt else Tokens(L, D, data, r.at, Expand(out, dist, len), n - 1)
      case NoCode => Corrupt
      case Reserved => Undefined
  }

  /** Once a block has ended, more tokens do not matter. */
  lemma {:induction false} TokensEnough(L: Lengths, D: Lengths, data: Bytes, p: nat, out: seq<nat>, n: nat, m: nat)
    requires n <= m && !Tokens(L, D, data, p, out, n).Unfinished?
    ensures Tokens(L, D, data, p, out, m) == Tokens(L, D, data, p, out, n)
    decreases n
  {
    hide Symbol;
    if n > 0 {
      var r := NextToken(L, D, data, p);
      if r.token.Literal? {
        TokensEnough(L, D, data, r.at, out + [r.token.b], n - 1, m - 1);
      } else if r.token.Match? && 0 < r.token.dist <= |out| {
        TokensEnough(L, D, data, r.at, Expand(out, r.token.dist, r.token.len), n - 1, m - 1);
      }
    }
  }

  /** Every token adds to the output: a buffer of fixed size is full, or the block has ended,
      after as many tokens as it has bytes. */
  lemma {:induction false} TokensGrow(L: Lengths, D: Lengths, data: Bytes, p: nat, out: seq<nat>, n: nat)
    ensures var o := Tokens(L, D, data, p, out, n); o.Unfinished? ==> |o.out| >= |out| + n
    decreases n
  {
    if n > 0 {
      var r := NextToken(L, D, data, p);
      if r.token.Literal? {
        TokensGrow(L, D, data, r.at, out + [r.token.b], n - 1);
      } else if r.token.Match? && 0 < r.token.dist <= |out| {
        assert r.token.len >= 3;
        TokensGrow(L, D, data, r.at, Expand(out, r.token.dist, r.token.len), n - 1);
      }
    }
  }

  // ---------------------------------------------------------------- stored blocks

  /** The next byte boundary. */
  function AlignUp8(p: nat): nat { (p + 7) / 8 * 8 }

  /** A stored block: LEN, its complement, and that many bytes. */
  function Stored(data: Bytes, p: nat, out: seq<nat>): Outcome {
    var q := AlignUp8(p) / 8;
    var len, nlen := ByteAt(data, q) + 256 * ByteAt(data, q + 1), ByteAt(data, q + 2) + 256 * ByteAt(data, q + 3);
    if len + nlen != 0xFFFF || q + 4 + len > |data| then Corrupt
    else Done(8 * (q + 4 + len), out + data[q + 4..q + 4 + len])
  }
}
