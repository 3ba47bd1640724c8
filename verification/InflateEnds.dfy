/** When a block of compressed data comes to its end. The stream goes on with zeros behind the
    data, so that a block may go on for ever. */
module InflateEnds {
  import opened HuffmanCode
  import opened InflateBits
  import opened InflateTokens

  // ---------------------------------------------------------------- zeros behind the data

  lemma {:induction false} SameZeros(data: Bytes, p: nat, n: nat)
    requires p >= 8 * |data|
    ensures ReadBits(data, p, n) == 0 && CodeBits(data, p, n) == 0
    decreases n
  {
    if n > 0 {
      SameZeros(data, p + 1, n - 1);
      SameZeros(data, p, n - 1);
    }
  }

  lemma SameSymbol(L: Lengths, data: Bytes, p: nat, q: nat)
    requires p >= 8 * |data|
    ensures Symbol(L, data, p) == Symbol(L, [], q) || (Symbol(L, data, p) >= |L| && Symbol(L, [], q) >= |L|)
  {
    forall s: nat
      ensures Coded(L, data, p, s) <==> Coded(L, [], q, s)
    {
      if s < |L| {
        SameZeros(data, p, L[s]);
        SameZeros([], q, L[s]);
      }
    }
    var s := Symbol(L, data, p);
    if s < |L| { CodedUnique(L, [], q, s, Symbol(L, [], q)); }
  }

  /** Every symbol has at least one bit. */
  lemma SymbolMoves(L: Lengths, data: Bytes, p: nat)
    ensures var s := Symbol(L, data, p); s < |L| ==> L[s] > 0
  {}

  // ---------------------------------------------------------------- tokens

  lemma TokenMoves(L: Lengths, D: Lengths, data: Bytes, p: nat)
    ensures var r := NextToken(L, D, data, p); r.token.Literal? || r.token.Match? ==> r.at > p
  {
    hide Coded, ReadBits;
    SymbolMoves(L, data, p);
  }

  /** All tokens behind the end are the same. */
  lemma SameToken(L: Lengths, D: Lengths, data: Bytes, p: nat)
    requires p >= 8 * |data|
    ensures NextToken(L, D, data, p).token == NextToken(L, D, [], 0).token
  {
    hide Coded, ReadBits, LengthStart, ExtraBitsOfLength, DistStart, ExtraBitsOfDist, Symbol, CodeBits;
    SameSymbol(L, data, p, 0);
    var sym := Symbol(L, data, p);
    if 256 < sym < |L| && sym <= 285 {
      var i := sym - 257;
      var q, q0 := p + L[sym], 0 + L[sym];
      var e := ExtraBitsOfLength(i);
      SameZeros(data, q, e);
      SameZeros([], q0, e);
      SameSymbol(D, data, q + e, q0 + e);
      var d := Symbol(D, data, q + e);
      if d < |D| {
        SameZeros(data, q + e + D[d], ExtraBitsOfDist(d));
        SameZeros([], q0 + e + D[d], ExtraBitsOfDist(d));
      }
    }
  }

  /** The token that zeros stand for can follow any output of at least `size` bytes. */
  ghost predicate Endless(L: Lengths, D: Lengths, size: nat) {
    match NextToken(L, D, [], 0).token
    case Literal(_) => true
    case Match(_, dist) => 0 < dist <= size
    case _ => false
  }

  /** A token, and the others behind it. */
  lemma {:induction false} TokensSplit(L: Lengths, D: Lengths, data: Bytes, p: nat, out: seq<nat>, n: nat, m: nat)
    requires Tokens(L, D, data, p, out, n).Unfinished?
    ensures var o := Tokens(L, D, data, p, out, n); Tokens(L, D, data, p, out, n + m) == Tokens(L, D, data, o.at, o.out, m)
    decreases n
  {
    hide NextToken, Expand;
    if n > 0 {
      var r := NextToken(L, D, data, p);
      if r.token.Literal? {
        TokensSplit(L, D, data, r.at, out + [r.token.b], n - 1, m);
      } else {
        TokensSplit(L, D, data, r.at, Expand(out, r.token.dist, r.token.len), n - 1, m);
      }
    }
  }

  lemma {:induction false} TokensMove(L: Lengths, D: Lengths, data: Bytes, p: nat, out: seq<nat>, n: nat)
    ensures var o := Tokens(L, D, data, p, out, n); o.Unfinished? ==> o.at >= p + n
    decreases n
  {
    hide NextToken, Expand;
    if n > 0 {
      var r := NextToken(L, D, data, p);
      TokenMoves(L, D, data, p);
      if r.token.Literal? {
        TokensMove(L, D, data, r.at, out + [r.token.b], n - 1);
      } else if r.token.Match? && 0 < r.token.dist <= |out| {
        TokensMove(L, D, data, r.at, Expand(out, r.token.dist, r.token.len), n - 1);
      }
    }
  }

  lemma {:induction false} EndlessFrom(L: Lengths, D: Lengths, data: Bytes, p: nat, out: seq<nat>, n: nat)
    requires p >= 8 * |data| && Endless(L, D, |out|)
    ensures Tokens(L, D, data, p, out, n).Unfinished?
    decreases n
  {
    hide NextToken;
    if n > 0 {
      var r := NextToken(L, D, data, p);
      SameToken(L, D, data, p);
      TokenMoves(L, D, data, p);
      if r.token.Literal? {
        EndlessFrom(L, D, data, r.at, out + [r.token.b], n - 1);
      } else {
        EndlessFrom(L, D, data, r.at, Expand(out, r.token.dist, r.token.len), n - 1);
      }
    }
  }

  /** The tokens of RFC 1951 never end, however large the output may be, exactly if they run over
      the end of the data and zeros stand for a literal or for a match that is allowed there. As
      every token has a bit, it is enough to look at as many tokens as there are bits. */
  lemma NeverEnds(L: Lengths, D: Lengths, data: Bytes, p: nat, out: seq<nat>)
    ensures var o := Tokens(L, D, data, p, out, 8 * |data|);
      (forall n: nat :: Tokens(L, D, data, p, out, n).Unfinished?) <==> o.Unfinished? && Endless(L, D, |o.out|)
  {
    hide NextToken, Endless;
    var m := 8 * |data|;
    var o := Tokens(L, D, data, p, out, m);
    if o.Unfinished? {
      TokensMove(L, D, data, p, out, m);
      TokensSplit(L, D, data, p, out, m, 1);
      NextIsLast(L, D, data, o.at, o.out);
      if Endless(L, D, |o.out|) {
        forall n: nat
          ensures Tokens(L, D, data, p, out, n).Unfinished?
        {
          if n >= m {
            TokensSplit(L, D, data, p, out, m, n - m);
            EndlessFrom(L, D, data, o.at, o.out, n - m);
          } else if !Tokens(L, D, data, p, out, n).Unfinished? {
            TokensEnough(L, D, data, p, out, n, m);
          }
        }
      }
    }
  }

  lemma NextIsLast(L: Lengths, D: Lengths, data: Bytes, p: nat, out: seq<nat>)
    requires p >= 8 * |data|
    ensures Tokens(L, D, data, p, out, 1).Unfinished? <==> Endless(L, D, |out|)
  {
    hide NextToken;
    SameToken(L, D, data, p);
    assert forall q: nat, o: seq<nat> :: Tokens(L, D, data, q, o, 0).Unfinished?;
  }

  /** One literal with one bit and no data at all: zeros for ever. */
  lemma ZerosForEver(n: nat)
    ensures Tokens([1], [], [], 0, [], n).Unfinished?
  {
    OnlySymbol([1], 0);
    EndlessFrom([1], [], [], 0, [], n);
  }

  /** A single codeword of one bit is what zeros stand for. */
  lemma OnlySymbol(L: Lengths, k: nat)
    requires k < |L| && L[k] == 1 && forall i | 0 <= i < k :: L[i] == 0
    ensures forall q: nat :: Symbol(L, [], q) == k
  {
    NoneBefore(L, k);
    forall q: nat
      ensures Symbol(L, [], q) == k
    {
      SameZeros([], q, 1);
      assert Code(L, k) == 0 by { FirstZero(L); }
      assert Coded(L, [], q, k);
      CodedUnique(L, [], q, k, Symbol(L, [], q));
    }
  }

  lemma FirstZero(L: Lengths)
    ensures First(L, 1) == 0
  {
    assert First(L, 0) == 0 && Count(L, 0) == 0;
  }

  lemma {:induction false} NoneBefore(L: Lengths, k: nat)
    requires k <= |L| && forall i | 0 <= i < k :: L[i] == 0
    ensures CountUpTo(L, k, 1) == 0
  {
    if k > 0 { NoneBefore(L, k - 1); }
  }

  // ---------------------------------------------------------------- rounds of the code

  /** What a round of the code does, reserved codes included: it adds `n` bytes, provided that
      there are `needs` bytes to copy from, or it is the last one. */
  datatype Pace = Adds(n: nat, needs: nat, at: nat) | Stops

  ghost function PaceAt(L: Lengths, D: Lengths, data: Bytes, p: nat): Pace {
    var sym := Symbol(L, data, p);
    if sym >= |L| || sym == 256 then Stops
    else if sym < 256 then Adds(1, 0, p + L[sym])
    else MatchPace(D, data, p + L[sym], sym - 257)
  }

  ghost function MatchPace(D: Lengths, data: Bytes, p: nat, i: nat): Pace {
    var len := LengthBase(i) + ReadBits(data, p, LengthExtra(i));
    var p1 := p + LengthExtra(i);
    var d := Symbol(D, data, p1);
    if d >= |D| then Stops
    else Adds(len, DistBase(d) + ReadBits(data, p1 + D[d], DistExtra(d)), p1 + D[d] + DistExtra(d))
  }

  datatype Walked = Going(at: nat, size: nat) | Halted

  /** Position and size of the output after `n` rounds. */
  ghost function Walk(L: Lengths, D: Lengths, data: Bytes, p: nat, size: nat, n: nat): Walked
    decreases n
  {
    if n == 0 then Going(p, size)
    else
      match PaceAt(L, D, data, p)
      case Stops => Halted
      case Adds(k, needs, at) => if needs > size then Halted else Walk(L, D, data, at, size + k, n - 1)
  }

  /** Zeros stand for a match of no bytes, which only the reserved length codes give. */
  ghost predicate Idle(L: Lengths, D: Lengths, size: nat) {
    var r := PaceAt(L, D, [], 0);
    r.Adds? && r.n == 0 && r.needs <= size
  }

  lemma PaceMoves(L: Lengths, D: Lengths, data: Bytes, p: nat)
    ensures var r := PaceAt(L, D, data, p); r.Adds? ==> r.at > p
  {
    hide Coded, ReadBits;
    SymbolMoves(L, data, p);
  }

  lemma SamePace(L: Lengths, D: Lengths, data: Bytes, p: nat)
    requires p >= 8 * |data|
    ensures var r, z := PaceAt(L, D, data, p), PaceAt(L, D, [], 0); r.Adds? <==> z.Adds?
    ensures var r, z := PaceAt(L, D, data, p), PaceAt(L, D, [], 0); r.Adds? ==> r.n == z.n && r.needs == z.needs
  {
    hide Coded, ReadBits, LengthBase, LengthExtra, DistBase, DistExtra;
    SameSymbol(L, data, p, 0);
    var sym := Symbol(L, data, p);
    if 256 < sym < |L| {
      var i := sym - 257;
      var q, q0 := p + L[sym], 0 + L[sym];
      var e := LengthExtra(i);
      SameZeros(data, q, e);
      SameZeros([], q0, e);
      SameSymbol(D, data, q + e, q0 + e);
      var d := Symbol(D, data, q + e);
      if d < |D| {
        SameZeros(data, q + e + D[d], DistExtra(d));
        SameZeros([], q0 + e + D[d], DistExtra(d));
      }
    }
  }

  lemma {:induction false} WalkSplit(L: Lengths, D: Lengths, data: Bytes, p: nat, size: nat, n: nat, m: nat)
    ensures var o := Walk(L, D, data, p, size, n);
      Walk(L, D, data, p, size, n + m) == if o.Going? then Walk(L, D, data, o.at, o.size, m) else Halted
    decreases n
  {
    hide PaceAt;
    if n > 0 {
      var r := PaceAt(L, D, data, p);
      if r.Adds? && r.needs <= size { WalkSplit(L, D, data, r.at, size + r.n, n - 1, m); }
    }
  }

  lemma {:induction false} WalkMoves(L: Lengths, D: Lengths, data: Bytes, p: nat, size: nat, n: nat)
    ensures var o := Walk(L, D, data, p, size, n); o.Going? ==> o.at >= p + n && o.size >= size
    decreases n
  {
    hide PaceAt;
    if n > 0 {
      var r := PaceAt(L, D, data, p);
      PaceMoves(L, D, data, p);
      if r.Adds? && r.needs <= size { WalkMoves(L, D, data, r.at, size + r.n, n - 1); }
    }
  }

  /** Behind the end every round adds something, or none does. */
  lemma {:induction false} ZeroWalk(L: Lengths, D: Lengths, data: Bytes, p: nat, size: nat, n: nat)
    requires p >= 8 * |data|
    ensures Idle(L, D, size) ==> var o := Walk(L, D, data, p, size, n); o.Going? && o.size == size
    ensures !Idle(L, D, size) ==> var o := Walk(L, D, data, p, size, n); o.Going? ==> o.size >= size + n
    decreases n
  {
    hide PaceAt;
    if n > 0 {
      var r := PaceAt(L, D, data, p);
      SamePace(L, D, data, p);
      PaceMoves(L, D, data, p);
      if r.Adds? && r.needs <= size { ZeroWalk(L, D, data, r.at, size + r.n, n - 1); }
    }
  }

  /** The rounds run over the end of the data, and go on there without any effect. */
  ghost predicate Hangs(L: Lengths, D: Lengths, data: Bytes, p: nat, size: nat) {
    var o := Walk(L, D, data, p, size, 8 * |data|);
    o.Going? && Idle(L, D, o.size)
  }

  /** If so, no number of rounds is enough. */
  lemma HangsForEver(L: Lengths, D: Lengths, data: Bytes, p: nat, size: nat, n: nat)
    requires Hangs(L, D, data, p, size)
    ensures var o, end := Walk(L, D, data, p, size, n), Walk(L, D, data, p, size, 8 * |data|); o.Going? && o.size <= end.size
  {
    hide PaceAt, Idle;
    var m := 8 * |data|;
    var end := Walk(L, D, data, p, size, m);
    WalkMoves(L, D, data, p, size, m);
    if n >= m {
      WalkSplit(L, D, data, p, size, m, n - m);
      ZeroWalk(L, D, data, end.at, end.size, n - m);
    } else {
      var o := Walk(L, D, data, p, size, n);
      WalkSplit(L, D, data, p, size, n, m - n);
      WalkMoves(L, D, data, o.at, o.size, m - n);
    }
  }

  /** If not, the output outgrows every bound, or the rounds come to an end. */
  lemma EndsInTime(L: Lengths, D: Lengths, data: Bytes, p: nat, size: nat, n: nat)
    requires !Hangs(L, D, data, p, size)
    ensures var o := Walk(L, D, data, p, size, 8 * |data| + n); o.Going? ==> o.size >= size + n
  {
    hide PaceAt, Idle;
    var m := 8 * |data|;
    var mid := Walk(L, D, data, p, size, m);
    WalkMoves(L, D, data, p, size, m);
    WalkSplit(L, D, data, p, size, m, n);
    if mid.Going? { ZeroWalk(L, D, data, mid.at, mid.size, n); }
  }

  /** No number of rounds is enough, and the output stays below a bound. */
  ghost predicate Within(L: Lengths, D: Lengths, data: Bytes, p: nat, size: nat, bound: nat) {
    forall n: nat :: Walk(L, D, data, p, size, n).Going? && Walk(L, D, data, p, size, n).size <= bound
  }

  /** The loop goes on for ever in a bounded output exactly if it hangs. */
  lemma HangsIff(L: Lengths, D: Lengths, data: Bytes, p: nat, size: nat)
    ensures Hangs(L, D, data, p, size) <==> exists bound: nat :: Within(L, D, data, p, size, bound)
  {
    hide Walk, Idle;
    if Hangs(L, D, data, p, size) {
      var bound := Walk(L, D, data, p, size, 8 * |data|).size;
      HangsForEver(L, D, data, p, size, 0);
      forall n: nat
        ensures Walk(L, D, data, p, size, n).Going? && Walk(L, D, data, p, size, n).size <= bound
      {
        HangsForEver(L, D, data, p, size, n);
      }
      assert Within(L, D, data, p, size, bound);
    } else {
      forall bound: nat
        ensures !Within(L, D, data, p, size, bound)
      {
        EndsInTime(L, D, data, p, size, bound + 1);
        var o := Walk(L, D, data, p, size, 8 * |data| + (bound + 1));
      }
    }
  }

  /** The length code 286 and the distance code 30, with one bit each. */
  function OnlyReserved(k: nat): Lengths { seq<nat>(k + 1, i requires 0 <= i <= k => if i == k then 1 else 0) }

  lemma ReservedHangs()
    ensures Hangs(OnlyReserved(286), OnlyReserved(30), [], 0, 0)
  {
    hide Symbol, Coded;
    OnlySymbol(OnlyReserved(286), 286);
    OnlySymbol(OnlyReserved(30), 30);
    assert LengthBase(29) == 0 && LengthExtra(29) == 0 && DistBase(30) == 0 && DistExtra(30) == 0;
    assert PaceAt(OnlyReserved(286), OnlyReserved(30), [], 0) == MatchPace(OnlyReserved(30), [], 1, 29);
  }
}
