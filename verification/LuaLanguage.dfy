/** For patterns without captures the first match found is the language of the pattern. */
module LuaLanguage {
  import opened LuaClass
  import opened LuaPattern

  /** The rest of the pattern finds nothing at `t`. */
  ghost predicate Fails(rest: Items, src: string, t: nat, caps: Caps) {
    t <= |src| && CapsOk(caps, t) && Best(rest, src, t, caps).NoMatch?
  }

  /** Where `Down` settles: the last place from which the rest can match. */
  lemma {:induction false} DownIs(rest: Items, src: string, s: nat, n: nat, caps: Caps) returns (t: nat)
    requires s + n <= |src| && CapsOk(caps, s)
    ensures s <= t <= s + n && CapsOk(caps, t) && Down(rest, src, s, n, caps) == Best(rest, src, t, caps)
    ensures forall i: nat | t < i <= s + n :: Fails(rest, src, i, caps)
    ensures Down(rest, src, s, n, caps).NoMatch? ==> t == s
    decreases n
  {
    CapsLater(caps, s, s + n);
    if Best(rest, src, s + n, caps).NoMatch? && n > 0 {
      t := DownIs(rest, src, s, n - 1, caps);
    } else {
      t := s + n;
    }
  }

  /** Where `Up` settles: the first place. */
  lemma {:induction false} UpIs(k: Cls, rest: Items, src: string, s: nat, caps: Caps) returns (t: nat)
    requires s <= |src| && CapsOk(caps, s)
    ensures TakesAll(k, src, s, t) && CapsOk(caps, t) && Up(k, rest, src, s, caps) == Best(rest, src, t, caps)
    ensures forall i: nat | s <= i < t :: Fails(rest, src, i, caps)
    ensures Up(k, rest, src, s, caps).NoMatch? ==> !Takes(k, src, t)
    decreases |src| - s
  {
    if Best(rest, src, s, caps).NoMatch? && Takes(k, src, s) {
      t := UpIs(k, rest, src, s + 1, caps);
    } else {
      t := s;
    }
  }

  /** No more than the longest run can be repeated. */
  lemma {:induction false} RunIsMost(k: Cls, src: string, s: nat, t: nat)
    requires TakesAll(k, src, s, t)
    ensures t <= s + Run(k, src, s)
    decreases t - s
  {
    if s < t { RunIsMost(k, src, s + 1, t); }
  }

  // ---------------------------------------------------------------- balance

  lemma {:induction false} BalanceFinds(src: string, f: nat, i: nat, b: char, e: char, depth: nat)
    requires 0 < f <= i <= |src| && depth > 0 && Excess(src, f, i, b, e) == depth - 1 && StillOpen(src, f, i, b, e)
    ensures var r := BalanceEnd(src, i, b, e, depth);
      r.Some? ==> i < r.value <= |src| && Excess(src, f, r.value, b, e) == -1 && StillOpen(src, f, r.value, b, e)
    ensures BalanceEnd(src, i, b, e, depth).None? ==> StillOpen(src, f, |src|, b, e) && Excess(src, f, |src|, b, e) > -1
    decreases |src| - i
  {
    if i < |src| {
      var d := if src[i] == e then depth - 1 else if src[i] == b then depth + 1 else depth;
      assert Excess(src, f, i + 1, b, e) == d - 1;
      if d > 0 { BalanceFinds(src, f, i + 1, b, e, d); }
    }
  }

  /** The scan for the end of a balance finds the only one there is. */
  lemma BalanceIs(src: string, s: nat, b: char, e: char, t: nat)
    requires s < |src| && src[s] == b
    ensures Balanced(src, s, t, b, e) <==> BalanceEnd(src, s + 1, b, e, 1) == Some(t)
  {
    var f := s + 1;
    var r := BalanceEnd(src, f, b, e, 1);
    BalanceFinds(src, f, f, b, e, 1);
  }

  // ---------------------------------------------------------------- the language

  /** The outcome is an end in the language, or there is none. */
  ghost predicate Exact(p: Items, src: string, s: nat, caps: Caps)
    requires s <= |src| && CapsOk(caps, s)
  {
    match Best(p, src, s, caps)
    case Match(e, caps') => caps' == caps && InLang(p, src, s, e)
    case NoMatch => forall e :: !InLang(p, src, s, e)
    case Err(_) => false
  }

  /** A match is found exactly if some text from `s` on is in the language, and is one. */
  lemma {:induction false} BestIsExact(p: Items, src: string, s: nat, caps: Caps)
    requires CaptureFree(p) && s <= |src| && CapsOk(caps, s)
    ensures Exact(p, src, s, caps)
    decreases |p|
  {
    if p != [] {
      var rest := p[1..];
      FreeRest(p);
      forall t: nat | s <= t <= |src|
        ensures CapsOk(caps, t) && Exact(rest, src, t, caps)
      {
        CapsLater(caps, s, t);
        BestIsExact(rest, src, t, caps);
      }
      hide Best;
      OneItem(p, src, s, caps);
    }
  }

  lemma FreeRest(p: Items)
    requires CaptureFree(p) && p != []
    ensures CaptureFree(p[1..]) && !p[0].Open? && !p[0].Close? && !p[0].Back? && !p[0].Bad?
  {
    assert p[0] in p;
  }

  ghost predicate RestExact(rest: Items, src: string, s: nat, caps: Caps) {
    forall t: nat {:trigger Exact(rest, src, t, caps)} | s <= t <= |src| :: CapsOk(caps, t) && Exact(rest, src, t, caps)
  }

  lemma OneItem(p: Items, src: string, s: nat, caps: Caps)
    requires p != [] && CaptureFree(p) && s <= |src| && CapsOk(caps, s) && RestExact(p[1..], src, s, caps)
    ensures Exact(p, src, s, caps)
  {
    var rest := p[1..];
    FreeRest(p);
    IsItem(p, src, s, caps);
    match p[0]
    case Single(k, q) => SingleItem(p, src, s, caps, k, q);
    case Balance(b, e) =>
      if s < |src| && src[s] == b {
        BalanceEnds(src, s + 1, b, e, 1);
        forall t: nat
          ensures Balanced(src, s, t, b, e) <==> BalanceEnd(src, s + 1, b, e, 1) == Some(t)
        {
          BalanceIs(src, s, b, e, t);
        }
        if BalanceEnd(src, s + 1, b, e, 1).Some? {
          var t := BalanceEnd(src, s + 1, b, e, 1).value;
          assert Exact(rest, src, t, caps);
        }
      }
    case Frontier(k) => assert Exact(rest, src, s, caps);
    case End => assert Exact(rest, src, s, caps);
  }

  lemma IsItem(p: Items, src: string, s: nat, caps: Caps)
    requires p != [] && s <= |src| && CapsOk(caps, s)
    ensures Best(p, src, s, caps) == BestItem(p[0], p[1..], src, s, caps)
  {}

  lemma IsSingle(p: Items, src: string, s: nat, caps: Caps, k: Cls, q: Quant)
    requires p != [] && p[0] == Single(k, q) && s <= |src| && CapsOk(caps, s)
    ensures Best(p, src, s, caps) == BestSingle(k, q, p[1..], src, s, caps)
  {}

  lemma SingleItem(p: Items, src: string, s: nat, caps: Caps, k: Cls, q: Quant)
    requires p != [] && p[0] == Single(k, q) && s <= |src| && CapsOk(caps, s) && RestExact(p[1..], src, s, caps)
    ensures Exact(p, src, s, caps)
  {
    var rest := p[1..];
    IsSingle(p, src, s, caps, k, q);
    assert Exact(rest, src, s, caps);
    if Takes(k, src, s) { assert Exact(rest, src, s + 1, caps); }
    match q
    case Once =>
    case Optional =>
    case Star => StarItem(p, src, s, caps, k);
    case Plus => PlusItem(p, src, s, caps, k);
    case Minus => MinusItem(p, src, s, caps, k);
  }

  lemma StarItem(p: Items, src: string, s: nat, caps: Caps, k: Cls)
    requires p != [] && p[0] == Single(k, Star) && s <= |src| && CapsOk(caps, s) && RestExact(p[1..], src, s, caps)
    ensures Exact(p, src, s, caps)
  {
    var rest, n := p[1..], Run(k, src, s);
    IsSingle(p, src, s, caps, k, Star);
    var m := DownIs(rest, src, s, n, caps);
    assert Exact(rest, src, m, caps) && TakesAll(k, src, s, m);
    forall t: nat, e | Best(p, src, s, caps).NoMatch? && TakesAll(k, src, s, t)
      ensures !InLang(rest, src, t, e)
    {
      RunIsMost(k, src, s, t);
      assert Exact(rest, src, t, caps);
      assert t > m ==> Fails(rest, src, t, caps);
    }
  }

  lemma PlusItem(p: Items, src: string, s: nat, caps: Caps, k: Cls)
    requires p != [] && p[0] == Single(k, Plus) && s <= |src| && CapsOk(caps, s) && RestExact(p[1..], src, s, caps)
    ensures Exact(p, src, s, caps)
  {
    var rest := p[1..];
    IsSingle(p, src, s, caps, k, Plus);
    if Takes(k, src, s) {
      var m := DownIs(rest, src, s + 1, Run(k, src, s + 1), caps);
      assert Exact(rest, src, m, caps) && TakesAll(k, src, s, m);
      forall t: nat, e | Best(p, src, s, caps).NoMatch? && t > s && TakesAll(k, src, s, t)
        ensures !InLang(rest, src, t, e)
      {
        RunIsMost(k, src, s + 1, t);
        assert Exact(rest, src, t, caps);
        assert t > m ==> Fails(rest, src, t, caps);
      }
    } else {
      assert forall t: nat :: t > s && TakesAll(k, src, s, t) ==> Takes(k, src, s);
    }
  }

  lemma TakenThere(k: Cls, src: string, s: nat, t: nat)
    requires TakesAll(k, src, s, t)
    ensures forall i: nat | s <= i < t :: Takes(k, src, i)
  {}

  lemma MinusItem(p: Items, src: string, s: nat, caps: Caps, k: Cls)
    requires p != [] && p[0] == Single(k, Minus) && s <= |src| && CapsOk(caps, s) && RestExact(p[1..], src, s, caps)
    ensures Exact(p, src, s, caps)
  {
    var rest := p[1..];
    IsSingle(p, src, s, caps, k, Minus);
    var m := UpIs(k, rest, src, s, caps);
    assert Exact(rest, src, m, caps);
    forall t: nat, e | Best(p, src, s, caps).NoMatch? && TakesAll(k, src, s, t)
      ensures !InLang(rest, src, t, e)
    {
      TakenThere(k, src, s, t);
      assert Exact(rest, src, t, caps);
      assert t < m ==> Fails(rest, src, t, caps);
    }
  }

  // ---------------------------------------------------------------- most and fewest repetitions

  /** `*` takes the most repetitions after which the rest of the pattern can match. */
  lemma StarIsGreedy(k: Cls, rest: Items, src: string, s: nat, caps: Caps) returns (m: nat)
    requires CaptureFree(rest) && s <= |src| && CapsOk(caps, s)
    ensures TakesAll(k, src, s, m)
    ensures Best([Single(k, Star)] + rest, src, s, caps).Match? ==> InLang(rest, src, m, Best([Single(k, Star)] + rest, src, s, caps).e)
    ensures forall t: nat, e {:trigger InLang(rest, src, t, e)} | t > m && TakesAll(k, src, s, t) :: !InLang(rest, src, t, e)
  {
    assert ([Single(k, Star)] + rest)[1..] == rest;
    IsSingle([Single(k, Star)] + rest, src, s, caps, k, Star);
    m := DownIs(rest, src, s, Run(k, src, s), caps);
    BestIsExact(rest, src, m, caps);
    forall t: nat, e | t > m && TakesAll(k, src, s, t)
      ensures !InLang(rest, src, t, e)
    {
      RunIsMost(k, src, s, t);
      assert Fails(rest, src, t, caps);
      BestIsExact(rest, src, t, caps);
    }
  }

  /** `-` takes the fewest. */
  lemma MinusIsLazy(k: Cls, rest: Items, src: string, s: nat, caps: Caps) returns (m: nat)
    requires CaptureFree(rest) && s <= |src| && CapsOk(caps, s)
    ensures TakesAll(k, src, s, m)
    ensures Best([Single(k, Minus)] + rest, src, s, caps).Match? ==> InLang(rest, src, m, Best([Single(k, Minus)] + rest, src, s, caps).e)
    ensures forall t: nat, e {:trigger InLang(rest, src, t, e)} | s <= t < m :: !InLang(rest, src, t, e)
  {
    assert ([Single(k, Minus)] + rest)[1..] == rest;
    IsSingle([Single(k, Minus)] + rest, src, s, caps, k, Minus);
    m := UpIs(k, rest, src, s, caps);
    BestIsExact(rest, src, m, caps);
    forall t: nat, e | s <= t < m
      ensures !InLang(rest, src, t, e)
    {
      assert Fails(rest, src, t, caps);
      BestIsExact(rest, src, t, caps);
    }
  }
}
