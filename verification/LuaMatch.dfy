/** The backtracking matcher. */
module LuaMatch {
  import opened LuaClass
  import opened LuaPattern
  import opened LuaLanguage

  datatype Result = Found(e: nat) | Nothing | Failed(error: Error)

  const MAXDEPTH := 200

  lemma BestFirst(i: Item, rest: Items, src: string, s: nat, caps: Caps)
    requires s <= |src| && CapsOk(caps, s)
    ensures Best([i] + rest, src, s, caps) == BestItem(i, rest, src, s, caps)
  {
    assert ([i] + rest)[1..] == rest;
  }

  /** A pattern of `n` items was too much at depth `d`. */
  ghost predicate TooDeep(r: Result, n: nat, d: nat) { r == Failed(TooComplex) && d + n >= MAXDEPTH }

  /** One item of a set. */
  lemma SetOfStep(pat: string, p: nat, ec: nat, items: seq<SetItem>, done: nat)
    requires p < ec && done <= |items| && SetOf(pat, p, ec) == items[done..]
    ensures done < |items|
    ensures At(pat, p) == '%' ==> items[done] == Esc(At(pat, p + 1)) && SetOf(pat, p + 2, ec) == items[done + 1..]
    ensures At(pat, p) != '%' && At(pat, p + 1) == '-' && p + 2 < ec ==> items[done] == Range(At(pat, p), At(pat, p + 2))
    ensures At(pat, p) != '%' && At(pat, p + 1) == '-' && p + 2 < ec ==> SetOf(pat, p + 3, ec) == items[done + 1..]
    ensures At(pat, p) != '%' && !(At(pat, p + 1) == '-' && p + 2 < ec) ==> items[done] == One(At(pat, p))
    ensures At(pat, p) != '%' && !(At(pat, p + 1) == '-' && p + 2 < ec) ==> SetOf(pat, p + 1, ec) == items[done + 1..]
  {
    hide At;
    assert items[done + 1..] == SetOf(pat, p, ec)[1..];
  }

  lemma NoMoreItems(pat: string, p: nat, ec: nat, items: seq<SetItem>, done: nat)
    requires p >= ec && done <= |items| && SetOf(pat, p, ec) == items[done..]
    ensures done == |items|
  {}

  class MatchState {
    const src: string
    const pat: string
    var level: nat
    var depth: nat
    const capture: array<Cap>

    ghost predicate Valid()
      reads this
    {
      capture.Length == MAXCAPTURES && level <= MAXCAPTURES
    }

    ghost function Taken(): (c: Caps)
      reads this, capture
      requires Valid()
    {
      capture[..level]
    }

    constructor (src: string, pat: string)
      ensures Valid() && fresh(capture) && this.src == src && this.pat == pat && level == 0 && depth == 0
    {
      this.src, this.pat := src, pat;
      level, depth := 0, 0;
      capture := new Cap[MAXCAPTURES](_ => Cap(0, Unfinished));
    }

    ghost predicate Ready(s: nat, p: nat)
      reads this, capture
    {
      Valid() && s <= |src| && p <= |pat| && CapsOk(Taken(), s)
    }

    /** The result is the outcome `o`; if it is no match, nothing has changed since the
        captures were `caps` and the depth `d`. */
    ghost predicate Is(r: Result, o: Outcome, caps: Caps, d: nat)
      reads this, capture
    {
      && Valid() && (!r.Failed? ==> depth == d)
      && match o
         case Match(e, caps') => r == Found(e) && Taken() == caps'
         case NoMatch => r == Nothing && Taken() == caps
         case Err(error) => r == Failed(error)
    }

    // ---------------------------------------------------------------- single characters

    /** classend */
    method ClassEnd(p: nat) returns (r: Option<nat>)
      requires At(pat, p) != NUL
      ensures r == ItemEnd(pat, p)
    {
      if At(pat, p) == '%' {
        return if At(pat, p + 1) == NUL then None else Some(p + 2);
      }
      if At(pat, p) != '[' {
        return Some(p + 1);
      }
      var q := if At(pat, p + 1) == '^' then p + 2 else p + 1;
      while true
        invariant SetEnd(pat, q) == ItemEnd(pat, p)
        decreases |pat| - q
      {
        if At(pat, q) == NUL {
          return None;
        }
        q := if At(pat, q) == '%' && At(pat, q + 1) != NUL then q + 2 else q + 1;
        if At(pat, q) == ']' {
          return Some(q + 1);
        }
      }
    }

    /** matchbracketclass */
    method MatchBracketClass(c: char, p0: nat, ec: nat) returns (b: bool)
      ensures b == Holds(SetAt(pat, p0, ec), c)
    {
      hide At, MatchClass, SetOf;
      var sig, p := true, p0;
      if At(pat, p + 1) == '^' {
        sig := false;
        p := p + 1;
      }
      ghost var items := SetOf(pat, p + 1, ec);
      ghost var done: nat := 0;
      p := p + 1;
      while p < ec
        invariant done <= |items| && SetOf(pat, p, ec) == items[done..]
        invariant forall i | 0 <= i < done :: !InItem(c, items[i])
        decreases ec - p
      {
        SetOfStep(pat, p, ec, items, done);
        if At(pat, p) == '%' {
          if MatchClass(c, At(pat, p + 1)) {
            assert InItem(c, items[done]);
            return sig;
          }
          p := p + 2;
        } else if At(pat, p + 1) == '-' && p + 2 < ec {
          if At(pat, p) <= c <= At(pat, p + 2) {
            assert InItem(c, items[done]);
            return sig;
          }
          p := p + 3;
        } else {
          if At(pat, p) == c {
            assert InItem(c, items[done]);
            return sig;
          }
          p := p + 1;
        }
        done := done + 1;
      }
      NoMoreItems(pat, p, ec, items, done);
      return !sig;
    }

    /** singlematch */
    method SingleMatch(c: char, p: nat, ep: nat) returns (b: bool)
      requires ep > p
      ensures b == Holds(ClassAt(pat, p, ep), c)
    {
      var x := At(pat, p);
      if x == '.' {
        b := true;
      } else if x == '%' {
        b := MatchClass(c, At(pat, p + 1));
      } else if x == '[' {
        b := MatchBracketClass(c, p, ep - 1);
      } else {
        b := c == x;
      }
    }

    method Accepts(s: nat, p: nat, ep: nat) returns (b: bool)
      requires ep > p
      ensures b == Takes(ClassAt(pat, p, ep), src, s)
    {
      if s >= |src| {
        b := false;
      } else {
        b := SingleMatch(src[s], p, ep);
      }
    }

    /** matchbalance, for two characters that are there */
    method MatchBalance(s0: nat, b: char, e: char) returns (r: Option<nat>)
      requires s0 <= |src| && b != NUL
      ensures r == if s0 == |src| || src[s0] != b then None else BalanceEnd(src, s0 + 1, b, e, 1)
    {
      if At(src, s0) != b || s0 == |src| {
        return None;
      }
      var s, cont := s0 + 1, 1;
      while s < |src|
        invariant s <= |src| && cont > 0 && BalanceEnd(src, s, b, e, cont) == BalanceEnd(src, s0 + 1, b, e, 1)
      {
        if src[s] == e {
          cont := cont - 1;
          if cont == 0 {
            return Some(s + 1);
          }
        } else if src[s] == b {
          cont := cont + 1;
        }
        s := s + 1;
      }
      return None;
    }

    // ---------------------------------------------------------------- repetitions

    /** max_expand */
    method MaxExpand(s: nat, p: nat, ep: nat) returns (r: Result)
      requires Ready(s, p) && p < ep < |pat|
      modifies this, capture
      ensures Valid()
      ensures TooDeep(r, |Parse(pat, ep + 1)|, old(depth)) ||
        Is(r, Down(Parse(pat, ep + 1), src, s, Run(ClassAt(pat, p, ep), src, s), old(Taken())), old(Taken()), old(depth))
      decreases |pat| - p, 0
    {
      hide Parse, Best, Run;
      ghost var k, rest, n, caps := ClassAt(pat, p, ep), Parse(pat, ep + 1), Run(ClassAt(pat, p, ep), src, s), Taken();
      var i: int := CountRun(s, p, ep);
      while i >= 0
        invariant -1 <= i <= n && Valid() && Taken() == caps && depth == old(depth) && s + n <= |src|
        invariant i >= 0 ==> Down(rest, src, s, i, caps) == Down(rest, src, s, n, caps)
        invariant i < 0 ==> Down(rest, src, s, n, caps).NoMatch?
        decreases i
      {
        CapsLater(caps, s, s + i);
        r := Match(s + i, ep + 1);
        if r != Nothing {
          return;
        }
        i := i - 1;
      }
      r := Nothing;
    }

    /** The most repetitions there could be. */
    method CountRun(s: nat, p: nat, ep: nat) returns (i: nat)
      requires s <= |src| && p < ep
      ensures i == Run(ClassAt(pat, p, ep), src, s)
    {
      hide Run;
      ghost var k := ClassAt(pat, p, ep);
      i := 0;
      var more := Accepts(s, p, ep);
      while more
        invariant s + i <= |src| && more == Takes(k, src, s + i) && TakesAll(k, src, s, s + i)
        decreases |src| - s - i
      {
        i := i + 1;
        more := Accepts(s + i, p, ep);
      }
      RunIs(k, src, s, i);
    }

    /** min_expand */
    method MinExpand(s0: nat, p: nat, ep: nat) returns (r: Result)
      requires Ready(s0, p) && p < ep < |pat|
      modifies this, capture
      ensures Valid()
      ensures TooDeep(r, |Parse(pat, ep + 1)|, old(depth)) ||
        Is(r, Up(ClassAt(pat, p, ep), Parse(pat, ep + 1), src, s0, old(Taken())), old(Taken()), old(depth))
      decreases |pat| - p, 0
    {
      hide Parse, Best;
      ghost var k, rest, caps := ClassAt(pat, p, ep), Parse(pat, ep + 1), Taken();
      var s := s0;
      while true
        invariant Ready(s, p) && Taken() == caps && depth == old(depth)
        invariant CapsOk(caps, s0) && Up(k, rest, src, s, caps) == Up(k, rest, src, s0, caps)
        decreases |src| - s
      {
        r := Match(s, ep + 1);
        if r != Nothing {
          return;
        }
        var m := Accepts(s, p, ep);
        if !m {
          return;
        }
        s := s + 1;
      }
    }

    // ---------------------------------------------------------------- captures

    /** start_capture */
    method StartCapture(s: nat, p: nat, what: Len, ghost from: nat) returns (r: Result)
      requires Ready(s, p) && from < p && !what.Closed?
      modifies this, capture
      ensures Valid()
      ensures TooDeep(r, |Parse(pat, p)|, old(depth)) || Is(r, StartOutcome(s, p, what, old(Taken())), old(Taken()), old(depth))
      decreases |pat| - from, 0
    {
      hide Parse, Best;
      if level >= MAXCAPTURES {
        return Failed(TooManyCaptures);
      }
      ghost var caps := Taken();
      capture[level] := Cap(s, what);
      level := level + 1;
      assert Taken() == caps + [Cap(s, what)];
      r := Match(s, p);
      if r == Nothing {
        level := level - 1;
        assert Taken() == caps;
      }
    }

    ghost function StartOutcome(s: nat, p: nat, what: Len, caps: Caps): Outcome
      requires s <= |src| && CapsOk(caps, s) && !what.Closed?
    {
      if |caps| >= MAXCAPTURES then Err(TooManyCaptures) else Best(Parse(pat, p), src, s, caps + [Cap(s, what)])
    }

    /** capture_to_close */
    method CaptureToClose() returns (r: Option<nat>)
      requires Valid()
      ensures r == ToClose(Taken())
    {
      var l: int := level;
      assert capture[..level][..level] == capture[..level];
      while l > 0
        invariant 0 <= l <= level && ToClose(capture[..l]) == ToClose(Taken())
      {
        l := l - 1;
        assert capture[..l + 1][..l] == capture[..l];
        if capture[l].len.Unfinished? {
          return Some(l);
        }
      }
      return None;
    }

    /** end_capture */
    method EndCapture(s: nat, p: nat, ghost from: nat) returns (r: Result)
      requires Ready(s, p) && from < p
      modifies this, capture
      ensures Valid()
      ensures TooDeep(r, |Parse(pat, p)|, old(depth)) || Is(r, BestItem(Close, Parse(pat, p), src, s, old(Taken())), old(Taken()), old(depth))
      decreases |pat| - from, 0
    {
      hide Parse, Best, ToClose;
      ghost var caps := Taken();
      var close := CaptureToClose();
      if close.None? {
        return Failed(NothingToClose);
      }
      var l := close.value;
      CloseOk(caps, s);
      ToCloseIs(caps);
      var init := capture[l].init;
      capture[l] := Cap(init, Closed(s - init));
      assert Taken() == caps[l := Cap(init, Closed(s - init))];
      r := Match(s, p);
      if r == Nothing {
        capture[l] := Cap(capture[l].init, Unfinished);
        assert Taken() == caps;
      }
    }

    /** match_capture */
    method MatchCapture(s: nat, d: char) returns (r: Result)
      requires Ready(s, 0)
      ensures CapIndex(Taken(), d).None? ==> r == Failed(BadCapture)
      ensures CapIndex(Taken(), d).Some? ==>
        var c := Taken()[CapIndex(Taken(), d).value]; r == if Repeats(src, c, s) then Found(s + c.len.n) else Nothing
    {
      var l := d as int - '1' as int;
      if l < 0 || l >= level || capture[l].len.Unfinished? {
        return Failed(BadCapture);
      }
      var c := capture[l];
      assert c in Taken();
      if c.len.Closed? && c.len.n <= |src| - s && src[c.init..c.init + c.len.n] == src[s..s + c.len.n] {
        r := Found(s + c.len.n);
      } else {
        r := Nothing;
      }
    }

    // ---------------------------------------------------------------- match

    /** match: either too deep, or the outcome the pattern has. */
    method Match(s0: nat, p0: nat) returns (r: Result)
      requires Ready(s0, p0)
      modifies this, capture
      ensures Valid()
      ensures TooDeep(r, |Parse(pat, p0)|, old(depth)) || Is(r, Best(Parse(pat, p0), src, s0, old(Taken())), old(Taken()), old(depth))
      decreases |pat| - p0, 3
    {
      hide Parse, Best, BestItem, Repeats;
      depth := depth + 1;
      if depth > MAXDEPTH {
        return Failed(TooComplex);
      }
      var s, p := s0, p0;
      ghost var caps := Taken();
      var again := true;
      r := Nothing;
      while again
        invariant Valid() && CapsOk(caps, s0)
        invariant !again ==> TooDeep(r, |Parse(pat, p0)|, old(depth)) || Is(r, Best(Parse(pat, p0), src, s0, caps), caps, old(depth) + 1)
        invariant again ==> Ready(s, p) && Taken() == caps && depth == old(depth) + 1 && p0 <= p && |Parse(pat, p)| <= |Parse(pat, p0)|
        invariant again ==> Best(Parse(pat, p), src, s, caps) == Best(Parse(pat, p0), src, s0, caps)
        decreases if again then |pat| - p + 1 else 0
      {
        again, s, p, r := Turn(s, p);
      }
      if !r.Failed? {
        depth := depth - 1;
      }
    }

    /** One turn of the loop at `p`: a result, or a later place from which to go on. */
    ghost predicate Turned(again: bool, s: nat, p: nat, s': nat, p': nat, r: Result, caps: Caps, d: nat)
      reads this, capture
    {
      && Valid() && s <= |src| && CapsOk(caps, s) && d > 0
      && if again
         then Ready(s', p') && Taken() == caps && depth == d && p < p' && |Parse(pat, p')| < |Parse(pat, p)|
           && Best(Parse(pat, p'), src, s', caps) == Best(Parse(pat, p), src, s, caps)
         else TooDeep(r, |Parse(pat, p)|, d - 1) || Is(r, Best(Parse(pat, p), src, s, caps), caps, d)
    }

    method Turn(s: nat, p: nat) returns (again: bool, s': nat, p': nat, r: Result)
      requires Ready(s, p) && 0 < depth
      modifies this, capture
      ensures Turned(again, s, p, s', p', r, old(Taken()), old(depth))
      decreases |pat| - p, 2
    {
      hide Parse, Best, BestSingle;
      again, s', p', r := false, s, p, Nothing;
      var c, d := At(pat, p), At(pat, p + 1);
      if c == '(' {
        OpenItem(pat, p, src, s, Taken());
        if d == ')' {
          r := StartCapture(s, p + 2, Position, p);
        } else {
          r := StartCapture(s, p + 1, Unfinished, p);
        }
      } else if c == ')' {
        CloseItem(pat, p, src, s, Taken());
        r := EndCapture(s, p + 1, p);
      } else if c == '%' && d == 'b' {
        again, s', p', r := TurnBalance(s, p);
      } else if c == '%' && d == 'f' {
        again, s', p', r := TurnFrontier(s, p);
      } else if c == '%' && IsDigit(d) {
        again, s', p', r := TurnBack(s, p, d);
      } else if c == NUL {
        PatternEnds(pat, p, src, s, Taken());
        r := Found(s);
      } else if c == '$' && d == NUL {
        EndItem(pat, p, src, s, Taken());
        if s == |src| {
          r := Found(s);
        }
      } else {
        again, s', p', r := TurnSingle(s, p);
      }
    }

    method TurnBalance(s: nat, p: nat) returns (again: bool, s': nat, p': nat, r: Result)
      requires Ready(s, p) && 0 < depth && At(pat, p) == '%' && At(pat, p + 1) == 'b'
      ensures Turned(again, s, p, s', p', r, Taken(), depth)
    {
      hide Parse, Best;
      BalanceItem(pat, p, src, s, Taken());
      again, s', p', r := false, s, p, Nothing;
      var b, e := At(pat, p + 2), At(pat, p + 3);
      if b == NUL || e == NUL {
        r := Failed(NoBalance);
      } else {
        var t := MatchBalance(s, b, e);
        if t.Some? {
          BalanceEnds(src, s + 1, b, e, 1);
          CapsLater(Taken(), s, t.value);
          again, s', p' := true, t.value, p + 4;
        }
      }
    }

    method TurnFrontier(s: nat, p: nat) returns (again: bool, s': nat, p': nat, r: Result)
      requires Ready(s, p) && 0 < depth && At(pat, p) == '%' && At(pat, p + 1) == 'f'
      ensures Turned(again, s, p, s', p', r, Taken(), depth)
    {
      hide Parse, Best;
      FrontierItem(pat, p, src, s, Taken());
      again, s', p', r := false, s, p, Nothing;
      if At(pat, p + 2) != '[' {
        r := Failed(NoFrontierSet);
        return;
      }
      var end := ClassEnd(p + 2);
      if end.None? {
        r := Failed(SetEnds);
        return;
      }
      var ep := end.value;
      var before := MatchBracketClass(if s == 0 then NUL else src[s - 1], p + 2, ep - 1);
      if !before {
        var here := MatchBracketClass(At(src, s), p + 2, ep - 1);
        if here {
          again, p' := true, ep;
        }
      }
    }

    method TurnBack(s: nat, p: nat, d: char) returns (again: bool, s': nat, p': nat, r: Result)
      requires Ready(s, p) && 0 < depth && At(pat, p) == '%' && At(pat, p + 1) == d && IsDigit(d)
      ensures Turned(again, s, p, s', p', r, Taken(), depth)
    {
      hide Parse, Best;
      BackItem(pat, p, src, s, Taken());
      again, s', p' := false, s, p;
      r := MatchCapture(s, d);
      if r.Found? {
        CapsLater(Taken(), s, r.e);
        again, s', p' := true, r.e, p + 2;
      }
    }

    method TurnSingle(s: nat, p: nat) returns (again: bool, s': nat, p': nat, r: Result)
      requires Ready(s, p) && 0 < depth && IsPlain(pat, p)
      modifies this, capture
      ensures Turned(again, s, p, s', p', r, old(Taken()), old(depth))
      decreases |pat| - p, 1
    {
      hide Parse, Best, Run;
      PlainItem(pat, p, src, s, Taken());
      again, s', p', r := false, s, p, Nothing;
      var end := ClassEnd(p);
      if end.None? {
        r := Failed(if At(pat, p) == '%' then EscapeEnds else SetEnds);
        return;
      }
      var ep := end.value;
      var m := Accepts(s, p, ep);
      var q := At(pat, ep);
      if q == '?' {
        if m {
          r := Match(s + 1, ep + 1);
          if r != Nothing {
            return;
          }
        }
        again, p' := true, ep + 1;
      } else if q == '*' {
        r := MaxExpand(s, p, ep);
      } else if q == '+' {
        if m {
          r := MaxExpand(s + 1, p, ep);
        }
      } else if q == '-' {
        r := MinExpand(s, p, ep);
      } else if m {
        again, s', p' := true, s + 1, ep;
      }
    }
  }

  /** What a search for a pattern gives. */
  datatype Hit = Hit(start: nat, e: nat) | Miss | Error(error: Error)

  /** The patterns searched for, without the anchor. */
  function Anchored(pat: string): bool { At(pat, 0) == '^' }

  function ItemsOf(pat: string): Items { Parse(pat, if Anchored(pat) then 1 else 0) }

  /** The search from `init` on finds the first place where the pattern matches, if there is
      one; with an anchor it looks at `init` only. */
  ghost predicate FirstHit(pat: string, src: string, init: nat, h: Hit, caps: Caps)
    requires init <= |src|
  {
    match h
    case Hit(a, e) =>
      && init <= a <= |src| && (Anchored(pat) ==> a == init) && Best(ItemsOf(pat), src, a, []) == Outcome.Match(e, caps)
      && forall b | init <= b < a :: Best(ItemsOf(pat), src, b, []).NoMatch?
    case Miss => forall b | init <= b <= (if Anchored(pat) then init else |src|) :: Best(ItemsOf(pat), src, b, []).NoMatch?
    case Error(error) => exists b: nat :: init <= b <= |src| && Best(ItemsOf(pat), src, b, []) == Err(error)
  }

  /** The loop of str_find_aux. */
  method Find(ms: MatchState, init: nat) returns (h: Hit)
    requires ms.Valid() && init <= |ms.src|
    modifies ms, ms.capture
    ensures ms.Valid()
    ensures (h == Error(TooComplex) && |ItemsOf(ms.pat)| >= MAXDEPTH) || FirstHit(ms.pat, ms.src, init, h, ms.Taken())
  {
    hide Parse, Best;
    var p := if Anchored(ms.pat) then 1 else 0;
    var s1 := init;
    while true
      invariant ms.Valid() && init <= s1 <= |ms.src| && (Anchored(ms.pat) ==> s1 == init)
      invariant forall b | init <= b < s1 :: Best(ItemsOf(ms.pat), ms.src, b, []).NoMatch?
      decreases |ms.src| - s1
    {
      ms.level, ms.depth := 0, 0;
      assert ms.Taken() == [];
      var r := ms.Match(s1, p);
      if r.Found? {
        return Hit(s1, r.e);
      }
      if r.Failed? {
        assert TooDeep(r, |ItemsOf(ms.pat)|, 0) || Best(ItemsOf(ms.pat), ms.src, s1, []) == Err(r.error);
        return Error(r.error);
      }
      if s1 == |ms.src| || Anchored(ms.pat) {
        return Miss;
      }
      s1 := s1 + 1;
    }
  }

  /** For a pattern without captures the search is for the language of the pattern. */
  lemma FindsLanguage(pat: string, src: string, init: nat, h: Hit, caps: Caps)
    requires init <= |src| && CaptureFree(ItemsOf(pat)) && FirstHit(pat, src, init, h, caps)
    ensures !h.Error?
    ensures h.Hit? ==> InLang(ItemsOf(pat), src, h.start, h.e)
    ensures forall a: nat, e | init <= a <= (if Anchored(pat) then init else |src|) && InLang(ItemsOf(pat), src, a, e) :: h.Hit? && h.start <= a
  {
    hide Best, InLang;
    var p := ItemsOf(pat);
    forall b: nat | init <= b <= |src|
      ensures CapsOk([], b) && Exact(p, src, b, [])
    {
      BestIsExact(p, src, b, []);
    }
    forall b: nat | init <= b <= |src|
      ensures CapsOk([], b) && !Best(p, src, b, []).Err?
    {
      assert Exact(p, src, b, []);
    }
    if h.Hit? {
      assert Exact(p, src, h.start, []);
    }
    forall a: nat, e | init <= a <= (if Anchored(pat) then init else |src|) && InLang(p, src, a, e)
      ensures h.Hit? && h.start <= a
    {
      assert Exact(p, src, a, []);
      var o := Best(p, src, a, []);
    }
  }

  /** None of the special forms at `p`. */
  predicate IsPlain(pat: string, p: nat) {
    var c, d := At(pat, p), At(pat, p + 1);
    c != NUL && c != '(' && c != ')' && !(c == '%' && (d == 'b' || d == 'f' || IsDigit(d))) && !(c == '$' && d == NUL)
  }

  lemma PatternEnds(pat: string, p: nat, src: string, s: nat, caps: Caps)
    requires At(pat, p) == NUL && s <= |src| && CapsOk(caps, s)
    ensures Best(Parse(pat, p), src, s, caps) == Outcome.Match(s, caps)
  {}

  lemma EndItem(pat: string, p: nat, src: string, s: nat, caps: Caps)
    requires At(pat, p) == '$' && At(pat, p + 1) == NUL && s <= |src| && CapsOk(caps, s)
    ensures Best(Parse(pat, p), src, s, caps) == if s == |src| then Outcome.Match(s, caps) else NoMatch
  {
    assert Parse(pat, p) == [End] + [];
    BestFirst(End, [], src, s, caps);
    assert Best([], src, s, caps) == Outcome.Match(s, caps);
  }

  lemma BalanceItem(pat: string, p: nat, src: string, s: nat, caps: Caps)
    requires At(pat, p) == '%' && At(pat, p + 1) == 'b' && s <= |src| && CapsOk(caps, s)
    ensures var b, e := At(pat, p + 2), At(pat, p + 3);
      if b == NUL || e == NUL then Best(Parse(pat, p), src, s, caps) == Err(NoBalance)
      else |Parse(pat, p + 4)| < |Parse(pat, p)| && Best(Parse(pat, p), src, s, caps) == BestItem(Balance(b, e), Parse(pat, p + 4), src, s, caps)
  {
    var b, e := At(pat, p + 2), At(pat, p + 3);
    if b == NUL || e == NUL {
      BestFirst(Bad(NoBalance), [], src, s, caps);
    } else {
      BestFirst(Balance(b, e), Parse(pat, p + 4), src, s, caps);
    }
  }

  lemma FrontierItem(pat: string, p: nat, src: string, s: nat, caps: Caps)
    requires At(pat, p) == '%' && At(pat, p + 1) == 'f' && s <= |src| && CapsOk(caps, s)
    ensures At(pat, p + 2) != '[' ==> Best(Parse(pat, p), src, s, caps) == Err(NoFrontierSet)
    ensures At(pat, p + 2) == '[' && ItemEnd(pat, p + 2).None? ==> Best(Parse(pat, p), src, s, caps) == Err(SetEnds)
    ensures At(pat, p + 2) == '[' && ItemEnd(pat, p + 2).Some? ==>
      var ep := ItemEnd(pat, p + 2).value;
      && |Parse(pat, ep)| < |Parse(pat, p)|
      && Best(Parse(pat, p), src, s, caps) == BestItem(Frontier(SetAt(pat, p + 2, ep - 1)), Parse(pat, ep), src, s, caps)
  {
    if At(pat, p + 2) != '[' {
      BestFirst(Bad(NoFrontierSet), [], src, s, caps);
    } else if ItemEnd(pat, p + 2).None? {
      BestFirst(Bad(SetEnds), [], src, s, caps);
    } else {
      var ep := ItemEnd(pat, p + 2).value;
      BestFirst(Frontier(SetAt(pat, p + 2, ep - 1)), Parse(pat, ep), src, s, caps);
    }
  }

  lemma BackItem(pat: string, p: nat, src: string, s: nat, caps: Caps)
    requires At(pat, p) == '%' && IsDigit(At(pat, p + 1)) && s <= |src| && CapsOk(caps, s)
    ensures |Parse(pat, p + 2)| < |Parse(pat, p)|
    ensures Best(Parse(pat, p), src, s, caps) == BestItem(Back(At(pat, p + 1)), Parse(pat, p + 2), src, s, caps)
  {
    BestFirst(Back(At(pat, p + 1)), Parse(pat, p + 2), src, s, caps);
  }

  lemma PlainItem(pat: string, p: nat, src: string, s: nat, caps: Caps)
    requires IsPlain(pat, p) && s <= |src| && CapsOk(caps, s)
    ensures ItemEnd(pat, p).None? ==> Best(Parse(pat, p), src, s, caps) == Err(if At(pat, p) == '%' then EscapeEnds else SetEnds)
    ensures ItemEnd(pat, p).Some? ==>
      var ep := ItemEnd(pat, p).value;
      var q := QuantOf(At(pat, ep));
      var rest := Parse(pat, if q == Once then ep else ep + 1);
      && |rest| < |Parse(pat, p)|
      && Best(Parse(pat, p), src, s, caps) == BestSingle(ClassAt(pat, p, ep), q, rest, src, s, caps)
  {
    assert Parse(pat, p) == ParseSingle(pat, p);
    if ItemEnd(pat, p).None? {
      BestFirst(Bad(if At(pat, p) == '%' then EscapeEnds else SetEnds), [], src, s, caps);
    } else {
      var ep := ItemEnd(pat, p).value;
      var q := QuantOf(At(pat, ep));
      BestFirst(Single(ClassAt(pat, p, ep), q), Parse(pat, if q == Once then ep else ep + 1), src, s, caps);
    }
  }

  lemma {:induction false} RunIs(k: Cls, src: string, s: nat, n: nat)
    requires TakesAll(k, src, s, s + n) && !Takes(k, src, s + n)
    ensures Run(k, src, s) == n
    decreases n
  {
    if n > 0 { RunIs(k, src, s + 1, n - 1); }
  }

  lemma OpenItem(pat: string, p: nat, src: string, s: nat, caps: Caps)
    requires At(pat, p) == '(' && s <= |src| && CapsOk(caps, s)
    ensures var position := At(pat, p + 1) == ')'; var rest := Parse(pat, if position then p + 2 else p + 1);
      |rest| < |Parse(pat, p)| && Best(Parse(pat, p), src, s, caps) == BestItem(Open(position), rest, src, s, caps)
  {
    var position := At(pat, p + 1) == ')';
    BestFirst(Open(position), Parse(pat, if position then p + 2 else p + 1), src, s, caps);
  }

  lemma CloseItem(pat: string, p: nat, src: string, s: nat, caps: Caps)
    requires At(pat, p) == ')' && s <= |src| && CapsOk(caps, s)
    ensures |Parse(pat, p + 1)| < |Parse(pat, p)| && Best(Parse(pat, p), src, s, caps) == BestItem(Close, Parse(pat, p + 1), src, s, caps)
  {
    BestFirst(Close, Parse(pat, p + 1), src, s, caps);
  }
}
