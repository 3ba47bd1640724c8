/** Character classes of Lua patterns. A pattern ends at its first zero character. */
module LuaClass {
  const NUL: char := 0 as char

  /** Reading a string that is terminated by a zero. */
  function At(pat: string, p: nat): char { if p < |pat| then pat[p] else NUL }

  predicate IsDigit(c: char) { '0' <= c <= '9' }

  predicate IsAlpha(c: char) { 'a' <= c <= 'z' || 'A' <= c <= 'Z' }

  predicate IsPunct(c: char) { '!' <= c <= '/' || ':' <= c <= '@' || '[' <= c <= '`' || '{' <= c <= '~' }

  datatype Option<T> = None | Some(value: T)

  /** The classes with a letter, by the number of the letter. */
  function Letter(n: nat, c: char): Option<bool> {
    match n
    case 1 => Some(IsAlpha(c))
    case 3 => Some(c as int < 32 || c as int == 127)
    case 4 => Some(IsDigit(c))
    case 7 => Some(IsAlpha(c) || IsDigit(c) || IsPunct(c))
    case 12 => Some('a' <= c <= 'z')
    case 16 => Some(IsPunct(c))
    case 19 => Some(9 <= c as int <= 13 || c == ' ')
    case 21 => Some('A' <= c <= 'Z')
    case 23 => Some(IsAlpha(c) || IsDigit(c))
    case 24 => Some(IsDigit(c) || 'a' <= c <= 'f' || 'A' <= c <= 'F')
    case _ => None
  }

  /** match_class */
  function MatchClass(c: char, cl: char): (b: bool)
    ensures IsDigit(cl) || IsPunct(cl) ==> b == (c == cl)
    ensures 'a' <= cl <= 'y' && Letter(cl as int - 96, c).Some? ==> b != MatchClass(c, (cl as int - 32) as char)
  {
    var n := cl as int;
    if 64 <= n < 128 && Letter(n % 32, c).Some? then Letter(n % 32, c).value == (n >= 96)
    else if cl == 'z' then c == NUL
    else if cl == 'Z' then c != NUL
    else c == cl
  }

  /** The classes fit together: a character of ASCII is a control character, the blank, a letter, a digit or
      punctuation, and only one of them; a letter is upper or lower case, and only one of these. */
  lemma ClassesPart(c: char)
    requires c as int < 128
    ensures MatchClass(c, 'g') == !(MatchClass(c, 'c') || c == ' ') && MatchClass(c, 'g') == ('!' <= c <= '~')
    ensures MatchClass(c, 'g') == (MatchClass(c, 'w') || MatchClass(c, 'p')) && !(MatchClass(c, 'w') && MatchClass(c, 'p'))
    ensures MatchClass(c, 'w') == (MatchClass(c, 'a') || MatchClass(c, 'd')) && !(MatchClass(c, 'a') && MatchClass(c, 'd'))
    ensures MatchClass(c, 'a') == (MatchClass(c, 'u') || MatchClass(c, 'l')) && !(MatchClass(c, 'u') && MatchClass(c, 'l'))
  {}

  /** Upper case is 32 below lower case. */
  lemma UpperLower(c: char)
    requires c as int < 128
    ensures MatchClass(c, 'u') <==> c as int < 96 && MatchClass((c as int + 32) as char, 'l')
  {}

  datatype SetItem = Esc(cl: char) | Range(lo: char, hi: char) | One(c: char)

  predicate InItem(c: char, i: SetItem) {
    match i
    case Esc(cl) => MatchClass(c, cl)
    case Range(lo, hi) => lo <= c <= hi
    case One(d) => c == d
  }

  /** What is written between brackets, from `p` to the closing one at `ec`. */
  function SetOf(pat: string, p: nat, ec: nat): seq<SetItem>
    decreases ec - p
  {
    if p >= ec then []
    else if At(pat, p) == '%' then [Esc(At(pat, p + 1))] + SetOf(pat, p + 2, ec)
    else if At(pat, p + 1) == '-' && p + 2 < ec then [Range(At(pat, p), At(pat, p + 2))] + SetOf(pat, p + 3, ec)
    else [One(At(pat, p))] + SetOf(pat, p + 1, ec)
  }

  /** What one pattern item accepts. */
  datatype Cls = AnyChar | Class(cl: char) | Set(negated: bool, items: seq<SetItem>) | Lit(c: char)

  predicate Holds(k: Cls, c: char) {
    match k
    case AnyChar => true
    case Class(cl) => MatchClass(c, cl)
    case Set(negated, items) => (exists i <- items :: InItem(c, i)) != negated
    case Lit(d) => c == d
  }

  /** The set whose opening bracket is at `p` and whose closing one is at `ec`. */
  function SetAt(pat: string, p: nat, ec: nat): Cls {
    var negated := At(pat, p + 1) == '^';
    Set(negated, SetOf(pat, if negated then p + 2 else p + 1, ec))
  }

  function ClassAt(pat: string, p: nat, ep: nat): Cls
    requires ep > p
  {
    match At(pat, p)
    case '.' => AnyChar
    case '%' => Class(At(pat, p + 1))
    case '[' => SetAt(pat, p, ep - 1)
    case c => Lit(c)
  }

  /** Where a set ends whose contents go on at `p`, if it does. */
  function SetEnd(pat: string, p: nat): (r: Option<nat>)
    ensures r.Some? ==> p < r.value <= |pat|
    decreases |pat| - p
  {
    if At(pat, p) == NUL then None
    else
      var q := if At(pat, p) == '%' && At(pat, p + 1) != NUL then p + 2 else p + 1;
      if At(pat, q) == ']' then Some(q + 1) else SetEnd(pat, q)
  }

  // ---------------------------------------------------------------- the two scans of a set

  /** Where the scan of the items of a set stops. */
  function Stop(pat: string, p: nat, ec: nat): nat
    decreases ec - p
  {
    if p >= ec then p
    else if At(pat, p) == '%' then Stop(pat, p + 2, ec)
    else if At(pat, p + 1) == '-' && p + 2 < ec then Stop(pat, p + 3, ec)
    else Stop(pat, p + 1, ec)
  }

  /** Some range of that scan has its upper bound at `r`. */
  predicate BoundAt(pat: string, p: nat, ec: nat, r: nat)
    decreases ec - p
  {
    if p >= ec then false
    else if At(pat, p) == '%' then BoundAt(pat, p + 2, ec, r)
    else if At(pat, p + 1) == '-' && p + 2 < ec then r == p + 2 || BoundAt(pat, p + 3, ec, r)
    else BoundAt(pat, p + 1, ec, r)
  }

  /** The start of the run of % right before `ec`, `ec` itself if there is none. */
  function RunStart(pat: string, p: nat, ec: nat): (r: nat)
    ensures r <= ec && (p <= ec ==> p <= r)
  {
    if ec > p && At(pat, ec - 1) == '%' then RunStart(pat, p, ec - 1) else ec
  }

  lemma {:induction false} RunFrom(pat: string, p: nat, q: nat, ec: nat)
    requires p <= q <= ec
    ensures RunStart(pat, p, ec) == if RunStart(pat, q, ec) > q then RunStart(pat, q, ec) else RunStart(pat, p, q)
    decreases ec
  {
    if ec > q && At(pat, ec - 1) == '%' { RunFrom(pat, p, q, ec - 1); }
  }

  lemma {:induction false} BoundAfter(pat: string, p: nat, ec: nat, r: nat)
    requires BoundAt(pat, p, ec, r)
    ensures p + 2 <= r < ec
    decreases ec - p
  {
    if At(pat, p) == '%' {
      BoundAfter(pat, p + 2, ec, r);
    } else if At(pat, p + 1) == '-' && p + 2 < ec {
      if r != p + 2 { BoundAfter(pat, p + 3, ec, r); }
    } else {
      BoundAfter(pat, p + 1, ec, r);
    }
  }

  /** The scan for the end takes % and what follows it together, and so finds an even number of %
      in front of the bracket. */
  lemma {:induction false} EvenRun(pat: string, p: nat, ec: nat)
    requires SetEnd(pat, p) == Some(ec + 1)
    ensures p < ec && At(pat, ec) == ']' && (ec - RunStart(pat, p, ec)) % 2 == 0
    decreases |pat| - p
  {
    var q := if At(pat, p) == '%' && At(pat, p + 1) != NUL then p + 2 else p + 1;
    if At(pat, q) != ']' { EvenRun(pat, q, ec); }
    RunFrom(pat, p, q, ec);
    ShortRun(pat, p);
  }

  lemma ShortRun(pat: string, p: nat)
    ensures RunStart(pat, p, p) == p && RunStart(pat, p, p + 1) == if At(pat, p) == '%' then p else p + 1
    ensures RunStart(pat, p, p + 2) == if At(pat, p + 1) != '%' then p + 2 else if At(pat, p) == '%' then p else p + 1
    ensures RunStart(pat, p, p + 3) == if At(pat, p + 2) != '%' then p + 3 else RunStart(pat, p, p + 2)
  {}

  /** The scan of the items goes past `ec` if the run of % is odd, or even and begun by a range. */
  lemma {:induction false} StopIs(pat: string, p: nat, ec: nat)
    requires p <= ec
    ensures var r := RunStart(pat, p, ec);
      Stop(pat, p, ec) == if ((ec - r) % 2 == 1) != BoundAt(pat, p, ec, r) then ec + 1 else ec
    decreases ec - p
  {
    hide RunStart;
    ShortRun(pat, p);
    var q := if p == ec then p else if At(pat, p) == '%' then p + 2 else if At(pat, p + 1) == '-' && p + 2 < ec then p + 3 else p + 1;
    if p < q <= ec {
      StopIs(pat, q, ec);
      RunFrom(pat, p, q, ec);
      NoBoundBefore(pat, q, ec);
    }
  }

  lemma NoBoundBefore(pat: string, q: nat, ec: nat)
    ensures forall r: nat | BoundAt(pat, q, ec, r) :: r >= q + 2
  {
    forall r: nat | BoundAt(pat, q, ec, r)
      ensures r >= q + 2
    {
      BoundAfter(pat, q, ec, r);
    }
  }

  /** The two scans of a set agree on where it ends, unless the bracket is preceded by % and the
      first % of that run is the upper bound of a range. Then the item scan takes an escape over the
      bracket, which thereby belongs to the set. */
  lemma ScansAgree(pat: string, p: nat, ec: nat)
    requires SetEnd(pat, p) == Some(ec + 1)
    ensures var r := RunStart(pat, p, ec); Stop(pat, p, ec) == ec <==> !(r < ec && BoundAt(pat, p, ec, r))
    ensures Stop(pat, p, ec) != ec ==> Stop(pat, p, ec) == ec + 1 && EndsEscaped(SetOf(pat, p, ec))
  {
    EvenRun(pat, p, ec);
    StopIs(pat, p, ec);
    if BoundAt(pat, p, ec, RunStart(pat, p, ec)) { BoundAfter(pat, p, ec, RunStart(pat, p, ec)); }
    if Stop(pat, p, ec) != ec { LastEscape(pat, p, ec); }
  }

  predicate EndsEscaped(items: seq<SetItem>) { items != [] && items[|items| - 1] == Esc(']') }

  lemma {:induction false} LastEscape(pat: string, p: nat, ec: nat)
    requires p < ec && Stop(pat, p, ec) == ec + 1 && At(pat, ec) == ']'
    ensures EndsEscaped(SetOf(pat, p, ec))
    decreases ec - p
  {
    var q := if At(pat, p) == '%' then p + 2 else if At(pat, p + 1) == '-' && p + 2 < ec then p + 3 else p + 1;
    if q < ec { LastEscape(pat, q, ec); }
  }

  /** A set on which they disagree. */
  lemma EscapedBracket()
    ensures SetEnd("[a-%%]", 1) == Some(6) && SetOf("[a-%%]", 1, 5) == [Range('a', '%'), Esc(']')]
    ensures Stop("[a-%%]", 1, 5) == 6 && Holds(SetAt("[a-%%]", 0, 5), ']')
  {
    var pat := "[a-%%]";
    assert SetEnd(pat, 3) == Some(6) && SetEnd(pat, 2) == Some(6);
    assert SetOf(pat, 6, 5) == [] && SetOf(pat, 4, 5) == [Esc(']')] + [];
    assert SetOf(pat, 1, 5)[1] == Esc(']') && InItem(']', Esc(']'));
    assert Stop(pat, 6, 5) == 6 && Stop(pat, 4, 5) == 6;
  }

  datatype Error = EscapeEnds | SetEnds | NoBalance | NoFrontierSet | TooComplex | TooManyCaptures | BadCapture | NothingToClose

  /** classend: where the pattern item at `p` ends, or the error. */
  function ItemEnd(pat: string, p: nat): (r: Option<nat>)
    requires At(pat, p) != NUL
    ensures r.Some? ==> p < r.value <= |pat|
  {
    match At(pat, p)
    case '%' => if At(pat, p + 1) == NUL then None else Some(p + 2)
    case '[' => SetEnd(pat, if At(pat, p + 1) == '^' then p + 2 else p + 1)
    case _ => Some(p + 1)
  }
}
