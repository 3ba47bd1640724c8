/** What Lua patterns mean. */
module LuaPattern {
  import opened LuaClass

  datatype Quant = Once | Optional | Star | Plus | Minus

  datatype Item =
    | Single(k: Cls, q: Quant)
    | Open(position: bool)
    | Close
    | Balance(b: char, e: char)
    | Frontier(k: Cls)
    | Back(d: char)
    | End
    | Bad(error: Error)

  type Items = seq<Item>

  function QuantOf(c: char): Quant {
    match c
    case '?' => Optional
    case '*' => Star
    case '+' => Plus
    case '-' => Minus
    case _ => Once
  }

  /** The items of a pattern from `p` on, up to an error if there is one. */
  function Parse(pat: string, p: nat): Items
    decreases |pat| - p
  {
    var c, d := At(pat, p), At(pat, p + 1);
    if c == NUL then []
    else if c == '(' then (if d == ')' then [Open(true)] + Parse(pat, p + 2) else [Open(false)] + Parse(pat, p + 1))
    else if c == ')' then [Close] + Parse(pat, p + 1)
    else if c == '%' && d == 'b' then
      if At(pat, p + 2) == NUL || At(pat, p + 3) == NUL then [Bad(NoBalance)]
      else [Balance(At(pat, p + 2), At(pat, p + 3))] + Parse(pat, p + 4)
    else if c == '%' && d == 'f' then
      if At(pat, p + 2) != '[' then [Bad(NoFrontierSet)]
      else
        match ItemEnd(pat, p + 2)
        case None => [Bad(SetEnds)]
        case Some(ep) => [Frontier(SetAt(pat, p + 2, ep - 1))] + Parse(pat, ep)
    else if c == '%' && IsDigit(d) then [Back(d)] + Parse(pat, p + 2)
    else if c == '$' && d == NUL then [End]
    else ParseSingle(pat, p)
  }

  function ParseSingle(pat: string, p: nat): Items
    requires At(pat, p) != NUL
    decreases |pat| - p, 0
  {
    match ItemEnd(pat, p)
    case None => [Bad(if At(pat, p) == '%' then EscapeEnds else SetEnds)]
    case Some(ep) =>
      var q := QuantOf(At(pat, ep));
      [Single(ClassAt(pat, p, ep), q)] + Parse(pat, if q == Once then ep else ep + 1)
  }

  // ---------------------------------------------------------------- the language of a pattern

  /** The character at `s` is there and accepted. */
  predicate Takes(k: Cls, src: string, s: nat) { s < |src| && Holds(k, src[s]) }

  /** And all up to `t`. */
  predicate TakesAll(k: Cls, src: string, s: nat, t: nat) { s <= t <= |src| && forall i | s <= i < t :: Holds(k, src[i]) }

  /** How many more `b` than `e` there are; `e` wins if they are the same. */
  function Excess(src: string, s: nat, t: nat, b: char, e: char): int
    requires s <= t <= |src|
    decreases t - s
  {
    if s == t then 0
    else Excess(src, s, t - 1, b, e) + (if src[t - 1] == e then -1 else if src[t - 1] == b then 1 else 0)
  }

  /** From `s` to `t` there is a `b`, and the first place where as many `e` have followed. */
  predicate Balanced(src: string, s: nat, t: nat, b: char, e: char) {
    s + 2 <= t <= |src| && src[s] == b && Excess(src, s + 1, t, b, e) == -1 && StillOpen(src, s + 1, t, b, e)
  }

  predicate StillOpen(src: string, f: nat, t: nat, b: char, e: char)
    requires t <= |src|
  {
    forall i | f <= i < t :: Excess(src, f, i, b, e) > -1
  }

  predicate AtFrontier(k: Cls, src: string, s: nat)
    requires s <= |src|
  {
    !Holds(k, if s == 0 then NUL else src[s - 1]) && Holds(k, if s < |src| then src[s] else NUL)
  }

  predicate CaptureFree(p: Items) { forall i <- p :: !i.Open? && !i.Close? && !i.Back? && !i.Bad? }

  /** The text from `s` to `e` is in the language of the pattern. */
  ghost predicate InLang(p: Items, src: string, s: nat, e: nat)
    requires s <= |src|
    decreases |p|
  {
    if p == [] then e == s
    else
      var rest := p[1..];
      match p[0]
      case Single(k, q) =>
        (match q
         case Once => Takes(k, src, s) && InLang(rest, src, s + 1, e)
         case Optional => InLang(rest, src, s, e) || (Takes(k, src, s) && InLang(rest, src, s + 1, e))
         case Star => exists t: nat :: TakesAll(k, src, s, t) && InLang(rest, src, t, e)
         case Plus => exists t: nat :: t > s && TakesAll(k, src, s, t) && InLang(rest, src, t, e)
         case Minus => exists t: nat :: TakesAll(k, src, s, t) && InLang(rest, src, t, e))
      case Balance(b, x) => exists t: nat :: Balanced(src, s, t, b, x) && InLang(rest, src, t, e)
      case Frontier(k) => AtFrontier(k, src, s) && InLang(rest, src, s, e)
      case End => s == |src| && InLang(rest, src, s, e)
      case _ => false
  }

  // ---------------------------------------------------------------- what the matcher finds

  datatype Len = Unfinished | Position | Closed(n: nat)

  datatype Cap = Cap(init: nat, len: Len)

  type Caps = seq<Cap>

  const MAXCAPTURES := 32

  /** What a match gives: an end and the captures, nothing, or an error. */
  datatype Outcome = Match(e: nat, caps: Caps) | NoMatch | Err(error: Error)

  /** The last capture that is still open. */
  function ToClose(caps: Caps): Option<nat> {
    if caps == [] then None
    else if caps[|caps| - 1].len.Unfinished? then Some(|caps| - 1)
    else ToClose(caps[..|caps| - 1])
  }

  /** A closed capture lies in the text. */
  predicate CapsOk(caps: Caps, s: nat) {
    |caps| <= MAXCAPTURES && forall c <- caps :: c.init + (if c.len.Closed? then c.len.n else 0) <= s
  }

  /** check_capture */
  function CapIndex(caps: Caps, d: char): Option<nat> {
    var l := d as int - '1' as int;
    if l < 0 || l >= |caps| || caps[l].len.Unfinished? then None else Some(l)
  }

  /** The longest run of accepted characters. */
  function Run(k: Cls, src: string, s: nat): (n: nat)
    requires s <= |src|
    ensures TakesAll(k, src, s, s + n) && !Takes(k, src, s + n)
    decreases |src| - s
  {
    if Takes(k, src, s) then Run(k, src, s + 1) + 1 else 0
  }

  /** Where the balance of the `b` before `s` is reached, with `depth` of them open. */
  function BalanceEnd(src: string, s: nat, b: char, e: char, depth: nat): Option<nat>
    requires s <= |src| && depth > 0
    decreases |src| - s
  {
    if s == |src| then None
    else if src[s] == e then (if depth == 1 then Some(s + 1) else BalanceEnd(src, s + 1, b, e, depth - 1))
    else BalanceEnd(src, s + 1, b, e, if src[s] == b then depth + 1 else depth)
  }

  /** The first match in the order in which alternatives are tried: more repetitions before
      fewer, except for `-`. Captures are tracked on the way. */
  function Best(p: Items, src: string, s: nat, caps: Caps): Outcome
    requires s <= |src| && CapsOk(caps, s)
    decreases |p|, 0
  {
    if p == [] then Match(s, caps) else BestItem(p[0], p[1..], src, s, caps)
  }

  function BestItem(i: Item, rest: Items, src: string, s: nat, caps: Caps): Outcome
    requires s <= |src| && CapsOk(caps, s)
    decreases |rest|, |src| + 3
  {
    match i
    case Single(k, q) => BestSingle(k, q, rest, src, s, caps)
    case Open(position) =>
      if |caps| >= MAXCAPTURES then Err(TooManyCaptures)
      else Best(rest, src, s, caps + [Cap(s, if position then Position else Unfinished)])
    case Close =>
      (match ToClose(caps)
       case None => Err(NothingToClose)
       case Some(l) => CloseOk(caps, s); Best(rest, src, s, caps[l := Cap(caps[l].init, Closed(s - caps[l].init))]))
    case Back(d) =>
      if CapIndex(caps, d).None? then Err(BadCapture)
      else
        var c := caps[CapIndex(caps, d).value];
        if Repeats(src, c, s) then CapsLater(caps, s, s + c.len.n); Best(rest, src, s + c.len.n, caps) else NoMatch
    case Balance(b, e) =>
      if s == |src| || src[s] != b then NoMatch
      else
        (match BalanceEnd(src, s + 1, b, e, 1)
         case None => NoMatch
         case Some(t) => BalanceEnds(src, s + 1, b, e, 1); CapsLater(caps, s, t); Best(rest, src, t, caps))
    case Frontier(k) => if AtFrontier(k, src, s) then Best(rest, src, s, caps) else NoMatch
    case End => if s == |src| then Best(rest, src, s, caps) else NoMatch
    case Bad(error) => Err(error)
  }

  /** The text at `s` is the same as that of a closed capture. */
  predicate Repeats(src: string, c: Cap, s: nat)
    requires s <= |src| && c.init + (if c.len.Closed? then c.len.n else 0) <= s
  {
    c.len.Closed? && c.len.n <= |src| - s && src[c.init..c.init + c.len.n] == src[s..s + c.len.n]
  }

  function BestSingle(k: Cls, q: Quant, rest: Items, src: string, s: nat, caps: Caps): Outcome
    requires s <= |src| && CapsOk(caps, s)
    decreases |rest|, |src| + 2
  {
    match q
    case Once => if Takes(k, src, s) then Best(rest, src, s + 1, caps) else NoMatch
    case Optional =>
      var o := if Takes(k, src, s) then Best(rest, src, s + 1, caps) else NoMatch;
      if o.NoMatch? then Best(rest, src, s, caps) else o
    case Star => Down(rest, src, s, Run(k, src, s), caps)
    case Plus => if Takes(k, src, s) then Down(rest, src, s + 1, Run(k, src, s + 1), caps) else NoMatch
    case Minus => Up(k, rest, src, s, caps)
  }

  /** From `n` repetitions down to none. */
  function Down(rest: Items, src: string, s: nat, n: nat, caps: Caps): Outcome
    requires s + n <= |src| && CapsOk(caps, s)
    decreases |rest|, n + 1
  {
    CapsLater(caps, s, s + n);
    var o := Best(rest, src, s + n, caps);
    if o.NoMatch? && n > 0 then Down(rest, src, s, n - 1, caps) else o
  }

  /** One repetition more each time. */
  function Up(k: Cls, rest: Items, src: string, s: nat, caps: Caps): Outcome
    requires s <= |src| && CapsOk(caps, s)
    decreases |rest|, |src| - s + 1
  {
    var o := Best(rest, src, s, caps);
    if o.NoMatch? && Takes(k, src, s) then Up(k, rest, src, s + 1, caps) else o
  }

  lemma CapsLater(caps: Caps, s: nat, t: nat)
    requires CapsOk(caps, s) && s <= t
    ensures CapsOk(caps, t)
  {}

  lemma {:induction false} ToCloseIs(caps: Caps)
    requires ToClose(caps).Some?
    ensures ToClose(caps).value < |caps| && caps[ToClose(caps).value].len.Unfinished?
    decreases |caps|
  {
    if !caps[|caps| - 1].len.Unfinished? { ToCloseIs(caps[..|caps| - 1]); }
  }

  lemma CloseOk(caps: Caps, s: nat)
    requires CapsOk(caps, s) && ToClose(caps).Some?
    ensures ToClose(caps).value < |caps|
    ensures var l := ToClose(caps).value; caps[l].init <= s && CapsOk(caps[l := Cap(caps[l].init, Closed(s - caps[l].init))], s)
  {
    ToCloseIs(caps);
  }

  lemma {:induction false} BalanceEnds(src: string, s: nat, b: char, e: char, depth: nat)
    requires s <= |src| && depth > 0
    ensures BalanceEnd(src, s, b, e, depth).Some? ==> s < BalanceEnd(src, s, b, e, depth).value <= |src|
    decreases |src| - s
  {
    if s < |src| && !(src[s] == e && depth == 1) {
      BalanceEnds(src, s + 1, b, e, if src[s] == e then depth - 1 else if src[s] == b then depth + 1 else depth);
    }
  }
}
