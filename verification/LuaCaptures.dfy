/** Captures of Lua patterns: which parentheses belong together, and what the first match records. */
module LuaCaptures {
  import opened LuaClass
  import opened LuaPattern
  import opened LuaLanguage
  import LuaMatch

  // ---------------------------------------------------------------- parentheses

  /** How many more captures are opened than closed from item `i` up to `j`. */
  function Nest(p: Items, i: nat, j: nat): int
    requires i <= j <= |p|
    decreases j - i
  {
    if i == j then 0 else Nest(p, i, j - 1) + if p[j - 1] == Open(false) then 1 else if p[j - 1].Close? then -1 else 0
  }

  /** The closing parenthesis at `c` belongs to the opening one at `o`: what is in between is balanced. */
  ghost predicate Encloses(p: Items, o: nat, c: nat) {
    o < c < |p| && p[o] == Open(false) && p[c].Close? && Nest(p, o + 1, c) == 0 && NoSurplus(p, o + 1, c)
  }

  /** Nowhere up to `i` have more been closed than opened. */
  ghost predicate NoSurplus(p: Items, a: nat, i: nat)
    requires i <= |p|
  {
    forall j | a <= j <= i :: Nest(p, a, j) >= 0
  }

  ghost predicate ClosedBy(p: Items, o: nat, i: nat, c: nat) { Encloses(p, o, c) && c < i }

  /** Captures are numbered by their opening parentheses. */
  function Opens(p: Items, i: nat): nat
    requires i <= |p|
  {
    if i == 0 then 0 else Opens(p, i - 1) + if p[i - 1].Open? then 1 else 0
  }

  lemma {:induction false} NestSplit(p: Items, a: nat, b: nat, c: nat)
    requires a <= b <= c <= |p|
    ensures Nest(p, a, c) == Nest(p, a, b) + Nest(p, b, c)
    decreases c
  {
    if b < c { NestSplit(p, a, b, c - 1); }
  }

  lemma {:induction false} OpensOrder(p: Items, a: nat, b: nat)
    requires a <= b <= |p|
    ensures Opens(p, a) <= Opens(p, b) && (a < b && p[a].Open? ==> Opens(p, a) < Opens(p, b))
    decreases b
  {
    if a < b { OpensOrder(p, a, b - 1); }
  }

  lemma {:induction false} OpenAt(p: Items, i: nat, l: nat) returns (o: nat)
    requires i <= |p| && l < Opens(p, i)
    ensures o < i && p[o].Open? && Opens(p, o) == l
  {
    if p[i - 1].Open? && Opens(p, i - 1) == l { o := i - 1; } else { o := OpenAt(p, i - 1, l); }
  }

  /** If there are more closing ones behind `o`, the first surplus one belongs to it. */
  lemma {:induction false} Drops(p: Items, o: nat, k: nat, i: nat) returns (c: nat)
    requires o < k <= i <= |p| && p[o] == Open(false) && NoSurplus(p, o + 1, k) && Nest(p, o + 1, i) < 0
    ensures ClosedBy(p, o, i, c)
    decreases i - k
  {
    if Nest(p, o + 1, k + 1) < 0 {
      assert Nest(p, o + 1, k + 1) == Nest(p, o + 1, k) + if p[k] == Open(false) then 1 else if p[k].Close? then -1 else 0;
      c := k;
    } else { c := Drops(p, o, k + 1, i); }
  }

  lemma StaysOpen(p: Items, o: nat, i: nat)
    requires o < i <= |p| && p[o] == Open(false)
    ensures (forall c :: !ClosedBy(p, o, i, c)) <==> NoSurplus(p, o + 1, i)
  {
    var a := o + 1;
    if !NoSurplus(p, a, i) {
      var j :| a <= j <= i && Nest(p, a, j) < 0;
      var c := Drops(p, o, a, j);
      assert ClosedBy(p, o, i, c);
    }
    if c: nat :| ClosedBy(p, o, i, c) { assert Nest(p, a, c + 1) == -1; }
  }

  /** Where the nesting rises to `m` for the last time. */
  lemma {:induction false} Rises(p: Items, a: nat, i: nat, m: int) returns (j: nat)
    requires a <= i <= |p| && Nest(p, a, i) >= m >= 1
    ensures a <= j < i && p[j] == Open(false) && Nest(p, a, j) == m - 1 && forall k | j < k <= i :: Nest(p, a, k) >= m
    decreases i
  {
    if Nest(p, a, i - 1) >= m { j := Rises(p, a, i - 1, m); } else { j := i - 1; }
  }

  /** If more have been opened than closed, one of them is still open. */
  lemma OneOpen(p: Items, a: nat, i: nat) returns (o: nat)
    requires a <= i <= |p| && Nest(p, a, i) > 0
    ensures a <= o < i && p[o] == Open(false) && forall c :: !ClosedBy(p, o, i, c)
  {
    o := Rises(p, a, i, 1);
    var b := o + 1;
    forall j | b <= j <= i
      ensures Nest(p, b, j) >= 0
    {
      NestSplit(p, a, b, j);
    }
    StaysOpen(p, o, i);
  }

  /** The last capture that is still open is the one to close. */
  lemma LastEncloses(p: Items, o: nat, i: nat)
    requires o < i < |p| && p[i].Close? && p[o] == Open(false) && forall c :: !ClosedBy(p, o, i, c)
    requires forall o': nat | o < o' < i && p[o'] == Open(false) :: exists c :: ClosedBy(p, o', i, c)
    ensures Encloses(p, o, i)
  {
    StaysOpen(p, o, i);
    if Nest(p, o + 1, i) > 0 { var o' := OneOpen(p, o + 1, i); }
  }

  /** No two opening parentheses belong to the same closing one. */
  lemma EnclosesOnce(p: Items, o: nat, o': nat, c: nat)
    requires Encloses(p, o, c) && Encloses(p, o', c)
    ensures o == o'
  {
    var a, b := if o < o' then o else o', if o < o' then o' else o;
    if a < b {
      NestSplit(p, a + 1, b, c);
      NestSplit(p, b, b + 1, c);
      assert Nest(p, b, b + 1) == 1;
    }
  }

  // ---------------------------------------------------------------- what is recorded

  /** Where the matcher is in front of each item, and at the end. */
  type Trace = seq<nat>

  /** Before item `i` the capture opened at `o` starts where that parenthesis was met, and ends where
      the one that belongs to it was. */
  ghost predicate CapIs(p: Items, tr: Trace, o: nat, i: nat, c: Cap)
    requires o < i <= |p| && |tr| >= i && p[o].Open?
  {
    && c.init == tr[o]
    && match c.len
       case Position => p[o].position
       case Closed(n) => exists z: nat :: ClosedBy(p, o, i, z) && tr[z] == tr[o] + n
       case Unfinished => !p[o].position && forall z :: !ClosedBy(p, o, i, z)
  }

  ghost predicate Records(p: Items, tr: Trace, i: nat, caps: Caps)
    requires i <= |p| && |tr| >= i
  {
    |caps| == Opens(p, i) && forall o: nat | o < i && p[o].Open? :: Opens(p, o) < |caps| && CapIs(p, tr, o, i, caps[Opens(p, o)])
  }

  lemma CapLater(p: Items, tr: Trace, o: nat, i: nat, c: Cap, t: nat)
    requires o < i < |p| && |tr| == i + 1 && p[o].Open? && CapIs(p, tr, o, i, c) && !Encloses(p, o, i)
    ensures CapIs(p, tr + [t], o, i + 1, c)
  {
    if c.len.Closed? {
      var z: nat :| ClosedBy(p, o, i, z) && tr[z] == tr[o] + c.len.n;
      assert ClosedBy(p, o, i + 1, z) && (tr + [t])[z] == tr[z];
    }
    if c.len.Unfinished? {
      var n := i + 1;
      forall z: nat
        ensures !ClosedBy(p, o, n, z)
      {
        assert !ClosedBy(p, o, i, z);
      }
    }
  }

  lemma RecordsSame(p: Items, tr: Trace, i: nat, caps: Caps, t: nat)
    requires i < |p| && |tr| == i + 1 && Records(p, tr, i, caps) && !p[i].Open? && !p[i].Close?
    ensures Records(p, tr + [t], i + 1, caps)
  {
    forall o: nat | o < i + 1 && p[o].Open?
      ensures Opens(p, o) < |caps| && CapIs(p, tr + [t], o, i + 1, caps[Opens(p, o)])
    {
      CapLater(p, tr, o, i, caps[Opens(p, o)], t);
    }
  }

  lemma RecordsOpen(p: Items, tr: Trace, i: nat, caps: Caps, t: nat)
    requires i < |p| && |tr| == i + 1 && Records(p, tr, i, caps) && p[i].Open?
    ensures Records(p, tr + [t], i + 1, caps + [Cap(tr[i], if p[i].position then Position else Unfinished)])
  {
    var caps' := caps + [Cap(tr[i], if p[i].position then Position else Unfinished)];
    forall o: nat | o < i + 1 && p[o].Open?
      ensures Opens(p, o) < |caps'| && CapIs(p, tr + [t], o, i + 1, caps'[Opens(p, o)])
    {
      OpensOrder(p, o, i);
      if o < i { CapLater(p, tr, o, i, caps[Opens(p, o)], t); }
    }
  }

  lemma {:induction false} ToCloseLast(caps: Caps)
    ensures match ToClose(caps)
      case None => forall l | 0 <= l < |caps| :: !caps[l].len.Unfinished?
      case Some(l) => l < |caps| && caps[l].len.Unfinished? && forall k | l < k < |caps| :: !caps[k].len.Unfinished?
    decreases |caps|
  {
    if caps != [] && !caps[|caps| - 1].len.Unfinished? { ToCloseLast(caps[..|caps| - 1]); }
  }

  lemma Pending(p: Items, tr: Trace, i: nat, caps: Caps, o: nat)
    requires i <= |p| && |tr| >= i && Records(p, tr, i, caps) && o < i && p[o].Open?
    ensures Opens(p, o) < |caps|
    ensures caps[Opens(p, o)].len.Unfinished? <==> p[o] == Open(false) && forall c :: !ClosedBy(p, o, i, c)
  {
    assert CapIs(p, tr, o, i, caps[Opens(p, o)]);
    if caps[Opens(p, o)].len.Closed? {
      var z: nat :| ClosedBy(p, o, i, z) && tr[z] == tr[o] + caps[Opens(p, o)].len.n;
    }
  }

  /** A closing parenthesis closes the capture it belongs to. */
  lemma ClosesIts(p: Items, tr: Trace, i: nat, caps: Caps) returns (o: nat)
    requires i < |p| && |tr| == i + 1 && Records(p, tr, i, caps) && p[i].Close? && Nest(p, 0, i) > 0
    ensures Encloses(p, o, i) && ToClose(caps) == Some(Opens(p, o)) && Opens(p, o) < |caps|
  {
    ToCloseLast(caps);
    var a := OneOpen(p, 0, i);
    Pending(p, tr, i, caps, a);
    var l := ToClose(caps).value;
    o := OpenAt(p, i, l);
    Pending(p, tr, i, caps, o);
    forall o': nat | o < o' < i && p[o'] == Open(false)
      ensures exists c :: ClosedBy(p, o', i, c)
    {
      OpensOrder(p, o, o');
      Pending(p, tr, i, caps, o');
    }
    LastEncloses(p, o, i);
  }

  lemma RecordsClose(p: Items, tr: Trace, i: nat, caps: Caps, o: nat, t: nat)
    requires i < |p| && |tr| == i + 1 && Records(p, tr, i, caps) && Encloses(p, o, i) && Opens(p, o) < |caps| && caps[Opens(p, o)].init <= tr[i]
    ensures var l := Opens(p, o); Records(p, tr + [t], i + 1, caps[l := Cap(caps[l].init, Closed(tr[i] - caps[l].init))])
  {
    var l := Opens(p, o);
    var caps' := caps[l := Cap(caps[l].init, Closed(tr[i] - caps[l].init))];
    assert CapIs(p, tr, o, i, caps[l]);
    forall o': nat | o' < i + 1 && p[o'].Open?
      ensures Opens(p, o') < |caps'| && CapIs(p, tr + [t], o', i + 1, caps'[Opens(p, o')])
    {
      if o' == o {
        assert ClosedBy(p, o, i + 1, i);
      } else {
        OpensOrder(p, if o < o' then o else o', if o < o' then o' else o);
        if Encloses(p, o', i) { EnclosesOnce(p, o, o', i); }
        CapLater(p, tr, o', i, caps[Opens(p, o')], t);
      }
    }
  }

  // ---------------------------------------------------------------- runs of a pattern

  /** A back reference repeats the text of a capture that has been closed. */
  ghost predicate Repeated(p: Items, src: string, tr: Trace, i: nat, d: char, t: nat)
    requires i < |p| && |tr| > i
  {
    exists o: nat, z: nat ::
      ClosedBy(p, o, i, z) && Opens(p, o) == d as int - '1' as int
      && tr[o] <= tr[z] <= |src| && tr[i] <= t <= |src| && src[tr[o]..tr[z]] == src[tr[i]..t]
  }

  /** Item `i` leads from where the trace is in front of it to `t`. */
  ghost predicate Leads(p: Items, src: string, tr: Trace, i: nat, t: nat)
    requires i < |p| && |tr| > i
  {
    var s := tr[i];
    s <= t <= |src| &&
    match p[i]
    case Single(k, q) =>
      (match q
       case Once => t == s + 1 && Takes(k, src, s)
       case Optional => t == s || (t == s + 1 && Takes(k, src, s))
       case Star => TakesAll(k, src, s, t)
       case Plus => t > s && TakesAll(k, src, s, t)
       case Minus => TakesAll(k, src, s, t))
    case Open(_) => t == s
    case Close => t == s
    case Balance(b, e) => Balanced(src, s, t, b, e)
    case Frontier(k) => t == s && AtFrontier(k, src, s)
    case Back(d) => Repeated(p, src, tr, i, d, t)
    case End => t == s == |src|
    case Bad(_) => false
  }

  /** The first `n` items have led along the trace. */
  ghost predicate Runs(p: Items, src: string, tr: Trace, n: nat) {
    n <= |p| && |tr| == n + 1 && tr[0] <= |src| && forall i: nat | i < n :: Goes(p, src, tr, i)
  }

  ghost predicate Goes(p: Items, src: string, tr: Trace, i: nat)
    requires i < |p|
  {
    i + 1 < |tr| && Leads(p, src, tr, i, tr[i + 1])
  }

  /** The order in which alternatives are tried: `-` begins with the fewest repetitions, the others
      with the most. */
  predicate Sooner(x: Item, t: nat, t': nat) { if x.Single? && x.q == Minus then t < t' else t > t' }

  ghost predicate Precedes(p: Items, tr: Trace, tr': Trace) {
    |tr| == |tr'| == |p| + 1 && exists i: nat :: i < |p| && tr[..i + 1] == tr'[..i + 1] && Sooner(p[i], tr[i + 1], tr'[i + 1])
  }

  /** What makes a pattern free of errors, whatever the text. */
  ghost predicate WellFormed(p: Items) {
    && Opens(p, |p|) <= MAXCAPTURES
    && forall i: nat | i < |p| :: ItemOk(p, i)
  }

  ghost predicate ItemOk(p: Items, i: nat)
    requires i < |p|
  {
    && !p[i].Bad?
    && (p[i].Close? ==> Nest(p, 0, i) > 0)
    && (p[i].Back? ==> exists o: nat :: o < i && p[o].Open? && Opens(p, o) == p[i].d as int - '1' as int && (p[o].position || exists c :: ClosedBy(p, o, i, c)))
  }

  ghost predicate Continues(p: Items, src: string, tr: Trace, full: Trace) {
    tr <= full && Runs(p, src, full, |p|)
  }

  /** The outcome is the first continuation of the trace in that order with its captures, or there
      is none. */
  ghost predicate Fits(p: Items, src: string, tr: Trace, o: Outcome) {
    match o
    case Match(e, caps) => exists full :: FirstOf(p, src, tr, full) && full[|p|] == e && Records(p, full, |p|, caps)
    case NoMatch => forall full :: !Continues(p, src, tr, full)
    case Err(_) => false
  }

  ghost predicate FirstOf(p: Items, src: string, tr: Trace, full: Trace) {
    Continues(p, src, tr, full) && forall other :: Continues(p, src, tr, other) ==> other == full || Precedes(p, full, other)
  }

  /** The outcome of the rest behind one alternative `t`, all sooner ones having failed. */
  lemma Chosen(p: Items, src: string, tr: Trace, i: nat, t: nat, o: Outcome)
    requires i < |p| && Runs(p, src, tr, i) && Leads(p, src, tr, i, t) && Fits(p, src, tr + [t], o)
    requires forall u: nat | Leads(p, src, tr, i, u) && u != t ::
      (o.Match? && Sooner(p[i], t, u)) || forall full :: !Continues(p, src, tr + [u], full)
    ensures Fits(p, src, tr, o)
  {
    if o.Match? {
      var full :| FirstOf(p, src, tr + [t], full) && full[|p|] == o.e && Records(p, full, |p|, o.caps);
      forall other | Continues(p, src, tr, other)
        ensures other == full || Precedes(p, full, other)
      {
        NextOf(p, src, tr, i, other);
        var u := other[i + 1];
        if u != t {
          assert full[..i + 1] == tr == other[..i + 1];
        }
      }
      assert tr <= full;
      assert FirstOf(p, src, tr, full);
    } else {
      forall full
        ensures !Continues(p, src, tr, full)
      {
        if Continues(p, src, tr, full) { NextOf(p, src, tr, i, full); }
      }
    }
  }

  lemma NextOf(p: Items, src: string, tr: Trace, i: nat, full: Trace)
    requires i < |p| && Runs(p, src, tr, i) && Continues(p, src, tr, full)
    ensures |full| == |p| + 1 && Continues(p, src, tr + [full[i + 1]], full) && Leads(p, src, tr, i, full[i + 1])
  {
    var t := full[i + 1];
    assert Goes(p, src, full, i);
    LeadsSame(p, src, full, tr, i, t);
    assert full[..i + 2] == full[..i + 1] + [t] == tr + [t];
  }

  /** Only what is before an item counts for it. */
  lemma LeadsSame(p: Items, src: string, tr: Trace, tr': Trace, i: nat, t: nat)
    requires i < |p| && |tr| > i && |tr'| > i && tr[..i + 1] == tr'[..i + 1] && Leads(p, src, tr, i, t)
    ensures Leads(p, src, tr', i, t)
  {
    assert forall j | 0 <= j <= i :: tr[j] == tr[..i + 1][j] && tr'[j] == tr'[..i + 1][j];
    if p[i].Back? {
      var o: nat, z: nat :| ClosedBy(p, o, i, z) && Opens(p, o) == p[i].d as int - '1' as int
        && tr[o] <= tr[z] <= |src| && tr[i] <= t <= |src| && src[tr[o]..tr[z]] == src[tr[i]..t];
      assert ClosedBy(p, o, i, z) && src[tr'[o]..tr'[z]] == src[tr'[i]..t];
    }
  }

  lemma RunsOne(p: Items, src: string, tr: Trace, i: nat, t: nat)
    requires i < |p| && Runs(p, src, tr, i) && Leads(p, src, tr, i, t)
    ensures Runs(p, src, tr + [t], i + 1)
  {
    var tr' := tr + [t];
    forall j: nat | j < i + 1
      ensures Goes(p, src, tr', j)
    {
      assert tr'[..j + 1] == tr[..j + 1];
      assert j < i ==> Goes(p, src, tr, j);
      LeadsSame(p, src, tr, tr', j, tr'[j + 1]);
    }
  }

  // ---------------------------------------------------------------- the first match

  /** From item `i` on the matcher finds the first continuation of the trace. */
  ghost predicate Good(p: Items, src: string, tr: Trace, i: nat, caps: Caps) {
    Runs(p, src, tr, i) && tr[i] <= |src| && Records(p, tr, i, caps) && CapsOk(caps, tr[i])
  }

  ghost predicate Solved(p: Items, src: string, tr: Trace, i: nat, caps: Caps)
    requires Good(p, src, tr, i, caps)
  {
    Fits(p, src, tr, Best(p[i..], src, tr[i], caps))
  }

  /** Whichever way item `i` leads, with these captures. */
  ghost predicate RestSolved(p: Items, src: string, tr: Trace, i: nat, caps: Caps)
    requires i < |p| && |tr| == i + 1
  {
    forall t: nat {:trigger Leads(p, src, tr, i, t)} | Leads(p, src, tr, i, t) ::
      Good(p, src, tr + [t], i + 1, caps) && Solved(p, src, tr + [t], i + 1, caps)
  }

  lemma Stuck(p: Items, src: string, tr: Trace, i: nat)
    requires i < |p| && Runs(p, src, tr, i) && forall t: nat :: !Leads(p, src, tr, i, t)
    ensures Fits(p, src, tr, NoMatch)
  {
    forall full
      ensures !Continues(p, src, tr, full)
    {
      if Continues(p, src, tr, full) { NextOf(p, src, tr, i, full); }
    }
  }

  /** One way to go on, at most. */
  lemma OnlyWay(p: Items, src: string, tr: Trace, i: nat, caps: Caps, t: nat)
    requires i < |p| && Runs(p, src, tr, i) && RestSolved(p, src, tr, i, caps)
    requires Leads(p, src, tr, i, t) && forall u: nat | Leads(p, src, tr, i, u) :: u == t
    ensures t <= |src| && CapsOk(caps, t) && Fits(p, src, tr, Best(p[i + 1..], src, t, caps))
  {
    assert Solved(p, src, tr + [t], i + 1, caps);
    Chosen(p, src, tr, i, t, Best(p[i + 1..], src, t, caps));
  }

  lemma ItemIs(p: Items, i: nat, src: string, s: nat, caps: Caps)
    requires i < |p| && s <= |src| && CapsOk(caps, s)
    ensures Best(p[i..], src, s, caps) == BestItem(p[i], p[i + 1..], src, s, caps)
    ensures p[i].Single? ==> Best(p[i..], src, s, caps) == BestSingle(p[i].k, p[i].q, p[i + 1..], src, s, caps)
  {
    assert p[i..][1..] == p[i + 1..];
    IsItem(p[i..], src, s, caps);
    if p[i].Single? { IsSingle(p[i..], src, s, caps, p[i].k, p[i].q); }
  }

  lemma StarSolved(p: Items, src: string, tr: Trace, i: nat, caps: Caps)
    requires Good(p, src, tr, i, caps) && i < |p| && p[i].Single? && p[i].q == Star && RestSolved(p, src, tr, i, caps)
    ensures Solved(p, src, tr, i, caps)
  {
    var k, s, rest := p[i].k, tr[i], p[i + 1..];
    ItemIs(p, i, src, s, caps);
    var t := DownIs(rest, src, s, Run(k, src, s), caps);
    Greedy(p, src, tr, i, caps, rest, k, s, t);
  }

  lemma PlusSolved(p: Items, src: string, tr: Trace, i: nat, caps: Caps)
    requires Good(p, src, tr, i, caps) && i < |p| && p[i].Single? && p[i].q == Plus && RestSolved(p, src, tr, i, caps)
    ensures Solved(p, src, tr, i, caps)
  {
    var k, s, rest := p[i].k, tr[i], p[i + 1..];
    ItemIs(p, i, src, s, caps);
    if Takes(k, src, s) {
      var t := DownIs(rest, src, s + 1, Run(k, src, s + 1), caps);
      Greedy(p, src, tr, i, caps, rest, k, s + 1, t);
    } else {
      forall t: nat
        ensures !Leads(p, src, tr, i, t)
      {
        if Leads(p, src, tr, i, t) { TakenThere(k, src, s, t); }
      }
      Stuck(p, src, tr, i);
    }
  }

  /** The choice of the most repetitions, not fewer than up to `from`. */
  lemma Greedy(p: Items, src: string, tr: Trace, i: nat, caps: Caps, rest: Items, k: Cls, from: nat, t: nat)
    requires Good(p, src, tr, i, caps) && i < |p| && RestSolved(p, src, tr, i, caps) && rest == p[i + 1..]
    requires (p[i] == Single(k, Star) && from == tr[i]) || (p[i] == Single(k, Plus) && from == tr[i] + 1 && Takes(k, src, tr[i]))
    requires from <= t <= from + Run(k, src, from) && from <= |src| && CapsOk(caps, t)
    requires forall u: nat | t < u <= from + Run(k, src, from) :: Fails(rest, src, u, caps)
    requires Best(rest, src, t, caps).NoMatch? ==> t == from
    ensures Fits(p, src, tr, Best(rest, src, t, caps))
  {
    assert Leads(p, src, tr, i, t);
    assert Solved(p, src, tr + [t], i + 1, caps);
    forall u: nat | Leads(p, src, tr, i, u) && u != t
      ensures (Best(rest, src, t, caps).Match? && Sooner(p[i], t, u)) || forall full :: !Continues(p, src, tr + [u], full)
    {
      RunIsMost(k, src, from, u);
      assert Solved(p, src, tr + [u], i + 1, caps);
      assert t < u ==> Fails(rest, src, u, caps);
    }
    Chosen(p, src, tr, i, t, Best(rest, src, t, caps));
  }

  lemma MinusSolved(p: Items, src: string, tr: Trace, i: nat, caps: Caps)
    requires Good(p, src, tr, i, caps) && i < |p| && p[i].Single? && p[i].q == Minus && RestSolved(p, src, tr, i, caps)
    ensures Solved(p, src, tr, i, caps)
  {
    var k, s, rest := p[i].k, tr[i], p[i + 1..];
    ItemIs(p, i, src, s, caps);
    var t := UpIs(k, rest, src, s, caps);
    assert Leads(p, src, tr, i, t);
    assert Solved(p, src, tr + [t], i + 1, caps);
    forall u: nat | Leads(p, src, tr, i, u) && u != t
      ensures (Best(rest, src, t, caps).Match? && Sooner(p[i], t, u)) || forall full :: !Continues(p, src, tr + [u], full)
    {
      TakenThere(k, src, s, u);
      assert Solved(p, src, tr + [u], i + 1, caps);
      assert u < t ==> Fails(rest, src, u, caps);
    }
    Chosen(p, src, tr, i, t, Best(rest, src, t, caps));
  }

  lemma OptionalSolved(p: Items, src: string, tr: Trace, i: nat, caps: Caps)
    requires Good(p, src, tr, i, caps) && i < |p| && p[i].Single? && p[i].q == Optional && RestSolved(p, src, tr, i, caps)
    ensures Solved(p, src, tr, i, caps)
  {
    var k, s, rest := p[i].k, tr[i], p[i + 1..];
    ItemIs(p, i, src, s, caps);
    assert Leads(p, src, tr, i, s) && Solved(p, src, tr + [s], i + 1, caps);
    if Takes(k, src, s) { assert Leads(p, src, tr, i, s + 1) && Solved(p, src, tr + [s + 1], i + 1, caps); }
    var t := if Takes(k, src, s) && !Best(rest, src, s + 1, caps).NoMatch? then s + 1 else s;
    Chosen(p, src, tr, i, t, Best(rest, src, t, caps));
  }

  lemma BalanceSolved(p: Items, src: string, tr: Trace, i: nat, caps: Caps)
    requires Good(p, src, tr, i, caps) && i < |p| && p[i].Balance? && RestSolved(p, src, tr, i, caps)
    ensures Solved(p, src, tr, i, caps)
  {
    var b, e, s := p[i].b, p[i].e, tr[i];
    ItemIs(p, i, src, s, caps);
    if s < |src| && src[s] == b {
      forall t: nat
        ensures Leads(p, src, tr, i, t) <==> BalanceEnd(src, s + 1, b, e, 1) == Some(t)
      {
        BalanceIs(src, s, b, e, t);
      }
      if BalanceEnd(src, s + 1, b, e, 1).Some? {
        OnlyWay(p, src, tr, i, caps, BalanceEnd(src, s + 1, b, e, 1).value);
      } else {
        Stuck(p, src, tr, i);
      }
    } else {
      Stuck(p, src, tr, i);
    }
  }

  /** An opening parenthesis has one closing one, and one number. */
  lemma ClosedOnce(p: Items, o: nat, c: nat, c': nat)
    requires Encloses(p, o, c) && Encloses(p, o, c')
    ensures c == c'
  {
    var a, d, e := o + 1, if c < c' then c else c', if c < c' then c' else c;
    if d < e { SurplusBehind(p, o, d); }
  }

  lemma SurplusBehind(p: Items, o: nat, c: nat)
    requires Encloses(p, o, c)
    ensures !NoSurplus(p, o + 1, c + 1)
  {
    var a := o + 1;
    assert Nest(p, a, c + 1) == -1;
  }

  lemma SameOpen(p: Items, i: nat, o: nat, o': nat)
    requires o < i <= |p| && o' < i && p[o].Open? && p[o'].Open? && Opens(p, o) == Opens(p, o')
    ensures o == o'
  {
    OpensOrder(p, if o < o' then o else o', if o < o' then o' else o);
  }

  /** A back reference leads on exactly if the text of the capture it names comes again. */
  lemma BackLeads(p: Items, src: string, tr: Trace, i: nat, caps: Caps, d: char, o: nat, t: nat)
    requires Good(p, src, tr, i, caps) && i < |p| && p[i] == Back(d)
    requires o < i && p[o].Open? && Opens(p, o) == d as int - '1' as int && (p[o].position || exists c :: ClosedBy(p, o, i, c))
    ensures CapIndex(caps, d) == Some(Opens(p, o)) && Opens(p, o) < |caps|
    ensures var c := caps[Opens(p, o)]; Leads(p, src, tr, i, t) <==> Repeats(src, c, tr[i]) && t == tr[i] + c.len.n
  {
    Pending(p, tr, i, caps, o);
    var c := caps[Opens(p, o)];
    assert CapIs(p, tr, o, i, c) && c in caps;
    if Leads(p, src, tr, i, t) {
      var o': nat, z: nat :| ClosedBy(p, o', i, z) && Opens(p, o') == d as int - '1' as int
        && tr[o'] <= tr[z] <= |src| && tr[i] <= t <= |src| && src[tr[o']..tr[z]] == src[tr[i]..t];
      SameOpen(p, i, o, o');
      var z': nat :| ClosedBy(p, o, i, z') && tr[z'] == tr[o] + c.len.n;
      ClosedOnce(p, o, z, z');
      assert |src[tr[o]..tr[z]]| == |src[tr[i]..t]|;
    }
    if Repeats(src, c, tr[i]) && t == tr[i] + c.len.n {
      var z: nat :| ClosedBy(p, o, i, z) && tr[z] == tr[o] + c.len.n;
      assert Repeated(p, src, tr, i, d, t);
    }
  }

  lemma BackSolved(p: Items, src: string, tr: Trace, i: nat, caps: Caps)
    requires Good(p, src, tr, i, caps) && i < |p| && p[i].Back? && ItemOk(p, i) && RestSolved(p, src, tr, i, caps)
    ensures Solved(p, src, tr, i, caps)
  {
    hide Leads, Fits, RestSolved, Best, CapIs, Records;
    var d, s := p[i].d, tr[i];
    ItemIs(p, i, src, s, caps);
    var o: nat :| o < i && p[o].Open? && Opens(p, o) == d as int - '1' as int && (p[o].position || exists c :: ClosedBy(p, o, i, c));
    BackLeads(p, src, tr, i, caps, d, o, s);
    var c := caps[Opens(p, o)];
    BackEither(p, src, tr, i, caps, d, o, c);
  }

  lemma BackEither(p: Items, src: string, tr: Trace, i: nat, caps: Caps, d: char, o: nat, c: Cap)
    requires Good(p, src, tr, i, caps) && i < |p| && p[i] == Back(d) && RestSolved(p, src, tr, i, caps)
    requires o < i && p[o].Open? && Opens(p, o) == d as int - '1' as int && (p[o].position || exists c :: ClosedBy(p, o, i, c))
    requires Opens(p, o) < |caps| && c == caps[Opens(p, o)] && c in caps
    ensures Fits(p, src, tr, if Repeats(src, c, tr[i]) then Best(p[i + 1..], src, tr[i] + c.len.n, caps) else NoMatch)
  {
    hide Leads, Fits, Records, Goes, RestSolved, Best;
    forall u: nat
      ensures Leads(p, src, tr, i, u) <==> Repeats(src, c, tr[i]) && u == tr[i] + c.len.n
    {
      BackLeads(p, src, tr, i, caps, d, o, u);
    }
    if Repeats(src, c, tr[i]) {
      OnlyWay(p, src, tr, i, caps, tr[i] + c.len.n);
    } else {
      Stuck(p, src, tr, i);
    }
  }

  lemma AtEnd(p: Items, src: string, tr: Trace, caps: Caps)
    requires Good(p, src, tr, |p|, caps)
    ensures Solved(p, src, tr, |p|, caps)
  {
    assert p[|p|..] == [];
    assert Continues(p, src, tr, tr);
    forall other | Continues(p, src, tr, other)
      ensures other == tr
    {}
    assert FirstOf(p, src, tr, tr);
  }

  /** What the matcher does to the captures at an item. */
  ghost predicate NextCaps(x: Item, s: nat, caps: Caps, caps': Caps) {
    match x
    case Open(position) => |caps| < MAXCAPTURES && caps' == caps + [Cap(s, if position then Position else Unfinished)]
    case Close =>
      && ToClose(caps).Some? && ToClose(caps).value < |caps|
      && var l := ToClose(caps).value; caps[l].init <= s && caps' == caps[l := Cap(caps[l].init, Closed(s - caps[l].init))]
    case _ => caps' == caps
  }

  /** The captures behind item `i`. */
  lemma Recorded(p: Items, src: string, tr: Trace, i: nat, caps: Caps) returns (caps': Caps)
    requires WellFormed(p) && Good(p, src, tr, i, caps) && i < |p|
    ensures forall t: nat | Leads(p, src, tr, i, t) :: Good(p, src, tr + [t], i + 1, caps')
    ensures NextCaps(p[i], tr[i], caps, caps')
  {
    assert ItemOk(p, i);
    caps' := caps;
    ghost var o := 0;
    if p[i].Open? {
      caps' := caps + [Cap(tr[i], if p[i].position then Position else Unfinished)];
      OpensOrder(p, i + 1, |p|);
    } else if p[i].Close? {
      o := ClosesIts(p, tr, i, caps);
      CloseOk(caps, tr[i]);
      var l := ToClose(caps).value;
      caps' := caps[l := Cap(caps[l].init, Closed(tr[i] - caps[l].init))];
    }
    forall t: nat | Leads(p, src, tr, i, t)
      ensures Good(p, src, tr + [t], i + 1, caps')
    {
      RunsOne(p, src, tr, i, t);
      CapsLater(caps, tr[i], t);
      if p[i].Open? {
        RecordsOpen(p, tr, i, caps, t);
      } else if p[i].Close? {
        RecordsClose(p, tr, i, caps, o, t);
      } else {
        RecordsSame(p, tr, i, caps, t);
      }
    }
  }

  lemma OtherSolved(p: Items, src: string, tr: Trace, i: nat, caps: Caps, caps': Caps)
    requires Good(p, src, tr, i, caps) && i < |p| && RestSolved(p, src, tr, i, caps')
    requires p[i].Open? || p[i].Close? || p[i].Frontier? || p[i].End?
    requires NextCaps(p[i], tr[i], caps, caps')
    ensures Solved(p, src, tr, i, caps)
  {
    var s := tr[i];
    ItemIs(p, i, src, s, caps);
    if Leads(p, src, tr, i, s) { OnlyWay(p, src, tr, i, caps', s); } else { Stuck(p, src, tr, i); }
  }

  lemma OnceSolved(p: Items, src: string, tr: Trace, i: nat, caps: Caps)
    requires Good(p, src, tr, i, caps) && i < |p| && p[i].Single? && p[i].q == Once && RestSolved(p, src, tr, i, caps)
    ensures Solved(p, src, tr, i, caps)
  {
    ItemIs(p, i, src, tr[i], caps);
    if Takes(p[i].k, src, tr[i]) { OnlyWay(p, src, tr, i, caps, tr[i] + 1); } else { Stuck(p, src, tr, i); }
  }

  lemma {:induction false} Traced(p: Items, src: string, tr: Trace, i: nat, caps: Caps)
    requires WellFormed(p) && Good(p, src, tr, i, caps)
    ensures Solved(p, src, tr, i, caps)
    decreases |p| - i
  {
    hide WellFormed, Solved, Leads, Records, CapsOk;
    if i == |p| {
      AtEnd(p, src, tr, caps);
    } else {
      var caps' := Recorded(p, src, tr, i, caps);
      forall t: nat | Leads(p, src, tr, i, t)
        ensures Good(p, src, tr + [t], i + 1, caps') && Solved(p, src, tr + [t], i + 1, caps')
      {
        Traced(p, src, tr + [t], i + 1, caps');
      }
      OneSolved(p, src, tr, i, caps, caps');
    }
  }

  lemma OneSolved(p: Items, src: string, tr: Trace, i: nat, caps: Caps, caps': Caps)
    requires WellFormed(p) && Good(p, src, tr, i, caps) && i < |p| && RestSolved(p, src, tr, i, caps')
    requires NextCaps(p[i], tr[i], caps, caps')
    ensures Solved(p, src, tr, i, caps)
  {
    hide Solved, Leads, Good, RestSolved;
    assert ItemOk(p, i);
    match p[i]
    case Single(_, Once) => OnceSolved(p, src, tr, i, caps);
    case Single(_, Optional) => OptionalSolved(p, src, tr, i, caps);
    case Single(_, Star) => StarSolved(p, src, tr, i, caps);
    case Single(_, Plus) => PlusSolved(p, src, tr, i, caps);
    case Single(_, Minus) => MinusSolved(p, src, tr, i, caps);
    case Balance(_, _) => BalanceSolved(p, src, tr, i, caps);
    case Back(_) => BackSolved(p, src, tr, i, caps);
    case _ => OtherSolved(p, src, tr, i, caps, caps');
  }

  /** For a well-formed pattern with captures: the match that is found is the first run of the pattern in
      the order of alternatives, with its captures; none is found exactly if there is no run; and there
      is never an error. */
  lemma FirstRun(p: Items, src: string, s: nat)
    requires WellFormed(p) && s <= |src|
    ensures Fits(p, src, [s], Best(p, src, s, []))
  {
    hide Leads;
    assert p[0..] == p;
    Traced(p, src, [s], 0, []);
  }

  /** The text of a capture runs from its opening parenthesis to the closing one that belongs to it, and
      its number is that of the opening one, whatever is opened and closed in between. */
  lemma CaptureIs(p: Items, tr: Trace, caps: Caps, o: nat, c: nat)
    requires |tr| == |p| + 1 && Records(p, tr, |p|, caps) && Encloses(p, o, c) && tr[o] <= tr[c]
    ensures Opens(p, o) < |caps| && caps[Opens(p, o)] == Cap(tr[o], Closed(tr[c] - tr[o]))
  {
    Pending(p, tr, |p|, caps, o);
    var cap := caps[Opens(p, o)];
    assert CapIs(p, tr, o, |p|, cap) && ClosedBy(p, o, |p|, c);
    var z: nat :| ClosedBy(p, o, |p|, z) && tr[z] == tr[o] + cap.len.n;
    ClosedOnce(p, o, c, z);
  }

  /** The search finds the first run from the leftmost start that has one, with its captures. */
  lemma FindsFirstRun(pat: string, src: string, init: nat, h: LuaMatch.Hit, caps: Caps)
    requires init <= |src| && WellFormed(LuaMatch.ItemsOf(pat)) && LuaMatch.FirstHit(pat, src, init, h, caps)
    ensures !h.Error?
    ensures var p := LuaMatch.ItemsOf(pat); h.Hit? ==>
      exists full :: FirstOf(p, src, [h.start], full) && full[|p|] == h.e && Records(p, full, |p|, caps)
    ensures var p := LuaMatch.ItemsOf(pat); forall a: nat, full {:trigger Continues(p, src, [a], full)} |
      init <= a <= (if LuaMatch.Anchored(pat) then init else |src|) && Continues(p, src, [a], full) :: h.Hit? && h.start <= a
  {
    hide Best, WellFormed, Records, FirstOf, Continues;
    var p := LuaMatch.ItemsOf(pat);
    forall b: nat | init <= b <= |src|
      ensures CapsOk([], b) && Fits(p, src, [b], Best(p, src, b, []))
    {
      FirstRun(p, src, b);
    }
    forall a: nat, full | init <= a <= (if LuaMatch.Anchored(pat) then init else |src|) && Continues(p, src, [a], full)
      ensures h.Hit? && h.start <= a
    {
      assert Fits(p, src, [a], Best(p, src, a, []));
    }
  }
}
