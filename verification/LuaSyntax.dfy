/** How patterns are written: the syntax of the Lua manual, from items to text and back. */
module LuaSyntax {
  import opened LuaClass
  import opened LuaPattern

  function ShowSetItem(x: SetItem): string {
    match x
    case Esc(cl) => ['%', cl]
    case Range(lo, hi) => [lo, '-', hi]
    case One(c) => [c]
  }

  function ShowSet(items: seq<SetItem>): string { if items == [] then "" else ShowSetItem(items[0]) + ShowSet(items[1..]) }

  function ShowClass(k: Cls): string {
    match k
    case AnyChar => "."
    case Class(cl) => ['%', cl]
    case Set(negated, items) => (if negated then "[^" else "[") + ShowSet(items) + "]"
    case Lit(c) => [c]
  }

  function ShowItem(i: Item): string {
    match i
    case Single(k, q) =>
      ShowClass(k) +
      (match q
       case Once => ""
       case Optional => "?"
       case Star => "*"
       case Plus => "+"
       case Minus => "-")
    case Open(position) => if position then "()" else "("
    case Close => ")"
    case Balance(b, e) => ['%', 'b', b, e]
    case Frontier(k) => "%f" + ShowClass(k)
    case Back(d) => ['%', d]
    case End => "$"
    case Bad(_) => ""
  }

  function Show(p: Items): string { if p == [] then "" else ShowItem(p[0]) + Show(p[1..]) }

  // ---------------------------------------------------------------- what can be written so

  predicate InSet(c: char) { c != NUL && c != ']' && c != '%' && c != '^' && c != '-' }

  predicate SetItemOk(x: SetItem) {
    match x
    case Esc(cl) => cl != NUL
    case Range(lo, hi) => InSet(lo) && InSet(hi)
    case One(c) => InSet(c)
  }

  predicate SetOk(items: seq<SetItem>) { items != [] && forall x <- items :: SetItemOk(x) }

  predicate ClassOk(k: Cls) {
    match k
    case AnyChar => true
    case Class(cl) => cl != NUL && cl != 'b' && cl != 'f' && !IsDigit(cl)
    case Set(_, items) => SetOk(items)
    case Lit(c) => !Special(c)
  }

  predicate Special(c: char) {
    c == NUL || c == '(' || c == ')' || c == '%' || c == '.' || c == '[' || c == '$' || c == '?' || c == '*' || c == '+' || c == '-'
  }

  predicate ItemFine(i: Item, rest: Items) {
    match i
    case Single(k, _) => ClassOk(k)
    case Open(position) => position || rest == [] || rest[0] != Close
    case Close => true
    case Balance(b, e) => b != NUL && e != NUL
    case Frontier(k) => k.Set? && ClassOk(k)
    case Back(d) => IsDigit(d)
    case End => rest == []
    case Bad(_) => false
  }

  predicate Written(p: Items) { p != [] ==> ItemFine(p[0], p[1..]) && Written(p[1..]) }

  // ---------------------------------------------------------------- reading sets

  lemma Here(pat: string, p: nat, w: string, rest: string)
    requires p <= |pat| && pat[p..] == w + rest
    ensures p + |w| <= |pat| && pat[p + |w|..] == rest && forall j | 0 <= j < |w| :: At(pat, p + j) == w[j]
    ensures At(pat, p + |w|) == if rest == "" then NUL else rest[0]
  {
    assert pat[p + |w|..] == pat[p..][|w|..];
    forall j | 0 <= j < |w|
      ensures At(pat, p + j) == w[j]
    {
      assert pat[p + j] == pat[p..][j];
    }
    if rest != "" { assert pat[p + |w|] == pat[p..][|w|]; }
  }

  lemma {:induction false} ReadsSet(pat: string, p: nat, items: seq<SetItem>, rest: string)
    requires p <= |pat| && pat[p..] == ShowSet(items) + ("]" + rest) && forall x <- items :: SetItemOk(x)
    ensures SetOf(pat, p, p + |ShowSet(items)|) == items
    ensures items != [] ==> SetEnd(pat, p) == Some(p + |ShowSet(items)| + 1)
    decreases |items|
  {
    hide At, SetEnd, SetOf, ShowSetItem, SetItemOk;
    if items == [] {
      EmptySet(pat, p);
    } else {
      var x, more := items[0], items[1..];
      var w := ShowSetItem(x);
      assert x in items && |w| > 0 by { TextOfItem(x); }
      assert ShowSet(items) + ("]" + rest) == w + (ShowSet(more) + ("]" + rest));
      Here(pat, p, w, ShowSet(more) + ("]" + rest));
      FirstOfSet(more, rest);
      ReadsSet(pat, p + |w|, more, rest);
      OneOfSet(pat, p, x, p + |ShowSet(items)|);
    }
  }

  lemma EmptySet(pat: string, p: nat)
    ensures SetOf(pat, p, p) == []
  {}

  lemma TextOfItem(x: SetItem)
    ensures |ShowSetItem(x)| > 0
  {}

  /** The first item of what is left of a set. */
  lemma OneOfSet(pat: string, p: nat, x: SetItem, ec: nat)
    requires SetItemOk(x) && p + |ShowSetItem(x)| <= ec <= |pat| && forall j | 0 <= j < |ShowSetItem(x)| :: At(pat, p + j) == ShowSetItem(x)[j]
    requires At(pat, p + |ShowSetItem(x)|) != '-'
    ensures SetOf(pat, p, ec) == [x] + SetOf(pat, p + |ShowSetItem(x)|, ec)
    ensures At(pat, p + |ShowSetItem(x)|) == ']' ==> SetEnd(pat, p) == Some(p + |ShowSetItem(x)| + 1)
    ensures At(pat, p + |ShowSetItem(x)|) != ']' ==> SetEnd(pat, p) == SetEnd(pat, p + |ShowSetItem(x)|)
  {
    hide At;
    var w := ShowSetItem(x);
    assert At(pat, p) == w[0];
    if |w| > 1 { assert At(pat, p + 1) == w[1]; }
    if x.Range? {
      assert At(pat, p + 2) == w[2];
      SetEndStep(pat, p);
      SetEndStep(pat, p + 1);
      SetEndStep(pat, p + 2);
    } else {
      SetEndStep(pat, p);
    }
  }

  lemma SetEndStep(pat: string, p: nat)
    requires At(pat, p) != NUL
    ensures var q := if At(pat, p) == '%' && At(pat, p + 1) != NUL then p + 2 else p + 1;
      SetEnd(pat, p) == if At(pat, q) == ']' then Some(q + 1) else SetEnd(pat, q)
  {}

  lemma FirstOfSet(items: seq<SetItem>, rest: string)
    requires forall x <- items :: SetItemOk(x)
    ensures var s := ShowSet(items) + ("]" + rest); s != "" && s[0] != NUL && s[0] != '-' && s[0] != '^' && (s[0] == ']' <==> items == [])
  {
    if items != [] {
      assert items[0] in items;
      assert ShowSetItem(items[0])[0] == (ShowSet(items) + ("]" + rest))[0];
    }
  }

  // ---------------------------------------------------------------- reading items

  lemma ReadsClass(pat: string, p: nat, k: Cls, rest: string)
    requires p <= |pat| && pat[p..] == ShowClass(k) + rest && ClassOk(k)
    ensures var w := ShowClass(k); |w| > 0 && p + |w| <= |pat| && ItemEnd(pat, p) == Some(p + |w|) && ClassAt(pat, p, p + |w|) == k
    ensures At(pat, p) != NUL && At(pat, p) != '(' && At(pat, p) != ')' && At(pat, p) != '$'
    ensures At(pat, p) == '%' ==> At(pat, p + 1) != 'b' && At(pat, p + 1) != 'f' && !IsDigit(At(pat, p + 1))
    ensures k.Set? ==> At(pat, p) == '['
  {
    var w := ShowClass(k);
    Here(pat, p, w, rest);
    if k.Set? {
      ReadsSetClass(pat, p, k, rest);
    } else {
      assert At(pat, p) == w[0] && (|w| > 1 ==> At(pat, p + 1) == w[1]);
    }
  }

  lemma ReadsSetClass(pat: string, p: nat, k: Cls, rest: string)
    requires p <= |pat| && k.Set? && pat[p..] == ShowClass(k) + rest && ClassOk(k)
    ensures var w := ShowClass(k); p + |w| <= |pat| && At(pat, p) == '[' && ItemEnd(pat, p) == Some(p + |w|) && ClassAt(pat, p, p + |w|) == k
  {
    hide SetItemOk, ShowSet, SetOf, SetEnd, At;
    var open := if k.negated then "[^" else "[";
    var inner := ShowSet(k.items) + ("]" + rest);
    assert ShowClass(k) + rest == open + inner;
    Here(pat, p, open, inner);
    FirstOfSet(k.items, rest);
    ReadsSet(pat, p + |open|, k.items, rest);
    assert At(pat, p) == open[0] && (k.negated ==> At(pat, p + 1) == open[1]);
  }

  predicate IsQuantifier(c: char) { c == '?' || c == '*' || c == '+' || c == '-' }

  /** No item begins like a quantifier. */
  lemma FirstOfItems(p: Items)
    requires Written(p)
    ensures Show(p) != "" ==> !IsQuantifier(Show(p)[0])
    ensures p != [] && p[0] != Close ==> Show(p) != "" && Show(p)[0] != ')'
    ensures Show(p) == "" <==> p == []
  {
    if p != [] {
      assert ShowItem(p[0])[0] == Show(p)[0];
    }
  }

  lemma ReadsSingle(pat: string, p: nat, k: Cls, q: Quant, more: Items)
    requires p <= |pat| && pat[p..] == ShowItem(Single(k, q)) + Show(more) && ClassOk(k) && Written(more)
    ensures Parse(pat, p) == [Single(k, q)] + Parse(pat, p + |ShowItem(Single(k, q))|)
  {
    hide At, Show, ShowClass, ClassOk, ItemEnd, ClassAt;
    var w := ShowItem(Single(k, q))[|ShowClass(k)|..];
    assert ShowItem(Single(k, q)) == ShowClass(k) + w;
    assert pat[p..] == ShowClass(k) + (w + Show(more));
    ReadsClass(pat, p, k, w + Show(more));
    Here(pat, p, ShowClass(k), w + Show(more));
    FirstOfItems(more);
    assert QuantOf(At(pat, p + |ShowClass(k)|)) == q;
  }

  lemma ReadsOther(pat: string, p: nat, i: Item, more: Items)
    requires p <= |pat| && pat[p..] == ShowItem(i) + Show(more) && !i.Single? && ItemFine(i, more) && Written(more)
    ensures Parse(pat, p) == [i] + Parse(pat, p + |ShowItem(i)|)
  {
    hide At, Show, ShowClass, ClassOk, ItemEnd, SetAt, ParseSingle;
    var w := ShowItem(i);
    Here(pat, p, w, Show(more));
    FirstOfItems(more);
    assert At(pat, p) == w[0] && (|w| > 1 ==> At(pat, p + 1) == w[1]) && (|w| > 2 ==> At(pat, p + 2) == w[2]) && (|w| > 3 ==> At(pat, p + 3) == w[3]);
    if i.Frontier? { ReadsFrontier(pat, p, i.k, Show(more)); }
  }

  lemma ReadsFrontier(pat: string, p: nat, k: Cls, rest: string)
    requires p <= |pat| && k.Set? && ClassOk(k) && pat[p..] == ShowItem(Frontier(k)) + rest
    ensures Parse(pat, p) == [Frontier(k)] + Parse(pat, p + |ShowItem(Frontier(k))|)
  {
    hide At, ShowClass, ClassOk, ItemEnd, ParseSingle;
    assert pat[p..] == "%f" + (ShowClass(k) + rest);
    Here(pat, p, "%f", ShowClass(k) + rest);
    assert At(pat, p) == "%f"[0] && At(pat, p + 1) == "%f"[1];
    ReadsClass(pat, p + 2, k, rest);
  }

  /** A pattern that is written item by item is read as these items. */
  lemma {:induction false} ParseShow(pat: string, p: nat, items: Items)
    requires p <= |pat| && pat[p..] == Show(items) && Written(items)
    ensures Parse(pat, p) == items
    decreases |items|
  {
    hide At, ShowItem, ItemFine;
    if items != [] {
      var i, more := items[0], items[1..];
      var w := ShowItem(i);
      Here(pat, p, w, Show(more));
      ParseShow(pat, p + |w|, more);
      if i.Single? { SingleFine(i, more); ReadsSingle(pat, p, i.k, i.q, more); } else { ReadsOther(pat, p, i, more); }
    } else {
      EmptyEnd(pat, p);
    }
  }

  lemma SingleFine(i: Item, more: Items)
    requires i.Single? && ItemFine(i, more)
    ensures ClassOk(i.k) && i == Single(i.k, i.q)
  {}

  lemma EmptyEnd(pat: string, p: nat)
    requires p <= |pat| && pat[p..] == ""
    ensures Parse(pat, p) == []
  {}
}
