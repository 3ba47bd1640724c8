/** The abstract side of the red-black tree: trees of node references, one-hole
    contexts (zippers), in-order sequences, and the colour invariants.

    A `Tree` records which node sits where and which colour it has. The heap-level
    operations in `RedBlackTree` are proved against these functions. */
module RbModel {

  datatype Color = Red | Black

  datatype Tree<N> = Nil | Node(left: Tree<N>, n: N, color: Color, right: Tree<N>)

  /** A tree with one hole. `InLeft(up, ...)` says the hole is the left child. */
  datatype Ctx<N> =
    | Top
    | InLeft(up: Ctx<N>, n: N, color: Color, sibling: Tree<N>)
    | InRight(up: Ctx<N>, n: N, color: Color, sibling: Tree<N>)

  function Plug<N>(c: Ctx<N>, t: Tree<N>): Tree<N> {
    match c
    case Top => t
    case InLeft(up, n, k, s) => Plug(up, Node(t, n, k, s))
    case InRight(up, n, k, s) => Plug(up, Node(s, n, k, t))
  }

  /** `inner`, itself sitting in the hole of `outer`. */
  function Compose<N>(inner: Ctx<N>, outer: Ctx<N>): Ctx<N> {
    match inner
    case Top => outer
    case InLeft(up, n, k, s) => InLeft(Compose(up, outer), n, k, s)
    case InRight(up, n, k, s) => InRight(Compose(up, outer), n, k, s)
  }

  lemma ComposePlug<N>(inner: Ctx<N>, outer: Ctx<N>, t: Tree<N>)
    ensures Plug(Compose(inner, outer), t) == Plug(outer, Plug(inner, t))
  {}

  // ---------------------------------------------------------------- in-order sequence

  function Inorder<N>(t: Tree<N>): seq<N> {
    match t
    case Nil => []
    case Node(l, n, _, r) => Inorder(l) + [n] + Inorder(r)
  }

  /** Nodes before and after the hole of a context. */
  function Before<N>(c: Ctx<N>): seq<N> {
    match c
    case Top => []
    case InLeft(up, _, _, _) => Before(up)
    case InRight(up, n, _, s) => Before(up) + Inorder(s) + [n]
  }

  function After<N>(c: Ctx<N>): seq<N> {
    match c
    case Top => []
    case InLeft(up, n, _, s) => [n] + Inorder(s) + After(up)
    case InRight(up, _, _, _) => After(up)
  }

  lemma {:induction false} InorderPlug<N>(c: Ctx<N>, t: Tree<N>)
    ensures Inorder(Plug(c, t)) == Before(c) + Inorder(t) + After(c)
  {
    match c
    case Top =>
    case InLeft(up, n, k, s) =>
      InorderPlug(up, Node(t, n, k, s));
      Reassociate(Before(up), Inorder(t), [n], Inorder(s), After(up));
    case InRight(up, n, k, s) =>
      InorderPlug(up, Node(s, n, k, t));
      Reassociate(Before(up), Inorder(s), [n], Inorder(t), After(up));
  }

  lemma Reassociate<N>(a: seq<N>, b: seq<N>, c: seq<N>, d: seq<N>, e: seq<N>)
    ensures a + (b + c + d) + e == a + b + (c + d + e)
    ensures a + (b + c + d) + e == (a + b + c) + d + e
  {}

  // ---------------------------------------------------------------- node sets, distinctness

  function Nodes<N>(t: Tree<N>): set<N> {
    match t
    case Nil => {}
    case Node(l, n, _, r) => Nodes(l) + {n} + Nodes(r)
  }

  function CtxNodes<N>(c: Ctx<N>): set<N> {
    match c
    case Top => {}
    case InLeft(up, n, _, s) => CtxNodes(up) + {n} + Nodes(s)
    case InRight(up, n, _, s) => CtxNodes(up) + {n} + Nodes(s)
  }

  ghost predicate Distinct<N>(t: Tree<N>) {
    match t
    case Nil => true
    case Node(l, n, _, r) =>
      && n !in Nodes(l) && n !in Nodes(r) && Nodes(l) !! Nodes(r)
      && Distinct(l) && Distinct(r)
  }

  ghost predicate CtxDistinct<N>(c: Ctx<N>) {
    match c
    case Top => true
    case InLeft(up, n, _, s) =>
      && n !in Nodes(s) && n !in CtxNodes(up) && Nodes(s) !! CtxNodes(up)
      && Distinct(s) && CtxDistinct(up)
    case InRight(up, n, _, s) =>
      && n !in Nodes(s) && n !in CtxNodes(up) && Nodes(s) !! CtxNodes(up)
      && Distinct(s) && CtxDistinct(up)
  }

  /** Nothing occurs twice in the context with `t` in its hole. */
  ghost predicate Apart<N>(c: Ctx<N>, t: Tree<N>) {
    CtxDistinct(c) && Distinct(t) && CtxNodes(c) !! Nodes(t)
  }

  lemma {:induction false} PlugNodes<N>(c: Ctx<N>, t: Tree<N>)
    ensures Nodes(Plug(c, t)) == CtxNodes(c) + Nodes(t)
  {
    match c
    case Top =>
    case InLeft(up, n, k, s) => PlugNodes(up, Node(t, n, k, s));
    case InRight(up, n, k, s) => PlugNodes(up, Node(s, n, k, t));
  }

  lemma {:induction false} PlugDistinct<N>(c: Ctx<N>, t: Tree<N>)
    ensures Distinct(Plug(c, t)) <==> Apart(c, t)
  {
    match c
    case Top =>
    case InLeft(up, n, k, s) => PlugDistinct(up, Node(t, n, k, s));
    case InRight(up, n, k, s) => PlugDistinct(up, Node(s, n, k, t));
  }

  lemma {:induction false} InorderNodes<N>(t: Tree<N>, x: N)
    ensures x in Inorder(t) <==> x in Nodes(t)
  {
    match t
    case Nil =>
    case Node(l, n, _, r) => InorderNodes(l, x); InorderNodes(r, x);
  }

  function Elements<N(==)>(s: seq<N>): set<N> { set x | x in s }

  lemma ElementsConcat<N>(a: seq<N>, b: seq<N>)
    ensures Elements(a + b) == Elements(a) + Elements(b)
  {}

  lemma {:induction false} InorderElements<N>(t: Tree<N>)
    ensures Elements(Inorder(t)) == Nodes(t)
  {
    match t
    case Nil =>
    case Node(l, n, _, r) =>
      InorderElements(l);
      InorderElements(r);
      ElementsConcat(Inorder(l) + [n], Inorder(r));
      ElementsConcat(Inorder(l), [n]);
  }

  ghost predicate NoDuplicates<N>(s: seq<N>) {
    forall i, j :: 0 <= i < j < |s| ==> s[i] != s[j]
  }

  lemma {:induction false} InorderDistinct<N>(t: Tree<N>)
    requires Distinct(t)
    ensures NoDuplicates(Inorder(t))
  {
    match t
    case Nil =>
    case Node(l, n, _, r) =>
      InorderDistinct(l);
      InorderDistinct(r);
      InorderNodes(l, n);
      InorderNodes(r, n);
      forall x | x in Inorder(l)
        ensures x !in Inorder(r)
      {
        InorderNodes(l, x);
        InorderNodes(r, x);
      }
      NoDuplicatesConcat(Inorder(l), n, Inorder(r));
  }

  lemma NoDuplicatesConcat<N>(a: seq<N>, n: N, b: seq<N>)
    requires NoDuplicates(a) && NoDuplicates(b) && n !in a && n !in b
    requires forall x <- a :: x !in b
    ensures NoDuplicates(a + [n] + b)
  {
    var s := a + [n] + b;
    forall i, j | 0 <= i < j < |s|
      ensures s[i] != s[j]
    {
      var x, y := s[i], s[j];
      assert x == (if i < |a| then a[i] else if i == |a| then n else b[i - |a| - 1]);
      assert y == (if j < |a| then a[j] else if j == |a| then n else b[j - |a| - 1]);
      assert i < |a| ==> x in a;
      assert j > |a| ==> y in b;
    }
  }

  // ---------------------------------------------------------------- red-black invariants

  predicate IsRed<N>(t: Tree<N>) { t.Node? && t.color == Red }

  /** Number of black nodes on the leftmost path. */
  function BlackHeight<N>(t: Tree<N>): nat {
    match t
    case Nil => 0
    case Node(l, _, k, _) => BlackHeight(l) + if k == Black then 1 else 0
  }

  /** No red node has a red child, and all paths down carry the same number of
      black nodes. The colour of the root is free. */
  ghost predicate RedBlack<N>(t: Tree<N>) {
    match t
    case Nil => true
    case Node(l, _, k, r) =>
      && RedBlack(l) && RedBlack(r) && BlackHeight(l) == BlackHeight(r)
      && (k == Red ==> !IsRed(l) && !IsRed(r))
  }

  /** A valid red-black tree: as above, and the root is black. */
  ghost predicate Valid<N>(t: Tree<N>) { RedBlack(t) && !IsRed(t) && Distinct(t) }

  /** The context becomes red-black once a red-black tree of black height `h`, which
      is red only if `red`, is put in its hole. */
  ghost predicate CtxRedBlack<N>(c: Ctx<N>, h: nat, red: bool) {
    match c
    case Top => true
    case InLeft(up, _, k, s) =>
      && RedBlack(s) && BlackHeight(s) == h && (k == Red ==> !red && !IsRed(s))
      && CtxRedBlack(up, h + if k == Black then 1 else 0, k == Red)
    case InRight(up, _, k, s) =>
      && RedBlack(s) && BlackHeight(s) == h && (k == Red ==> !red && !IsRed(s))
      && CtxRedBlack(up, h + if k == Black then 1 else 0, k == Red)
  }

  lemma {:induction false} PlugRedBlack<N>(c: Ctx<N>, t: Tree<N>)
    requires RedBlack(t)
    ensures RedBlack(Plug(c, t)) <==> CtxRedBlack(c, BlackHeight(t), IsRed(t))
  {
    match c
    case Top =>
    case InLeft(up, n, k, s) =>
      var t' := Node(t, n, k, s);
      if RedBlack(t') { PlugRedBlack(up, t'); } else { PlugBad(up, t'); }
    case InRight(up, n, k, s) =>
      var t' := Node(s, n, k, t);
      if RedBlack(t') {
        PlugRedBlack(up, t');
      } else {
        PlugBad(up, t');
      }
  }

  lemma {:induction false} PlugBad<N>(c: Ctx<N>, t: Tree<N>)
    requires !RedBlack(t)
    ensures !RedBlack(Plug(c, t))
  {
    match c
    case Top =>
    case InLeft(up, n, k, s) => PlugBad(up, Node(t, n, k, s));
    case InRight(up, n, k, s) => PlugBad(up, Node(s, n, k, t));
  }

  /** A context that tolerates a red hole tolerates a black one. */
  lemma {:induction false} CtxWeaken<N>(c: Ctx<N>, h: nat)
    requires CtxRedBlack(c, h, true)
    ensures CtxRedBlack(c, h, false)
  {}

  /** A context whose parent is black (or absent) does not care about the hole's colour. */
  lemma {:induction false} CtxBlackParent<N>(c: Ctx<N>, h: nat)
    requires CtxRedBlack(c, h, false)
    requires c.Top? || c.color == Black
    ensures CtxRedBlack(c, h, true)
  {}

  /** The subtree one level up: the hole's parent with `t` in the hole. */
  function Fill<N>(c: Ctx<N>, t: Tree<N>): (r: Tree<N>)
    requires !c.Top?
    ensures r.Node?
  {
    if c.InLeft? then Node(t, c.n, c.color, c.sibling) else Node(c.sibling, c.n, c.color, t)
  }

  function Painted<N>(t: Tree<N>, k: Color): (r: Tree<N>)
    requires t.Node?
  {
    Node(t.left, t.n, k, t.right)
  }

  /** The root of the whole tree is black, if it is part of the context. */
  ghost predicate RootBlack<N>(c: Ctx<N>) {
    !c.Top? ==> if c.up.Top? then c.color == Black else RootBlack(c.up)
  }

  lemma {:induction false} RootBlackPlug<N>(c: Ctx<N>, t: Tree<N>)
    ensures IsRed(Plug(c, t)) <==> if c.Top? then IsRed(t) else !RootBlack(c)
  {
    if !c.Top? { RootBlackPlug(c.up, Fill(c, t)); }
  }

  /** What a hole in a red-black tree may be filled with. */
  lemma HoleRedBlack<N>(c: Ctx<N>, t: Tree<N>)
    requires RedBlack(Plug(c, t)) && !IsRed(Plug(c, t))
    ensures RedBlack(t) && CtxRedBlack(c, BlackHeight(t), IsRed(t)) && RootBlack(c)
  {
    if !RedBlack(t) { PlugBad(c, t); }
    PlugRedBlack(c, t);
    RootBlackPlug(c, t);
  }

  lemma SameInorder<N>(c: Ctx<N>, t: Tree<N>, t': Tree<N>)
    requires Inorder(t) == Inorder(t')
    ensures Inorder(Plug(c, t)) == Inorder(Plug(c, t'))
  {
    InorderPlug(c, t);
    InorderPlug(c, t');
  }

  // ---------------------------------------------------------------- the height bound

  function Height<N>(t: Tree<N>): nat {
    match t
    case Nil => 0
    case Node(l, _, _, r) => 1 + if Height(l) < Height(r) then Height(r) else Height(l)
  }

  function Pow2(k: nat): nat { if k == 0 then 1 else 2 * Pow2(k - 1) }

  lemma {:induction false} SizeAtLeast<N>(t: Tree<N>)
    requires RedBlack(t)
    ensures |Inorder(t)| + 1 >= Pow2(BlackHeight(t))
    ensures Height(t) <= 2 * BlackHeight(t) + if IsRed(t) then 1 else 0
  {
    match t
    case Nil =>
    case Node(l, _, _, r) => SizeAtLeast(l); SizeAtLeast(r);
  }

  lemma {:induction false} Pow2Monotone(a: nat, b: nat)
    requires a <= b
    ensures Pow2(a) <= Pow2(b)
    decreases b - a
  {
    if a < b { Pow2Monotone(a + 1, b); }
  }

  lemma {:induction false} Pow2Double(a: nat)
    ensures Pow2(2 * a) == Pow2(a) * Pow2(a)
  {
    if a > 0 {
      Pow2Double(a - 1);
      assert Pow2(2 * a) == 2 * Pow2(2 * a - 1) == 4 * Pow2(2 * (a - 1));
    }
  }

  /** The height of a valid tree with n nodes is at most 2 * log2(n + 1), written
      without logarithms: 2^height <= (n + 1)^2. */
  lemma {:induction false} HeightBound<N>(t: Tree<N>)
    requires RedBlack(t) && !IsRed(t)
    ensures Pow2(Height(t)) <= (|Inorder(t)| + 1) * (|Inorder(t)| + 1)
  {
    SizeAtLeast(t);
    var p, m := Pow2(BlackHeight(t)), |Inorder(t)| + 1;
    Pow2Monotone(Height(t), 2 * BlackHeight(t));
    Pow2Double(BlackHeight(t));
    assert p * p <= m * m by { assert p <= m; MulLe(p, m); }
  }

  lemma MulLe(p: nat, m: nat)
    requires p <= m
    ensures p * p <= m * m
  {
    assert m * m - p * p == (m - p) * (m + p);
  }
}
