/** The red-black tree of EASTL's red_black_tree.cpp: nodes with parent pointers, and an
    anchor whose `parent` is the root and whose `left`/`right` cache the first and last
    node. */
module RedBlackTree {
  import opened RbModel

  class RbNode {
    var parent: RbNode?
    var left: RbNode?
    var right: RbNode?
    var color: Color

    constructor ()
      ensures parent == null && left == null && right == null
    {
      parent, left, right, color := null, null, null, Red;
    }
  }

  // ---------------------------------------------------------------- heap shape

  /** The field values of one node, and of a set of nodes. */
  datatype Cell = Cell(parent: RbNode?, left: RbNode?, right: RbNode?, color: Color)
  type Heap = map<RbNode, Cell>

  ghost function Snap(s: set<RbNode>): (h: Heap)
    reads s
    ensures h.Keys == s
  {
    map x | x in s :: Cell(x.parent, x.left, x.right, x.color)
  }

  function RootOf(t: Tree<RbNode>): RbNode? {
    if t.Nil? then null else t.n
  }

  /** In `h`, the nodes of `t` are linked as `t` says, below the parent `par`. */
  ghost predicate Linked(h: Heap, t: Tree<RbNode>, par: RbNode?) {
    match t
    case Nil => true
    case Node(l, n, k, r) =>
      && n in h && h[n] == Cell(par, RootOf(l), RootOf(r), k)
      && Linked(h, l, n) && Linked(h, r, n)
  }

  /** The parent of whatever sits in the hole. */
  function Above(c: Ctx<RbNode>, anchor: RbNode): RbNode {
    if c.Top? then anchor else c.n
  }

  /** In `h`, the nodes of `c` are linked as `c` says, with `p` in the hole. */
  ghost predicate CtxLinked(h: Heap, c: Ctx<RbNode>, p: RbNode?, anchor: RbNode) {
    match c
    case Top => true
    case InLeft(up, n, k, s) =>
      && n in h && h[n] == Cell(Above(up, anchor), p, RootOf(s), k)
      && Linked(h, s, n) && CtxLinked(h, up, n, anchor)
    case InRight(up, n, k, s) =>
      && n in h && h[n] == Cell(Above(up, anchor), RootOf(s), p, k)
      && Linked(h, s, n) && CtxLinked(h, up, n, anchor)
  }

  /** The root of the whole tree when `p` sits in the hole. */
  function Outermost(c: Ctx<RbNode>, p: RbNode?): RbNode? {
    match c
    case Top => p
    case InLeft(up, n, _, _) => Outermost(up, n)
    case InRight(up, n, _, _) => Outermost(up, n)
  }

  /** `h` holds `t` in the hole of `c`; the anchor is outside and not mentioned. */
  ghost predicate Focus(h: Heap, c: Ctx<RbNode>, t: Tree<RbNode>, anchor: RbNode) {
    && Apart(c, t) && anchor !in CtxNodes(c) && anchor !in Nodes(t)
    && Linked(h, t, Above(c, anchor)) && CtxLinked(h, c, RootOf(t), anchor)
  }

  lemma {:induction false} OutermostMember(c: Ctx<RbNode>, p: RbNode?)
    ensures if c.Top? then Outermost(c, p) == p else Outermost(c, p) in CtxNodes(c)
  {
    if !c.Top? { OutermostMember(c.up, c.n); }
  }

  // ---------------------------------------------------------------- framing

  ghost predicate Agree(h: Heap, h': Heap, s: set<RbNode>) {
    forall x <- s :: x in h ==> x in h' && h'[x] == h[x]
  }

  lemma {:induction false} KeepLinked(h: Heap, h': Heap, t: Tree<RbNode>, par: RbNode?)
    requires Linked(h, t, par) && Agree(h, h', Nodes(t))
    ensures Linked(h', t, par)
  {
    if t.Node? {
      KeepLinked(h, h', t.left, t.n);
      KeepLinked(h, h', t.right, t.n);
    }
  }

  lemma {:induction false} KeepCtx(h: Heap, h': Heap, c: Ctx<RbNode>, p: RbNode?, anchor: RbNode)
    requires CtxLinked(h, c, p, anchor) && Agree(h, h', CtxNodes(c))
    ensures CtxLinked(h', c, p, anchor)
  {
    if !c.Top? {
      KeepLinked(h, h', c.sibling, c.n);
      KeepCtx(h, h', c.up, c.n, anchor);
    }
  }

  /** Only the root of `t` changed, and only in its parent. */
  lemma Reparent(h: Heap, h': Heap, t: Tree<RbNode>, par: RbNode?, par': RbNode?)
    requires Linked(h, t, par) && Distinct(t) && Agree(h, h', Nodes(t) - {if t.Node? then t.n else par'})
    requires t.Node? ==> t.n in h' && h'[t.n] == h[t.n].(parent := par')
    ensures Linked(h', t, par')
  {
    if t.Node? {
      KeepLinked(h, h', t.left, t.n);
      KeepLinked(h, h', t.right, t.n);
    }
  }

  /** Only the link into the hole of `c` changed. */
  lemma Rehole(h: Heap, h': Heap, c: Ctx<RbNode>, p: RbNode?, p': RbNode?, anchor: RbNode)
    requires CtxLinked(h, c, p, anchor) && CtxDistinct(c)
    requires Agree(h, h', CtxNodes(c) - {Above(c, anchor)})
    requires c.InLeft? ==> c.n in h' && h'[c.n] == h[c.n].(left := p')
    requires c.InRight? ==> c.n in h' && h'[c.n] == h[c.n].(right := p')
    ensures CtxLinked(h', c, p', anchor)
  {
    if !c.Top? {
      KeepLinked(h, h', c.sibling, c.n);
      KeepCtx(h, h', c.up, c.n, anchor);
    }
  }

  // ---------------------------------------------------------------- rotations

  ghost function RotatedLeft<N>(t: Tree<N>): Tree<N>
    requires t.Node? && t.right.Node?
  {
    var u := t.right;
    Node(Node(t.left, t.n, t.color, u.left), u.n, u.color, u.right)
  }

  ghost function RotatedRight<N>(t: Tree<N>): Tree<N>
    requires t.Node? && t.left.Node?
  {
    var u := t.left;
    Node(u.left, u.n, u.color, Node(u.right, t.n, t.color, t.right))
  }

  /** A left rotation keeps the in-order sequence, and a right rotation undoes it. */
  lemma RotatedLeftFacts<N>(t: Tree<N>)
    requires t.Node? && t.right.Node?
    ensures Inorder(RotatedLeft(t)) == Inorder(t)
    ensures RotatedRight(RotatedLeft(t)) == t
  {
    var u := t.right;
    RotateSeq(Inorder(t.left), [t.n], Inorder(u.left), [u.n], Inorder(u.right));
  }

  lemma RotatedRightFacts<N>(t: Tree<N>)
    requires t.Node? && t.left.Node?
    ensures Inorder(RotatedRight(t)) == Inorder(t)
    ensures RotatedLeft(RotatedRight(t)) == t
  {
    var u := t.left;
    RotateSeq(Inorder(u.left), [u.n], Inorder(u.right), [t.n], Inorder(t.right));
  }

  lemma RotateSeq<N>(a: seq<N>, x: seq<N>, b: seq<N>, y: seq<N>, d: seq<N>)
    ensures a + x + (b + y + d) == (a + x + b) + y + d
  {}

  lemma RotatedLeftDistinct<N>(t: Tree<N>)
    requires t.Node? && t.right.Node? && Distinct(t)
    ensures Nodes(RotatedLeft(t)) == Nodes(t) && Distinct(RotatedLeft(t))
  {
    var u := t.right;
    assert Distinct(u) && Nodes(u) == Nodes(u.left) + {u.n} + Nodes(u.right);
    assert Distinct(Node(t.left, t.n, t.color, u.left));
  }

  lemma RotatedRightDistinct<N>(t: Tree<N>)
    requires t.Node? && t.left.Node? && Distinct(t)
    ensures Nodes(RotatedRight(t)) == Nodes(t) && Distinct(RotatedRight(t))
  {
    var u := t.left;
    assert Distinct(u) && Nodes(u) == Nodes(u.left) + {u.n} + Nodes(u.right);
    assert Distinct(Node(u.right, t.n, t.color, t.right));
  }

  /** The nodes a rotation writes are different ones, and their cells before it. */
  lemma RotationCells(h: Heap, c: Ctx<RbNode>, t: Tree<RbNode>, u: Tree<RbNode>, b: Tree<RbNode>, anchor: RbNode)
    requires t.Node? && u.Node? && Focus(h, c, t, anchor)
    requires (u == t.right && b == u.left) || (u == t.left && b == u.right)
    ensures t.n in h && u.n in h && t.n != u.n && anchor != t.n && anchor != u.n && Above(c, anchor) != t.n && Above(c, anchor) != u.n
    ensures h[t.n] == Cell(Above(c, anchor), RootOf(t.left), RootOf(t.right), t.color)
    ensures h[u.n] == Cell(t.n, RootOf(u.left), RootOf(u.right), u.color)
    ensures b.Node? ==> b.n in h && b.n != t.n && b.n != u.n && b.n != anchor && b.n != Above(c, anchor)
    ensures !c.Top? ==> c.n in h && Above(c, anchor) == c.n && c.n != anchor
    ensures c.InLeft? ==> h[c.n].left == t.n && h[c.n].right != t.n
    ensures c.InRight? ==> h[c.n].right == t.n && h[c.n].left != t.n
    ensures Outermost(c, t.n) == t.n <==> c.Top?
  {
    OutermostMember(c, t.n);
    assert Linked(h, u, t.n) && u.n in Nodes(u);
    assert b.Node? ==> Linked(h, b, u.n) && b.n in Nodes(b) && b.n in Nodes(u);
  }

  /** What a left rotation about the root of `t` writes, and that it writes nothing else. */
  ghost predicate RotatesLeft(h: Heap, h': Heap, c: Ctx<RbNode>, t: Tree<RbNode>, anchor: RbNode)
    requires t.Node? && t.right.Node?
  {
    var u := t.right; var a, b, d := t.left, u.left, u.right;
    && t.n in h' && h'[t.n] == Cell(u.n, RootOf(a), RootOf(b), t.color)
    && u.n in h' && h'[u.n] == Cell(Above(c, anchor), t.n, RootOf(d), u.color)
    && (b.Node? ==> b.n in h && b.n in h' && h'[b.n] == h[b.n].(parent := t.n))
    && (c.InLeft? ==> c.n in h && c.n in h' && h'[c.n] == h[c.n].(left := u.n))
    && (c.InRight? ==> c.n in h && c.n in h' && h'[c.n] == h[c.n].(right := u.n))
    && forall z <- h :: z != t.n && z != u.n && z != RootOf(b) && (c.Top? || z != c.n) ==> z in h' && h'[z] == h[z]
  }

  lemma RotateLeftFocus(h: Heap, h': Heap, c: Ctx<RbNode>, t: Tree<RbNode>, anchor: RbNode)
    requires t.Node? && t.right.Node? && Focus(h, c, t, anchor)
    requires RotatesLeft(h, h', c, t, anchor)
    ensures Focus(h', c, RotatedLeft(t), anchor)
  {
    hide RotatesLeft, Linked, CtxLinked;
    RotatedLeftDistinct(t);
    RotatedLeftLinked(h, h', c, t, anchor);
    var u := t.right;
    assert Nodes(u) == Nodes(u.left) + {u.n} + Nodes(u.right) && Distinct(u);
    RotatedLeftCtx(h, h', c, t, anchor);
  }

  lemma RotatedLeftLinked(h: Heap, h': Heap, c: Ctx<RbNode>, t: Tree<RbNode>, anchor: RbNode)
    requires t.Node? && t.right.Node? && Focus(h, c, t, anchor)
    requires RotatesLeft(h, h', c, t, anchor)
    ensures Linked(h', RotatedLeft(t), Above(c, anchor))
  {
    hide CtxLinked;
    var u := t.right; var a, b, d := t.left, u.left, u.right;
    assert Nodes(u) == Nodes(u.left) + {u.n} + Nodes(u.right) && Distinct(u);
    assert Linked(h, u, t.n);
    KeepLinked(h, h', a, t.n);
    Reparent(h, h', b, u.n, t.n);
    KeepLinked(h, h', d, u.n);
    assert Linked(h', Node(a, t.n, t.color, b), u.n);
  }

  lemma RotatedLeftCtx(h: Heap, h': Heap, c: Ctx<RbNode>, t: Tree<RbNode>, anchor: RbNode)
    requires t.Node? && t.right.Node? && Focus(h, c, t, anchor)
    requires RotatesLeft(h, h', c, t, anchor)
    ensures CtxLinked(h', c, t.right.n, anchor)
  {
    hide Linked;
    var u := t.right; var b := u.left;
    assert u.n in Nodes(u) && (b.Node? ==> b.n in Nodes(b) && b.n in Nodes(u));
    Rehole(h, h', c, t.n, u.n, anchor);
  }

  method RotateLeft(pNode: RbNode, pNodeRoot: RbNode?, ghost anchor: RbNode,
                    ghost c: Ctx<RbNode>, ghost t: Tree<RbNode>, ghost s: set<RbNode>)
    returns (root: RbNode?)
    requires t.Node? && t.right.Node? && t.n == pNode && Focus(Snap(s), c, t, anchor)
    requires pNodeRoot == Outermost(c, pNode)
    modifies s - {anchor}
    ensures Focus(Snap(s), c, RotatedLeft(t), anchor)
    ensures root == Outermost(c, t.right.n)
  {
    hide Focus, CtxNodes, Nodes, CtxLinked, Linked, Above;
    ghost var h := Snap(s);
    RotationCells(h, c, t, t.right, t.right.left, anchor);
    var pNodeTemp := pNode.right;
    pNode.right := pNodeTemp.left;
    if pNodeTemp.left != null {
      pNodeTemp.left.parent := pNode;
    }
    pNodeTemp.parent := pNode.parent;
    root := pNodeRoot;
    if pNode == pNodeRoot {
      root := pNodeTemp;
    } else if pNode == pNode.parent.left {
      pNode.parent.left := pNodeTemp;
    } else {
      pNode.parent.right := pNodeTemp;
    }
    pNodeTemp.left := pNode;
    pNode.parent := pNodeTemp;
    ghost var h' := Snap(s);
    assert h'[pNode] == Cell(pNodeTemp, RootOf(t.left), RootOf(t.right.left), t.color);
    assert h'[pNodeTemp] == Cell(Above(c, anchor), pNode, RootOf(t.right.right), t.right.color);
    assert t.right.left.Node? ==> h'[t.right.left.n] == h[t.right.left.n].(parent := pNode);
    assert c.InLeft? ==> h'[c.n] == h[c.n].(left := pNodeTemp);
    assert c.InRight? ==> h'[c.n] == h[c.n].(right := pNodeTemp);
    RotateLeftFocus(h, h', c, t, anchor);
  }

  /** What a right rotation about the root of `t` writes, and that it writes nothing else. */
  ghost predicate RotatesRight(h: Heap, h': Heap, c: Ctx<RbNode>, t: Tree<RbNode>, anchor: RbNode)
    requires t.Node? && t.left.Node?
  {
    var u := t.left; var a, b, d := t.right, u.right, u.left;
    && t.n in h' && h'[t.n] == Cell(u.n, RootOf(b), RootOf(a), t.color)
    && u.n in h' && h'[u.n] == Cell(Above(c, anchor), RootOf(d), t.n, u.color)
    && (b.Node? ==> b.n in h && b.n in h' && h'[b.n] == h[b.n].(parent := t.n))
    && (c.InLeft? ==> c.n in h && c.n in h' && h'[c.n] == h[c.n].(left := u.n))
    && (c.InRight? ==> c.n in h && c.n in h' && h'[c.n] == h[c.n].(right := u.n))
    && forall z <- h :: z != t.n && z != u.n && z != RootOf(b) && (c.Top? || z != c.n) ==> z in h' && h'[z] == h[z]
  }

  lemma RotateRightFocus(h: Heap, h': Heap, c: Ctx<RbNode>, t: Tree<RbNode>, anchor: RbNode)
    requires t.Node? && t.left.Node? && Focus(h, c, t, anchor)
    requires RotatesRight(h, h', c, t, anchor)
    ensures Focus(h', c, RotatedRight(t), anchor)
  {
    hide RotatesRight, Linked, CtxLinked;
    RotatedRightDistinct(t);
    RotatedRightLinked(h, h', c, t, anchor);
    var u := t.left;
    assert Nodes(u) == Nodes(u.left) + {u.n} + Nodes(u.right) && Distinct(u);
    RotatedRightCtx(h, h', c, t, anchor);
  }

  lemma RotatedRightLinked(h: Heap, h': Heap, c: Ctx<RbNode>, t: Tree<RbNode>, anchor: RbNode)
    requires t.Node? && t.left.Node? && Focus(h, c, t, anchor)
    requires RotatesRight(h, h', c, t, anchor)
    ensures Linked(h', RotatedRight(t), Above(c, anchor))
  {
    hide CtxLinked;
    var u := t.left; var a, b, d := t.right, u.right, u.left;
    assert Nodes(u) == Nodes(u.left) + {u.n} + Nodes(u.right) && Distinct(u);
    assert Linked(h, u, t.n);
    KeepLinked(h, h', a, t.n);
    Reparent(h, h', b, u.n, t.n);
    KeepLinked(h, h', d, u.n);
    assert Linked(h', Node(b, t.n, t.color, a), u.n);
  }

  lemma RotatedRightCtx(h: Heap, h': Heap, c: Ctx<RbNode>, t: Tree<RbNode>, anchor: RbNode)
    requires t.Node? && t.left.Node? && Focus(h, c, t, anchor)
    requires RotatesRight(h, h', c, t, anchor)
    ensures CtxLinked(h', c, t.left.n, anchor)
  {
    hide Linked;
    var u := t.left; var b := u.right;
    assert u.n in Nodes(u) && (b.Node? ==> b.n in Nodes(b) && b.n in Nodes(u));
    Rehole(h, h', c, t.n, u.n, anchor);
  }

  method RotateRight(pNode: RbNode, pNodeRoot: RbNode?, ghost anchor: RbNode,
                    ghost c: Ctx<RbNode>, ghost t: Tree<RbNode>, ghost s: set<RbNode>)
    returns (root: RbNode?)
    requires t.Node? && t.left.Node? && t.n == pNode && Focus(Snap(s), c, t, anchor)
    requires pNodeRoot == Outermost(c, pNode)
    modifies s - {anchor}
    ensures Focus(Snap(s), c, RotatedRight(t), anchor)
    ensures root == Outermost(c, t.left.n)
  {
    hide Focus, CtxNodes, Nodes, CtxLinked, Linked, Above;
    ghost var h := Snap(s);
    RotationCells(h, c, t, t.left, t.left.right, anchor);
    var pNodeTemp := pNode.left;
    pNode.left := pNodeTemp.right;
    if pNodeTemp.right != null {
      pNodeTemp.right.parent := pNode;
    }
    pNodeTemp.parent := pNode.parent;
    root := pNodeRoot;
    if pNode == pNodeRoot {
      root := pNodeTemp;
    } else if pNode == pNode.parent.right {
      pNode.parent.right := pNodeTemp;
    } else {
      pNode.parent.left := pNodeTemp;
    }
    pNodeTemp.right := pNode;
    pNode.parent := pNodeTemp;
    ghost var h' := Snap(s);
    assert h'[pNode] == Cell(pNodeTemp, RootOf(t.left.right), RootOf(t.right), t.color);
    assert h'[pNodeTemp] == Cell(Above(c, anchor), RootOf(t.left.left), pNode, t.left.color);
    assert t.left.right.Node? ==> h'[t.left.right.n] == h[t.left.right.n].(parent := pNode);
    assert c.InLeft? ==> h'[c.n] == h[c.n].(left := pNodeTemp);
    assert c.InRight? ==> h'[c.n] == h[c.n].(right := pNodeTemp);
    RotateRightFocus(h, h', c, t, anchor);
  }

  // ---------------------------------------------------------------- moving the focus, recolouring

  lemma FocusUp(h: Heap, c: Ctx<RbNode>, t: Tree<RbNode>, anchor: RbNode)
    requires Focus(h, c, t, anchor) && !c.Top?
    ensures Focus(h, c.up, Fill(c, t), anchor)
  {}

  lemma FocusLeft(h: Heap, c: Ctx<RbNode>, t: Tree<RbNode>, anchor: RbNode)
    requires Focus(h, c, t, anchor) && t.Node?
    ensures Focus(h, InLeft(c, t.n, t.color, t.right), t.left, anchor)
  {}

  lemma FocusRight(h: Heap, c: Ctx<RbNode>, t: Tree<RbNode>, anchor: RbNode)
    requires Focus(h, c, t, anchor) && t.Node?
    ensures Focus(h, InRight(c, t.n, t.color, t.left), t.right, anchor)
  {}

  lemma Recolor(h: Heap, h': Heap, c: Ctx<RbNode>, t: Tree<RbNode>, k: Color, anchor: RbNode)
    requires Focus(h, c, t, anchor) && t.Node?
    requires h' == h[t.n := h[t.n].(color := k)]
    ensures Focus(h', c, Painted(t, k), anchor)
  {
    KeepLinked(h, h', t.left, t.n);
    KeepLinked(h, h', t.right, t.n);
    KeepCtx(h, h', c, t.n, anchor);
  }

  // ---------------------------------------------------------------- insertion: rebalancing

  /** The loop of the insertion: `t` is a red node whose only possible fault is a red
      parent. */
  ghost predicate Inserting(c: Ctx<RbNode>, t: Tree<RbNode>) {
    && IsRed(t) && RedBlack(t)
    && CtxRedBlack(c, BlackHeight(t), false) && RootBlack(c)
  }

  /** Parent and uncle are red: both become black, and the grandparent becomes red. */
  ghost function Flipped(c: Ctx<RbNode>, t: Tree<RbNode>): Tree<RbNode>
    requires !c.Top? && !c.up.Top? && c.up.sibling.Node?
  {
    Painted(Fill(c.up.(sibling := Painted(c.up.sibling, Black)), Painted(Fill(c, t), Black)), Red)
  }

  lemma FlippedOk(c: Ctx<RbNode>, t: Tree<RbNode>)
    requires Inserting(c, t) && !c.Top? && c.color == Red && !c.up.Top? && IsRed(c.up.sibling)
    ensures Inserting(c.up.up, Flipped(c, t))
    ensures Inorder(Plug(c.up.up, Flipped(c, t))) == Inorder(Plug(c, t))
  {
    assert RootBlack(c.up) && CtxRedBlack(c.up, BlackHeight(t), true);
    assert RedBlack(Painted(Fill(c, t), Black)) && RedBlack(Painted(c.up.sibling, Black));
    SameInorder(c.up.up, Fill(c.up, Fill(c, t)), Flipped(c, t));
  }

  /** Parent red, uncle black, the new node on the outer side: the grandparent's subtree
      after painting and rotating. */
  ghost function Lifted(c: Ctx<RbNode>, t: Tree<RbNode>): Tree<RbNode>
    requires !c.Top? && !c.up.Top?
  {
    var g := c.up;
    if g.InLeft? then Node(t, c.n, Black, Node(c.sibling, g.n, Red, g.sibling))
    else Node(Node(g.sibling, g.n, Red, c.sibling), c.n, Black, t)
  }

  /** The context of `t` in `Lifted`. */
  ghost function LiftedCtx(c: Ctx<RbNode>): Ctx<RbNode>
    requires !c.Top? && !c.up.Top?
  {
    var g := c.up;
    if g.InLeft? then InLeft(g.up, c.n, Black, Node(c.sibling, g.n, Red, g.sibling))
    else InRight(g.up, c.n, Black, Node(g.sibling, g.n, Red, c.sibling))
  }

  lemma LiftedOk(c: Ctx<RbNode>, t: Tree<RbNode>)
    requires Inserting(c, t) && !c.Top? && c.color == Red && !c.up.Top? && !IsRed(c.up.sibling)
    requires c.InLeft? <==> c.up.InLeft?
    ensures Inserting(LiftedCtx(c), t) && Fill(LiftedCtx(c), t) == Lifted(c, t)
    ensures Inorder(Plug(LiftedCtx(c), t)) == Inorder(Plug(c, t))
  {
    var g := c.up;
    assert RootBlack(g) && CtxRedBlack(g, BlackHeight(t), true) && CtxRedBlack(g.up, BlackHeight(t) + 1, false);
    CtxBlackParent(LiftedCtx(c), BlackHeight(t));
    if g.InLeft? {
      RotateSeq(Inorder(t), [c.n], Inorder(c.sibling), [g.n], Inorder(g.sibling));
    } else {
      RotateSeq(Inorder(g.sibling), [g.n], Inorder(c.sibling), [c.n], Inorder(t));
    }
    SameInorder(g.up, Fill(g, Fill(c, t)), Lifted(c, t));
  }

  function Depth<N>(c: Ctx<N>): nat { if c.Top? then 0 else 1 + Depth(c.up) }

  lemma FlipFocus(h: Heap, h': Heap, c: Ctx<RbNode>, t: Tree<RbNode>, anchor: RbNode)
    requires Focus(h, c, t, anchor) && !c.Top? && !c.up.Top? && c.up.sibling.Node?
    requires c.n in h && c.up.sibling.n in h && c.up.n in h
    requires h' == h[c.n := h[c.n].(color := Black)]
                    [c.up.sibling.n := h[c.up.sibling.n].(color := Black)]
                    [c.up.n := h[c.up.n].(color := Red)]
    ensures Focus(h', c.up.up, Flipped(c, t), anchor)
  {
    var g, u := c.up, c.up.sibling;
    var p := Painted(Fill(c, t), Black);
    var h1 := h[c.n := h[c.n].(color := Black)];
    FocusUp(h, c, t, anchor);
    Recolor(h, h1, g, Fill(c, t), Black, anchor);
    FocusUp(h1, g, p, anchor);
    var across := if g.InLeft? then InRight(g.up, g.n, g.color, p) else InLeft(g.up, g.n, g.color, p);
    if g.InLeft? { FocusRight(h1, g.up, Fill(g, p), anchor); } else { FocusLeft(h1, g.up, Fill(g, p), anchor); }
    var h2 := h1[u.n := h1[u.n].(color := Black)];
    Recolor(h1, h2, across, u, Black, anchor);
    FocusUp(h2, across, Painted(u, Black), anchor);
    Recolor(h2, h', g.up, Fill(across, Painted(u, Black)), Red, anchor);
  }

  /** Writing the anchor does not disturb the tree. */
  lemma AnchorWritten(h: Heap, h': Heap, c: Ctx<RbNode>, t: Tree<RbNode>, anchor: RbNode)
    requires Focus(h, c, t, anchor)
    requires forall x <- h :: x != anchor ==> x in h' && h'[x] == h[x]
    ensures Focus(h', c, t, anchor)
  {
    KeepLinked(h, h', t, Above(c, anchor));
    KeepCtx(h, h', c, RootOf(t), anchor);
  }

  /** Parent red, uncle black, the new node on the inner side: parent and node swap
      places, and the parent becomes the node to look at. */
  ghost function InnerCtx(c: Ctx<RbNode>, t: Tree<RbNode>): Ctx<RbNode>
    requires !c.Top? && t.Node?
  {
    if c.InRight? then InLeft(c.up, t.n, t.color, t.right) else InRight(c.up, t.n, t.color, t.left)
  }

  ghost function InnerTree(c: Ctx<RbNode>, t: Tree<RbNode>): Tree<RbNode>
    requires !c.Top? && t.Node?
  {
    if c.InRight? then Node(c.sibling, c.n, c.color, t.left) else Node(t.right, c.n, c.color, c.sibling)
  }

  lemma InnerOk(h: Heap, c: Ctx<RbNode>, t: Tree<RbNode>, anchor: RbNode)
    requires !c.Top? && c.color == Red && Inserting(c, t)
    requires Focus(h, c.up, if c.InRight? then RotatedLeft(Fill(c, t)) else RotatedRight(Fill(c, t)), anchor)
    ensures Focus(h, InnerCtx(c, t), InnerTree(c, t), anchor)
    ensures Inserting(InnerCtx(c, t), InnerTree(c, t))
    ensures Inorder(Plug(InnerCtx(c, t), InnerTree(c, t))) == Inorder(Plug(c, t))
  {
    var c', t', f := InnerCtx(c, t), InnerTree(c, t), Fill(c, t);
    if c.InRight? {
      assert RotatedLeft(f) == Fill(c', t');
      RotatedLeftFacts(f);
      FocusLeft(h, c.up, RotatedLeft(f), anchor);
    } else {
      assert RotatedRight(f) == Fill(c', t');
      RotatedRightFacts(f);
      FocusRight(h, c.up, RotatedRight(f), anchor);
    }
    SameInorder(c.up, f, Fill(c', t'));
  }

  /** The grandparent's subtree after painting, before the final rotation. */
  ghost function LiftPainted(c: Ctx<RbNode>, t: Tree<RbNode>): Tree<RbNode>
    requires !c.Top? && !c.up.Top?
  {
    Painted(Fill(c.up, Painted(Fill(c, t), Black)), Red)
  }

  lemma LiftPaint(h: Heap, h': Heap, c: Ctx<RbNode>, t: Tree<RbNode>, anchor: RbNode)
    requires Focus(h, c, t, anchor) && !c.Top? && !c.up.Top?
    requires c.n in h && c.up.n in h
    requires h' == h[c.n := h[c.n].(color := Black)][c.up.n := h[c.up.n].(color := Red)]
    ensures Focus(h', c.up.up, LiftPainted(c, t), anchor)
  {
    var h1 := h[c.n := h[c.n].(color := Black)];
    FocusUp(h, c, t, anchor);
    Recolor(h, h1, c.up, Fill(c, t), Black, anchor);
    FocusUp(h1, c.up, Painted(Fill(c, t), Black), anchor);
    Recolor(h1, h', c.up.up, Fill(c.up, Painted(Fill(c, t), Black)), Red, anchor);
  }

  lemma LiftFocus(h: Heap, c: Ctx<RbNode>, t: Tree<RbNode>, anchor: RbNode)
    requires !c.Top? && !c.up.Top?
    requires Focus(h, c.up.up, Lifted(c, t), anchor)
    ensures Focus(h, LiftedCtx(c), t, anchor)
  {
    if c.up.InLeft? {
      FocusLeft(h, c.up.up, Lifted(c, t), anchor);
    } else {
      FocusRight(h, c.up.up, Lifted(c, t), anchor);
    }
  }

  lemma FamilyApart(h: Heap, c: Ctx<RbNode>, t: Tree<RbNode>, anchor: RbNode)
    requires Focus(h, c, t, anchor) && !c.Top? && !c.up.Top? && c.up.sibling.Node?
    ensures var u := c.up.sibling.n;
      c.n != u && u != c.up.n && c.n != c.up.n && anchor != u && {c.n, u, c.up.n} <= h.Keys
  {
    assert CtxLinked(h, c.up, c.n, anchor) && Linked(h, c.up.sibling, c.up.n) && CtxDistinct(c.up);
    assert c.up.sibling.n in Nodes(c.up.sibling) && c.up.n in CtxNodes(c.up);
  }

  /** Red parent, red uncle. */
  method InsertFlip(pNode: RbNode, pNodeParentParent: RbNode, pNodeTemp: RbNode, ghost anchor: RbNode,
                    ghost c: Ctx<RbNode>, ghost t: Tree<RbNode>, ghost s: set<RbNode>)
    requires anchor in s && Focus(Snap(s), c, t, anchor) && RootOf(t) == pNode
    requires !c.Top? && !c.up.Top? && c.up.n == pNodeParentParent && RootOf(c.up.sibling) == pNodeTemp
    modifies s - {anchor}
    ensures Focus(Snap(s), c.up.up, Flipped(c, t), anchor)
  {
    hide CtxLinked, Distinct, Nodes, Flipped;
    ghost var h := Snap(s);
    FamilyApart(h, c, t, anchor);
    pNode.parent.color := Black;
    ghost var h1 := Snap(s);
    assert h1 == h[c.n := h[c.n].(color := Black)];
    pNodeTemp.color := Black;
    ghost var h2 := Snap(s);
    assert h2 == h1[pNodeTemp := h1[pNodeTemp].(color := Black)];
    pNodeParentParent.color := Red;
    assert Snap(s) == h2[c.up.n := h2[c.up.n].(color := Red)];
    FlipFocus(h, Snap(s), c, t, anchor);
  }

  method InsertInnerLeft(pNode: RbNode, anchor: RbNode, ghost c: Ctx<RbNode>, ghost t: Tree<RbNode>, ghost s: set<RbNode>)
    requires anchor in s && Focus(Snap(s), c, t, anchor) && Inserting(c, t)
    requires c.InRight? && c.color == Red && c.n == pNode && anchor.parent == Outermost(c, t.n)
    modifies s - {anchor}, anchor`parent
    ensures Focus(Snap(s), InnerCtx(c, t), InnerTree(c, t), anchor)
    ensures Inserting(InnerCtx(c, t), InnerTree(c, t))
    ensures Inorder(Plug(InnerCtx(c, t), InnerTree(c, t))) == Inorder(Plug(c, t))
    ensures anchor.parent == Outermost(InnerCtx(c, t), pNode)
  {
    FocusUp(Snap(s), c, t, anchor);
    var root := RotateLeft(pNode, anchor.parent, anchor, c.up, Fill(c, t), s);
    ghost var h1 := Snap(s);
    anchor.parent := root;
    AnchorWritten(h1, Snap(s), c.up, RotatedLeft(Fill(c, t)), anchor);
    InnerOk(Snap(s), c, t, anchor);
  }

  method InsertLiftLeft(pNode: RbNode, pNodeParentParent: RbNode, anchor: RbNode,
                       ghost c: Ctx<RbNode>, ghost t: Tree<RbNode>, ghost s: set<RbNode>)
    requires anchor in s && Focus(Snap(s), c, t, anchor) && RootOf(t) == pNode
    requires anchor.parent == Outermost(c, pNode)
    requires c.InLeft? && c.up.InLeft? && c.up.n == pNodeParentParent
    modifies s - {anchor}, anchor`parent
    ensures Focus(Snap(s), LiftedCtx(c), t, anchor)
    ensures anchor.parent == Outermost(LiftedCtx(c), pNode)
  {
    ghost var h := Snap(s);
    assert CtxLinked(h, c.up, c.n, anchor);
    pNode.parent.color := Black;
    pNodeParentParent.color := Red;
    ghost var g := LiftPainted(c, t);
    LiftPaint(h, Snap(s), c, t, anchor);
    var root := RotateRight(pNodeParentParent, anchor.parent, anchor, c.up.up, g, s);
    ghost var h2 := Snap(s);
    assert RotatedRight(g) == Lifted(c, t);
    anchor.parent := root;
    AnchorWritten(h2, Snap(s), c.up.up, Lifted(c, t), anchor);
    LiftFocus(Snap(s), c, t, anchor);
  }

  /** The loop body when the parent is a left child. */
  method InsertFixLeft(node: RbNode, anchor: RbNode, ghost c: Ctx<RbNode>, ghost t: Tree<RbNode>, ghost s: set<RbNode>)
    returns (pNode: RbNode, ghost c': Ctx<RbNode>, ghost t': Tree<RbNode>)
    requires anchor in s && Focus(Snap(s), c, t, anchor) && Inserting(c, t) && t.n == node
    requires anchor.parent == Outermost(c, node)
    requires !c.Top? && c.color == Red && c.up.InLeft?
    modifies s - {anchor}, anchor`parent
    ensures Focus(Snap(s), c', t', anchor) && Inserting(c', t') && t'.n == pNode
    ensures anchor.parent == Outermost(c', pNode)
    ensures Inorder(Plug(c', t')) == Inorder(Plug(c, t)) && Depth(c') < Depth(c)
  {
    pNode, c', t' := node, c, t;
    assert CtxLinked(Snap(s), c.up, c.n, anchor) && Linked(Snap(s), c.up.sibling, c.up.n);
    var pNodeParentParent := pNode.parent.parent;
    var pNodeTemp := pNodeParentParent.right;
    if pNodeTemp != null && pNodeTemp.color == Red {
      InsertFlip(pNode, pNodeParentParent, pNodeTemp, anchor, c, t, s);
      pNode := pNodeParentParent;
      FlippedOk(c, t);
      c', t' := c.up.up, Flipped(c, t);
    } else {
      if pNode == pNode.parent.right {
        pNode := pNode.parent;
        InsertInnerLeft(pNode, anchor, c, t, s);
        c', t' := InnerCtx(c, t), InnerTree(c, t);
      }
      InsertLiftLeft(pNode, pNodeParentParent, anchor, c', t', s);
      LiftedOk(c', t');
      c' := LiftedCtx(c');
    }
  }

  method InsertInnerRight(pNode: RbNode, anchor: RbNode, ghost c: Ctx<RbNode>, ghost t: Tree<RbNode>, ghost s: set<RbNode>)
    requires anchor in s && Focus(Snap(s), c, t, anchor) && Inserting(c, t)
    requires c.InLeft? && c.color == Red && c.n == pNode && anchor.parent == Outermost(c, t.n)
    modifies s - {anchor}, anchor`parent
    ensures Focus(Snap(s), InnerCtx(c, t), InnerTree(c, t), anchor)
    ensures Inserting(InnerCtx(c, t), InnerTree(c, t))
    ensures Inorder(Plug(InnerCtx(c, t), InnerTree(c, t))) == Inorder(Plug(c, t))
    ensures anchor.parent == Outermost(InnerCtx(c, t), pNode)
  {
    FocusUp(Snap(s), c, t, anchor);
    var root := RotateRight(pNode, anchor.parent, anchor, c.up, Fill(c, t), s);
    ghost var h1 := Snap(s);
    anchor.parent := root;
    AnchorWritten(h1, Snap(s), c.up, RotatedRight(Fill(c, t)), anchor);
    InnerOk(Snap(s), c, t, anchor);
  }

  method InsertLiftRight(pNode: RbNode, pNodeParentParent: RbNode, anchor: RbNode,
                       ghost c: Ctx<RbNode>, ghost t: Tree<RbNode>, ghost s: set<RbNode>)
    requires anchor in s && Focus(Snap(s), c, t, anchor) && RootOf(t) == pNode
    requires anchor.parent == Outermost(c, pNode)
    requires c.InRight? && c.up.InRight? && c.up.n == pNodeParentParent
    modifies s - {anchor}, anchor`parent
    ensures Focus(Snap(s), LiftedCtx(c), t, anchor)
    ensures anchor.parent == Outermost(LiftedCtx(c), pNode)
  {
    ghost var h := Snap(s);
    assert CtxLinked(h, c.up, c.n, anchor);
    pNode.parent.color := Black;
    pNodeParentParent.color := Red;
    ghost var g := LiftPainted(c, t);
    LiftPaint(h, Snap(s), c, t, anchor);
    var root := RotateLeft(pNodeParentParent, anchor.parent, anchor, c.up.up, g, s);
    ghost var h2 := Snap(s);
    assert RotatedLeft(g) == Lifted(c, t);
    anchor.parent := root;
    AnchorWritten(h2, Snap(s), c.up.up, Lifted(c, t), anchor);
    LiftFocus(Snap(s), c, t, anchor);
  }

  /** The loop body when the parent is a right child. */
  method InsertFixRight(node: RbNode, anchor: RbNode, ghost c: Ctx<RbNode>, ghost t: Tree<RbNode>, ghost s: set<RbNode>)
    returns (pNode: RbNode, ghost c': Ctx<RbNode>, ghost t': Tree<RbNode>)
    requires anchor in s && Focus(Snap(s), c, t, anchor) && Inserting(c, t) && t.n == node
    requires anchor.parent == Outermost(c, node)
    requires !c.Top? && c.color == Red && c.up.InRight?
    modifies s - {anchor}, anchor`parent
    ensures Focus(Snap(s), c', t', anchor) && Inserting(c', t') && t'.n == pNode
    ensures anchor.parent == Outermost(c', pNode)
    ensures Inorder(Plug(c', t')) == Inorder(Plug(c, t)) && Depth(c') < Depth(c)
  {
    pNode, c', t' := node, c, t;
    assert CtxLinked(Snap(s), c.up, c.n, anchor) && Linked(Snap(s), c.up.sibling, c.up.n);
    var pNodeParentParent := pNode.parent.parent;
    var pNodeTemp := pNodeParentParent.left;
    if pNodeTemp != null && pNodeTemp.color == Red {
      InsertFlip(pNode, pNodeParentParent, pNodeTemp, anchor, c, t, s);
      pNode := pNodeParentParent;
      FlippedOk(c, t);
      c', t' := c.up.up, Flipped(c, t);
    } else {
      if pNode == pNode.parent.left {
        pNode := pNode.parent;
        InsertInnerRight(pNode, anchor, c, t, s);
        c', t' := InnerCtx(c, t), InnerTree(c, t);
      }
      InsertLiftRight(pNode, pNodeParentParent, anchor, c', t', s);
      LiftedOk(c', t');
      c' := LiftedCtx(c');
    }
  }

  // ---------------------------------------------------------------- whole trees

  ghost predicate AnchorExact(anchor: RbNode, s: seq<RbNode>)
    reads anchor
  {
    && anchor.left == (if s == [] then anchor else s[0])
    && anchor.right == (if s == [] then anchor else s[|s| - 1])
  }

  /** The heap below the anchor is exactly `t`: root pointer, and left, right, parent and
      colour of every node. */
  ghost predicate Holds(anchor: RbNode, t: Tree<RbNode>)
    reads {anchor} + Nodes(t)
  {
    Focus(Snap(Nodes(t)), Top, t, anchor) && anchor.parent == RootOf(t)
  }

  /** The state between two operations: a valid red-black tree with an exact anchor. */
  ghost predicate IsTree(anchor: RbNode, t: Tree<RbNode>)
    reads {anchor} + Nodes(t)
  {
    Holds(anchor, t) && Valid(t) && anchor.color == Red && AnchorExact(anchor, Inorder(t))
  }

  lemma {:induction false} FocusClose(h: Heap, c: Ctx<RbNode>, t: Tree<RbNode>, anchor: RbNode)
    requires Focus(h, c, t, anchor)
    ensures Focus(h, Top, Plug(c, t), anchor)
    ensures RootOf(Plug(c, t)) == Outermost(c, RootOf(t))
    decreases c
  {
    if !c.Top? {
      FocusUp(h, c, t, anchor);
      FocusClose(h, c.up, Fill(c, t), anchor);
    }
  }

  /** Zooming in on node `x`. */
  lemma {:induction false} FocusOn(h: Heap, c: Ctx<RbNode>, t: Tree<RbNode>, x: RbNode, anchor: RbNode)
    returns (c': Ctx<RbNode>, t': Tree<RbNode>)
    requires Focus(h, c, t, anchor) && x in Nodes(t)
    ensures Focus(h, c', t', anchor) && RootOf(t') == x && Plug(c', t') == Plug(c, t)
    decreases t
  {
    if t.n == x {
      c', t' := c, t;
    } else if x in Nodes(t.left) {
      FocusLeft(h, c, t, anchor);
      c', t' := FocusOn(h, InLeft(c, t.n, t.color, t.right), t.left, x, anchor);
    } else {
      FocusRight(h, c, t, anchor);
      c', t' := FocusOn(h, InRight(c, t.n, t.color, t.left), t.right, x, anchor);
    }
  }

  lemma {:induction false} LinkedKeys(h: Heap, t: Tree<RbNode>, par: RbNode?)
    requires Linked(h, t, par)
    ensures Nodes(t) <= h.Keys
  {
    if t.Node? {
      LinkedKeys(h, t.left, t.n);
      LinkedKeys(h, t.right, t.n);
    }
  }

  // ---------------------------------------------------------------- insertion

  datatype Side = SideLeft | SideRight

  /** Where a new node may be linked: below the anchor of an empty tree, or where a node
      has no child yet. */
  ghost predicate LegalPosition(t: Tree<RbNode>, pNodeParent: RbNode, side: Side, anchor: RbNode)
    reads Nodes(t)
  {
    if t.Nil? then pNodeParent == anchor && side == SideLeft
    else pNodeParent in Nodes(t) && (if side == SideLeft then pNodeParent.left else pNodeParent.right) == null
  }

  /** The hole a new node goes into. */
  ghost predicate Vacant(c: Ctx<RbNode>, pNodeParent: RbNode, side: Side, anchor: RbNode) {
    if c.Top? then pNodeParent == anchor && side == SideLeft
    else c.n == pNodeParent && if side == SideLeft then c.InLeft? else c.InRight?
  }

  function Leaf(n: RbNode): Tree<RbNode> { Node(Nil, n, Red, Nil) }

  function InsertAt<N>(s: seq<N>, k: nat, x: N): seq<N>
    requires k <= |s|
  {
    s[..k] + [x] + s[k..]
  }

  /** `s` with `x` put next to `y`, on the given side. */
  ghost predicate PutNextTo(s: seq<RbNode>, s': seq<RbNode>, x: RbNode, y: RbNode, side: Side) {
    exists i :: 0 <= i < |s| && s[i] == y && s' == InsertAt(s, if side == SideLeft then i else i + 1, x)
  }

  /** A node inserted on the left of the first node is the new first node, and nowhere
      else; and the same on the right. */
  lemma InorderEnds(c: Ctx<RbNode>, pNodeParent: RbNode, side: Side, anchor: RbNode)
    requires Vacant(c, pNodeParent, side, anchor) && Distinct(Plug(c, Nil)) && !c.Top?
    ensures var s := Inorder(Plug(c, Nil));
      && s == Before(c) + After(c) && |s| > 0
      && if side == SideLeft
         then |After(c)| > 0 && After(c)[0] == pNodeParent && (Before(c) == [] <==> s[0] == pNodeParent)
         else |Before(c)| > 0 && Before(c)[|Before(c)| - 1] == pNodeParent && (After(c) == [] <==> s[|s| - 1] == pNodeParent)
  {
    hide Plug, Distinct, NoDuplicates, Vacant, Before, After;
    VacantEnds(c, pNodeParent, side, anchor);
    InorderPlug(c, Nil);
    InorderDistinct(Plug(c, Nil));
    assert Inorder(Plug(c, Nil)) == Before(c) + After(c);
    if side == SideLeft { FirstOfBoth(Before(c), After(c)); } else { LastOfBoth(Before(c), After(c)); }
  }

  lemma VacantEnds(c: Ctx<RbNode>, pNodeParent: RbNode, side: Side, anchor: RbNode)
    requires Vacant(c, pNodeParent, side, anchor) && !c.Top?
    ensures if side == SideLeft then After(c) != [] && After(c)[0] == pNodeParent
      else Before(c) != [] && Before(c)[|Before(c)| - 1] == pNodeParent
  {}

  lemma FirstOfBoth(a: seq<RbNode>, b: seq<RbNode>)
    requires b != [] && NoDuplicates(a + b)
    ensures a == [] <==> (a + b)[0] == b[0]
  {
    assert (a + b)[|a|] == b[0];
  }

  lemma LastOfBoth(a: seq<RbNode>, b: seq<RbNode>)
    requires a != [] && NoDuplicates(a + b)
    ensures b == [] <==> (a + b)[|a + b| - 1] == a[|a| - 1]
  {
    assert (a + b)[|a| - 1] == a[|a| - 1];
  }

  function NewChild(cell: Cell, side: Side, n: RbNode): Cell {
    if side == SideLeft then cell.(left := n) else cell.(right := n)
  }

  /** Linking the new leaf in: the pointer part of the insertion. */
  method Attach(pNode: RbNode, pNodeParent: RbNode, anchor: RbNode, side: Side, ghost s: set<RbNode>)
    requires pNode !in s && anchor !in s && pNode != anchor
    requires if pNodeParent == anchor then side == SideLeft else pNodeParent in s
    modifies pNode, anchor, s
    ensures var leaf := old(Snap(s))[pNode := Cell(pNodeParent, null, null, Red)];
      Snap(s + {pNode}) == (if pNodeParent == anchor then leaf
                            else leaf[pNodeParent := NewChild(leaf[pNodeParent], side, pNode)])
    ensures anchor.color == old(anchor.color)
    ensures anchor.parent == if pNodeParent == anchor then pNode else old(anchor.parent)
    ensures anchor.left == if side == SideLeft && (pNodeParent == anchor || pNodeParent == old(anchor.left)) then pNode else old(anchor.left)
    ensures anchor.right == if pNodeParent == anchor || (side == SideRight && pNodeParent == old(anchor.right)) then pNode else old(anchor.right)
  {
    ghost var h := Snap(s);
    pNode.parent := pNodeParent;
    pNode.right := null;
    pNode.left := null;
    pNode.color := Red;
    if side == SideLeft {
      LinkLeft(pNode, pNodeParent, anchor);
    } else {
      LinkRight(pNode, pNodeParent, anchor);
    }
    ghost var leaf := h[pNode := Cell(pNodeParent, null, null, Red)];
    if pNodeParent != anchor {
      assert Snap(s + {pNode})[pNodeParent] == NewChild(h[pNodeParent], side, pNode);
      assert forall z <- s :: z != pNodeParent ==> Snap(s + {pNode})[z] == h[z];
      assert Snap(s + {pNode}) == leaf[pNodeParent := NewChild(leaf[pNodeParent], side, pNode)];
    } else {
      assert Snap(s + {pNode}) == leaf;
    }
  }

  method LinkLeft(pNode: RbNode, pNodeParent: RbNode, anchor: RbNode)
    requires pNode != anchor && pNode != pNodeParent
    modifies pNodeParent`left, anchor`parent, anchor`left, anchor`right
    ensures pNodeParent.left == pNode
    ensures anchor.parent == if pNodeParent == anchor then pNode else old(anchor.parent)
    ensures anchor.right == if pNodeParent == anchor then pNode else old(anchor.right)
    ensures anchor.left == if pNodeParent == anchor || pNodeParent == old(anchor.left) then pNode else old(anchor.left)
  {
    pNodeParent.left := pNode;
    if pNodeParent == anchor {
      anchor.parent := pNode;
      anchor.right := pNode;
    } else if pNodeParent == anchor.left {
      anchor.left := pNode;
    }
  }

  method LinkRight(pNode: RbNode, pNodeParent: RbNode, anchor: RbNode)
    requires pNode != anchor && pNodeParent != anchor
    modifies pNodeParent`right, anchor`right
    ensures pNodeParent.right == pNode && anchor.right == if pNodeParent == old(anchor.right) then pNode else old(anchor.right)
  {
    pNodeParent.right := pNode;
    if pNodeParent == anchor.right {
      anchor.right := pNode;
    }
  }

  lemma Attached(h: Heap, h': Heap, c: Ctx<RbNode>, pNode: RbNode, pNodeParent: RbNode, side: Side, anchor: RbNode)
    requires Vacant(c, pNodeParent, side, anchor) && Focus(h, c, Nil, anchor)
    requires pNode != anchor && pNode !in CtxNodes(c)
    requires var leaf := h[pNode := Cell(pNodeParent, null, null, Red)];
      if c.Top? then h' == leaf
      else c.n in h && h' == leaf[pNodeParent := NewChild(h[pNodeParent], side, pNode)]
    ensures Focus(h', c, Leaf(pNode), anchor)
  {
    Rehole(h, h', c, null, pNode, anchor);
  }

  /** The anchor after linking in the leaf. */
  lemma AttachedEnds(c: Ctx<RbNode>, pNode: RbNode, pNodeParent: RbNode, side: Side, anchor: RbNode,
                     left: RbNode?, right: RbNode?)
    requires Vacant(c, pNodeParent, side, anchor) && Distinct(Plug(c, Nil)) && anchor !in CtxNodes(c)
    requires var s := Inorder(Plug(c, Nil));
      && left == (if s == [] then anchor else s[0]) && right == (if s == [] then anchor else s[|s| - 1])
    ensures var s' := Before(c) + [pNode] + After(c);
      && s'[0] == (if side == SideLeft && (pNodeParent == anchor || pNodeParent == left) then pNode else left)
      && s'[|s'| - 1] == (if pNodeParent == anchor || (side == SideRight && pNodeParent == right) then pNode else right)
  {
    if !c.Top? {
      InorderEnds(c, pNodeParent, side, anchor);
    }
  }

  /** The hole at a legal leaf position. */
  lemma VacantHole(anchor: RbNode, t: Tree<RbNode>, pNodeParent: RbNode, side: Side) returns (c: Ctx<RbNode>)
    requires Holds(anchor, t)
    requires LegalPosition(t, pNodeParent, side, anchor)
    ensures Vacant(c, pNodeParent, side, anchor) && Plug(c, Nil) == t
    ensures Focus(Snap(Nodes(t)), c, Nil, anchor)
    ensures c.Top? <==> t.Nil?
  {
    if t.Nil? {
      c := Top;
    } else {
      var h := Snap(Nodes(t));
      var c0, t0 := FocusOn(h, Top, t, pNodeParent, anchor);
      if side == SideLeft {
        FocusLeft(h, c0, t0, anchor);
        c := InLeft(c0, t0.n, t0.color, t0.right);
      } else {
        FocusRight(h, c0, t0, anchor);
        c := InRight(c0, t0.n, t0.color, t0.left);
      }
    }
  }

  /** Initialising the node, linking it in, and keeping the anchor exact. */
  method InsertLeaf(pNode: RbNode, pNodeParent: RbNode, anchor: RbNode, side: Side, ghost t: Tree<RbNode>)
    returns (ghost c: Ctx<RbNode>)
    requires IsTree(anchor, t) && pNode != anchor && pNode !in Nodes(t)
    requires LegalPosition(t, pNodeParent, side, anchor)
    modifies pNode, anchor, Nodes(t)
    ensures Vacant(c, pNodeParent, side, anchor) && Plug(c, Nil) == t
    ensures Focus(Snap(Nodes(t) + {pNode, anchor}), c, Leaf(pNode), anchor) && Inserting(c, Leaf(pNode))
    ensures anchor.parent == Outermost(c, pNode) && anchor.color == Red
    ensures AnchorExact(anchor, Before(c) + [pNode] + After(c))
  {
    c := VacantHole(anchor, t, pNodeParent, side);
    ghost var h := Snap(Nodes(t));
    PlugNodes(c, Nil);
    HoleRedBlack(c, Nil);
    FocusClose(h, c, Nil, anchor);
    AttachedEnds(c, pNode, pNodeParent, side, anchor, anchor.left, anchor.right);
    Attach(pNode, pNodeParent, anchor, side, Nodes(t));
    ghost var h1 := Snap(Nodes(t) + {pNode});
    Attached(h, h1, c, pNode, pNodeParent, side, anchor);
    AnchorWritten(h1, Snap(Nodes(t) + {pNode, anchor}), c, Leaf(pNode), anchor);
    if !c.Top? { SameOutermost(c, null, pNode); }
  }

  lemma {:induction false} SameOutermost(c: Ctx<RbNode>, p: RbNode?, p': RbNode?)
    requires !c.Top?
    ensures Outermost(c, p) == Outermost(c, p')
  {}

  /** The tree without the rest of the snapshot. */
  lemma Restrict(s: set<RbNode>, t: Tree<RbNode>, anchor: RbNode)
    requires Focus(Snap(s), Top, t, anchor) && anchor.parent == RootOf(t)
    ensures Holds(anchor, t) && Nodes(t) <= s
  {
    LinkedKeys(Snap(s), t, anchor);
    KeepLinked(Snap(s), Snap(Nodes(t)), t, anchor);
  }

  method InsertPaintRoot(anchor: RbNode, ghost c: Ctx<RbNode>, ghost t: Tree<RbNode>, ghost s: set<RbNode>)
    returns (ghost t': Tree<RbNode>)
    requires anchor in s && Focus(Snap(s), c, t, anchor) && Inserting(c, t)
    requires anchor.parent == Outermost(c, t.n) && (c.Top? || c.color == Black)
    modifies s - {anchor}
    ensures Holds(anchor, t') && Valid(t') && Nodes(t') <= s
    ensures Inorder(t') == Inorder(Plug(c, t))
  {
    ghost var h, u := Snap(s), Plug(c, t);
    FocusClose(h, c, t, anchor);
    RootBlackPlug(c, t);
    OutermostMember(c, t.n);
    if !c.Top? {
      CtxBlackParent(c, BlackHeight(t));
      PlugRedBlack(c, t);
    }
    t' := Painted(u, Black);
    assert Linked(h, u, anchor) && u.Node?;
    anchor.parent.color := Black;
    Recolor(h, Snap(s), Top, u, Black, anchor);
    Restrict(s, t', anchor);
  }

  /** One round of rebalancing. */
  method InsertStep(node: RbNode, anchor: RbNode, ghost c: Ctx<RbNode>, ghost t: Tree<RbNode>, ghost s: set<RbNode>)
    returns (pNode: RbNode, ghost c': Ctx<RbNode>, ghost t': Tree<RbNode>)
    requires anchor in s && Focus(Snap(s), c, t, anchor) && Inserting(c, t) && t.n == node
    requires anchor.parent == Outermost(c, node)
    requires !c.Top? && c.color == Red
    modifies s - {anchor}, anchor`parent
    ensures Focus(Snap(s), c', t', anchor) && Inserting(c', t') && t'.n == pNode
    ensures anchor.parent == Outermost(c', pNode)
    ensures Inorder(Plug(c', t')) == Inorder(Plug(c, t)) && Depth(c') < Depth(c)
  {
    RedParent(Snap(s), c, t, anchor);
    var pNodeParentParent := node.parent.parent;
    if node.parent == pNodeParentParent.left {
      pNode, c', t' := InsertFixLeft(node, anchor, c, t, s);
    } else {
      pNode, c', t' := InsertFixRight(node, anchor, c, t, s);
    }
  }

  /** The rebalancing loop, and painting the root black. */
  method InsertRebalance(node: RbNode, anchor: RbNode, ghost c0: Ctx<RbNode>, ghost s: set<RbNode>)
    returns (ghost t': Tree<RbNode>)
    requires anchor in s && Focus(Snap(s), c0, Leaf(node), anchor) && Inserting(c0, Leaf(node))
    requires anchor.parent == Outermost(c0, node) && anchor.color == Red
    modifies s - {anchor}, anchor`parent
    ensures Holds(anchor, t') && Valid(t') && Nodes(t') <= s
    ensures Inorder(t') == Inorder(Plug(c0, Leaf(node)))
  {
    hide RedBlack, CtxRedBlack, Distinct, CtxDistinct;
    var pNode := node;
    ghost var c, t := c0, Leaf(node);
    while pNode != anchor.parent && pNode.parent.color == Red
      invariant Focus(Snap(s), c, t, anchor) && Inserting(c, t) && t.n == pNode
      invariant anchor.parent == Outermost(c, pNode) && anchor.color == Red
      invariant Inorder(Plug(c, t)) == Inorder(Plug(c0, Leaf(node)))
      decreases Depth(c)
    {
      pNode, c, t := InsertStep(pNode, anchor, c, t, s);
    }
    OutermostMember(c, pNode);
    t' := InsertPaintRoot(anchor, c, t, s);
  }

  lemma RedParent(h: Heap, c: Ctx<RbNode>, t: Tree<RbNode>, anchor: RbNode)
    requires Focus(h, c, t, anchor) && Inserting(c, t) && !c.Top? && c.color == Red
    ensures !c.up.Top? && CtxLinked(h, c.up, c.n, anchor)
  {}

  method Insert(pNode: RbNode, pNodeParent: RbNode, anchor: RbNode, side: Side, ghost t: Tree<RbNode>)
    returns (ghost t': Tree<RbNode>)
    requires IsTree(anchor, t) && pNode != anchor && pNode !in Nodes(t)
    requires LegalPosition(t, pNodeParent, side, anchor)
    modifies pNode, anchor, Nodes(t)
    ensures IsTree(anchor, t') && Nodes(t') == Nodes(t) + {pNode}
    ensures if t.Nil? then Inorder(t') == [pNode]
      else PutNextTo(Inorder(t), Inorder(t'), pNode, pNodeParent, side)
  {
    hide Snap, BlackHeight, Focus;
    ghost var c := InsertLeaf(pNode, pNodeParent, anchor, side, t);
    t' := InsertRebalance(pNode, anchor, c, Nodes(t) + {pNode, anchor});
    InsertedAt(c, pNode, pNodeParent, side, anchor, t');
    InsertedNodes(t, t', c, pNode);
  }

  lemma InsertedAt(c: Ctx<RbNode>, pNode: RbNode, pNodeParent: RbNode, side: Side, anchor: RbNode, t': Tree<RbNode>)
    requires Vacant(c, pNodeParent, side, anchor) && Distinct(Plug(c, Nil)) && Inorder(t') == Inorder(Plug(c, Leaf(pNode)))
    ensures Inorder(t') == Before(c) + [pNode] + After(c)
    ensures !c.Top? ==> PutNextTo(Inorder(Plug(c, Nil)), Inorder(t'), pNode, pNodeParent, side)
  {
    InorderPlug(c, Leaf(pNode));
    if !c.Top? {
      InorderEnds(c, pNodeParent, side, anchor);
      var s, i := Inorder(Plug(c, Nil)), if side == SideLeft then |Before(c)| else |Before(c)| - 1;
      assert s[i] == pNodeParent;
      assert s[..|Before(c)|] == Before(c) && s[|Before(c)|..] == After(c);
      PutAt(s, Inorder(t'), pNode, pNodeParent, side, i);
    }
  }

  lemma InsertedNodes(t: Tree<RbNode>, t': Tree<RbNode>, c: Ctx<RbNode>, pNode: RbNode)
    requires Inorder(t') == Before(c) + [pNode] + After(c) && t == Plug(c, Nil)
    ensures Nodes(t') == Nodes(t) + {pNode}
  {
    InorderPlug(c, Nil);
    InorderElements(t);
    InorderElements(t');
    ElementsConcat(Before(c) + [pNode], After(c));
    ElementsConcat(Before(c), [pNode]);
    ElementsConcat(Before(c), After(c));
  }

  lemma PutAt(s: seq<RbNode>, s': seq<RbNode>, x: RbNode, y: RbNode, side: Side, i: nat)
    requires i < |s| && s[i] == y
    requires s' == InsertAt(s, if side == SideLeft then i else i + 1, x)
    ensures PutNextTo(s, s', x, y, side)
  {}
}
