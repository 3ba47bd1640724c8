/** RBTreeErase: unlinking a node, and the loop that restores the black heights. */
module RbErase {
  import opened RbModel
  import opened RedBlackTree

  // ---------------------------------------------------------------- erasure: rebalancing

  function Blackened<N>(t: Tree<N>): Tree<N> {
    if t.Nil? then Nil else Painted(t, Black)
  }

  /** The loop of the erasure: `t` is one black node short, and its root may be red with
      red children. */
  ghost predicate Erasing(c: Ctx<RbNode>, t: Tree<RbNode>) {
    RedBlack(Blackened(t)) && CtxRedBlack(c, BlackHeight(t) + 1, false) && RootBlack(c)
  }

  /** What the loop leaves behind when it breaks off. */
  ghost predicate Erased(c: Ctx<RbNode>, t: Tree<RbNode>) {
    RedBlack(t) && !IsRed(t) && CtxRedBlack(c, BlackHeight(t), false) && RootBlack(c)
  }

  /** Seen from the sibling. */
  function Across<N>(c: Ctx<N>, t: Tree<N>): (r: Ctx<N>)
    requires !c.Top?
  {
    if c.InLeft? then InRight(c.up, c.n, c.color, t) else InLeft(c.up, c.n, c.color, t)
  }

  lemma FocusAcross(h: Heap, c: Ctx<RbNode>, t: Tree<RbNode>, anchor: RbNode)
    requires Focus(h, c, t, anchor) && !c.Top?
    ensures Focus(h, Across(c, t), c.sibling, anchor)
  {}

  /** The sibling is red: after painting and rotating, the hole has a black sibling. */
  ghost function RedSiblingCtx<N>(c: Ctx<N>): Ctx<N>
    requires !c.Top? && c.sibling.Node?
  {
    var w := c.sibling;
    if c.InLeft? then InLeft(InLeft(c.up, w.n, Black, w.right), c.n, Red, w.left)
    else InRight(InRight(c.up, w.n, Black, w.left), c.n, Red, w.right)
  }

  lemma RedSiblingOk(c: Ctx<RbNode>, t: Tree<RbNode>)
    requires Erasing(c, t) && !IsRed(t) && !c.Top? && IsRed(c.sibling)
    ensures var c' := RedSiblingCtx(c);
      Erasing(c', t) && !IsRed(c'.sibling) && Inorder(Plug(c', t)) == Inorder(Plug(c, t))
  {
    var w, c' := c.sibling, RedSiblingCtx(c);
    if c.InLeft? {
      RotateSeq(Inorder(t), [c.n], Inorder(w.left), [w.n], Inorder(w.right));
    } else {
      RotateSeq(Inorder(w.left), [w.n], Inorder(w.right), [c.n], Inorder(t));
    }
    assert RootBlack(c.up) && RootBlack(c'.up);
    assert CtxRedBlack(c.up, BlackHeight(t) + 2, false);
    CtxBlackParent(c'.up, BlackHeight(t) + 1);
    SameInorder(c.up, Fill(c, t), Fill(c'.up, Fill(c', t)));
  }

  /** The sibling has no red child: it becomes red, and the shortage moves up. */
  ghost function ShortParent<N>(c: Ctx<N>, t: Tree<N>): Tree<N>
    requires !c.Top? && c.sibling.Node?
  {
    Fill(c.(sibling := Painted(c.sibling, Red)), t)
  }

  lemma ShortParentOk(c: Ctx<RbNode>, t: Tree<RbNode>)
    requires Erasing(c, t) && !IsRed(t) && !c.Top? && c.sibling.Node? && !IsRed(c.sibling)
    requires !IsRed(c.sibling.left) && !IsRed(c.sibling.right)
    ensures Erasing(c.up, ShortParent(c, t))
    ensures Inorder(Plug(c.up, ShortParent(c, t))) == Inorder(Plug(c, t))
  {
    var w := Painted(c.sibling, Red);
    assert RedBlack(w) && BlackHeight(w) == BlackHeight(t);
    assert Blackened(t) == t;
    assert RootBlack(c.up);
    if c.color == Red && !c.up.Top? { CtxWeaken(c.up, BlackHeight(t) + 1); }
    SameInorder(c.up, Fill(c, t), ShortParent(c, t));
  }

  /** The near nephew is red and the far one is not: rotate the sibling so that the far
      one is. */
  ghost function NearNephewCtx<N>(c: Ctx<N>): Ctx<N>
    requires !c.Top? && c.sibling.Node? && (if c.InLeft? then c.sibling.left else c.sibling.right).Node?
  {
    var w := c.sibling;
    if c.InLeft? then
      InLeft(c.up, c.n, c.color, Node(w.left.left, w.left.n, Black, Node(w.left.right, w.n, Red, w.right)))
    else
      InRight(c.up, c.n, c.color, Node(Node(w.left, w.n, Red, w.right.left), w.right.n, Black, w.right.right))
  }

  lemma NearNephewOk(c: Ctx<RbNode>, t: Tree<RbNode>)
    requires Erasing(c, t) && !c.Top? && c.sibling.Node? && !IsRed(c.sibling)
    requires if c.InLeft? then IsRed(c.sibling.left) && !IsRed(c.sibling.right)
      else IsRed(c.sibling.right) && !IsRed(c.sibling.left)
    ensures var c' := NearNephewCtx(c);
      && Erasing(c', t) && c'.sibling.Node? && !IsRed(c'.sibling)
      && IsRed(if c'.InLeft? then c'.sibling.right else c'.sibling.left)
      && Inorder(Plug(c', t)) == Inorder(Plug(c, t))
  {
    var w, c' := c.sibling, NearNephewCtx(c);
    var w' := c'.sibling;
    if c.InLeft? {
      assert RedBlack(w.left) && RedBlack(w'.right);
      assert Inorder(w) == Inorder(w.left) + [w.n] + Inorder(w.right);
      RotateSeq(Inorder(w.left.left), [w.left.n], Inorder(w.left.right), [w.n], Inorder(w.right));
    } else {
      assert RedBlack(w.right) && RedBlack(w'.left);
      assert Inorder(w) == Inorder(w.left) + [w.n] + Inorder(w.right);
      RotateSeq(Inorder(w.left), [w.n], Inorder(w.right.left), [w.right.n], Inorder(w.right.right));
    }
    assert RedBlack(w') && BlackHeight(w') == BlackHeight(w) && Inorder(w') == Inorder(w);
    SameInorder(c.up, Fill(c, t), Fill(c', t));
  }

  /** The far nephew is red: one rotation pays the shortage back. */
  ghost function FarNephewCtx<N>(c: Ctx<N>): Ctx<N>
    requires !c.Top? && c.sibling.Node?
  {
    var w := c.sibling;
    if c.InLeft? then InLeft(InLeft(c.up, w.n, c.color, Blackened(w.right)), c.n, Black, w.left)
    else InRight(InRight(c.up, w.n, c.color, Blackened(w.left)), c.n, Black, w.right)
  }

  lemma FarNephewOk(c: Ctx<RbNode>, t: Tree<RbNode>)
    requires Erasing(c, t) && !IsRed(t) && !c.Top? && c.sibling.Node? && !IsRed(c.sibling)
    requires IsRed(if c.InLeft? then c.sibling.right else c.sibling.left)
    ensures Erased(FarNephewCtx(c), t)
    ensures Inorder(Plug(FarNephewCtx(c), t)) == Inorder(Plug(c, t))
  {
    var w, c' := c.sibling, FarNephewCtx(c);
    if c.InLeft? {
      RotateSeq(Inorder(t), [c.n], Inorder(w.left), [w.n], Inorder(w.right));
    } else {
      RotateSeq(Inorder(w.left), [w.n], Inorder(w.right), [c.n], Inorder(t));
    }
    assert Blackened(t) == t;
    assert RootBlack(c'.up);
    var far := if c.InLeft? then w.right else w.left;
    assert RedBlack(far) && BlackHeight(Blackened(far)) == BlackHeight(far) + 1;
    assert CtxRedBlack(c'.up, BlackHeight(t) + 1, false);
    SameInorder(c.up, Fill(c, t), Fill(c'.up, Fill(c', t)));
  }

  // Painting, seen from the hole.

  ghost function RedSiblingPainted(c: Ctx<RbNode>, t: Tree<RbNode>): Tree<RbNode>
    requires !c.Top? && c.sibling.Node?
  {
    Painted(Fill(c.(sibling := Painted(c.sibling, Black)), t), Red)
  }

  lemma PaintSibling(h: Heap, h': Heap, c: Ctx<RbNode>, t: Tree<RbNode>, k: Color, anchor: RbNode)
    requires Focus(h, c, t, anchor) && !c.Top? && c.sibling.Node?
    requires c.sibling.n in h && h' == h[c.sibling.n := h[c.sibling.n].(color := k)]
    ensures Focus(h', c.(sibling := Painted(c.sibling, k)), t, anchor)
  {
    FocusAcross(h, c, t, anchor);
    Recolor(h, h', Across(c, t), c.sibling, k, anchor);
    FocusAcross(h', Across(c, t), Painted(c.sibling, k), anchor);
  }

  lemma RedSiblingPaint(h: Heap, h': Heap, c: Ctx<RbNode>, t: Tree<RbNode>, anchor: RbNode)
    requires Focus(h, c, t, anchor) && !c.Top? && c.sibling.Node?
    requires c.n in h && c.sibling.n in h
    requires c.n != c.sibling.n && h.Keys == h'.Keys
    requires forall z <- h :: h'[z] == if z == c.sibling.n then h[z].(color := Black) else if z == c.n then h[z].(color := Red) else h[z]
    ensures Focus(h', c.up, RedSiblingPainted(c, t), anchor)
  {
    var h1, c1 := h[c.sibling.n := h[c.sibling.n].(color := Black)], c.(sibling := Painted(c.sibling, Black));
    PaintSibling(h, h1, c, t, Black, anchor);
    FocusUp(h1, c1, t, anchor);
    assert h' == h1[c.n := h1[c.n].(color := Red)];
    Recolor(h1, h', c.up, Fill(c1, t), Red, anchor);
  }

  ghost function FarNephewPainted(c: Ctx<RbNode>, t: Tree<RbNode>): Tree<RbNode>
    requires !c.Top? && c.sibling.Node?
  {
    var w := c.sibling;
    var w' := if c.InLeft? then Node(w.left, w.n, c.color, Blackened(w.right))
      else Node(Blackened(w.left), w.n, c.color, w.right);
    Painted(Fill(c.(sibling := w'), t), Black)
  }

  lemma FarNephewPaint(h: Heap, h': Heap, c: Ctx<RbNode>, t: Tree<RbNode>, far: Tree<RbNode>, anchor: RbNode)
    requires Focus(h, c, t, anchor) && !c.Top? && c.sibling.Node?
    requires far == (if c.InLeft? then c.sibling.right else c.sibling.left) && far.Node?
    requires c.n in h && c.sibling.n in h && far.n in h
    requires far.n != c.n && far.n != c.sibling.n && h.Keys == h'.Keys
    requires forall z <- h ::
      h'[z] == if z == c.sibling.n then h[z].(color := c.color) else if z == c.n || z == far.n then h[z].(color := Black) else h[z]
    ensures Focus(h', c.up, FarNephewPainted(c, t), anchor)
  {
    var w := c.sibling;
    var h1, c1 := h[w.n := h[w.n].(color := c.color)], c.(sibling := Painted(w, c.color));
    PaintSibling(h, h1, c, t, c.color, anchor);
    FocusUp(h1, c1, t, anchor);
    var h2, f := h1[c.n := h1[c.n].(color := Black)], Painted(Fill(c1, t), Black);
    Recolor(h1, h2, c.up, Fill(c1, t), Black, anchor);
    assert h' == h2[far.n := h2[far.n].(color := Black)];
    if c.InLeft? {
      FocusRight(h2, c.up, f, anchor);
      var cw := InRight(c.up, c.n, Black, t);
      FocusRight(h2, cw, f.right, anchor);
      var cf := InRight(cw, w.n, c.color, w.left);
      Recolor(h2, h', cf, far, Black, anchor);
      FocusUp(h', cf, Painted(far, Black), anchor);
      FocusUp(h', cw, Fill(cf, Painted(far, Black)), anchor);
    } else {
      FocusLeft(h2, c.up, f, anchor);
      var cw := InLeft(c.up, c.n, Black, t);
      FocusLeft(h2, cw, f.left, anchor);
      var cf := InLeft(cw, w.n, c.color, w.right);
      Recolor(h2, h', cf, far, Black, anchor);
      FocusUp(h', cf, Painted(far, Black), anchor);
      FocusUp(h', cw, Fill(cf, Painted(far, Black)), anchor);
    }
  }

  /** Back to the hole after the parent has been rotated towards it. */
  lemma FocusBelow(h: Heap, c: Ctx<RbNode>, c': Ctx<RbNode>, t: Tree<RbNode>, anchor: RbNode)
    requires !c'.Top? && !c'.up.Top? && c'.up.up == c && (c'.InLeft? <==> c'.up.InLeft?)
    requires Focus(h, c, Fill(c'.up, Fill(c', t)), anchor)
    ensures Focus(h, c', t, anchor)
  {
    if c'.InLeft? {
      FocusLeft(h, c, Fill(c'.up, Fill(c', t)), anchor);
      FocusLeft(h, c'.up, Fill(c', t), anchor);
    } else {
      FocusRight(h, c, Fill(c'.up, Fill(c', t)), anchor);
      FocusRight(h, c'.up, Fill(c', t), anchor);
    }
  }

  /** Near nephew: painting, seen from the sibling. */
  ghost function NearNephewPainted(w: Tree<RbNode>, near: Tree<RbNode>, inLeft: bool): Tree<RbNode>
    requires w.Node? && near.Node?
  {
    if inLeft then Node(Painted(near, Black), w.n, Red, w.right) else Node(w.left, w.n, Red, Painted(near, Black))
  }

  lemma NearNephewPaint(h: Heap, h': Heap, c: Ctx<RbNode>, t: Tree<RbNode>, near: Tree<RbNode>, anchor: RbNode)
    requires Focus(h, c, t, anchor) && !c.Top? && c.sibling.Node?
    requires near == (if c.InLeft? then c.sibling.left else c.sibling.right) && near.Node?
    requires c.sibling.n in h && near.n in h && near.n != c.sibling.n && h.Keys == h'.Keys
    requires forall z <- h :: h'[z] == if z == near.n then h[z].(color := Black) else if z == c.sibling.n then h[z].(color := Red) else h[z]
    ensures Focus(h', Across(c, t), NearNephewPainted(c.sibling, near, c.InLeft?), anchor)
  {
    var w, cw := c.sibling, Across(c, t);
    var h1 := h[near.n := h[near.n].(color := Black)];
    assert h' == h1[w.n := h1[w.n].(color := Red)];
    FocusAcross(h, c, t, anchor);
    if c.InLeft? {
      FocusLeft(h, cw, w, anchor);
      var cn := InLeft(cw, w.n, w.color, w.right);
      Recolor(h, h1, cn, near, Black, anchor);
      FocusUp(h1, cn, Painted(near, Black), anchor);
      Recolor(h1, h', cw, Fill(cn, Painted(near, Black)), Red, anchor);
    } else {
      FocusRight(h, cw, w, anchor);
      var cn := InRight(cw, w.n, w.color, w.left);
      Recolor(h, h1, cn, near, Black, anchor);
      FocusUp(h1, cn, Painted(near, Black), anchor);
      Recolor(h1, h', cw, Fill(cn, Painted(near, Black)), Red, anchor);
    }
  }

  /** The nodes the fix-up paints, and that they are different nodes. */
  lemma SiblingApart(h: Heap, c: Ctx<RbNode>, t: Tree<RbNode>, anchor: RbNode)
    requires Focus(h, c, t, anchor) && !c.Top? && c.sibling.Node?
    ensures var w := c.sibling;
      && w.n != c.n && w.n != anchor && c.n != anchor && {w.n, c.n} <= h.Keys
      && Linked(h, w, c.n) && w.n in Nodes(w)
      && (w.left.Node? ==> w.left.n != w.n && w.left.n != c.n && w.left.n != anchor && w.left.n in h && Linked(h, w.left, w.n))
      && (w.right.Node? ==> w.right.n != w.n && w.right.n != c.n && w.right.n != anchor && w.right.n in h && Linked(h, w.right, w.n))
  {
    var w := c.sibling;
    assert w.n in Nodes(w) && Linked(h, w, c.n) && Distinct(w);
    assert Linked(h, w.left, w.n) && Linked(h, w.right, w.n);
    assert w.left.Node? ==> w.left.n in Nodes(w.left) && w.left.n in Nodes(w);
    assert w.right.Node? ==> w.right.n in Nodes(w.right) && w.right.n in Nodes(w);
  }

  /** The state the fix-up methods work in. */
  ghost predicate At(h: Heap, root: RbNode?, c: Ctx<RbNode>, t: Tree<RbNode>, anchor: RbNode) {
    Focus(h, c, t, anchor) && root == Outermost(c, RootOf(t))
  }

  method RedSiblingLeft(pNodeChildParent: RbNode, pNodeTemp: RbNode, anchor: RbNode,
                       ghost c: Ctx<RbNode>, ghost t: Tree<RbNode>, ghost s: set<RbNode>)
    requires anchor in s && At(Snap(s), anchor.parent, c, t, anchor)
    requires c.InLeft? && c.n == pNodeChildParent && RootOf(c.sibling) == pNodeTemp
    modifies s - {anchor}, anchor`parent
    ensures At(Snap(s), anchor.parent, RedSiblingCtx(c), t, anchor)
  {
    ghost var h, g, c' := Snap(s), RedSiblingPainted(c, t), RedSiblingCtx(c);
    SiblingApart(h, c, t, anchor);
    pNodeTemp.color := Black;
    pNodeChildParent.color := Red;
    RedSiblingPaint(h, Snap(s), c, t, anchor);
    var root := RotateLeft(pNodeChildParent, anchor.parent, anchor, c.up, g, s);
    ghost var h1 := Snap(s);
    assert RotatedLeft(g) == Fill(c'.up, Fill(c', t));
    FocusBelow(h1, c.up, c', t, anchor);
    anchor.parent := root;
    AnchorWritten(h1, Snap(s), c', t, anchor);
  }

  method NearNephewLeft(pNodeTemp: RbNode, anchor: RbNode,
                       ghost c: Ctx<RbNode>, ghost t: Tree<RbNode>, ghost s: set<RbNode>)
    requires anchor in s && At(Snap(s), anchor.parent, c, t, anchor)
    requires c.InLeft? && c.sibling.Node? && c.sibling.n == pNodeTemp && c.sibling.left.Node?
    modifies s - {anchor}, anchor`parent
    ensures At(Snap(s), anchor.parent, NearNephewCtx(c), t, anchor)
  {
    hide CtxLinked, Nodes, CtxNodes;
    ghost var h, near, c' := Snap(s), c.sibling.left, NearNephewCtx(c);
    ghost var cw, g := Across(c, t), NearNephewPainted(c.sibling, near, c.InLeft?);
    SiblingApart(h, c, t, anchor);
    pNodeTemp.left.color := Black;
    pNodeTemp.color := Red;
    NearNephewPaint(h, Snap(s), c, t, near, anchor);
    var root := RotateRight(pNodeTemp, anchor.parent, anchor, cw, g, s);
    ghost var h1 := Snap(s);
    assert RotatedRight(g) == c'.sibling && Across(cw, c'.sibling) == c';
    FocusAcross(h1, cw, c'.sibling, anchor);
    anchor.parent := root;
    AnchorWritten(h1, Snap(s), c', t, anchor);
  }

  method FarNephewLeft(pNodeChildParent: RbNode, pNodeTemp: RbNode, anchor: RbNode,
                      ghost c: Ctx<RbNode>, ghost t: Tree<RbNode>, ghost s: set<RbNode>)
    requires anchor in s && At(Snap(s), anchor.parent, c, t, anchor)
    requires c.InLeft? && c.n == pNodeChildParent && c.sibling.Node? && c.sibling.n == pNodeTemp
    requires c.sibling.right.Node?
    modifies s - {anchor}, anchor`parent
    ensures At(Snap(s), anchor.parent, FarNephewCtx(c), t, anchor)
  {
    ghost var h, g, c' := Snap(s), FarNephewPainted(c, t), FarNephewCtx(c);
    SiblingApart(h, c, t, anchor);
    pNodeTemp.color := pNodeChildParent.color;
    pNodeChildParent.color := Black;
    if pNodeTemp.right != null {
      pNodeTemp.right.color := Black;
    }
    FarNephewPaint(h, Snap(s), c, t, c.sibling.right, anchor);
    var root := RotateLeft(pNodeChildParent, anchor.parent, anchor, c.up, g, s);
    ghost var h1 := Snap(s);
    assert RotatedLeft(g) == Fill(c'.up, Fill(c', t));
    FocusBelow(h1, c.up, c', t, anchor);
    anchor.parent := root;
    AnchorWritten(h1, Snap(s), c', t, anchor);
  }

  method RedSiblingRight(pNodeChildParent: RbNode, pNodeTemp: RbNode, anchor: RbNode,
                       ghost c: Ctx<RbNode>, ghost t: Tree<RbNode>, ghost s: set<RbNode>)
    requires anchor in s && At(Snap(s), anchor.parent, c, t, anchor)
    requires c.InRight? && c.n == pNodeChildParent && RootOf(c.sibling) == pNodeTemp
    modifies s - {anchor}, anchor`parent
    ensures At(Snap(s), anchor.parent, RedSiblingCtx(c), t, anchor)
  {
    ghost var h, g, c' := Snap(s), RedSiblingPainted(c, t), RedSiblingCtx(c);
    SiblingApart(h, c, t, anchor);
    pNodeTemp.color := Black;
    pNodeChildParent.color := Red;
    RedSiblingPaint(h, Snap(s), c, t, anchor);
    var root := RotateRight(pNodeChildParent, anchor.parent, anchor, c.up, g, s);
    ghost var h1 := Snap(s);
    assert RotatedRight(g) == Fill(c'.up, Fill(c', t));
    FocusBelow(h1, c.up, c', t, anchor);
    anchor.parent := root;
    AnchorWritten(h1, Snap(s), c', t, anchor);
  }

  method NearNephewRight(pNodeTemp: RbNode, anchor: RbNode,
                       ghost c: Ctx<RbNode>, ghost t: Tree<RbNode>, ghost s: set<RbNode>)
    requires anchor in s && At(Snap(s), anchor.parent, c, t, anchor)
    requires c.InRight? && c.sibling.Node? && c.sibling.n == pNodeTemp && c.sibling.right.Node?
    modifies s - {anchor}, anchor`parent
    ensures At(Snap(s), anchor.parent, NearNephewCtx(c), t, anchor)
  {
    hide CtxLinked, Nodes;
    ghost var h, near, c' := Snap(s), c.sibling.right, NearNephewCtx(c);
    ghost var cw, g := Across(c, t), NearNephewPainted(c.sibling, near, c.InLeft?);
    SiblingApart(h, c, t, anchor);
    pNodeTemp.right.color := Black;
    pNodeTemp.color := Red;
    NearNephewPaint(h, Snap(s), c, t, near, anchor);
    var root := RotateLeft(pNodeTemp, anchor.parent, anchor, cw, g, s);
    ghost var h1 := Snap(s);
    assert RotatedLeft(g) == c'.sibling && Across(cw, c'.sibling) == c';
    FocusAcross(h1, cw, c'.sibling, anchor);
    anchor.parent := root;
    AnchorWritten(h1, Snap(s), c', t, anchor);
  }

  method FarNephewRight(pNodeChildParent: RbNode, pNodeTemp: RbNode, anchor: RbNode,
                      ghost c: Ctx<RbNode>, ghost t: Tree<RbNode>, ghost s: set<RbNode>)
    requires anchor in s && At(Snap(s), anchor.parent, c, t, anchor)
    requires c.InRight? && c.n == pNodeChildParent && c.sibling.Node? && c.sibling.n == pNodeTemp
    requires c.sibling.left.Node?
    modifies s - {anchor}, anchor`parent
    ensures At(Snap(s), anchor.parent, FarNephewCtx(c), t, anchor)
  {
    ghost var h, g, c' := Snap(s), FarNephewPainted(c, t), FarNephewCtx(c);
    SiblingApart(h, c, t, anchor);
    pNodeTemp.color := pNodeChildParent.color;
    pNodeChildParent.color := Black;
    if pNodeTemp.left != null {
      pNodeTemp.left.color := Black;
    }
    FarNephewPaint(h, Snap(s), c, t, c.sibling.left, anchor);
    var root := RotateRight(pNodeChildParent, anchor.parent, anchor, c.up, g, s);
    ghost var h1 := Snap(s);
    assert RotatedRight(g) == Fill(c'.up, Fill(c', t));
    FocusBelow(h1, c.up, c', t, anchor);
    anchor.parent := root;
    AnchorWritten(h1, Snap(s), c', t, anchor);
  }

  /** The sibling loses its colour, and the shortage moves to the parent. */
  method ShortenSibling(pNodeTemp: RbNode, anchor: RbNode,
                        ghost c: Ctx<RbNode>, ghost t: Tree<RbNode>, ghost s: set<RbNode>)
    requires anchor in s && At(Snap(s), anchor.parent, c, t, anchor)
    requires !c.Top? && c.sibling.Node? && c.sibling.n == pNodeTemp
    modifies s - {anchor}
    ensures At(Snap(s), anchor.parent, c.up, ShortParent(c, t), anchor)
  {
    ghost var h := Snap(s);
    SiblingApart(h, c, t, anchor);
    pNodeTemp.color := Red;
    PaintSibling(h, Snap(s), c, t, Red, anchor);
    FocusUp(Snap(s), c.(sibling := Painted(c.sibling, Red)), t, anchor);
  }

  /** The tail of the loop body, when the sibling is black and has a red child. */
  method EraseLastLeft(pNodeChildParent: RbNode, pNodeTemp0: RbNode, anchor: RbNode,
                      ghost c0: Ctx<RbNode>, ghost t: Tree<RbNode>, ghost s: set<RbNode>)
    returns (ghost c: Ctx<RbNode>)
    requires anchor in s && At(Snap(s), anchor.parent, c0, t, anchor) && Erasing(c0, t) && !IsRed(t)
    requires c0.InLeft? && c0.n == pNodeChildParent && RootOf(c0.sibling) == pNodeTemp0 && !IsRed(c0.sibling)
    requires IsRed(c0.sibling.left) || IsRed(c0.sibling.right)
    modifies s - {anchor}, anchor`parent
    ensures At(Snap(s), anchor.parent, c, t, anchor) && Erased(c, t)
    ensures Inorder(Plug(c, t)) == Inorder(Plug(c0, t))
  {
    var pNodeTemp := pNodeTemp0;
    c := c0;
    SiblingApart(Snap(s), c, t, anchor);
    if pNodeTemp.right == null || pNodeTemp.right.color == Black {
      NearNephewOk(c, t);
      NearNephewLeft(pNodeTemp, anchor, c, t, s);
      c := NearNephewCtx(c);
      pNodeTemp := pNodeChildParent.right;
    }
    FarNephewOk(c, t);
    FarNephewLeft(pNodeChildParent, pNodeTemp, anchor, c, t, s);
    c := FarNephewCtx(c);
  }

  /** The loop body once the sibling is black. */
  method EraseBlackSiblingLeft(child: RbNode?, childParent: RbNode, pNodeTemp: RbNode, anchor: RbNode,
                              ghost c0: Ctx<RbNode>, ghost t0: Tree<RbNode>, ghost s: set<RbNode>)
    returns (pNodeChild: RbNode?, pNodeChildParent: RbNode?, done: bool, ghost c: Ctx<RbNode>, ghost t: Tree<RbNode>)
    requires anchor in s && At(Snap(s), anchor.parent, c0, t0, anchor) && Erasing(c0, t0) && !IsRed(t0)
    requires child == RootOf(t0) && c0.InLeft? && c0.n == childParent
    requires RootOf(c0.sibling) == pNodeTemp && !IsRed(c0.sibling)
    modifies s - {anchor}, anchor`parent
    ensures At(Snap(s), anchor.parent, c, t, anchor) && Inorder(Plug(c, t)) == Inorder(Plug(c0, t0))
    ensures pNodeChild == RootOf(t) && (done || pNodeChildParent == Above(c, anchor))
    ensures if done then Erased(c, t)
      else Erasing(c, t) && Depth(c) < Depth(c0) && (IsRed(t) <==> c0.color == Red)
  {
    pNodeChild, pNodeChildParent, done, c, t := child, childParent, false, c0, t0;
    SiblingApart(Snap(s), c, t, anchor);
    if (pNodeTemp.left == null || pNodeTemp.left.color == Black)
       && (pNodeTemp.right == null || pNodeTemp.right.color == Black) {
      pNodeChild := childParent;
      pNodeChildParent := childParent.parent;
      ShortenSibling(pNodeTemp, anchor, c, t, s);
      ShortParentOk(c, t);
      t := ShortParent(c, t);
      c := c.up;
    } else {
      c := EraseLastLeft(childParent, pNodeTemp, anchor, c, t, s);
      done := true;
    }
  }

  /** The loop body when the short subtree is a left child. */
  method EraseStepLeft(child: RbNode?, childParent: RbNode, anchor: RbNode,
                      ghost c0: Ctx<RbNode>, ghost t0: Tree<RbNode>, ghost s: set<RbNode>)
    returns (pNodeChild: RbNode?, pNodeChildParent: RbNode?, done: bool, ghost c: Ctx<RbNode>, ghost t: Tree<RbNode>)
    requires anchor in s && At(Snap(s), anchor.parent, c0, t0, anchor) && Erasing(c0, t0) && !IsRed(t0)
    requires child == RootOf(t0) && c0.InLeft? && c0.n == childParent
    modifies s - {anchor}, anchor`parent
    ensures At(Snap(s), anchor.parent, c, t, anchor) && Inorder(Plug(c, t)) == Inorder(Plug(c0, t0))
    ensures pNodeChild == RootOf(t) && (done || pNodeChildParent == Above(c, anchor))
    ensures if done then Erased(c, t) else Erasing(c, t) && (IsRed(t) || Depth(c) < Depth(c0))
  {
    c := c0;
    var pNodeTemp := childParent.right;
    SiblingApart(Snap(s), c, t0, anchor);
    if pNodeTemp.color == Red {
      RedSiblingOk(c, t0);
      RedSiblingLeft(childParent, pNodeTemp, anchor, c, t0, s);
      c := RedSiblingCtx(c);
      pNodeTemp := childParent.right;
    }
    pNodeChild, pNodeChildParent, done, c, t := EraseBlackSiblingLeft(child, childParent, pNodeTemp, anchor, c, t0, s);
  }

  /** The tail of the loop body, when the sibling is black and has a red child. */
  method EraseLastRight(pNodeChildParent: RbNode, pNodeTemp0: RbNode, anchor: RbNode,
                      ghost c0: Ctx<RbNode>, ghost t: Tree<RbNode>, ghost s: set<RbNode>)
    returns (ghost c: Ctx<RbNode>)
    requires anchor in s && At(Snap(s), anchor.parent, c0, t, anchor) && Erasing(c0, t) && !IsRed(t)
    requires c0.InRight? && c0.n == pNodeChildParent && RootOf(c0.sibling) == pNodeTemp0 && !IsRed(c0.sibling)
    requires IsRed(c0.sibling.left) || IsRed(c0.sibling.right)
    modifies s - {anchor}, anchor`parent
    ensures At(Snap(s), anchor.parent, c, t, anchor) && Erased(c, t)
    ensures Inorder(Plug(c, t)) == Inorder(Plug(c0, t))
  {
    var pNodeTemp := pNodeTemp0;
    c := c0;
    SiblingApart(Snap(s), c, t, anchor);
    if pNodeTemp.left == null || pNodeTemp.left.color == Black {
      NearNephewOk(c, t);
      NearNephewRight(pNodeTemp, anchor, c, t, s);
      c := NearNephewCtx(c);
      pNodeTemp := pNodeChildParent.left;
    }
    FarNephewOk(c, t);
    FarNephewRight(pNodeChildParent, pNodeTemp, anchor, c, t, s);
    c := FarNephewCtx(c);
  }

  /** The loop body once the sibling is black. */
  method EraseBlackSiblingRight(child: RbNode?, childParent: RbNode, pNodeTemp: RbNode, anchor: RbNode,
                              ghost c0: Ctx<RbNode>, ghost t0: Tree<RbNode>, ghost s: set<RbNode>)
    returns (pNodeChild: RbNode?, pNodeChildParent: RbNode?, done: bool, ghost c: Ctx<RbNode>, ghost t: Tree<RbNode>)
    requires anchor in s && At(Snap(s), anchor.parent, c0, t0, anchor) && Erasing(c0, t0) && !IsRed(t0)
    requires child == RootOf(t0) && c0.InRight? && c0.n == childParent
    requires RootOf(c0.sibling) == pNodeTemp && !IsRed(c0.sibling)
    modifies s - {anchor}, anchor`parent
    ensures At(Snap(s), anchor.parent, c, t, anchor) && Inorder(Plug(c, t)) == Inorder(Plug(c0, t0))
    ensures pNodeChild == RootOf(t) && (done || pNodeChildParent == Above(c, anchor))
    ensures if done then Erased(c, t)
      else Erasing(c, t) && Depth(c) < Depth(c0) && (IsRed(t) <==> c0.color == Red)
  {
    pNodeChild, pNodeChildParent, done, c, t := child, childParent, false, c0, t0;
    SiblingApart(Snap(s), c, t, anchor);
    if (pNodeTemp.left == null || pNodeTemp.left.color == Black)
       && (pNodeTemp.right == null || pNodeTemp.right.color == Black) {
      pNodeChild := childParent;
      pNodeChildParent := childParent.parent;
      ShortenSibling(pNodeTemp, anchor, c, t, s);
      ShortParentOk(c, t);
      t := ShortParent(c, t);
      c := c.up;
    } else {
      c := EraseLastRight(childParent, pNodeTemp, anchor, c, t, s);
      done := true;
    }
  }

  /** The loop body when the short subtree is a right child. */
  method EraseStepRight(child: RbNode?, childParent: RbNode, anchor: RbNode,
                      ghost c0: Ctx<RbNode>, ghost t0: Tree<RbNode>, ghost s: set<RbNode>)
    returns (pNodeChild: RbNode?, pNodeChildParent: RbNode?, done: bool, ghost c: Ctx<RbNode>, ghost t: Tree<RbNode>)
    requires anchor in s && At(Snap(s), anchor.parent, c0, t0, anchor) && Erasing(c0, t0) && !IsRed(t0)
    requires child == RootOf(t0) && c0.InRight? && c0.n == childParent
    modifies s - {anchor}, anchor`parent
    ensures At(Snap(s), anchor.parent, c, t, anchor) && Inorder(Plug(c, t)) == Inorder(Plug(c0, t0))
    ensures pNodeChild == RootOf(t) && (done || pNodeChildParent == Above(c, anchor))
    ensures if done then Erased(c, t) else Erasing(c, t) && (IsRed(t) || Depth(c) < Depth(c0))
  {
    c := c0;
    var pNodeTemp := childParent.left;
    SiblingApart(Snap(s), c, t0, anchor);
    if pNodeTemp.color == Red {
      RedSiblingOk(c, t0);
      RedSiblingRight(childParent, pNodeTemp, anchor, c, t0, s);
      c := RedSiblingCtx(c);
      pNodeTemp := childParent.left;
    }
    pNodeChild, pNodeChildParent, done, c, t := EraseBlackSiblingRight(child, childParent, pNodeTemp, anchor, c, t0, s);
  }

  /** The last line: a red root of the short subtree becomes black. */
  method EraseFinish(pNodeChild: RbNode?, ghost anchor: RbNode, ghost c: Ctx<RbNode>, ghost t: Tree<RbNode>, ghost s: set<RbNode>)
    returns (ghost t': Tree<RbNode>)
    requires anchor in s && At(Snap(s), anchor.parent, c, t, anchor) && pNodeChild == RootOf(t)
    requires Erased(c, t) || (Erasing(c, t) && (c.Top? || IsRed(t)))
    modifies s - {anchor}
    ensures Holds(anchor, t') && Valid(t') && Nodes(t') <= s && Inorder(t') == Inorder(Plug(c, t))
  {
    ghost var h, u := Snap(s), Blackened(t);
    assert pNodeChild != null ==> pNodeChild in Nodes(t);
    if pNodeChild != null {
      pNodeChild.color := Black;
      Recolor(h, Snap(s), c, t, Black, anchor);
    }
    t' := Plug(c, u);
    FocusClose(Snap(s), c, u, anchor);
    PlugRedBlack(c, u);
    RootBlackPlug(c, u);
    SameInorder(c, t, u);
    Restrict(s, t', anchor);
  }

  lemma AtRoot(h: Heap, root: RbNode?, c: Ctx<RbNode>, t: Tree<RbNode>, anchor: RbNode)
    requires At(h, root, c, t, anchor)
    ensures root == RootOf(t) <==> c.Top?
  {
    OutermostMember(c, RootOf(t));
    assert t.Node? ==> t.n in Nodes(t);
  }

  /** Restoring the black heights after a black node has been unlinked above `t0`. */
  method EraseRebalance(child: RbNode?, childParent: RbNode?, anchor: RbNode,
                        ghost c0: Ctx<RbNode>, ghost t0: Tree<RbNode>, ghost s: set<RbNode>)
    returns (ghost t': Tree<RbNode>)
    requires anchor in s && At(Snap(s), anchor.parent, c0, t0, anchor) && Erasing(c0, t0)
    requires child == RootOf(t0) && childParent == Above(c0, anchor)
    modifies s - {anchor}, anchor`parent
    ensures Holds(anchor, t') && Valid(t') && Nodes(t') <= s && Inorder(t') == Inorder(Plug(c0, t0))
  {
    hide RedBlack;
    var pNodeChild, pNodeChildParent := child, childParent;
    ghost var c, t := c0, t0;
    var done := false;
    while pNodeChild != anchor.parent && (pNodeChild == null || pNodeChild.color == Black)
      invariant At(Snap(s), anchor.parent, c, t, anchor) && Erasing(c, t)
      invariant pNodeChild == RootOf(t) && pNodeChildParent == Above(c, anchor)
      invariant Inorder(Plug(c, t)) == Inorder(Plug(c0, t0))
      decreases if IsRed(t) then 0 else Depth(c) + 1
    {
      if pNodeChild == pNodeChildParent.left {
        pNodeChild, pNodeChildParent, done, c, t := EraseStepLeft(pNodeChild, pNodeChildParent, anchor, c, t, s);
      } else {
        pNodeChild, pNodeChildParent, done, c, t := EraseStepRight(pNodeChild, pNodeChildParent, anchor, c, t, s);
      }
      if done {
        break;
      }
    }
    AtRoot(Snap(s), anchor.parent, c, t, anchor);
    t' := EraseFinish(pNodeChild, anchor, c, t, s);
  }

  // ---------------------------------------------------------------- erasure: unlinking

  /** What unlinking `pNode` leaves behind: the rest of the sequence with the child of the
      unlinked place in focus. `pNode` carries the colour of the place that went away. */
  ghost predicate Unlinked(h: Heap, root: RbNode?, c: Ctx<RbNode>, t: Tree<RbNode>, anchor: RbNode, gone: Color) {
    && At(h, root, c, t, anchor) && RedBlack(t) && RootBlack(c)
    && if gone == Black then CtxRedBlack(c, BlackHeight(t) + 1, false)
       else CtxRedBlack(c, BlackHeight(t), false) && !IsRed(t)
  }

  /** One pointer write, on the snapshot. */
  ghost function SetParent(h: Heap, n: RbNode?, p: RbNode?): Heap {
    if n in h then h[n := h[n].(parent := p)] else h
  }
  ghost function SetLeft(h: Heap, n: RbNode?, p: RbNode?): Heap {
    if n in h then h[n := h[n].(left := p)] else h
  }
  ghost function SetRight(h: Heap, n: RbNode?, p: RbNode?): Heap {
    if n in h then h[n := h[n].(right := p)] else h
  }

  /** The link into the hole of `c` is redirected to `p`. */
  ghost function SetHole(h: Heap, c: Ctx<RbNode>, p: RbNode?): Heap {
    match c
    case Top => h
    case InLeft(_, n, _, _) => SetLeft(h, n, p)
    case InRight(_, n, _, _) => SetRight(h, n, p)
  }

  /** Redirects whatever points to pNode: the root pointer, or the parent's child link. */
  method Relink(pNode: RbNode, pNew: RbNode?, anchor: RbNode,
                ghost c: Ctx<RbNode>, ghost t: Tree<RbNode>, ghost h0: Heap, ghost s: set<RbNode>)
    requires anchor in s && At(h0, anchor.parent, c, t, anchor) && RootOf(t) == pNode
    requires pNode in s && pNode.parent == Above(c, anchor)
    requires !c.Top? ==> c.n in s && c.n.left == h0[c.n].left && c.n.right == h0[c.n].right
    modifies s - {anchor}, anchor`parent
    ensures SameExcept(Snap(s), SetHole(old(Snap(s)), c, pNew), anchor)
    ensures anchor.parent == if c.Top? then pNew else old(anchor.parent)
  {
    AtRoot(h0, anchor.parent, c, t, anchor);
    assert pNode in Nodes(t);
    if pNode == anchor.parent {
      anchor.parent := pNew;
    } else if pNode == pNode.parent.left {
      pNode.parent.left := pNew;
    } else {
      pNode.parent.right := pNew;
    }
  }

  ghost predicate SameExcept(h: Heap, h': Heap, x: RbNode) {
    h.Keys == h'.Keys && forall z <- h :: z != x ==> h[z] == h'[z]
  }

  /** pNode has at most one child: the child takes its place. */
  method UnlinkSimple(pNode: RbNode, pNodeChild: RbNode?, anchor: RbNode,
                      ghost c: Ctx<RbNode>, ghost t: Tree<RbNode>, ghost d: Tree<RbNode>, ghost s: set<RbNode>)
    returns (pNodeChildParent: RbNode?)
    requires anchor in s && At(Snap(s), anchor.parent, c, t, anchor) && RootOf(t) == pNode
    requires t.left.Nil? || t.right.Nil?
    requires d == (if t.left.Nil? then t.right else t.left) && pNodeChild == RootOf(d)
    modifies s - {anchor}, anchor`parent
    ensures At(Snap(s), anchor.parent, c, d, anchor) && pNodeChildParent == Above(c, anchor)
    ensures pNode.left == old(pNode.left) && pNode.right == old(pNode.right)
    ensures pNode.parent == old(pNode.parent) && pNode.color == old(pNode.color)
  {
    ghost var h := Snap(s);
    assert Linked(h, d, pNode);
    assert d.Node? ==> d.n in Nodes(d) && d.n != pNode && d.n !in CtxNodes(c);
    pNodeChildParent := pNode.parent;
    if pNodeChild != null {
      pNodeChild.parent := pNode.parent;
    }
    assert Snap(s) == SetParent(h, pNodeChild, pNodeChildParent);
    Relink(pNode, pNodeChild, anchor, c, t, h, s);
    UnlinkedSimple(h, Snap(s), c, t, d, anchor);
  }

  lemma UnlinkedSimple(h: Heap, h': Heap, c: Ctx<RbNode>, t: Tree<RbNode>, d: Tree<RbNode>, anchor: RbNode)
    requires Focus(h, c, t, anchor) && t.Node? && (t.left.Nil? || t.right.Nil?)
    requires d == if t.left.Nil? then t.right else t.left
    requires SameExcept(h', SetHole(SetParent(h, RootOf(d), Above(c, anchor)), c, RootOf(d)), anchor)
    ensures Focus(h', c, d, anchor)
    ensures h'[t.n] == h[t.n]
    ensures !c.Top? ==> Outermost(c, t.n) == Outermost(c, RootOf(d))
  {
    hide CtxDistinct, Outermost;
    assert Linked(h, d, t.n);
    assert d.Node? ==> d.n in Nodes(d);
    Reparent(h, h', d, t.n, Above(c, anchor));
    Rehole(h, h', c, t.n, RootOf(d), anchor);
    if !c.Top? { SameOutermost(c, t.n, RootOf(d)); }
  }

  // ---------------------------------------------------------------- the successor takes over

  /** A path that only goes left: the way down to the first node of a subtree. */
  ghost predicate LeftSpine<N>(path: Ctx<N>) {
    path.Top? || (path.InLeft? && LeftSpine(path.up))
  }

  lemma {:induction false} ComposeNodes<N>(inner: Ctx<N>, outer: Ctx<N>)
    ensures CtxNodes(Compose(inner, outer)) == CtxNodes(inner) + CtxNodes(outer)
  {
    if !inner.Top? { ComposeNodes(inner.up, outer); }
  }

  /** A node at the end of a left spine, after both ends of the spine were redirected. */
  ghost predicate Redirected(h: Heap, h': Heap, path: Ctx<RbNode>, top: RbNode, p': RbNode?, z: RbNode) {
    && z in h && z in h'
    && h'[z] == Cell(if z == Outermost(path, p') then top else h[z].parent,
                     if !path.Top? && z == path.n then p' else h[z].left, h[z].right, h[z].color)
  }

  lemma {:induction false} PathRedirected(h: Heap, h': Heap, path: Ctx<RbNode>, base: Ctx<RbNode>, base': Ctx<RbNode>,
                                          p: RbNode?, p': RbNode?, anchor: RbNode)
    requires LeftSpine(path) && !path.Top? && !base'.Top?
    requires CtxLinked(h, Compose(path, base), p, anchor) && CtxDistinct(Compose(path, base))
    requires CtxLinked(h', base', Outermost(path, p'), anchor)
    requires forall z <- CtxNodes(path) :: Redirected(h, h', path, base'.n, p', z)
    ensures CtxLinked(h', Compose(path, base'), p', anchor)
  {
    var up, n, sib := path.up, path.n, path.sibling;
    ComposeNodes(up, base);
    OutermostMember(path, p');
    OutermostMember(up, n);
    forall z <- Nodes(sib)
      ensures z in h ==> z in h' && h'[z] == h[z]
    {
      assert Redirected(h, h', path, base'.n, p', z);
    }
    KeepLinked(h, h', sib, n);
    assert Redirected(h, h', path, base'.n, p', n);
    if !up.Top? {
      forall z <- CtxNodes(up)
        ensures Redirected(h, h', up, base'.n, n, z)
      {
        assert Redirected(h, h', path, base'.n, p', z);
        assert CtxLinked(h, Compose(up, base), n, anchor);
      }
      PathRedirected(h, h', up, base, base', n, n, anchor);
    }
  }

  /** The tree below the hole `c0`, before: `l`, pNode, and a right subtree whose first
      node is the successor `s`. */
  ghost predicate HasSuccessor(h: Heap, c0: Ctx<RbNode>, l: Tree<RbNode>, x: RbNode, k: Color,
                               path: Ctx<RbNode>, u: Tree<RbNode>, anchor: RbNode) {
    && l.Node? && u.Node? && u.left.Nil? && LeftSpine(path)
    && Focus(h, c0, Node(l, x, k, Plug(path, u)), anchor)
    && Focus(h, Compose(path, InRight(c0, x, k, l)), u, anchor)
  }

  lemma SpliceDistinct(c0: Ctx<RbNode>, l: Tree<RbNode>, x: RbNode, k: Color, path: Ctx<RbNode>, u: Tree<RbNode>)
    requires u.Node? && u.left.Nil?
    requires Apart(c0, Node(l, x, k, Plug(path, u)))
    ensures Apart(Compose(path, InRight(c0, u.n, k, l)), u.right)
    ensures Nodes(Plug(path, u)) == CtxNodes(path) + {u.n} + Nodes(u.right)
  {
    var d, s := u.right, u.n;
    PlugDistinct(path, u);
    PlugDistinct(path, d);
    PlugNodes(path, u);
    PlugNodes(path, d);
    var t' := Node(l, s, k, Plug(path, d));
    assert Apart(path, d) && Nodes(u) == {s} + Nodes(d);
    assert Distinct(t');
    PlugDistinct(c0, t');
    ComposePlug(path, InRight(c0, s, k, l), d);
    PlugDistinct(Compose(path, InRight(c0, s, k, l)), d);
  }

  /** What putting the successor in pNode's place writes. */
  ghost predicate Splices(h: Heap, h': Heap, c0: Ctx<RbNode>, l: Tree<RbNode>, x: RbNode, k: Color,
                          path: Ctx<RbNode>, u: Tree<RbNode>, anchor: RbNode)
    requires l.Node? && u.Node?
  {
    var s, d := u.n, u.right;
    && s in h' && h'[s] == Cell(Above(c0, anchor), l.n, if path.Top? then RootOf(d) else Outermost(path, s), k)
    && l.n in h && l.n in h' && h'[l.n] == h[l.n].(parent := s)
    && (forall z <- CtxNodes(path) :: Redirected(h, h', path, s, RootOf(d), z))
    && (d.Node? ==> d.n in h && d.n in h' && h'[d.n] == if path.Top? then h[d.n] else h[d.n].(parent := path.n))
    && (!c0.Top? ==> c0.n in h && c0.n in h' && h'[c0.n] == SetHole(h, c0, s)[c0.n])
    && (forall z <- h :: z != x && z != s && z != l.n && z != RootOf(d) && z != Above(c0, anchor) && z != anchor && z !in CtxNodes(path)
          ==> z in h' && h'[z] == h[z])
  }

  lemma SplicedLeft(h: Heap, h': Heap, c0: Ctx<RbNode>, l: Tree<RbNode>, x: RbNode, k: Color,
                    path: Ctx<RbNode>, u: Tree<RbNode>, anchor: RbNode)
    requires HasSuccessor(h, c0, l, x, k, path, u, anchor)
    requires Splices(h, h', c0, l, x, k, path, u, anchor)
    ensures Linked(h', l, u.n)
  {
    SpliceDistinct(c0, l, x, k, path, u);
    ComposeNodes(path, InRight(c0, u.n, k, l));
    assert l.n in Nodes(l) && (u.right.Node? ==> u.right.n in Nodes(u.right)) && (!c0.Top? ==> c0.n in CtxNodes(c0));
    assert Linked(h, l, x);
    Reparent(h, h', l, x, u.n);
  }

  lemma SplicedChild(h: Heap, h': Heap, c0: Ctx<RbNode>, l: Tree<RbNode>, x: RbNode, k: Color,
                    path: Ctx<RbNode>, u: Tree<RbNode>, anchor: RbNode)
    requires HasSuccessor(h, c0, l, x, k, path, u, anchor)
    requires Splices(h, h', c0, l, x, k, path, u, anchor)
    ensures Linked(h', u.right, if path.Top? then u.n else path.n)
  {
    var d := u.right;
    SpliceDistinct(c0, l, x, k, path, u);
    ComposeNodes(path, InRight(c0, u.n, k, l));
    assert l.n in Nodes(l) && (!c0.Top? ==> c0.n in CtxNodes(c0));
    assert Linked(h, u, Above(Compose(path, InRight(c0, x, k, l)), anchor));
    assert Nodes(d) !! CtxNodes(path) && l.n !in Nodes(d) && u.n !in Nodes(d) && x !in Nodes(d);
    forall z <- Nodes(d)
      ensures z in h && z != RootOf(d) ==> z in h' && h'[z] == h[z]
    {}
    if path.Top? {
      KeepLinked(h, h', d, u.n);
    } else {
      Reparent(h, h', d, u.n, path.n);
    }
  }

  lemma SplicedAbove(h: Heap, h': Heap, c0: Ctx<RbNode>, l: Tree<RbNode>, x: RbNode, k: Color,
                    path: Ctx<RbNode>, u: Tree<RbNode>, anchor: RbNode)
    requires HasSuccessor(h, c0, l, x, k, path, u, anchor)
    requires Splices(h, h', c0, l, x, k, path, u, anchor)
    ensures CtxLinked(h', c0, u.n, anchor)
  {
    SpliceDistinct(c0, l, x, k, path, u);
    ComposeNodes(path, InRight(c0, u.n, k, l));
    assert l.n in Nodes(l) && (u.right.Node? ==> u.right.n in Nodes(u.right)) && (!c0.Top? ==> c0.n in CtxNodes(c0));
    Rehole(h, h', c0, x, u.n, anchor);
  }

  lemma SplicedFocus(h: Heap, h': Heap, c0: Ctx<RbNode>, l: Tree<RbNode>, x: RbNode, k: Color,
                     path: Ctx<RbNode>, u: Tree<RbNode>, anchor: RbNode)
    requires HasSuccessor(h, c0, l, x, k, path, u, anchor)
    requires Splices(h, h', c0, l, x, k, path, u, anchor)
    ensures Focus(h', Compose(path, InRight(c0, u.n, k, l)), u.right, anchor)
  {
    var s, d := u.n, u.right;
    var base, base' := InRight(c0, x, k, l), InRight(c0, s, k, l);
    SpliceDistinct(c0, l, x, k, path, u);
    SplicedLeft(h, h', c0, l, x, k, path, u, anchor);
    SplicedChild(h, h', c0, l, x, k, path, u, anchor);
    SplicedAbove(h, h', c0, l, x, k, path, u, anchor);
    ComposeNodes(path, base);
    ComposeNodes(path, base');
    if !path.Top? {
      SameOutermost(path, s, RootOf(d));
      assert CtxLinked(h', base', Outermost(path, RootOf(d)), anchor);
      PathRedirected(h, h', path, base, base', s, RootOf(d), anchor);
    }
  }

  lemma {:induction false} PlugRoot(path: Ctx<RbNode>, u: Tree<RbNode>)
    ensures RootOf(Plug(path, u)) == Outermost(path, RootOf(u))
  {
    if !path.Top? { PlugRoot(path.up, Fill(path, u)); }
  }

  lemma SuccessorFacts(h: Heap, c0: Ctx<RbNode>, l: Tree<RbNode>, x: RbNode, k: Color,
                       path: Ctx<RbNode>, u: Tree<RbNode>, anchor: RbNode)
    requires HasSuccessor(h, c0, l, x, k, path, u, anchor)
    ensures var s, d := u.n, u.right;
      && x in h && h[x] == Cell(Above(c0, anchor), l.n, Outermost(path, s), k)
      && s in h && s != x && s != anchor && x != anchor && h[s].color == u.color && h[s].right == RootOf(d)
      && l.n in h && l.n != s && l.n != x && l.n != anchor && l.n !in CtxNodes(path)
      && s !in CtxNodes(path) && x !in CtxNodes(path) && anchor !in CtxNodes(path) && CtxNodes(path) <= h.Keys
      && (path.Top? <==> Outermost(path, s) == s)
      && (!path.Top? ==> h[s].parent == path.n && path.n in CtxNodes(path) && Outermost(path, s) in CtxNodes(path))
      && (d.Node? ==> d.n in h && d.n != s && d.n != x && d.n != l.n && d.n != anchor && d.n !in CtxNodes(path))
  {
    var s, d := u.n, u.right;
    var base := InRight(c0, x, k, l);
    SpliceDistinct(c0, l, x, k, path, u);
    ComposeNodes(path, base);
    OutermostMember(path, s);
    PlugRoot(path, u);
    assert s in Nodes(u) && l.n in Nodes(l) && (d.Node? ==> d.n in Nodes(d));
    assert Linked(h, l, x) && Linked(h, u, Above(Compose(path, base), anchor)) && Linked(h, d, s);
    LinkedKeys(h, Plug(path, u), x);
  }

  /** The first half of putting the successor in pNode's place: it takes over the left
      subtree, gives its own child to its parent, and takes over the right subtree. */
  ghost predicate Detaches(h: Heap, h': Heap, l: Tree<RbNode>, x: RbNode, path: Ctx<RbNode>, u: Tree<RbNode>)
    requires l.Node? && u.Node?
  {
    var s, d := u.n, u.right;
    && s in h && s in h' && h'[s] == h[s].(left := l.n, right := if path.Top? then RootOf(d) else Outermost(path, s))
    && l.n in h && l.n in h' && h'[l.n] == h[l.n].(parent := s)
    && (forall z <- CtxNodes(path) :: Redirected(h, h', path, s, RootOf(d), z))
    && (d.Node? ==> d.n in h && d.n in h' && h'[d.n] == if path.Top? then h[d.n] else h[d.n].(parent := path.n))
    && (forall z <- h :: z != s && z != l.n && z != RootOf(d) && z !in CtxNodes(path) ==> z in h' && h'[z] == h[z])
  }

  /** The same, field by field. */
  ghost function DetachedCell(h: Heap, x: RbNode, succ: RbNode, child: RbNode?, cp: RbNode?, z: RbNode): Cell
    requires x in h && z in h
  {
    var deep := succ != h[x].right;
    Cell(if z == h[x].left || (deep && z == h[x].right) then succ else if deep && z == child then cp else h[z].parent,
         if deep && z == cp then child else if z == succ then h[x].left else h[z].left,
         if deep && z == succ then h[x].right else h[z].right,
         h[z].color)
  }

  lemma DetachedFacts(h: Heap, h': Heap, c0: Ctx<RbNode>, l: Tree<RbNode>, x: RbNode, k: Color,
                      path: Ctx<RbNode>, u: Tree<RbNode>, anchor: RbNode)
    requires HasSuccessor(h, c0, l, x, k, path, u, anchor) && x in h
    requires h.Keys == h'.Keys
    requires var cp := if path.Top? then u.n else path.n;
      forall z <- h :: h'[z] == DetachedCell(h, x, u.n, RootOf(u.right), cp, z)
    ensures Detaches(h, h', l, x, path, u)
  {
    SuccessorFacts(h, c0, l, x, k, path, u, anchor);
    var s, d := u.n, u.right;
    OutermostMember(path, RootOf(d));
    if !path.Top? { SameOutermost(path, s, RootOf(d)); }
    forall z <- CtxNodes(path)
      ensures Redirected(h, h', path, s, RootOf(d), z)
    {}
  }

  method DetachSuccessor(pNode: RbNode, pNodeSuccessor: RbNode, pNodeChild: RbNode?, ghost anchor: RbNode, ghost s: set<RbNode>)
    returns (pNodeChildParent: RbNode?)
    requires pNode.left in s && pNode.right in s && pNodeSuccessor in s && pNode in s
    requires pNode != pNode.left && pNode != pNode.right && pNode != pNodeSuccessor && pNode != pNodeChild
    requires pNode.left != pNodeSuccessor && (pNodeChild == null || (pNodeChild in s && pNodeChild != pNode.left))
    requires pNodeSuccessor == pNode.right ||
      (pNodeSuccessor.parent in s && pNodeSuccessor.parent != pNode && pNodeSuccessor.parent != pNodeSuccessor)
    requires anchor !in {pNode.left, pNode.right, pNodeSuccessor, pNodeSuccessor.parent, pNodeChild}
    modifies s - {anchor}
    ensures var h := old(Snap(s));
      forall z <- s :: Snap(s)[z] == DetachedCell(h, pNode, pNodeSuccessor, pNodeChild, pNodeChildParent, z)
    ensures pNodeChildParent == if pNodeSuccessor == old(pNode.right) then pNodeSuccessor else old(pNodeSuccessor.parent)
  {
    pNode.left.parent := pNodeSuccessor;
    pNodeSuccessor.left := pNode.left;
    if pNodeSuccessor == pNode.right {
      pNodeChildParent := pNodeSuccessor;
    } else {
      pNodeChildParent := pNodeSuccessor.parent;
      if pNodeChild != null {
        pNodeChild.parent := pNodeChildParent;
      }
      pNodeChildParent.left := pNodeChild;
      pNodeSuccessor.right := pNode.right;
      pNode.right.parent := pNodeSuccessor;
    }
  }

  /** pNode has two children: its successor takes its place and its colour. */
  method UnlinkSuccessor(pNode: RbNode, pNodeSuccessor: RbNode, pNodeChild: RbNode?, anchor: RbNode,
                         ghost c0: Ctx<RbNode>, ghost t: Tree<RbNode>,
                         ghost path: Ctx<RbNode>, ghost u: Tree<RbNode>, ghost s: set<RbNode>)
    returns (pNodeChildParent: RbNode?)
    requires anchor in s && At(Snap(s), anchor.parent, c0, t, anchor)
    requires t.Node? && HasSuccessor(Snap(s), c0, t.left, pNode, t.color, path, u, anchor)
    requires t == Node(t.left, pNode, t.color, Plug(path, u)) && u.n == pNodeSuccessor && pNodeChild == RootOf(u.right)
    modifies s - {anchor}, anchor`parent
    ensures var c' := Compose(path, InRight(c0, pNodeSuccessor, t.color, t.left));
      && At(Snap(s), anchor.parent, c', u.right, anchor)
      && pNodeChildParent == Above(c', anchor) && pNode.color == u.color
  {
    hide Nodes, Detaches, CtxNodes;
    ghost var h, l, k := Snap(s), t.left, t.color;
    SuccessorFacts(h, c0, l, pNode, k, path, u, anchor);
    pNodeChildParent := DetachSuccessor(pNode, pNodeSuccessor, pNodeChild, anchor, s);
    ghost var h1 := Snap(s);
    DetachedFacts(h, h1, c0, l, pNode, k, path, u, anchor);
    if !c0.Top? { AboveApart(h, c0, l, pNode, k, path, u, anchor); }
    ghost var h2 := TakePlace(pNode, pNodeSuccessor, anchor, c0, t, h, s);
    SplicedIn(h, h1, h2, Snap(s), c0, l, pNode, k, path, u, anchor);
  }

  method TakePlace(pNode: RbNode, pNodeSuccessor: RbNode, anchor: RbNode,
                   ghost c0: Ctx<RbNode>, ghost t: Tree<RbNode>, ghost h0: Heap, ghost s: set<RbNode>)
    returns (ghost h2: Heap)
    requires anchor in s && At(h0, anchor.parent, c0, t, anchor) && RootOf(t) == pNode
    requires {pNode, pNodeSuccessor} <= s && pNode.parent == Above(c0, anchor)
    requires pNode != pNodeSuccessor && anchor != pNode && anchor != pNodeSuccessor
    requires !c0.Top? ==> c0.n in s && c0.n.left == h0[c0.n].left && c0.n.right == h0[c0.n].right
    requires !c0.Top? ==> c0.n != pNode && c0.n != pNodeSuccessor
    modifies s - {anchor}, anchor`parent
    ensures SameExcept(h2, SetHole(old(Snap(s)), c0, pNodeSuccessor), anchor)
    ensures forall z <- s :: z in h2 && (z != pNode && z != pNodeSuccessor ==> Snap(s)[z] == h2[z])
    ensures Snap(s)[pNodeSuccessor] == h2[pNodeSuccessor].(parent := Above(c0, anchor), color := old(pNode.color))
    ensures pNode.color == old(pNodeSuccessor.color)
    ensures anchor.parent == if c0.Top? then pNodeSuccessor else old(anchor.parent)
  {
    hide Linked, CtxLinked, CtxNodes, Nodes;
    Relink(pNode, pNodeSuccessor, anchor, c0, t, h0, s);
    h2 := Snap(s);
    assert h2[pNode].parent == old(Snap(s))[pNode].parent && h2[pNode].color == old(Snap(s))[pNode].color;
    assert h2[pNodeSuccessor].color == old(Snap(s))[pNodeSuccessor].color;
    pNodeSuccessor.parent := pNode.parent;
    pNodeSuccessor.color, pNode.color := pNode.color, pNodeSuccessor.color;
  }

  lemma AboveApart(h: Heap, c0: Ctx<RbNode>, l: Tree<RbNode>, x: RbNode, k: Color,
                   path: Ctx<RbNode>, u: Tree<RbNode>, anchor: RbNode)
    requires HasSuccessor(h, c0, l, x, k, path, u, anchor) && !c0.Top?
    ensures c0.n in h && c0.n !in CtxNodes(path) && c0.n !in {u.n, x, l.n, anchor} && (u.right.Node? ==> c0.n != u.right.n)
  {
    SpliceDistinct(c0, l, x, k, path, u);
    assert c0.n in CtxNodes(c0) && l.n in Nodes(l);
    assert u.right.Node? ==> u.right.n in Nodes(u.right);
  }

  lemma DetachedThenRelinked(h: Heap, h1: Heap, h2: Heap, h3: Heap, c0: Ctx<RbNode>, l: Tree<RbNode>, x: RbNode, k: Color,
                             path: Ctx<RbNode>, u: Tree<RbNode>, anchor: RbNode)
    requires HasSuccessor(h, c0, l, x, k, path, u, anchor) && Detaches(h, h1, l, x, path, u)
    requires SameExcept(h2, SetHole(h1, c0, u.n), anchor)
    requires forall z <- h2 :: z in h3 && (z != u.n && z != x ==> h3[z] == h2[z])
    requires u.n in h3 && u.n in h2 && h3[u.n] == h2[u.n].(parent := Above(c0, anchor), color := k)
    ensures Splices(h, h3, c0, l, x, k, path, u, anchor)
  {
    hide Redirected, Focus, CtxNodes, Detaches;
    RelinkedCells(h, h1, h2, h3, c0, l, x, k, path, u, anchor);
    RelinkedPath(h, h1, h2, h3, c0, l, x, k, path, u, anchor);
    RelinkedRest(h, h1, h2, h3, c0, l, x, k, path, u, anchor);
  }

  lemma RelinkedCells(h: Heap, h1: Heap, h2: Heap, h3: Heap, c0: Ctx<RbNode>, l: Tree<RbNode>, x: RbNode, k: Color,
                      path: Ctx<RbNode>, u: Tree<RbNode>, anchor: RbNode)
    requires HasSuccessor(h, c0, l, x, k, path, u, anchor) && Detaches(h, h1, l, x, path, u)
    requires SameExcept(h2, SetHole(h1, c0, u.n), anchor)
    requires forall z <- h2 :: z in h3 && (z != u.n && z != x ==> h3[z] == h2[z])
    requires u.n in h3 && u.n in h2 && h3[u.n] == h2[u.n].(parent := Above(c0, anchor), color := k)
    ensures var s, d := u.n, u.right;
      && h3[s] == Cell(Above(c0, anchor), l.n, if path.Top? then RootOf(d) else Outermost(path, s), k)
      && l.n in h && l.n in h3 && h3[l.n] == h[l.n].(parent := s)
      && (d.Node? ==> d.n in h && d.n in h3 && h3[d.n] == if path.Top? then h[d.n] else h[d.n].(parent := path.n))
  {
    hide Redirected;
    SuccessorFacts(h, c0, l, x, k, path, u, anchor);
    if !c0.Top? { AboveApart(h, c0, l, x, k, path, u, anchor); }
  }

  lemma RelinkedPath(h: Heap, h1: Heap, h2: Heap, h3: Heap, c0: Ctx<RbNode>, l: Tree<RbNode>, x: RbNode, k: Color,
                     path: Ctx<RbNode>, u: Tree<RbNode>, anchor: RbNode)
    requires HasSuccessor(h, c0, l, x, k, path, u, anchor) && Detaches(h, h1, l, x, path, u)
    requires SameExcept(h2, SetHole(h1, c0, u.n), anchor)
    requires forall z <- h2 :: z in h3 && (z != u.n && z != x ==> h3[z] == h2[z])
    ensures forall z <- CtxNodes(path) :: Redirected(h, h3, path, u.n, RootOf(u.right), z)
  {
    hide Focus, CtxNodes;
    SuccessorFacts(h, c0, l, x, k, path, u, anchor);
    if !c0.Top? { AboveApart(h, c0, l, x, k, path, u, anchor); }
    forall z <- CtxNodes(path)
      ensures Redirected(h, h3, path, u.n, RootOf(u.right), z)
    {
      assert Redirected(h, h1, path, u.n, RootOf(u.right), z);
    }
  }

  lemma RelinkedRest(h: Heap, h1: Heap, h2: Heap, h3: Heap, c0: Ctx<RbNode>, l: Tree<RbNode>, x: RbNode, k: Color,
                     path: Ctx<RbNode>, u: Tree<RbNode>, anchor: RbNode)
    requires HasSuccessor(h, c0, l, x, k, path, u, anchor) && Detaches(h, h1, l, x, path, u)
    requires SameExcept(h2, SetHole(h1, c0, u.n), anchor)
    requires forall z <- h2 :: z in h3 && (z != u.n && z != x ==> h3[z] == h2[z])
    ensures !c0.Top? ==> c0.n in h && c0.n in h3 && h3[c0.n] == SetHole(h, c0, u.n)[c0.n]
    ensures forall z <- h :: z != x && z != u.n && z != l.n && z != RootOf(u.right) && z != Above(c0, anchor) && z != anchor && z !in CtxNodes(path) ==> z in h3 && h3[z] == h[z]
  {
    hide Redirected, Focus, CtxNodes;
    SuccessorFacts(h, c0, l, x, k, path, u, anchor);
    if !c0.Top? { AboveApart(h, c0, l, x, k, path, u, anchor); }
  }

  lemma SplicedIn(h: Heap, h1: Heap, h2: Heap, h3: Heap, c0: Ctx<RbNode>, l: Tree<RbNode>, x: RbNode, k: Color,
                  path: Ctx<RbNode>, u: Tree<RbNode>, anchor: RbNode)
    requires HasSuccessor(h, c0, l, x, k, path, u, anchor) && Detaches(h, h1, l, x, path, u)
    requires SameExcept(h2, SetHole(h1, c0, u.n), anchor)
    requires forall z <- h2 :: z in h3 && (z != u.n && z != x ==> h3[z] == h2[z])
    requires u.n in h3 && u.n in h2 && h3[u.n] == h2[u.n].(parent := Above(c0, anchor), color := k)
    ensures Focus(h3, Compose(path, InRight(c0, u.n, k, l)), u.right, anchor)
    ensures var c' := Compose(path, InRight(c0, u.n, k, l));
      && Above(c', anchor) == (if path.Top? then u.n else path.n)
      && Outermost(c', RootOf(u.right)) == Outermost(c0, u.n)
  {
    DetachedThenRelinked(h, h1, h2, h3, c0, l, x, k, path, u, anchor);
    SplicedFocus(h, h3, c0, l, x, k, path, u, anchor);
    ComposeOutermost(path, InRight(c0, u.n, k, l), RootOf(u.right));
  }

  lemma {:induction false} ComposeOutermost(path: Ctx<RbNode>, outer: Ctx<RbNode>, p: RbNode?)
    requires !outer.Top?
    ensures Outermost(Compose(path, outer), p) == Outermost(outer, p)
  {
    if path.Top? {
    } else {
      ComposeOutermost(path.up, outer, path.n);
      SameOutermost(outer, p, path.n);
    }
  }

  // ---------------------------------------------------------------- first and last node

  /** RBTreeGetMinChild. */
  method MinChild(p: RbNode, ghost d: Tree<RbNode>, ghost par: RbNode?, ghost s: set<RbNode>) returns (m: RbNode)
    requires Linked(Snap(s), d, par) && RootOf(d) == p
    ensures m == Inorder(d)[0]
  {
    m := p;
    ghost var e, q := d, par;
    while m.left != null
      invariant Linked(Snap(s), e, q) && RootOf(e) == m && Inorder(e)[0] == Inorder(d)[0]
      decreases e
    {
      assert Linked(Snap(s), e.left, m);
      m, e, q := m.left, e.left, m;
    }
  }

  /** RBTreeGetMaxChild. */
  method MaxChild(p: RbNode, ghost d: Tree<RbNode>, ghost par: RbNode?, ghost s: set<RbNode>) returns (m: RbNode)
    requires Linked(Snap(s), d, par) && RootOf(d) == p
    ensures m == Inorder(d)[|Inorder(d)| - 1]
  {
    m := p;
    ghost var e, q := d, par;
    while m.right != null
      invariant Linked(Snap(s), e, q) && RootOf(e) == m
      invariant Inorder(e)[|Inorder(e)| - 1] == Inorder(d)[|Inorder(d)| - 1]
      decreases e
    {
      assert Linked(Snap(s), e.right, m);
      m, e, q := m.right, e.right, m;
    }
  }

  lemma {:induction false} BeforeEmpty<N>(c: Ctx<N>)
    ensures Before(c) == [] ==> if c.Top? then After(c) == [] else c.InLeft? && After(c)[0] == c.n
    ensures After(c) == [] ==> if c.Top? then Before(c) == [] else c.InRight? && Before(c)[|Before(c)| - 1] == c.n
  {
    if !c.Top? { BeforeEmpty(c.up); }
  }

  /** The new first and last node when a node with at most one child goes away. */
  ghost predicate EndsAfter(c: Ctx<RbNode>, t: Tree<RbNode>, d: Tree<RbNode>, anchor: RbNode,
                            left: RbNode?, right: RbNode?, left': RbNode?, right': RbNode?)
    requires t.Node?
  {
    && left' == (if t.n != left then left
                 else if t.right.Node? && d.Node? then Inorder(d)[0] else Above(c, anchor))
    && right' == (if t.n != right then right
                  else if t.left.Node? && d.Node? then Inorder(d)[|Inorder(d)| - 1] else Above(c, anchor))
  }

  ghost predicate Ends(s: seq<RbNode>, anchor: RbNode, left: RbNode?, right: RbNode?) {
    && left == (if s == [] then anchor else s[0])
    && right == (if s == [] then anchor else s[|s| - 1])
  }

  lemma RemovedEnds(pre: seq<RbNode>, x: RbNode, post: seq<RbNode>)
    requires NoDuplicates(pre + [x] + post)
    ensures var s := pre + [x] + post;
      && (x == s[0] <==> pre == []) && (x == s[|s| - 1] <==> post == [])
      && (pre != [] ==> s[0] == pre[0]) && (post != [] ==> s[|s| - 1] == post[|post| - 1])
  {
    var s := pre + [x] + post;
    assert s[|pre|] == x;
    if pre != [] { assert s[0] != s[|pre|]; }
    if post != [] { assert s[|pre|] != s[|s| - 1]; }
  }

  lemma SimpleParts(c: Ctx<RbNode>, t: Tree<RbNode>, d: Tree<RbNode>) returns (pre: seq<RbNode>, post: seq<RbNode>)
    requires t.Node? && (t.left.Nil? || t.right.Nil?) && d == (if t.left.Nil? then t.right else t.left)
    requires Apart(c, t)
    ensures pre == Before(c) + Inorder(t.left) && post == Inorder(t.right) + After(c)
    ensures Inorder(Plug(c, t)) == pre + [t.n] + post && NoDuplicates(pre + [t.n] + post)
    ensures Inorder(Plug(c, d)) == pre + post
  {
    pre, post := Before(c) + Inorder(t.left), Inorder(t.right) + After(c);
    InorderPlug(c, t);
    InorderPlug(c, d);
    PlugDistinct(c, t);
    InorderDistinct(Plug(c, t));
    GroupEnds(Before(c), Inorder(t.left), [t.n], Inorder(t.right), After(c));
  }

  lemma GroupEnds<N>(a: seq<N>, b: seq<N>, c: seq<N>, d: seq<N>, e: seq<N>)
    ensures a + (b + c + d) + e == (a + b) + c + (d + e)
    ensures b == [] ==> a + d + e == (a + b) + (d + e)
    ensures d == [] ==> a + b + e == (a + b) + (d + e)
  {}

  lemma SimpleEnds(c: Ctx<RbNode>, t: Tree<RbNode>, d: Tree<RbNode>, anchor: RbNode,
                   left: RbNode?, right: RbNode?, left': RbNode?, right': RbNode?)
    requires t.Node? && (t.left.Nil? || t.right.Nil?) && d == (if t.left.Nil? then t.right else t.left)
    requires Apart(c, t) && Ends(Inorder(Plug(c, t)), anchor, left, right)
    requires EndsAfter(c, t, d, anchor, left, right, left', right')
    ensures Ends(Inorder(Plug(c, d)), anchor, left', right')
  {
    hide Plug, CtxNodes, Nodes, Before, After, CtxDistinct;
    var pre, post := SimpleParts(c, t, d);
    RemovedEnds(pre, t.n, post);
    BeforeEmpty(c);
    var s' := pre + post;
    assert pre != [] ==> s'[0] == pre[0];
    assert post != [] ==> s'[|s'| - 1] == post[|post| - 1];
  }

  // ---------------------------------------------------------------- RBTreeErase

  /** Whatever is unlinked, the rest of the sequence stays, in order. */
  ghost predicate TakenOut(s: seq<RbNode>, s': seq<RbNode>, x: RbNode) {
    exists i :: 0 <= i < |s| && s[i] == x && s' == RemoveAt(s, i)
  }

  function RemoveAt<N>(s: seq<N>, i: nat): seq<N>
    requires i < |s|
  {
    s[..i] + s[i + 1..]
  }

  lemma TakenOutAt(pre: seq<RbNode>, x: RbNode, post: seq<RbNode>)
    ensures TakenOut(pre + [x] + post, pre + post, x)
  {
    var s := pre + [x] + post;
    assert s[|pre|] == x && RemoveAt(s, |pre|) == pre + post;
  }

  /** pNode has at most one child. */
  method EraseSimple(pNode: RbNode, pNodeChild: RbNode?, anchor: RbNode,
                     ghost c: Ctx<RbNode>, ghost t: Tree<RbNode>, ghost d: Tree<RbNode>, ghost s: set<RbNode>)
    returns (pNodeChildParent: RbNode?)
    requires anchor in s && At(Snap(s), anchor.parent, c, t, anchor) && RootOf(t) == pNode
    requires t.left.Nil? || t.right.Nil?
    requires d == (if t.left.Nil? then t.right else t.left) && pNodeChild == RootOf(d)
    requires AnchorExact(anchor, Inorder(Plug(c, t)))
    requires RedBlack(Plug(c, t)) && !IsRed(Plug(c, t))
    modifies s
    ensures Unlinked(Snap(s), anchor.parent, c, d, anchor, pNode.color)
    ensures pNodeChildParent == Above(c, anchor) && pNode.color == t.color && anchor.color == old(anchor.color)
    ensures AnchorExact(anchor, Inorder(Plug(c, d)))
  {
    assert pNode in Nodes(t) && pNode != anchor && Snap(s)[pNode].color == t.color;
    pNodeChildParent := UnlinkSimple(pNode, pNodeChild, anchor, c, t, d, s);
    ghost var h1 := Snap(s);
    ghost var left, right := anchor.left, anchor.right;
    EraseEnds(pNode, pNodeChild, anchor, c, t, d, s);
    AnchorWritten(h1, Snap(s), c, d, anchor);
    SimpleEnds(c, t, d, anchor, left, right, anchor.left, anchor.right);
    SimpleUnlinked(Snap(s), anchor.parent, c, t, d, anchor);
  }

  lemma SimpleUnlinked(h: Heap, root: RbNode?, c: Ctx<RbNode>, t: Tree<RbNode>, d: Tree<RbNode>, anchor: RbNode)
    requires At(h, root, c, d, anchor) && t.Node? && (t.left.Nil? || t.right.Nil?)
    requires d == (if t.left.Nil? then t.right else t.left)
    requires RedBlack(Plug(c, t)) && !IsRed(Plug(c, t))
    ensures Unlinked(h, root, c, d, anchor, t.color)
  {
    HoleRedBlack(c, t);
    if t.color == Red && !c.Top? { CtxWeaken(c, BlackHeight(t)); }
  }

  method EraseEnds(pNode: RbNode, pNodeChild: RbNode?, anchor: RbNode,
                   ghost c: Ctx<RbNode>, ghost t: Tree<RbNode>, ghost d: Tree<RbNode>, ghost s: set<RbNode>)
    requires anchor in s && pNode != anchor && RootOf(t) == pNode && pNodeChild == RootOf(d)
    requires Linked(Snap(s), d, Above(c, anchor))
    requires pNode.parent == Above(c, anchor) && pNode.left == RootOf(t.left) && pNode.right == RootOf(t.right)
    modifies anchor`left, anchor`right
    ensures EndsAfter(c, t, d, anchor, old(anchor.left), old(anchor.right), anchor.left, anchor.right)
  {
    var first, last := anchor.left, anchor.right;
    if pNode == first {
      if pNode.right != null && pNodeChild != null {
        first := MinChild(pNodeChild, d, Above(c, anchor), s);
      } else {
        first := pNode.parent;
      }
    }
    if pNode == last {
      if pNode.left != null && pNodeChild != null {
        last := MaxChild(pNodeChild, d, Above(c, anchor), s);
      } else {
        last := pNode.parent;
      }
    }
    anchor.left, anchor.right := first, last;
  }

  /** The node after pNode: leftmost in its right subtree. */
  method FindSuccessor(pNode: RbNode, ghost anchor: RbNode, ghost c0: Ctx<RbNode>, ghost t: Tree<RbNode>, ghost s: set<RbNode>)
    returns (pNodeSuccessor: RbNode, ghost path: Ctx<RbNode>, ghost u: Tree<RbNode>)
    requires Focus(Snap(s), c0, t, anchor) && RootOf(t) == pNode && t.left.Node? && t.right.Node?
    ensures u.Node? && u.n == pNodeSuccessor && t.right == Plug(path, u)
    ensures HasSuccessor(Snap(s), c0, t.left, pNode, t.color, path, u, anchor)
  {
    ghost var base := InRight(c0, pNode, t.color, t.left);
    FocusRight(Snap(s), c0, t, anchor);
    pNodeSuccessor := pNode.right;
    path, u := Top, t.right;
    while pNodeSuccessor.left != null
      invariant Focus(Snap(s), Compose(path, base), u, anchor)
      invariant RootOf(u) == pNodeSuccessor && LeftSpine(path) && Plug(path, u) == t.right
      decreases u
    {
      FocusLeft(Snap(s), Compose(path, base), u, anchor);
      path, u := InLeft(path, u.n, u.color, u.right), u.left;
      pNodeSuccessor := pNodeSuccessor.left;
    }
  }

  lemma {:induction false} SpineBefore<N>(path: Ctx<N>)
    requires LeftSpine(path)
    ensures Before(path) == []
  {
    if !path.Top? { SpineBefore(path.up); }
  }

  /** Replacing the node of the outer frame changes no colour. */
  lemma {:induction false} SameColours(path: Ctx<RbNode>, c0: Ctx<RbNode>, x: RbNode, y: RbNode, k: Color, l: Tree<RbNode>,
                                       h: nat, red: bool)
    ensures CtxRedBlack(Compose(path, InRight(c0, x, k, l)), h, red) <==> CtxRedBlack(Compose(path, InRight(c0, y, k, l)), h, red)
  {
    if !path.Top? {
      SameColours(path.up, c0, x, y, k, l, h + if path.color == Black then 1 else 0, path.color == Red);
    }
  }

  lemma {:induction false} SameRootColour(path: Ctx<RbNode>, c0: Ctx<RbNode>, x: RbNode, y: RbNode, k: Color, l: Tree<RbNode>)
    ensures RootBlack(Compose(path, InRight(c0, x, k, l))) <==> RootBlack(Compose(path, InRight(c0, y, k, l)))
  {
    if !path.Top? { SameRootColour(path.up, c0, x, y, k, l); }
  }

  lemma SuccessorUnlinked(h: Heap, root: RbNode?, c0: Ctx<RbNode>, l: Tree<RbNode>, x: RbNode, k: Color,
                          path: Ctx<RbNode>, u: Tree<RbNode>, anchor: RbNode)
    requires u.Node? && u.left.Nil?
    requires At(h, root, Compose(path, InRight(c0, u.n, k, l)), u.right, anchor)
    requires var w := Plug(c0, Node(l, x, k, Plug(path, u))); RedBlack(w) && !IsRed(w)
    ensures Unlinked(h, root, Compose(path, InRight(c0, u.n, k, l)), u.right, anchor, u.color)
  {
    hide CtxRedBlack;
    var c, c' := Compose(path, InRight(c0, x, k, l)), Compose(path, InRight(c0, u.n, k, l));
    ComposePlug(path, InRight(c0, x, k, l), u);
    HoleRedBlack(c, u);
    SameColours(path, c0, x, u.n, k, l, BlackHeight(u), IsRed(u));
    SameRootColour(path, c0, x, u.n, k, l);
    if u.color == Red { CtxWeaken(c', BlackHeight(u)); }
  }

  lemma SuccessorSeq(c0: Ctx<RbNode>, l: Tree<RbNode>, x: RbNode, k: Color, path: Ctx<RbNode>, u: Tree<RbNode>)
    returns (pre: seq<RbNode>, post: seq<RbNode>)
    requires u.Node? && u.left.Nil? && l.Node? && LeftSpine(path)
    ensures pre != [] && post != []
    ensures Inorder(Plug(c0, Node(l, x, k, Plug(path, u)))) == pre + [x] + post
    ensures Inorder(Plug(Compose(path, InRight(c0, u.n, k, l)), u.right)) == pre + post
  {
    var s, d := u.n, u.right;
    var t, t' := Node(l, x, k, Plug(path, u)), Node(l, s, k, Plug(path, d));
    var rest := Inorder(d) + After(path);
    SpineRest(path, u);
    InorderPlug(c0, t);
    InorderPlug(c0, t');
    ComposePlug(path, InRight(c0, s, k, l), d);
    pre, post := SuccessorConcat(Before(c0), Inorder(l), x, s, rest, After(c0));
  }

  lemma SuccessorConcat(b: seq<RbNode>, l: seq<RbNode>, x: RbNode, s: RbNode, rest: seq<RbNode>, a: seq<RbNode>)
    returns (pre: seq<RbNode>, post: seq<RbNode>)
    ensures pre == b + l && post != []
    ensures b + (l + [x] + ([s] + rest)) + a == pre + [x] + post
    ensures b + (l + [s] + rest) + a == pre + post
  {
    pre, post := b + l, [s] + rest + a;
    GroupEnds(b, l, [x], [s] + rest, a);
    GroupEnds(b, l, [s], rest, a);
    assert [s] + rest + a == [s] + (rest + a);
    assert pre + ([s] + (rest + a)) == pre + [s] + (rest + a);
  }

  lemma SpineRest(path: Ctx<RbNode>, u: Tree<RbNode>)
    requires LeftSpine(path) && u.Node? && u.left.Nil?
    ensures var rest := Inorder(u.right) + After(path);
      Inorder(Plug(path, u)) == [u.n] + rest && Inorder(Plug(path, u.right)) == rest
  {
    SpineBefore(path);
    InorderPlug(path, u);
    InorderPlug(path, u.right);
    LeadingNode(u.n, Inorder(u.right), After(path));
  }

  lemma LeadingNode(n: RbNode, d: seq<RbNode>, a: seq<RbNode>)
    ensures [] + ([] + [n] + d) + a == [n] + (d + a)
    ensures [] + d + a == d + a
  {
    assert [] + [n] + d == [n] + d;
    assert [] + ([n] + d) == [n] + d;
    assert [] + d == d;
  }

  /** What unlinking achieves: pNode is out of the sequence, the anchor is exact, and only
      the black heights may still be short. */
  ghost predicate AfterUnlink(h: Heap, root: RbNode?, c: Ctx<RbNode>, d: Tree<RbNode>, anchor: RbNode,
                              gone: Color, before: seq<RbNode>, x: RbNode) {
    Unlinked(h, root, c, d, anchor, gone) && TakenOut(before, Inorder(Plug(c, d)), x)
  }

  /** pNode has two children. */
  method EraseSuccessor(pNode: RbNode, anchor: RbNode, ghost c0: Ctx<RbNode>, ghost t: Tree<RbNode>, ghost s: set<RbNode>)
    returns (pNodeChild: RbNode?, pNodeChildParent: RbNode?, ghost c: Ctx<RbNode>, ghost d: Tree<RbNode>)
    requires anchor in s && At(Snap(s), anchor.parent, c0, t, anchor) && RootOf(t) == pNode
    requires t.left.Node? && t.right.Node?
    requires AnchorExact(anchor, Inorder(Plug(c0, t))) && RedBlack(Plug(c0, t)) && !IsRed(Plug(c0, t))
    modifies s - {anchor}, anchor`parent
    ensures AfterUnlink(Snap(s), anchor.parent, c, d, anchor, pNode.color, Inorder(Plug(c0, t)), pNode)
    ensures pNodeChild == RootOf(d) && pNodeChildParent == Above(c, anchor)
    ensures AnchorExact(anchor, Inorder(Plug(c, d)))
  {
    ghost var path, u;
    var pNodeSuccessor;
    pNodeSuccessor, path, u := FindSuccessor(pNode, anchor, c0, t, s);
    SuccessorFacts(Snap(s), c0, t.left, pNode, t.color, path, u, anchor);
    pNodeChild := pNodeSuccessor.right;
    pNodeChildParent := UnlinkSuccessor(pNode, pNodeSuccessor, pNodeChild, anchor, c0, t, path, u, s);
    c, d := Compose(path, InRight(c0, pNodeSuccessor, t.color, t.left)), u.right;
    SuccessorUnlinked(Snap(s), anchor.parent, c0, t.left, pNode, t.color, path, u, anchor);
    SuccessorEnds(c0, t, path, u, anchor, anchor.left, anchor.right);
  }

  lemma SuccessorEnds(c0: Ctx<RbNode>, t: Tree<RbNode>, path: Ctx<RbNode>, u: Tree<RbNode>, anchor: RbNode,
                      left: RbNode?, right: RbNode?)
    requires u.Node? && u.left.Nil? && LeftSpine(path)
    requires t.Node? && t.left.Node? && t.right == Plug(path, u)
    requires Ends(Inorder(Plug(c0, t)), anchor, left, right)
    ensures var s' := Inorder(Plug(Compose(path, InRight(c0, u.n, t.color, t.left)), u.right));
      Ends(s', anchor, left, right) && TakenOut(Inorder(Plug(c0, t)), s', t.n)
  {
    var pre, post := SuccessorSeq(c0, t.left, t.n, t.color, path, u);
    TakenOutAt(pre, t.n, post);
    var s, s' := pre + [t.n] + post, pre + post;
    assert s[0] == pre[0] == s'[0];
    assert s[|s| - 1] == post[|post| - 1] == s'[|s'| - 1];
  }

  /** The first part of the erasure: pNode leaves the tree. */
  method EraseUnlink(pNode: RbNode, anchor: RbNode, ghost c0: Ctx<RbNode>, ghost t: Tree<RbNode>, ghost s: set<RbNode>)
    returns (pNodeChild: RbNode?, pNodeChildParent: RbNode?, ghost c: Ctx<RbNode>, ghost d: Tree<RbNode>)
    requires anchor in s && At(Snap(s), anchor.parent, c0, t, anchor) && RootOf(t) == pNode
    requires AnchorExact(anchor, Inorder(Plug(c0, t))) && RedBlack(Plug(c0, t)) && !IsRed(Plug(c0, t))
    modifies s
    ensures AfterUnlink(Snap(s), anchor.parent, c, d, anchor, pNode.color, Inorder(Plug(c0, t)), pNode)
    ensures pNodeChild == RootOf(d) && pNodeChildParent == Above(c, anchor)
    ensures AnchorExact(anchor, Inorder(Plug(c, d))) && anchor.color == old(anchor.color)
  {
    assert Linked(Snap(s), t, Above(c0, anchor));
    if pNode.left == null || pNode.right == null {
      if pNode.left == null {
        pNodeChild := pNode.right;
      } else {
        pNodeChild := pNode.left;
      }
      c, d := c0, if t.left.Nil? then t.right else t.left;
      ghost var pre, post := SimpleParts(c, t, d);
      TakenOutAt(pre, pNode, post);
      pNodeChildParent := EraseSimple(pNode, pNodeChild, anchor, c, t, d, s);
    } else {
      pNodeChild, pNodeChildParent, c, d := EraseSuccessor(pNode, anchor, c0, t, s);
    }
  }

  /** RBTreeErase. */
  method Erase(pNode: RbNode, anchor: RbNode, ghost t: Tree<RbNode>) returns (ghost t': Tree<RbNode>)
    requires IsTree(anchor, t) && pNode in Nodes(t)
    modifies anchor, Nodes(t)
    ensures IsTree(anchor, t')
    ensures TakenOut(Inorder(t), Inorder(t'), pNode)
  {
    hide Nodes, Inorder, RootBlack, Focus;
    ghost var s := Nodes(t) + {anchor};
    AnchorWritten(Snap(Nodes(t)), Snap(s), Top, t, anchor);
    ghost var c0, u := FocusOn(Snap(s), Top, t, pNode, anchor);
    FocusClose(Snap(s), c0, u, anchor);
    var pNodeChild, pNodeChildParent;
    ghost var c, d;
    pNodeChild, pNodeChildParent, c, d := EraseUnlink(pNode, anchor, c0, u, s);
    t' := EraseRest(pNode, pNodeChild, pNodeChildParent, anchor, c, d, s);
  }

  /** The second part: only the loss of a black node needs rebalancing. */
  method EraseRest(pNode: RbNode, pNodeChild: RbNode?, pNodeChildParent: RbNode?, anchor: RbNode,
                   ghost c: Ctx<RbNode>, ghost d: Tree<RbNode>, ghost s: set<RbNode>)
    returns (ghost t': Tree<RbNode>)
    requires anchor in s && Unlinked(Snap(s), anchor.parent, c, d, anchor, pNode.color)
    requires pNodeChild == RootOf(d) && pNodeChildParent == Above(c, anchor)
    modifies s - {anchor}, anchor`parent
    ensures Holds(anchor, t') && Valid(t') && Nodes(t') <= s && Inorder(t') == Inorder(Plug(c, d))
  {
    if pNode.color == Black {
      t' := EraseRebalance(pNodeChild, pNodeChildParent, anchor, c, d, s);
    } else {
      t' := Plug(c, d);
      PlugRedBlack(c, d);
      RootBlackPlug(c, d);
      FocusClose(Snap(s), c, d, anchor);
      Restrict(s, t', anchor);
    }
  }
}
