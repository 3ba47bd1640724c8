/** RBTreeIncrement and RBTreeDecrement: walking the in-order sequence through the
    parent pointers, with the anchor as the end. */
module RbIterate {
  import opened RbModel
  import opened RedBlackTree

  /** The node after `x` in the sequence, the anchor standing for the end. */
  ghost function Next(s: seq<RbNode>, i: nat, anchor: RbNode): RbNode
    requires i < |s|
  {
    if i + 1 < |s| then s[i + 1] else anchor
  }

  lemma IndexAt(c: Ctx<RbNode>, u: Tree<RbNode>, i: nat)
    requires u.Node? && Apart(c, u)
    requires var s := Inorder(Plug(c, u)); i < |s| && s[i] == u.n
    ensures i == |Before(c)| + |Inorder(u.left)|
    ensures Inorder(Plug(c, u)) == Before(c) + Inorder(u) + After(c)
    ensures NoDuplicates(Inorder(Plug(c, u)))
  {
    InorderPlug(c, u);
    PlugDistinct(c, u);
    InorderDistinct(Plug(c, u));
    var s, j := Inorder(Plug(c, u)), |Before(c)| + |Inorder(u.left)|;
    assert s[j] == Inorder(u)[|Inorder(u.left)|] == u.n;
    UniqueIndex(s, i, j);
  }

  lemma UniqueIndex(s: seq<RbNode>, i: nat, j: nat)
    requires NoDuplicates(s) && i < |s| && j < |s| && s[i] == s[j]
    ensures i == j
  {}

  /** The first node of the right subtree follows its root. */
  method IncrementDown(pNode: RbNode, ghost anchor: RbNode, ghost c: Ctx<RbNode>, ghost u: Tree<RbNode>,
                       ghost s: set<RbNode>)
    returns (r: RbNode)
    requires Focus(Snap(s), c, u, anchor) && RootOf(u) == pNode && pNode.right != null
    ensures r == Inorder(u.right)[0]
  {
    assert Linked(Snap(s), u.right, pNode);
    r := pNode.right;
    ghost var e, q := u.right, pNode;
    while r.left != null
      invariant Linked(Snap(s), e, q) && RootOf(e) == r && Inorder(e)[0] == Inorder(u.right)[0]
      decreases e
    {
      assert Linked(Snap(s), e.left, r);
      r, e, q := r.left, e.left, r;
    }
  }

  /** The climb of the increment, seen from the tree: `u` is where it is now, and its last
      node is the one it started from. */
  ghost predicate Climbing(h: Heap, root: RbNode?, c: Ctx<RbNode>, u: Tree<RbNode>, c0: Ctx<RbNode>, u0: Tree<RbNode>,
                           anchor: RbNode) {
    && Focus(h, c, u, anchor) && u.Node? && root == Outermost(c, u.n)
    && Plug(c, u) == Plug(c0, u0) && After(c) == After(c0) && (u.right.Nil? ==> u == u0 && c == c0)
  }

  /** At the root: when the root is the last node, nothing was climbed. */
  lemma ClimbedToRoot(h: Heap, root: RbNode?, c: Ctx<RbNode>, u: Tree<RbNode>, c0: Ctx<RbNode>, u0: Tree<RbNode>, anchor: RbNode)
    requires Climbing(h, root, c, u, c0, u0, anchor) && c.Top?
    requires var s := Inorder(Plug(c0, u0)); s != [] && u.n == s[|s| - 1]
    ensures u.right.Nil?
  {
    var s := Inorder(u);
    InorderDistinct(u);
    UniqueIndex(s, |Inorder(u.left)|, |s| - 1);
    assert |Inorder(u.right)| == 0;
  }

  /** Climbing out of right subtrees: the next node is the first one entered from the
      left, or the anchor. */
  method IncrementUp(node: RbNode, anchor: RbNode, ghost c0: Ctx<RbNode>, ghost u0: Tree<RbNode>, ghost s: set<RbNode>)
    returns (r: RbNode)
    requires anchor in s && Focus(Snap(s), c0, u0, anchor) && RootOf(u0) == node && u0.right.Nil?
    requires anchor.parent == Outermost(c0, node) && Inorder(Plug(c0, u0)) != []
    requires anchor.right == Inorder(Plug(c0, u0))[|Inorder(Plug(c0, u0))| - 1]
    ensures r == if After(c0) == [] then anchor else After(c0)[0]
  {
    var pNode := node;
    var pNodeTemp := pNode.parent;
    ghost var c, u, over := c0, u0, false;
    while pNode == pNodeTemp.right
      invariant pNodeTemp != null
      invariant if over
        then pNode == anchor && pNodeTemp == anchor.parent && c0.Top? && pNodeTemp == node == anchor.right
        else Climbing(Snap(s), anchor.parent, c, u, c0, u0, anchor) && u.n == pNode && pNodeTemp == Above(c, anchor)
      decreases if over then 0 else Depth(c) + 1
    {
      ClimbStep(Snap(s), pNode, pNodeTemp, anchor, over, c, u, c0, u0);
      if !over {
        if c.Top? {
          ClimbedToRoot(Snap(s), anchor.parent, c, u, c0, u0, anchor);
          over := true;
        } else {
          c, u := c.up, Fill(c, u);
        }
      }
      pNode := pNodeTemp;
      pNodeTemp := pNodeTemp.parent;
    }
    if pNode.right != pNodeTemp {
      pNode := pNodeTemp;
    }
    r := pNode;
  }

  lemma ClimbStep(h: Heap, pNode: RbNode, pNodeTemp: RbNode, anchor: RbNode, over: bool,
                  c: Ctx<RbNode>, u: Tree<RbNode>, c0: Ctx<RbNode>, u0: Tree<RbNode>)
    requires !over && !c.Top? ==> Focus(h, c, u, anchor) && u.Node? && u.n == pNode && c.n == pNodeTemp && pNodeTemp in h && h[pNodeTemp].right == pNode
    ensures !over && !c.Top? ==> c.InRight? && Focus(h, c.up, Fill(c, u), anchor)
  {
    if !over && !c.Top? {
      FocusUp(h, c, u, anchor);
      assert u.n in Nodes(u);
      assert RootOf(c.sibling) != u.n;
    }
  }

  /** RBTreeIncrement. */
  method Increment(pNode: RbNode, anchor: RbNode, ghost t: Tree<RbNode>, ghost i: nat) returns (r: RbNode)
    requires IsTree(anchor, t) && i < |Inorder(t)| && Inorder(t)[i] == pNode
    ensures r == Next(Inorder(t), i, anchor)
  {
    ghost var s := Nodes(t) + {anchor};
    AnchorWritten(Snap(Nodes(t)), Snap(s), Top, t, anchor);
    InorderNodes(t, pNode);
    ghost var c, u := FocusOn(Snap(s), Top, t, pNode, anchor);
    FocusClose(Snap(s), c, u, anchor);
    IndexAt(c, u, i);
    NextAt(c, u, i, anchor);
    if pNode.right != null {
      r := IncrementDown(pNode, anchor, c, u, s);
    } else {
      r := IncrementUp(pNode, anchor, c, u, s);
    }
  }

  lemma NextAt(c: Ctx<RbNode>, u: Tree<RbNode>, i: nat, anchor: RbNode)
    requires u.Node? && i == |Before(c)| + |Inorder(u.left)|
    requires Inorder(Plug(c, u)) == Before(c) + Inorder(u) + After(c)
    ensures Next(Inorder(Plug(c, u)), i, anchor)
      == if u.right.Node? then Inorder(u.right)[0] else if After(c) == [] then anchor else After(c)[0]
  {
    var s, m := Inorder(Plug(c, u)), Inorder(u);
    if u.right.Node? {
      assert s[i + 1] == m[i + 1 - |Before(c)|] == Inorder(u.right)[0];
    }
  }

  lemma PreviousAt(c: Ctx<RbNode>, u: Tree<RbNode>, i: nat)
    requires u.Node? && i == |Before(c)| + |Inorder(u.left)| && i > 0
    requires Inorder(Plug(c, u)) == Before(c) + Inorder(u) + After(c)
    ensures u.left.Nil? ==> Before(c) != []
    ensures Inorder(Plug(c, u))[i - 1]
      == if u.left.Node? then Inorder(u.left)[|Inorder(u.left)| - 1] else Before(c)[|Before(c)| - 1]
  {
    var s, m := Inorder(Plug(c, u)), Inorder(u);
    if u.left.Node? {
      assert s[i - 1] == m[i - 1 - |Before(c)|] == Inorder(u.left)[|Inorder(u.left)| - 1];
    }
  }

  /** The last node of the left subtree precedes its root. */
  method DecrementDown(pNode: RbNode, ghost anchor: RbNode, ghost c: Ctx<RbNode>, ghost u: Tree<RbNode>,
                       ghost s: set<RbNode>)
    returns (r: RbNode)
    requires Focus(Snap(s), c, u, anchor) && RootOf(u) == pNode && pNode.left != null
    ensures r == Inorder(u.left)[|Inorder(u.left)| - 1]
  {
    assert Linked(Snap(s), u.left, pNode);
    r := pNode.left;
    ghost var e, q := u.left, pNode;
    while r.right != null
      invariant Linked(Snap(s), e, q) && RootOf(e) == r
      invariant Inorder(e)[|Inorder(e)| - 1] == Inorder(u.left)[|Inorder(u.left)| - 1]
      decreases e
    {
      assert Linked(Snap(s), e.right, r);
      r, e, q := r.right, e.right, r;
    }
  }

  /** Climbing out of left subtrees. */
  method DecrementUp(node: RbNode, anchor: RbNode, ghost c0: Ctx<RbNode>, ghost u0: Tree<RbNode>, ghost s: set<RbNode>)
    returns (r: RbNode)
    requires Focus(Snap(s), c0, u0, anchor) && RootOf(u0) == node && Before(c0) != []
    ensures r == Before(c0)[|Before(c0)| - 1]
  {
    var pNode := node;
    var pNodeTemp := pNode.parent;
    ghost var c, u := c0, u0;
    while pNode == pNodeTemp.left
      invariant Focus(Snap(s), c, u, anchor) && RootOf(u) == pNode && pNodeTemp == Above(c, anchor)
      invariant Before(c) == Before(c0) && u.Node?
      decreases Depth(c)
    {
      LeftStep(Snap(s), c, u, anchor);
      c, u := c.up, Fill(c, u);
      pNode := pNodeTemp;
      pNodeTemp := pNodeTemp.parent;
    }
    r := pNodeTemp;
  }

  lemma LeftStep(h: Heap, c: Ctx<RbNode>, u: Tree<RbNode>, anchor: RbNode)
    requires Focus(h, c, u, anchor) && u.Node? && !c.Top? && c.n in h && h[c.n].left == u.n
    ensures c.InLeft? && Focus(h, c.up, Fill(c, u), anchor)
  {
    FocusUp(h, c, u, anchor);
    assert u.n in Nodes(u) && RootOf(c.sibling) != u.n;
  }

  /** Only the anchor is red and its own grandparent. */
  lemma OnlyAnchor(h: Heap, root: RbNode?, c: Ctx<RbNode>, u: Tree<RbNode>, anchor: RbNode)
    requires Focus(h, c, u, anchor) && u.Node? && root == Outermost(c, u.n)
    requires !IsRed(Plug(c, u)) && anchor in h && h[anchor].parent == root
    ensures u.n in h && h[u.n].parent != null && h[u.n].parent in h
    ensures h[h[u.n].parent].parent == u.n ==> h[u.n].color != Red
  {
    if !c.Top? {
      assert u.n in Nodes(u) && c.n in CtxNodes(c) && CtxLinked(h, c, u.n, anchor);
      assert Above(c.up, anchor) != u.n;
    }
  }

  /** RBTreeDecrement, from a node other than the first, or from the anchor. */
  method Decrement(pNode: RbNode, anchor: RbNode, ghost t: Tree<RbNode>, ghost i: nat) returns (r: RbNode)
    requires IsTree(anchor, t) && 0 < i <= |Inorder(t)|
    requires pNode == if i == |Inorder(t)| then anchor else Inorder(t)[i]
    ensures r == Inorder(t)[i - 1]
  {
    hide NoDuplicates, RedBlack, CtxDistinct, Nodes;
    ghost var s := Nodes(t) + {anchor};
    ghost var c, u := Top, t;
    AnchorWritten(Snap(Nodes(t)), Snap(s), Top, t, anchor);
    if i < |Inorder(t)| {
      InorderNodes(t, pNode);
      c, u := FocusOn(Snap(s), Top, t, pNode, anchor);
      FocusClose(Snap(s), c, u, anchor);
      OnlyAnchor(Snap(s), anchor.parent, c, u, anchor);
      IndexAt(c, u, i);
      PreviousAt(c, u, i);
    } else {
      assert t.Node? && Linked(Snap(s), t, anchor);
    }
    if pNode.parent.parent == pNode && pNode.color == Red {
      return pNode.right;
    }
    if pNode.left != null {
      r := DecrementDown(pNode, anchor, c, u, s);
    } else {
      r := DecrementUp(pNode, anchor, c, u, s);
    }
  }
}
