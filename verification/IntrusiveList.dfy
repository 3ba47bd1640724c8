/** The ring of intrusive list nodes: reversing it, and checking an arbitrary one. */
module IntrusiveList {
  class Node {
    var next: Node
    var prev: Node

    /** A node on its own. */
    constructor ()
      ensures next == this && prev == this
    {
      next, prev := this, this;
    }
  }

  ghost predicate Distinct(r: seq<Node>) { forall i, j | 0 <= i < j < |r| :: r[i] != r[j] }

  /** Links go both ways from `x` to `y`. */
  ghost predicate Linked(x: Node, y: Node)
    reads x, y
  {
    x.next == y && y.prev == x
  }

  /** The nodes of a ring in the order of their next links, the anchor first. */
  ghost predicate IsRing(a: Node, r: seq<Node>)
    reads set n | n in r
  {
    && r != [] && r[0] == a && Distinct(r) && Linked(r[|r| - 1], r[0])
    && forall i | 0 <= i < |r| - 1 :: Linked(r[i], r[i + 1])
  }

  function Reversed(s: seq<Node>): (r: seq<Node>)
    ensures |r| == |s| && forall i | 0 <= i < |s| :: r[i] == s[|s| - 1 - i]
  {
    seq(|s|, i requires 0 <= i < |s| => s[|s| - 1 - i])
  }

  // ---------------------------------------------------------------- walking

  /** The nodes met on a walk from `a` that has not come back to it, all with symmetric links. */
  ghost predicate Path(a: Node, r: seq<Node>)
    reads set n | n in r
  {
    && r != [] && r[0] == a && (forall i | 0 < i < |r| :: r[i] != a)
    && forall i | 0 <= i < |r| - 1 :: Linked(r[i], r[i + 1])
  }

  /** Symmetric links cannot run into a loop behind the anchor. */
  lemma PathDistinct(a: Node, r: seq<Node>)
    requires Path(a, r)
    ensures Distinct(r)
  {
    forall i, j | 0 <= i < j < |r|
      ensures r[i] != r[j]
    {
      NotTwice(a, r, i, j);
    }
  }

  lemma {:induction false} NotTwice(a: Node, r: seq<Node>, i: nat, j: nat)
    requires Path(a, r) && i < j < |r|
    ensures r[i] != r[j]
    decreases i
  {
    if i > 0 {
      NotTwice(a, r, i - 1, j - 1);
      assert Linked(r[i - 1], r[i - 1 + 1]) && Linked(r[j - 1], r[j - 1 + 1]);
    }
  }

  /** So a walk among finitely many nodes is short. */
  lemma {:induction false} DistinctFits(r: seq<Node>, h: set<Node>)
    requires Distinct(r) && forall n <- r :: n in h
    ensures |r| <= |h|
    decreases |r|
  {
    if r != [] {
      var x := r[|r| - 1];
      DistinctFits(r[..|r| - 1], h - {x});
    }
  }

  lemma PathGrows(a: Node, r: seq<Node>, x: Node)
    requires Path(a, r) && Linked(r[|r| - 1], x) && x != a
    ensures Path(a, r + [x])
  {
    var s := r + [x];
    forall i | 0 <= i < |s| - 1
      ensures Linked(s[i], s[i + 1])
    {
      if i < |r| - 1 { assert Linked(r[i], r[i + 1]); }
    }
  }

  lemma AllIn(r: seq<Node>, x: Node, h: set<Node>)
    requires (forall n <- r :: n in h) && x in h
    ensures forall n <- r + [x] :: n in h
  {}

  lemma PathCloses(a: Node, r: seq<Node>)
    requires Path(a, r) && Linked(r[|r| - 1], a)
    ensures IsRing(a, r)
  {
    PathDistinct(a, r);
  }

  /** Any walk follows the ring, if there is one. */
  lemma {:induction false} PathOnRing(a: Node, r: seq<Node>, s: seq<Node>)
    requires Path(a, r) && IsRing(a, s)
    ensures |r| <= |s| && r == s[..|r|]
    decreases |r|
  {
    if |r| > 1 {
      var k := |r| - 2;
      var front := r[..k + 1];
      assert Path(a, front) by {
        forall i | 0 <= i < |front| - 1
          ensures Linked(front[i], front[i + 1])
        {
          assert Linked(r[i], r[i + 1]);
        }
      }
      PathOnRing(a, front, s);
      assert Linked(r[k], r[k + 1]) && r[k] == front[k] == s[k];
      assert k + 1 < |s| ==> Linked(s[k], s[k + 1]);
      assert r == front + [r[k + 1]];
    }
  }

  /** Where links are broken there is no ring. */
  lemma BrokenLink(a: Node, r: seq<Node>)
    requires Path(a, r) && r[|r| - 1].next.prev != r[|r| - 1]
    ensures forall s :: !IsRing(a, s)
  {
    forall s
      ensures !IsRing(a, s)
    {
      if IsRing(a, s) {
        PathOnRing(a, r, s);
        RingBothWays(a, s, |r| - 1);
      }
    }
  }

  lemma RingBothWays(a: Node, s: seq<Node>, k: nat)
    requires IsRing(a, s) && k < |s|
    ensures s[k].next.prev == s[k]
  {
    assert k + 1 < |s| ==> Linked(s[k], s[k + 1]);
  }

  // ---------------------------------------------------------------- reversing

  function Before(r: seq<Node>, i: nat): Node
    requires i < |r|
  {
    if i == 0 then r[|r| - 1] else r[i - 1]
  }

  function After(r: seq<Node>, i: nat): Node
    requires i < |r|
  {
    if i == |r| - 1 then r[0] else r[i + 1]
  }

  /** The first `k` nodes of the ring have their links exchanged, the others not. */
  ghost predicate Exchanged(r: seq<Node>, k: int)
    reads set n | n in r
  {
    && (forall i | 0 <= i < |r| && i < k :: r[i].next == Before(r, i) && r[i].prev == After(r, i))
    && (forall i | 0 <= i < |r| && k <= i :: r[i].prev == Before(r, i) && r[i].next == After(r, i))
  }

  lemma RingLinks(a: Node, r: seq<Node>)
    requires IsRing(a, r)
    ensures Exchanged(r, 0)
  {
    forall i | 0 <= i < |r|
      ensures r[i].prev == Before(r, i) && r[i].next == After(r, i)
    {
      if i > 0 { assert Linked(r[i - 1], r[i - 1 + 1]); }
      if i < |r| - 1 { assert Linked(r[i], r[i + 1]); }
    }
  }

  lemma ReversedRing(a: Node, r: seq<Node>)
    requires r != [] && r[0] == a && Distinct(r) && Exchanged(r, |r|)
    ensures IsRing(a, [a] + Reversed(r[1..]))
  {
    var m := |r|;
    var s := [a] + Reversed(r[1..]);
    forall i | 0 <= i < m
      ensures s[i] == r[if i == 0 then 0 else m - i]
    {}
    forall i, j | 0 <= i < j < m
      ensures s[i] != s[j]
    {
      var x, y := if i == 0 then 0 else m - i, m - j;
      assert s[i] == r[x] && s[j] == r[y];
    }
    forall i | 0 <= i < m - 1
      ensures Linked(s[i], s[i + 1])
    {
      var x, y := if i == 0 then 0 else m - i, m - i - 1;
      assert s[i] == r[x] && s[i + 1] == r[y];
      assert Before(r, x) == r[y] && After(r, y) == r[x];
    }
    var y := if m == 1 then 0 else 1;
    assert s[m - 1] == r[y] && Before(r, y) == r[0] && After(r, 0) == r[y];
  }

  lemma OthersThan(r: seq<Node>, k: nat)
    requires Distinct(r) && k < |r|
    ensures forall i | 0 <= i < |r| && i != k :: r[i] != r[k]
  {}

  class IntrusiveListBase {
    const anchor: Node

    constructor ()
      ensures fresh(anchor) && IsRing(anchor, [anchor])
    {
      anchor := new Node();
    }

    /** reverse: the nodes behind the anchor come in the opposite order. */
    method Reverse(ghost r: seq<Node>)
      requires IsRing(anchor, r)
      modifies set n | n in r
      ensures IsRing(anchor, [anchor] + Reversed(r[1..]))
    {
      RingLinks(anchor, r);
      var node := anchor;
      ghost var k := 0;
      while true
        invariant 0 <= k < |r| && node == r[k] && Exchanged(r, k) && Distinct(r) && r[0] == anchor
        decreases |r| - k
      {
        assert After(r, k) == anchor <==> k == |r| - 1;
        node := Exchange(node, r, k);
        k := k + 1;
        if node == anchor { break; }
      }
      ReversedRing(anchor, r);
    }

    /** The links of one node; the next one is what was its next one. */
    static method Exchange(node: Node, ghost r: seq<Node>, ghost k: nat) returns (next: Node)
      requires k < |r| && node == r[k] && Exchanged(r, k) && Distinct(r)
      modifies node
      ensures Exchanged(r, k + 1) && next == After(r, k)
    {
      assert node.next == After(r, k) && node.prev == Before(r, k);
      hide Before, After;
      OthersThan(r, k);
      var temp := node.next;
      node.next := node.prev;
      node.prev := temp;
      next := node.prev;
    }

    /** validate: it ends on any finite heap, and is true exactly if the next links from the
        anchor form a ring with symmetric links. */
    method Validate(ghost h: set<Node>) returns (ok: bool)
      requires anchor in h && forall n <- h :: n.next in h
      ensures ok <==> exists r :: IsRing(anchor, r)
    {
      var p, q := anchor, anchor;
      ghost var r := [anchor];
      ghost var t := 0;
      while true
        invariant Path(anchor, r) && |r| == 2 * t + 1 && r[2 * t] == p && r[t] == q && p in h && forall n <- r :: n in h
        decreases |h| - |r|
      {
        if p.next.prev != p {
          BrokenLink(anchor, r);
          return false;
        }
        p := p.next;
        if p == anchor {
          PathCloses(anchor, r);
          return true;
        }
        PathGrows(anchor, r, p);
        AllIn(r, p, h);
        r := r + [p];
        PathDistinct(anchor, r);
        assert r[t] != r[2 * t + 1] && Linked(r[t], r[t + 1]);
        if p == q {
          return false;
        }
        if p.next.prev != p {
          BrokenLink(anchor, r);
          return false;
        }
        p, q := p.next, q.next;
        ghost var back := p == anchor;
        if back {
          PathCloses(anchor, r);
        } else {
          PathGrows(anchor, r, p);
          AllIn(r, p, h);
          r := r + [p];
          PathDistinct(anchor, r);
          assert r[t + 1] != r[2 * t + 2];
        }
        assert q == r[t + 1] != anchor;
        if p == q {
          return false;
        }
        if p == anchor {
          return true;
        }
        DistinctFits(r, h);
        t := t + 1;
      }
    }
  }
}
