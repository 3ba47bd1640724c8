/** The treebins of lj_alloc.c: for each size range a bitwise trie on chunk sizes, one
    tree node per distinct size, and a ring of the other chunks of that size.

    The abstract value is a map `at` from trie positions to rings. A position is a bin,
    a depth, and the leading bits of the sizes below it. */
module AllocTrie {
  import opened Shifts
  import opened AllocIndex

  /** A trie position: `prefix` is what the sizes at and below it have in front of their
      last KeyBits(bin) - depth bits. */
  datatype Key = Key(bin: nat, depth: nat, prefix: nat)

  type Rings = map<Key, seq<int>>
  type Sizes = map<int, nat>

  function RootKey(i: nat): Key { Key(i, 0, RootPrefix(i)) }
  function Child(k: Key, b: nat): Key { Key(k.bin, k.depth + 1, 2 * k.prefix + b) }
  function Parent(k: Key): Key
    requires k.depth > 0
  {
    Key(k.bin, k.depth - 1, k.prefix / 2)
  }

  /** Size `s` belongs at or below position `k`. */
  ghost predicate Covers(k: Key, s: nat) {
    k.depth <= KeyBits(k.bin) && Shr(s, KeyBits(k.bin) - k.depth) == k.prefix
  }

  /** The position of size `s` at the given depth. */
  ghost function KeyAt(i: nat, s: nat, depth: nat): Key
    requires depth <= KeyBits(i)
  {
    Key(i, depth, Shr(s, KeyBits(i) - depth))
  }

  /** The tree node at a position, 0 if there is none. */
  function HeadOf(at: Rings, k: Key): int {
    if k in at && at[k] != [] then at[k][0] else 0
  }

  ghost predicate NoDuplicates(r: seq<int>) {
    forall i, j :: 0 <= i < j < |r| ==> r[i] != r[j]
  }

  // ---------------------------------------------------------------- the abstract trie

  /** The chunk size stored at a position. */
  ghost function SizeAt(at: Rings, sz: Sizes, k: Key): nat {
    if HeadOf(at, k) in sz then sz[HeadOf(at, k)] else 0
  }

  /** One position: a non-empty ring of chunks of one size, which belongs here. */
  ghost predicate RingOk(at: Rings, sz: Sizes, k: Key) {
    && k in at && k.bin < NTREEBINS && at[k] != [] && NoDuplicates(at[k])
    && (forall a <- at[k] :: a in sz && a > 0 && sz[a] == SizeAt(at, sz, k))
    && LargeSize(SizeAt(at, sz, k)) && TreeIndex(SizeAt(at, sz, k)) == k.bin && Covers(k, SizeAt(at, sz, k))
    && (k.depth > 0 ==> Parent(k) in at)
  }

  /** Two positions: no chunk and no size in common. */
  ghost predicate KeysApart(at: Rings, sz: Sizes, k: Key, k': Key)
    requires k in at && k' in at
  {
    (forall a <- at[k] :: a !in at[k']) && SizeAt(at, sz, k) != SizeAt(at, sz, k')
  }

  ghost predicate RingsOk(at: Rings, sz: Sizes) {
    forall k {:trigger RingOk(at, sz, k)} :: k in at ==> RingOk(at, sz, k)
  }

  ghost predicate AllApart(at: Rings, sz: Sizes) {
    forall k, k' {:trigger KeysApart(at, sz, k, k')} :: k in at && k' in at && k != k' ==> KeysApart(at, sz, k, k')
  }

  ghost predicate Shape(at: Rings, sz: Sizes) {
    RingsOk(at, sz) && AllApart(at, sz)
  }

  ghost function Members(at: Rings): set<int> {
    set k, a | k in at && a in at[k] :: a
  }

  // ---------------------------------------------------------------- the links

  /** The link fields of the chunks, the roots, and the bin map. A slot of the root array
      is the address -1 - i. */
  datatype Links = Links(child: map<(int, nat), int>, parent: map<int, int>, fd: map<int, int>, bk: map<int, int>,
                         index: map<int, nat>, bins: seq<int>, marks: set<nat>)

  function Slot(i: nat): int { -1 - i }

  function Above(at: Rings, k: Key): int {
    if k.depth == 0 then Slot(k.bin) else HeadOf(at, Parent(k))
  }

  ghost predicate NodeLinked(l: Links, at: Rings, k: Key) {
    var x := HeadOf(at, k);
    && (x, 0) in l.child && l.child[(x, 0)] == HeadOf(at, Child(k, 0))
    && (x, 1) in l.child && l.child[(x, 1)] == HeadOf(at, Child(k, 1))
    && x in l.parent && l.parent[x] == Above(at, k)
  }

  /** A ring member that is not the tree node. */
  ghost predicate Detached(l: Links, a: int) {
    && a in l.parent && l.parent[a] == 0
    && (a, 0) in l.child && l.child[(a, 0)] == 0
    && (a, 1) in l.child && l.child[(a, 1)] == 0
  }

  ghost predicate RingLinkedAt(l: Links, r: seq<int>, bin: nat, i: nat)
    requires i < |r|
  {
    && r[i] in l.fd && l.fd[r[i]] == r[if i + 1 == |r| then 0 else i + 1]
    && r[i] in l.bk && l.bk[r[i]] == r[if i == 0 then |r| - 1 else i - 1]
    && r[i] in l.index && l.index[r[i]] == bin
    && (i > 0 ==> Detached(l, r[i]))
  }

  ghost predicate RingLinked(l: Links, r: seq<int>, bin: nat) {
    forall i: nat {:trigger RingLinkedAt(l, r, bin, i)} | i < |r| :: RingLinkedAt(l, r, bin, i)
  }

  ghost predicate RootsLinked(l: Links, at: Rings) {
    && |l.bins| == NTREEBINS && (forall i <- l.marks :: i < NTREEBINS)
    && forall i | 0 <= i < NTREEBINS :: l.bins[i] == HeadOf(at, RootKey(i)) && (i in l.marks <==> RootKey(i) in at)
  }

  ghost predicate Linked(l: Links, at: Rings) {
    && (forall k {:trigger NodeLinked(l, at, k)} :: k in at ==> NodeLinked(l, at, k))
    && (forall k {:trigger RingLinked(l, at[k], k.bin)} :: k in at ==> RingLinked(l, at[k], k.bin))
    && RootsLinked(l, at)
  }

  /** The same, with nothing said about the ring at `k`. */
  ghost predicate LinkedBut(l: Links, at: Rings, k: Key) {
    && (forall q {:trigger NodeLinked(l, at, q)} :: q in at ==> NodeLinked(l, at, q))
    && (forall q {:trigger RingLinked(l, at[q], q.bin)} :: q in at && q != k ==> RingLinked(l, at[q], q.bin))
    && RootsLinked(l, at)
  }

  // ---------------------------------------------------------------- facts about positions

  lemma CoversStep(k: Key, s: nat)
    requires Covers(k, s) && k.depth < KeyBits(k.bin)
    ensures var b := Shr(s, KeyBits(k.bin) - k.depth - 1) % 2; Covers(Child(k, b), s)
  {
    ShrStep(s, KeyBits(k.bin) - k.depth - 1);
  }

  /** The trie holds every position on the way to a stored one. */
  lemma {:induction false} Ancestors(at: Rings, sz: Sizes, k: Key, s: nat, depth: nat)
    requires RingsOk(at, sz) && k in at && Covers(k, s) && depth <= k.depth
    ensures KeyAt(k.bin, s, depth) in at
    decreases k.depth
  {
    if depth < k.depth {
      assert RingOk(at, sz, k);
      ShrStep(s, KeyBits(k.bin) - k.depth);
      Ancestors(at, sz, Parent(k), s, depth);
    }
  }

  lemma ChildParent(k: Key, b: nat)
    requires b < 2
    ensures Parent(Child(k, b)) == k
    ensures k.depth > 0 ==> Child(Parent(k), k.prefix % 2) == k
  {}

  lemma ParentIn(at: Rings, sz: Sizes, k: Key)
    requires RingsOk(at, sz) && k in at && k.depth > 0
    ensures Parent(k) in at
  {
    assert RingOk(at, sz, k);
  }

  lemma HeadFacts(at: Rings, sz: Sizes, k: Key, k': Key)
    requires Shape(at, sz) && k in at && k' in at
    ensures at[k] != [] && HeadOf(at, k) == at[k][0] && HeadOf(at, k) in at[k] && HeadOf(at, k) > 0
    ensures HeadOf(at, k) == HeadOf(at, k') ==> k == k'
  {
    assert RingOk(at, sz, k) && RingOk(at, sz, k');
    if k != k' { assert KeysApart(at, sz, k, k'); }
  }

  lemma NotThere(at: Rings, sz: Sizes, x: int, k: Key)
    requires x !in Members(at) && k in at && RingsOk(at, sz)
    ensures x !in at[k] && HeadOf(at, k) != x
  {
    assert RingOk(at, sz, k);
  }

  // ---------------------------------------------------------------- insertion

  ghost predicate FreshSize(at: Rings, sz: Sizes, i: nat, s: nat) {
    forall k <- at :: k.bin == i ==> SizeAt(at, sz, k) != s
  }

  /** Whether a chunk may be put alone at the vacant position `nk`. */
  ghost predicate MayPlace(at: Rings, sz: Sizes, nk: Key, x: int) {
    && x !in Members(at) && x > 0 && x in sz && nk !in at
    && LargeSize(sz[x]) && TreeIndex(sz[x]) == nk.bin && Covers(nk, sz[x])
    && (nk.depth > 0 ==> Parent(nk) in at)
    && FreshSize(at, sz, nk.bin, sz[x])
  }

  lemma PlaceShape(at: Rings, sz: Sizes, nk: Key, x: int)
    requires Shape(at, sz) && MayPlace(at, sz, nk, x)
    ensures Shape(at[nk := [x]], sz)
    ensures Members(at[nk := [x]]) == Members(at) + {x}
  {
    var at' := at[nk := [x]];
    IndexBound(sz[x]);
    forall k | k in at'
      ensures RingOk(at', sz, k)
    {
      if k != nk { assert RingOk(at, sz, k); }
    }
    forall k, k' | k in at' && k' in at' && k != k'
      ensures KeysApart(at', sz, k, k')
    {
      if k == nk {
        PlaceApart(at, sz, nk, x, k');
      } else if k' == nk {
        PlaceApart(at, sz, nk, x, k);
      } else {
        assert KeysApart(at, sz, k, k');
      }
    }
    MembersPlace(at, nk, [x]);
  }

  lemma PlaceApart(at: Rings, sz: Sizes, nk: Key, x: int, k: Key)
    requires Shape(at, sz) && MayPlace(at, sz, nk, x) && k in at
    ensures KeysApart(at[nk := [x]], sz, nk, k) && KeysApart(at[nk := [x]], sz, k, nk)
  {
    assert RingOk(at, sz, k);
    NotThere(at, sz, x, k);
  }

  lemma MembersPlace(at: Rings, nk: Key, r: seq<int>)
    requires nk !in at
    ensures Members(at[nk := r]) == Members(at) + set a | a in r
  {
    var at' := at[nk := r];
    forall a | a in Members(at)
      ensures a in Members(at')
    {
      var k :| k in at && a in at[k];
      assert k in at' && a in at'[k];
    }
    forall a | a in r
      ensures a in Members(at')
    {
      assert nk in at' && a in at'[nk];
    }
  }

  /** A ring member is a tree node only at its own position, and only in front. */
  lemma MemberFacts(at: Rings, sz: Sizes, k: Key, j: nat, k': Key)
    requires Shape(at, sz) && k in at && k' in at && j < |at[k]|
    ensures at[k][j] == HeadOf(at, k') ==> k == k' && j == 0
  {
    assert RingOk(at, sz, k) && RingOk(at, sz, k');
    HeadFacts(at, sz, k', k');
    if k != k' { assert KeysApart(at, sz, k, k'); }
  }

  /** The links after chunk `x` has been put at the vacant position `nk`. */
  ghost predicate Places(l: Links, l': Links, at: Rings, nk: Key, x: int) {
    var cleared := l.child[(x, 0) := 0][(x, 1) := 0];
    && l'.child == (if nk.depth == 0 then cleared else cleared[(HeadOf(at, Parent(nk)), nk.prefix % 2) := x])
    && l'.parent == l.parent[x := Above(at, nk)]
    && l'.fd == l.fd[x := x] && l'.bk == l.bk[x := x] && l'.index == l.index[x := nk.bin]
    && (if nk.depth == 0
        then nk.bin < |l.bins| && l'.bins == l.bins[nk.bin := x] && l'.marks == l.marks + {nk.bin}
        else l'.bins == l.bins && l'.marks == l.marks)
  }

  lemma PlaceNode(l: Links, l': Links, at: Rings, sz: Sizes, nk: Key, x: int, k: Key)
    requires Shape(at, sz) && MayPlace(at, sz, nk, x) && Linked(l, at) && Places(l, l', at, nk, x)
    requires k in at
    ensures NodeLinked(l', at[nk := [x]], k)
  {
    var at' := at[nk := [x]];
    assert NodeLinked(l, at, k) && RingOk(at, sz, k);
    NotThere(at, sz, x, k);
    HeadFacts(at, sz, k, k);
    ChildParent(k, 0);
    ChildParent(k, 1);
    ChildParent(nk, 0);
    if nk.depth > 0 { HeadFacts(at, sz, k, Parent(nk)); }
  }

  lemma PlaceRing(l: Links, l': Links, at: Rings, sz: Sizes, nk: Key, x: int, k: Key)
    requires Shape(at, sz) && MayPlace(at, sz, nk, x) && Linked(l, at) && Places(l, l', at, nk, x)
    requires k in at
    ensures RingLinked(l', at[k], k.bin)
  {
    var r := at[k];
    assert RingLinked(l, r, k.bin);
    NotThere(at, sz, x, k);
    forall i: nat | i < |r|
      ensures RingLinkedAt(l', r, k.bin, i)
    {
      assert RingLinkedAt(l, r, k.bin, i);
      if nk.depth > 0 { MemberFacts(at, sz, k, i, Parent(nk)); }
    }
  }

  lemma PlaceNewNode(l: Links, l': Links, at: Rings, sz: Sizes, nk: Key, x: int)
    requires Shape(at, sz) && MayPlace(at, sz, nk, x) && Linked(l, at) && Places(l, l', at, nk, x)
    ensures NodeLinked(l', at[nk := [x]], nk) && RingLinked(l', [x], nk.bin)
  {
    ChildParent(nk, 0);
    ChildParent(nk, 1);
    if Child(nk, 0) in at { ParentIn(at, sz, Child(nk, 0)); }
    if Child(nk, 1) in at { ParentIn(at, sz, Child(nk, 1)); }
    if nk.depth > 0 { NotThere(at, sz, x, Parent(nk)); }
  }

  lemma PlaceRoots(l: Links, l': Links, at: Rings, sz: Sizes, nk: Key, x: int)
    requires MayPlace(at, sz, nk, x) && RootsLinked(l, at) && Places(l, l', at, nk, x)
    ensures RootsLinked(l', at[nk := [x]])
  {
    hide Shr, Fls, FreshSize;
    RootCovers(sz[x]);
    forall i | 0 <= i < NTREEBINS && RootKey(i) != nk
      ensures HeadOf(at[nk := [x]], RootKey(i)) == HeadOf(at, RootKey(i))
    {}
  }

  lemma PlaceLinked(l: Links, l': Links, at: Rings, sz: Sizes, nk: Key, x: int)
    requires Shape(at, sz) && MayPlace(at, sz, nk, x) && Linked(l, at) && Places(l, l', at, nk, x)
    ensures Linked(l', at[nk := [x]])
  {
    var at' := at[nk := [x]];
    forall k | k in at'
      ensures NodeLinked(l', at', k) && RingLinked(l', at'[k], k.bin)
    {
      if k == nk {
        PlaceNewNode(l, l', at, sz, nk, x);
      } else {
        PlaceNode(l, l', at, sz, nk, x, k);
        PlaceRing(l, l', at, sz, nk, x, k);
      }
    }
    PlaceRoots(l, l', at, sz, nk, x);
  }

  // ---------------------------------------------------------------- joining a ring

  function Joined(r: seq<int>, x: int): seq<int>
    requires r != []
  {
    [r[0], x] + r[1..]
  }

  ghost predicate MayJoin(at: Rings, sz: Sizes, k: Key, x: int) {
    k in at && x !in Members(at) && x > 0 && x in sz && sz[x] == SizeAt(at, sz, k)
  }

  lemma JoinedElements(r: seq<int>, x: int, a: int)
    requires r != []
    ensures a in Joined(r, x) <==> a in r || a == x
  {
    var r' := Joined(r, x);
    if a in r {
      var i :| 0 <= i < |r| && r[i] == a;
      assert r'[if i == 0 then 0 else i + 1] == a;
    }
    if a == x { assert r'[1] == a; }
  }

  /** Replacing a ring by one with other members of the same size keeps the shape. */
  lemma ReplaceShape(at: Rings, sz: Sizes, k: Key, r: seq<int>)
    requires Shape(at, sz) && k in at && r != [] && NoDuplicates(r)
    requires forall a <- r :: a in sz && a > 0 && sz[a] == SizeAt(at, sz, k)
    requires forall a <- r :: a in at[k] || a !in Members(at)
    ensures Shape(at[k := r], sz)
  {
    var at' := at[k := r];
    forall q | q in at'
      ensures RingOk(at', sz, q)
      ensures SizeAt(at', sz, q) == SizeAt(at, sz, q)
    {
      assert RingOk(at, sz, q);
      assert RingOk(at, sz, k);
    }
    forall q, q' | q in at' && q' in at' && q != q'
      ensures KeysApart(at', sz, q, q')
    {
      assert KeysApart(at, sz, q, q') && KeysApart(at, sz, q', q);
      assert forall a <- at[q] :: a in Members(at);
      assert forall a <- at[q'] :: a in Members(at);
    }
  }

  lemma JoinShape(at: Rings, sz: Sizes, k: Key, x: int)
    requires Shape(at, sz) && MayJoin(at, sz, k, x)
    ensures at[k] != [] && Shape(at[k := Joined(at[k], x)], sz)
  {
    assert RingOk(at, sz, k);
    NotThere(at, sz, x, k);
    var r := Joined(at[k], x);
    forall a | a in r
      ensures a in sz && a > 0 && sz[a] == SizeAt(at, sz, k) && (a in at[k] || a !in Members(at))
    {
      JoinedElements(at[k], x, a);
    }
    ReplaceShape(at, sz, k, r);
  }

  ghost predicate Joins(l: Links, l': Links, at: Rings, k: Key, x: int)
    requires k in at && at[k] != []
  {
    var t := at[k][0];
    && t in l.fd
    && var f := l.fd[t];
    && l'.fd == l.fd[t := x][x := f] && l'.bk == l.bk[f := x][x := t]
    && l'.child == l.child[(x, 0) := 0][(x, 1) := 0]
    && l'.parent == l.parent[x := 0] && l'.index == l.index[x := k.bin]
    && l'.bins == l.bins && l'.marks == l.marks
  }

  /** Nodes keep their links when only other chunks' tree links change. */
  lemma KeepNode(l: Links, l': Links, at: Rings, at': Rings, k: Key)
    requires NodeLinked(l, at, k)
    requires forall q :: HeadOf(at', q) == HeadOf(at, q)
    requires forall b | b == 0 || b == 1 :: (HeadOf(at, k), b) in l'.child && l'.child[(HeadOf(at, k), b)] == l.child[(HeadOf(at, k), b)]
    requires HeadOf(at, k) in l'.parent && l'.parent[HeadOf(at, k)] == l.parent[HeadOf(at, k)]
    ensures NodeLinked(l', at', k)
  {}

  lemma JoinRing(l: Links, l': Links, at: Rings, sz: Sizes, k: Key, x: int)
    requires Shape(at, sz) && MayJoin(at, sz, k, x) && at[k] != [] && RingLinked(l, at[k], k.bin) && Joins(l, l', at, k, x)
    ensures RingLinked(l', Joined(at[k], x), k.bin)
  {
    var r, r' := at[k], Joined(at[k], x);
    assert RingOk(at, sz, k);
    NotThere(at, sz, x, k);
    forall i: nat | i < |r'|
      ensures RingLinkedAt(l', r', k.bin, i)
    {
      JoinRingAt(l, l', at, k, x, i);
    }
  }

  lemma JoinRingAt(l: Links, l': Links, at: Rings, k: Key, x: int, i: nat)
    requires k in at && at[k] != [] && NoDuplicates(at[k]) && x !in at[k] && x > 0 && RingLinked(l, at[k], k.bin)
    requires Joins(l, l', at, k, x) && i < |at[k]| + 1
    ensures RingLinkedAt(l', Joined(at[k], x), k.bin, i)
  {
    assert RingLinkedAt(l, at[k], k.bin, 0);
    if i > 1 { assert RingLinkedAt(l, at[k], k.bin, i - 1); }
  }

  lemma JoinLinked(l: Links, l': Links, at: Rings, sz: Sizes, k: Key, x: int)
    requires Shape(at, sz) && MayJoin(at, sz, k, x) && Linked(l, at) && at[k] != [] && Joins(l, l', at, k, x)
    ensures Linked(l', at[k := Joined(at[k], x)])
  {
    var r := Joined(at[k], x);
    var at' := at[k := r];
    assert forall q :: HeadOf(at', q) == HeadOf(at, q);
    forall q | q in at'
      ensures NodeLinked(l', at', q) && RingLinked(l', at'[q], q.bin)
    {
      assert NodeLinked(l, at, q) && RingLinked(l, at[q], q.bin);
      NotThere(at, sz, x, q);
      KeepNode(l, l', at, at', q);
      if q == k {
        JoinRing(l, l', at, sz, k, x);
      } else {
        KeepRing(l, l', at, sz, k, q, x);
      }
    }
  }

  lemma KeepRing(l: Links, l': Links, at: Rings, sz: Sizes, k: Key, q: Key, x: int)
    requires Shape(at, sz) && MayJoin(at, sz, k, x) && at[k] != [] && Joins(l, l', at, k, x)
    requires RingLinked(l, at[k], k.bin) && q in at && q != k && RingLinked(l, at[q], q.bin)
    ensures RingLinked(l', at[q], q.bin)
  {
    assert KeysApart(at, sz, q, k);
    NotThere(at, sz, x, q);
    assert RingOk(at, sz, k) && RingLinkedAt(l, at[k], k.bin, 0);
    var t, f := at[k][0], l.fd[at[k][0]];
    assert t in at[k] && f in at[k];
    forall i: nat | i < |at[q]|
      ensures RingLinkedAt(l', at[q], q.bin, i)
    {
      assert RingLinkedAt(l, at[q], q.bin, i);
      assert at[q][i] in at[q] && at[q][i] !in at[k];
    }
  }

  // ---------------------------------------------------------------- removing a position without children

  ghost predicate IsLeaf(at: Rings, k: Key) {
    Child(k, 0) !in at && Child(k, 1) !in at
  }

  lemma LeafParents(at: Rings, k: Key, q: Key)
    requires IsLeaf(at, k) && q in at && q.depth > 0
    ensures Parent(q) != k
  {
    ChildParent(q, 0);
    assert Child(Parent(q), q.prefix % 2) == q;
  }

  lemma RemoveShape(at: Rings, sz: Sizes, k: Key)
    requires Shape(at, sz) && k in at && IsLeaf(at, k)
    ensures Shape(at - {k}, sz)
  {
    var at' := at - {k};
    forall q | q in at'
      ensures RingOk(at', sz, q)
    {
      assert RingOk(at, sz, q);
      if q.depth > 0 { LeafParents(at, k, q); }
    }
    forall q, q' | q in at' && q' in at' && q != q'
      ensures KeysApart(at', sz, q, q')
    {
      assert KeysApart(at, sz, q, q');
    }
  }

  /** The links after the leaf position `k` has been cut off. */
  ghost predicate Cuts(l: Links, l': Links, at: Rings, k: Key) {
    && l'.parent == l.parent && l'.fd == l.fd && l'.bk == l.bk && l'.index == l.index
    && if k.depth == 0
       then k.bin < |l.bins| && l'.child == l.child && l'.bins == l.bins[k.bin := 0] && l'.marks == l.marks - {k.bin}
       else l'.child == l.child[(HeadOf(at, Parent(k)), k.prefix % 2) := 0] && l'.bins == l.bins && l'.marks == l.marks
  }

  lemma CutNode(l: Links, l': Links, at: Rings, sz: Sizes, k: Key, q: Key)
    requires Shape(at, sz) && k in at && IsLeaf(at, k) && Linked(l, at) && Cuts(l, l', at, k)
    requires q in at && q != k
    ensures NodeLinked(l', at - {k}, q)
  {
    assert NodeLinked(l, at, q) && RingOk(at, sz, q) && RingOk(at, sz, k);
    ChildParent(q, 0);
    ChildParent(q, 1);
    ChildParent(k, 0);
    if k.depth > 0 { HeadFacts(at, sz, q, Parent(k)); }
    if q.depth > 0 { LeafParents(at, k, q); }
  }

  lemma CutRing(l: Links, l': Links, at: Rings, sz: Sizes, k: Key, q: Key)
    requires Shape(at, sz) && k in at && Linked(l, at) && Cuts(l, l', at, k) && q in at
    ensures RingLinked(l', at[q], q.bin)
  {
    assert RingLinked(l, at[q], q.bin) && RingOk(at, sz, k);
    forall i: nat | i < |at[q]|
      ensures RingLinkedAt(l', at[q], q.bin, i)
    {
      assert RingLinkedAt(l, at[q], q.bin, i);
      if k.depth > 0 { MemberFacts(at, sz, q, i, Parent(k)); }
    }
  }

  lemma CutRoots(l: Links, l': Links, at: Rings, k: Key)
    requires RootsLinked(l, at) && Cuts(l, l', at, k) && k in at && (k.depth == 0 ==> k == RootKey(k.bin))
    ensures RootsLinked(l', at - {k})
  {
    forall i | 0 <= i < NTREEBINS && RootKey(i) != k
      ensures HeadOf(at - {k}, RootKey(i)) == HeadOf(at, RootKey(i))
    {}
  }

  lemma RootPosition(at: Rings, sz: Sizes, k: Key)
    requires RingsOk(at, sz) && k in at && k.depth == 0
    ensures k == RootKey(k.bin)
  {
    assert RingOk(at, sz, k);
    RootCovers(SizeAt(at, sz, k));
  }

  lemma CutLinked(l: Links, l': Links, at: Rings, sz: Sizes, k: Key)
    requires Shape(at, sz) && k in at && IsLeaf(at, k) && Linked(l, at) && Cuts(l, l', at, k)
    ensures Linked(l', at - {k})
    ensures RingLinked(l', at[k], k.bin)
  {
    var at' := at - {k};
    forall q | q in at'
      ensures NodeLinked(l', at', q) && RingLinked(l', at'[q], q.bin)
    {
      CutNode(l, l', at, sz, k, q);
      CutRing(l, l', at, sz, k, q);
    }
    CutRing(l, l', at, sz, k, k);
    if k.depth == 0 { RootPosition(at, sz, k); }
    CutRoots(l, l', at, k);
  }

  // ---------------------------------------------------------------- hanging a loose ring in a node's place

  /** The tree links after the ring `r` took the place of the node at `k`. */
  ghost predicate Rehangs(l: Links, l': Links, at: Rings, k: Key, r: seq<int>)
    requires r != []
  {
    var x, n, c0, c1 := HeadOf(at, k), r[0], HeadOf(at, Child(k, 0)), HeadOf(at, Child(k, 1));
    var up := if k.depth == 0 then l.child else l.child[(HeadOf(at, Parent(k)), k.prefix % 2) := n];
    var left := if c0 == 0 then up else up[(n, 0) := c0];
    var p0 := l.parent[n := Above(at, k)];
    var p1 := if c0 == 0 then p0 else p0[c0 := n];
    && l'.child == (if c1 == 0 then left else left[(n, 1) := c1])
    && l'.parent == (if c1 == 0 then p1 else p1[c1 := n])
    && (if k.depth == 0 then k.bin < |l.bins| && l'.bins == l.bins[k.bin := n] else l'.bins == l.bins)
    && l'.fd == l.fd && l'.bk == l.bk && l'.index == l.index && l'.marks == l.marks
  }

  /** A ring outside the trie, whose first chunk has no children. */
  ghost predicate Loose(l: Links, at: Rings, r: seq<int>, bin: nat) {
    && r != [] && NoDuplicates(r) && RingLinked(l, r, bin) && r[0] > 0
    && (r[0], 0) in l.child && l.child[(r[0], 0)] == 0 && (r[0], 1) in l.child && l.child[(r[0], 1)] == 0
  }

  /** Positions of which `r`'s chunks are no members. */
  ghost predicate Outside(at: Rings, k: Key, r: seq<int>) {
    forall q <- at :: q != k ==> forall a <- at[q] :: a !in r
  }

  lemma OutsideHead(at: Rings, sz: Sizes, k: Key, r: seq<int>, q: Key)
    requires Shape(at, sz) && Outside(at, k, r) && q in at && q != k
    ensures forall a <- r :: HeadOf(at, q) != a
  {
    HeadFacts(at, sz, q, q);
  }

  lemma RehangChild(l: Links, l': Links, at: Rings, sz: Sizes, k: Key, r: seq<int>, q: Key, b: nat)
    requires Shape(at, sz) && k in at && LinkedBut(l, at, k) && r != [] && Rehangs(l, l', at, k, r)
    requires Outside(at, k, r) && q in at && q != k && b < 2
    ensures var x := HeadOf(at, q); (x, b) in l'.child && l'.child[(x, b)] == HeadOf(at[k := r], Child(q, b))
  {
    assert NodeLinked(l, at, q) && RingOk(at, sz, k);
    OutsideHead(at, sz, k, r, q);
    assert r[0] in r;
    ChildParent(q, b);
    if k.depth > 0 {
      ChildParent(k, 0);
      HeadFacts(at, sz, q, Parent(k));
    }
  }

  lemma RehangUp(l: Links, l': Links, at: Rings, sz: Sizes, k: Key, r: seq<int>, q: Key)
    requires Shape(at, sz) && k in at && LinkedBut(l, at, k) && r != [] && Rehangs(l, l', at, k, r)
    requires Outside(at, k, r) && q in at && q != k
    ensures var x := HeadOf(at, q); x in l'.parent && l'.parent[x] == Above(at[k := r], q)
  {
    assert NodeLinked(l, at, q);
    OutsideHead(at, sz, k, r, q);
    assert r[0] in r;
    HeadFacts(at, sz, q, q);
    ChildParent(k, 0);
    ChildParent(k, 1);
    if q.depth > 0 { ChildParent(q, 0); }
    if Child(k, 0) in at { HeadFacts(at, sz, q, Child(k, 0)); }
    if Child(k, 1) in at { HeadFacts(at, sz, q, Child(k, 1)); }
  }

  lemma RehangNode(l: Links, l': Links, at: Rings, sz: Sizes, k: Key, r: seq<int>, q: Key)
    requires Shape(at, sz) && k in at && LinkedBut(l, at, k) && r != [] && Rehangs(l, l', at, k, r)
    requires Loose(l, at, r, k.bin) && Outside(at, k, r)
    requires q in at && q != k
    ensures NodeLinked(l', at[k := r], q)
  {
    RehangChild(l, l', at, sz, k, r, q, 0);
    RehangChild(l, l', at, sz, k, r, q, 1);
    RehangUp(l, l', at, sz, k, r, q);
  }

  lemma RehangSelf(l: Links, l': Links, at: Rings, sz: Sizes, k: Key, r: seq<int>)
    requires Shape(at, sz) && k in at && LinkedBut(l, at, k) && r != [] && Rehangs(l, l', at, k, r)
    requires Loose(l, at, r, k.bin) && Outside(at, k, r)
    ensures NodeLinked(l', at[k := r], k)
  {
    assert RingOk(at, sz, k) && r[0] in r;
    ChildParent(k, 0);
    ChildParent(k, 1);
    if k.depth > 0 { OutsideHead(at, sz, k, r, Parent(k)); }
    if Child(k, 0) in at { OutsideHead(at, sz, k, r, Child(k, 0)); HeadFacts(at, sz, k, Child(k, 0)); }
    if Child(k, 1) in at { OutsideHead(at, sz, k, r, Child(k, 1)); HeadFacts(at, sz, k, Child(k, 1)); }
    if Child(k, 0) in at && Child(k, 1) in at { HeadFacts(at, sz, Child(k, 0), Child(k, 1)); }
  }

  /** The tree links written by a rehanging: none of a ring member that is not a tree node. */
  lemma RehangDetached(l: Links, l': Links, at: Rings, k: Key, r: seq<int>, a: int)
    requires r != [] && Rehangs(l, l', at, k, r) && Detached(l, a)
    requires a != r[0] && (k.depth > 0 ==> a != HeadOf(at, Parent(k)))
    requires a != HeadOf(at, Child(k, 0)) && a != HeadOf(at, Child(k, 1))
    ensures Detached(l', a)
  {}

  lemma RehangRing(l: Links, l': Links, at: Rings, sz: Sizes, k: Key, r: seq<int>, q: Key)
    requires Shape(at, sz) && k in at && LinkedBut(l, at, k) && r != [] && Rehangs(l, l', at, k, r)
    requires Outside(at, k, r) && q in at && q != k
    ensures RingLinked(l', at[q], q.bin)
  {
    assert RingLinked(l, at[q], q.bin) && RingOk(at, sz, k) && RingOk(at, sz, q);
    forall i: nat | i < |at[q]|
      ensures RingLinkedAt(l', at[q], q.bin, i)
    {
      assert RingLinkedAt(l, at[q], q.bin, i) && at[q][i] in at[q];
      if i > 0 {
        if k.depth > 0 { MemberFacts(at, sz, q, i, Parent(k)); }
        if Child(k, 0) in at { MemberFacts(at, sz, q, i, Child(k, 0)); }
        if Child(k, 1) in at { MemberFacts(at, sz, q, i, Child(k, 1)); }
        RehangDetached(l, l', at, k, r, at[q][i]);
      }
    }
  }

  lemma RehangLoose(l: Links, l': Links, at: Rings, sz: Sizes, k: Key, r: seq<int>)
    requires Shape(at, sz) && k in at && r != [] && Rehangs(l, l', at, k, r)
    requires Loose(l, at, r, k.bin) && Outside(at, k, r)
    ensures RingLinked(l', r, k.bin)
  {
    assert RingOk(at, sz, k);
    forall i: nat | i < |r|
      ensures RingLinkedAt(l', r, k.bin, i)
    {
      assert RingLinkedAt(l, r, k.bin, i);
      if i > 0 {
        assert r[i] in r && r[i] != r[0];
        if k.depth > 0 { OutsideHead(at, sz, k, r, Parent(k)); }
        if Child(k, 0) in at { OutsideHead(at, sz, k, r, Child(k, 0)); }
        if Child(k, 1) in at { OutsideHead(at, sz, k, r, Child(k, 1)); }
        RehangDetachedLoose(l, l', at, k, r, r[i]);
      }
    }
  }

  lemma RehangDetachedLoose(l: Links, l': Links, at: Rings, k: Key, r: seq<int>, a: int)
    requires r != [] && Rehangs(l, l', at, k, r) && Detached(l, a) && a != r[0]
    requires k.depth > 0 && Parent(k) in at ==> a != HeadOf(at, Parent(k))
    requires k.depth > 0 ==> Parent(k) in at
    requires Child(k, 0) in at ==> a != HeadOf(at, Child(k, 0))
    requires Child(k, 1) in at ==> a != HeadOf(at, Child(k, 1))
    ensures Detached(l', a)
  {}

  lemma RehangRoots(l: Links, l': Links, at: Rings, k: Key, r: seq<int>)
    requires RootsLinked(l, at) && r != [] && Rehangs(l, l', at, k, r) && k in at
    requires k.depth == 0 ==> k == RootKey(k.bin)
    ensures RootsLinked(l', at[k := r])
  {
    forall i | 0 <= i < NTREEBINS && RootKey(i) != k
      ensures HeadOf(at[k := r], RootKey(i)) == HeadOf(at, RootKey(i))
    {}
  }

  lemma RehangLinked(l: Links, l': Links, at: Rings, sz: Sizes, k: Key, r: seq<int>)
    requires Shape(at, sz) && k in at && LinkedBut(l, at, k) && r != [] && Rehangs(l, l', at, k, r)
    requires Loose(l, at, r, k.bin) && Outside(at, k, r)
    ensures Linked(l', at[k := r])
  {
    var at' := at[k := r];
    forall q | q in at'
      ensures NodeLinked(l', at', q) && RingLinked(l', at'[q], q.bin)
    {
      if q == k {
        RehangSelf(l, l', at, sz, k, r);
        RehangLoose(l, l', at, sz, k, r);
      } else {
        RehangNode(l, l', at, sz, k, r, q);
        RehangRing(l, l', at, sz, k, r, q);
      }
    }
    if k.depth == 0 { RootPosition(at, sz, k); }
    RehangRoots(l, l', at, k, r);
  }

  /** The chunk at the leaf position `kr` moves up to `kx`, whose own chunk is gone. */
  lemma RehangShape(at: Rings, sz: Sizes, kx: Key, kr: Key)
    requires Shape(at, sz) && kx in at && kr in at && kr != kx && IsLeaf(at, kr)
    requires kr.bin == kx.bin && Covers(kx, SizeAt(at, sz, kr))
    ensures Shape((at - {kr})[kx := at[kr]], sz)
  {
    var at' := (at - {kr})[kx := at[kr]];
    forall q | q in at'
      ensures RingOk(at', sz, q)
    {
      assert RingOk(at, sz, q) && RingOk(at, sz, kr);
      if q.depth > 0 { LeafParents(at, kr, q); }
    }
    forall q, q' | q in at' && q' in at' && q != q'
      ensures KeysApart(at', sz, q, q')
    {
      var p, p' := if q == kx then kr else q, if q' == kx then kr else q';
      assert KeysApart(at, sz, p, p');
    }
  }

  // ---------------------------------------------------------------- leaving a ring

  /** The ring without its j-th member; the last member replaces the first. */
  function Left(r: seq<int>, j: nat): seq<int>
    requires |r| > 1 && j < |r|
  {
    if j == 0 then [r[|r| - 1]] + r[1..|r| - 1] else r[..j] + r[j + 1..]
  }

  lemma LeftElements(r: seq<int>, j: nat, a: int)
    requires |r| > 1 && j < |r| && NoDuplicates(r)
    ensures a in Left(r, j) <==> a in r && a != r[j]
    ensures NoDuplicates(Left(r, j))
  {
    hide Left;
    LeftAt(r, j, 0);
    forall i: nat | i < |r| - 1
      ensures Left(r, j)[i] == r[LeftFrom(|r|, j, i)]
    {
      LeftAt(r, j, i);
    }
    if a in r && a != r[j] {
      var i :| 0 <= i < |r| && r[i] == a;
      var i' := if j == 0 then (if i == |r| - 1 then 0 else i) else if i < j then i else i - 1;
      assert Left(r, j)[i'] == a;
    }
  }

  /** Where member number `i` of what is left was in a ring of `n`. */
  function LeftFrom(n: nat, j: nat, i: nat): (k: nat)
    requires j < n && i < n - 1
    ensures k < n && k != j
  {
    if j == 0 then (if i == 0 then n - 1 else i) else if i < j then i else i + 1
  }

  ghost predicate Leaves(l: Links, l': Links, x: int) {
    && x in l.fd && x in l.bk
    && l'.bk == l.bk[l.fd[x] := l.bk[x]] && l'.fd == l.fd[l.bk[x] := l.fd[x]]
    && l'.child == l.child && l'.parent == l.parent && l'.index == l.index && l'.bins == l.bins && l'.marks == l.marks
  }

  lemma LeaveRing(l: Links, l': Links, r: seq<int>, bin: nat, j: nat)
    requires |r| > 1 && j < |r| && NoDuplicates(r) && RingLinked(l, r, bin) && Leaves(l, l', r[j])
    ensures RingLinked(l', Left(r, j), bin)
    ensures j == 0 ==> Detached(l', Left(r, j)[0])
  {
    var r', n := Left(r, j), |r|;
    assert RingLinkedAt(l, r, bin, j);
    assert RingLinkedAt(l, r, bin, if j == 0 then n - 1 else j - 1);
    forall i: nat | i < |r'|
      ensures RingLinkedAt(l', r', bin, i)
    {
      if j == 0 { LeaveFirst(l, l', r, bin, i); } else { LeaveLater(l, l', r, bin, j, i); }
    }
  }

  /** The first member leaves, and the last one takes its place. */
  lemma LeaveFirst(l: Links, l': Links, r: seq<int>, bin: nat, i: nat)
    requires |r| > 1 && NoDuplicates(r) && RingLinked(l, r, bin) && Leaves(l, l', r[0]) && i < |r| - 1
    ensures RingLinkedAt(l', Left(r, 0), bin, i)
  {
    var n := |r|;
    assert RingLinkedAt(l, r, bin, 0) && RingLinkedAt(l, r, bin, n - 1);
    assert RingLinkedAt(l, r, bin, if i == 0 then n - 1 else i);
  }

  lemma LeaveLater(l: Links, l': Links, r: seq<int>, bin: nat, j: nat, i: nat)
    requires |r| > 1 && 0 < j < |r| && NoDuplicates(r) && RingLinked(l, r, bin) && Leaves(l, l', r[j]) && i < |r| - 1
    ensures RingLinkedAt(l', Left(r, j), bin, i)
  {
    hide Left;
    LeftAt(r, j, i);
    LeftAt(r, j, if i + 2 == |r| then 0 else i + 1);
    LeftAt(r, j, if i == 0 then |r| - 2 else i - 1);
    assert RingLinkedAt(l, r, bin, j) && RingLinkedAt(l, r, bin, j - 1);
    assert RingLinkedAt(l, r, bin, if i < j then i else i + 1);
  }

  lemma LeftAt(r: seq<int>, j: nat, i: nat)
    requires |r| > 1 && j < |r| && i < |r| - 1
    ensures |Left(r, j)| == |r| - 1 && Left(r, j)[i] == r[LeftFrom(|r|, j, i)]
  {}

  lemma LeaveOther(l: Links, l': Links, at: Rings, sz: Sizes, k: Key, j: nat, q: Key)
    requires Shape(at, sz) && k in at && j < |at[k]| && RingLinked(l, at[k], k.bin) && Leaves(l, l', at[k][j])
    requires q in at && q != k && RingLinked(l, at[q], q.bin)
    ensures RingLinked(l', at[q], q.bin)
  {
    assert KeysApart(at, sz, q, k) && RingLinkedAt(l, at[k], k.bin, j);
    forall i: nat | i < |at[q]|
      ensures RingLinkedAt(l', at[q], q.bin, i)
    {
      assert RingLinkedAt(l, at[q], q.bin, i);
      assert at[q][i] in at[q] && at[q][i] !in at[k];
    }
  }

  lemma LeaveLinkedBut(l: Links, l': Links, at: Rings, sz: Sizes, k: Key, j: nat)
    requires Shape(at, sz) && k in at && j < |at[k]| && Linked(l, at) && Leaves(l, l', at[k][j])
    ensures LinkedBut(l', at, k)
  {
    assert RingLinked(l, at[k], k.bin);
    forall q | q in at
      ensures NodeLinked(l', at, q) && (q != k ==> RingLinked(l', at[q], q.bin))
    {
      assert NodeLinked(l, at, q) && RingLinked(l, at[q], q.bin);
      if q != k { LeaveOther(l, l', at, sz, k, j, q); }
    }
  }

  /** A ring member that is not the tree node leaves. */
  lemma LeaveLinked(l: Links, l': Links, at: Rings, sz: Sizes, k: Key, j: nat)
    requires Shape(at, sz) && k in at && 0 < j < |at[k]| && Linked(l, at) && Leaves(l, l', at[k][j])
    ensures Linked(l', at[k := Left(at[k], j)])
  {
    var at' := at[k := Left(at[k], j)];
    LeaveLinkedBut(l, l', at, sz, k, j);
    assert RingOk(at, sz, k) && RingLinked(l, at[k], k.bin);
    LeaveRing(l, l', at[k], k.bin, j);
    forall q | q in at'
      ensures NodeLinked(l', at', q) && RingLinked(l', at'[q], q.bin)
    {
      assert NodeLinked(l', at, q);
      assert q != k ==> RingLinked(l', at[q], q.bin);
      KeepNode(l', l', at, at', q);
    }
  }

  lemma LeaveShape(at: Rings, sz: Sizes, k: Key, j: nat)
    requires Shape(at, sz) && k in at && j < |at[k]| && |at[k]| > 1
    ensures Shape(at[k := Left(at[k], j)], sz)
  {
    assert RingOk(at, sz, k);
    var r := Left(at[k], j);
    LeftElements(at[k], j, 0);
    forall a | a in r
      ensures a in sz && a > 0 && sz[a] == SizeAt(at, sz, k) && a in at[k]
    {
      LeftElements(at[k], j, a);
    }
    ReplaceShape(at, sz, k, r);
  }

  // ---------------------------------------------------------------- walking down

  lemma NodeFacts(l: Links, at: Rings, sz: Sizes, k: Key)
    requires Shape(at, sz) && Linked(l, at) && k in at
    ensures RingOk(at, sz, k) && NodeLinked(l, at, k) && RingLinked(l, at[k], k.bin)
    ensures at[k] != [] && RingLinkedAt(l, at[k], k.bin, 0) && HeadOf(at, k) == at[k][0] && HeadOf(at, k) > 0
  {
    assert RingOk(at, sz, k) && NodeLinked(l, at, k) && RingLinked(l, at[k], k.bin);
    HeadFacts(at, sz, k, k);
  }

  /** A walk towards size `s`: at a tree node above its place, with the next bit of `s` at
      the top of the register. */
  ghost predicate Walking(at: Rings, s: nat, t: int, k: Key, reg: nat) {
    && k in at && k.bin == TreeIndex(s) < NTREEBINS && t == HeadOf(at, k) && Covers(k, s)
    && reg == Register(s, 64 - KeyBits(k.bin) + k.depth)
  }

  /** No tree node passed so far holds size `s`. */
  ghost predicate Passed(at: Rings, sz: Sizes, s: nat, k: Key) {
    forall q <- at :: q.bin == k.bin && q.depth < k.depth ==> SizeAt(at, sz, q) != s
  }

  /** The bit the register shows, and where it leads. */
  lemma WalkBit(at: Rings, sz: Sizes, s: nat, t: int, k: Key, reg: nat)
    requires Shape(at, sz) && s < SIZE_T_LIMIT && Walking(at, s, t, k, reg) && SizeAt(at, sz, k) != s
    ensures k.depth < KeyBits(k.bin)
    ensures reg / SIGN_BIT == Shr(s, KeyBits(k.bin) - k.depth - 1) % 2
    ensures Covers(Child(k, reg / SIGN_BIT), s)
    ensures (2 * reg) % SIZE_T_LIMIT == Register(s, 64 - KeyBits(k.bin) + k.depth + 1)
  {
    assert RingOk(at, sz, k);
    if k.depth < KeyBits(k.bin) {
      SignBit(s, 64 - KeyBits(k.bin) + k.depth);
      CoversStep(k, s);
    }
  }

  /** A size found nowhere on the way down is not in the bin at all. */
  lemma WalkEnd(at: Rings, sz: Sizes, s: nat, k: Key, b: nat)
    requires Shape(at, sz) && k in at && Covers(k, s) && SizeAt(at, sz, k) != s
    requires k.depth < KeyBits(k.bin) && Covers(Child(k, b), s) && Child(k, b) !in at
    requires Passed(at, sz, s, k)
    ensures FreshSize(at, sz, k.bin, s)
  {
    hide TreeIndex;
    forall q | q in at && q.bin == k.bin
      ensures SizeAt(at, sz, q) != s
    {
      assert RingOk(at, sz, q);
      if SizeAt(at, sz, q) == s && q.depth > k.depth {
        Ancestors(at, sz, q, s, k.depth + 1);
      }
    }
  }

  lemma WalkOn(at: Rings, sz: Sizes, s: nat, k: Key, b: nat)
    requires Shape(at, sz) && k in at && Covers(k, s) && SizeAt(at, sz, k) != s && Passed(at, sz, s, k)
    ensures Passed(at, sz, s, Child(k, b))
  {
    forall q | q in at && q.bin == k.bin && q.depth < k.depth + 1
      ensures SizeAt(at, sz, q) != s
    {
      assert RingOk(at, sz, q);
    }
  }

  lemma MembersReplace(at: Rings, k: Key, r: seq<int>, removed: set<int>, added: set<int>)
    requires k in at
    requires forall a :: a in r <==> (a in at[k] && a !in removed) || a in added
    requires forall q <- at :: q != k ==> forall a <- at[q] :: a !in removed
    ensures Members(at[k := r]) == Members(at) - removed + added
  {
    var at' := at[k := r];
    forall a | a in Members(at) - removed
      ensures a in Members(at')
    {
      var q :| q in at && a in at[q];
      assert q in at' && a in at'[q];
    }
    forall a | a in added
      ensures a in Members(at')
    {
      assert k in at' && a in at'[k];
    }
    forall a | a in Members(at')
      ensures a in Members(at) - removed + added
    {
      var q :| q in at' && a in at'[q];
      if q != k { assert q in at && a in at[q]; }
    }
  }

  /** One round of insert_large_chunk's walk: go on, or find the vacant place, or find a
      chunk of the same size. */
  lemma InsertStep(l: Links, at: Rings, sz: Sizes, x: int, s: nat, t: int, k: Key, reg: nat)
    requires Shape(at, sz) && Linked(l, at) && Walking(at, s, t, k, reg) && Passed(at, sz, s, k)
    requires x > 0 && x !in Members(at) && x in sz && sz[x] == s && LargeSize(s)
    ensures t in sz && sz[t] == SizeAt(at, sz, k)
    ensures sz[t] == s ==> MayJoin(at, sz, k, x)
    ensures sz[t] != s ==> k.depth < KeyBits(k.bin)
    ensures sz[t] != s ==> var b := reg / SIGN_BIT;
      (t, b) in l.child && if l.child[(t, b)] != 0
        then Walking(at, s, l.child[(t, b)], Child(k, b), (2 * reg) % SIZE_T_LIMIT) && Passed(at, sz, s, Child(k, b))
        else MayPlace(at, sz, Child(k, b), x) && Parent(Child(k, b)) == k && b == Child(k, b).prefix % 2
  {
    NodeFacts(l, at, sz, k);
    if sz[t] != s {
      var b := reg / SIGN_BIT;
      WalkBit(at, sz, s, t, k, reg);
      ChildParent(k, b);
      if Child(k, b) in at {
        HeadFacts(at, sz, Child(k, b), Child(k, b));
        WalkOn(at, sz, s, k, b);
      } else {
        WalkEnd(at, sz, s, k, b);
      }
    }
  }

  // ---------------------------------------------------------------- looking for a replacement leaf

  /** Position `k` is `top` or below it. */
  ghost predicate Below(k: Key, top: Key)
    decreases k.depth
  {
    k == top || (k.depth > top.depth && Below(Parent(k), top))
  }

  lemma {:induction false} BelowCovers(k: Key, top: Key, s: nat)
    requires Below(k, top) && Covers(k, s)
    ensures Covers(top, s) && k.bin == top.bin
    decreases k.depth
  {
    if k != top {
      ShrStep(s, KeyBits(k.bin) - k.depth);
      BelowCovers(Parent(k), top, s);
    }
  }

  lemma BelowChild(k: Key, top: Key, b: nat)
    requires Below(k, top) && b < 2 && k.depth >= top.depth
    ensures Below(Child(k, b), top)
  {
    ChildParent(k, b);
  }

  lemma {:induction false} BelowDepth(k: Key, top: Key)
    requires Below(k, top)
    ensures k.depth >= top.depth
  {}

  /** What the parent of a node holds in its two child slots. */
  lemma ParentSlots(l: Links, at: Rings, sz: Sizes, k: Key)
    requires Shape(at, sz) && LinkedBut(l, at, k) && k in at && k.depth > 0
    ensures Parent(k) in at && HeadOf(at, Parent(k)) > 0
    ensures var p, x := HeadOf(at, Parent(k)), HeadOf(at, k);
      (p, 0) in l.child && (p, 1) in l.child && (l.child[(p, 0)] == x <==> k.prefix % 2 == 0)
      && l.child[(p, k.prefix % 2)] == x && x != p
  {
    var p := Parent(k);
    ParentIn(at, sz, k);
    assert NodeLinked(l, at, p);
    ChildParent(k, 0);
    HeadFacts(at, sz, p, k);
    if Child(p, 0) in at { HeadFacts(at, sz, Child(p, 0), k); }
    HeadFacts(at, sz, k, k);
  }

  lemma RootOrNot(l: Links, at: Rings, sz: Sizes, k: Key)
    requires Shape(at, sz) && RootsLinked(l, at) && k in at
    ensures k.bin < NTREEBINS && (l.bins[k.bin] == HeadOf(at, k) <==> k.depth == 0)
  {
    assert RingOk(at, sz, k);
    var root := RootKey(k.bin);
    HeadFacts(at, sz, k, k);
    if root in at { HeadFacts(at, sz, k, root); }
    if k.depth == 0 { RootPosition(at, sz, k); }
  }

  lemma MembersWithout(at: Rings, sz: Sizes, k: Key, kr: Key, x: int)
    requires Shape(at, sz) && k in at && at[k] == [x]
    ensures Members(at - {k}) == Members(at) - {x}
    ensures kr in at && kr != k ==> Members((at - {kr})[k := at[kr]]) == Members(at) - {x}
  {
    forall a | a in Members(at) && a != x
      ensures a in Members(at - {k})
      ensures kr in at && kr != k ==> a in Members((at - {kr})[k := at[kr]])
    {
      var q :| q in at && a in at[q];
      assert q != k && q in at - {k} && (at - {k})[q] == at[q];
      if kr in at && kr != k {
        var at' := (at - {kr})[k := at[kr]];
        assert (if q == kr then k else q) in at' && a in at'[if q == kr then k else q];
      }
    }
    assert x in at[k];
    forall q | q in at && q != k
      ensures x !in at[q]
    {
      assert KeysApart(at, sz, k, q);
    }
  }

  /** The children of a stored position, through the links. */
  lemma ChildFacts(l: Links, at: Rings, sz: Sizes, k: Key)
    requires Shape(at, sz) && Linked(l, at) && k in at
    ensures var x := HeadOf(at, k);
      (x, 0) in l.child && (x, 1) in l.child && x > 0 && k.depth <= 64
      && l.child[(x, 0)] == HeadOf(at, Child(k, 0)) && l.child[(x, 1)] == HeadOf(at, Child(k, 1))
      && (l.child[(x, 0)] != 0 <==> Child(k, 0) in at) && (l.child[(x, 1)] != 0 <==> Child(k, 1) in at)
    ensures Parent(Child(k, 0)) == k && Parent(Child(k, 1)) == k
    ensures Child(k, 0).prefix % 2 == 0 && Child(k, 1).prefix % 2 == 1
    ensures Child(k, 0) in at ==> k.depth < 64
    ensures Child(k, 1) in at ==> k.depth < 64
  {
    NodeFacts(l, at, sz, k);
    if Child(k, 0) in at { NodeFacts(l, at, sz, Child(k, 0)); }
    if Child(k, 1) in at { NodeFacts(l, at, sz, Child(k, 1)); }
  }

  /** What the replacement block reads. */
  lemma ReplaceFacts(l: Links, at: Rings, sz: Sizes, k: Key, n: seq<int>, r: int)
    requires Shape(at, sz) && LinkedBut(l, at, k) && k in at
    requires r != 0 ==> n != [] && n[0] == r && Outside(at, k, n) && r > 0 && r != HeadOf(at, k)
    ensures var x := HeadOf(at, k);
      (x, 0) in l.child && (x, 1) in l.child
      && l.child[(x, 0)] == HeadOf(at, Child(k, 0)) && l.child[(x, 1)] == HeadOf(at, Child(k, 1))
    ensures Above(at, k) != 0 && (k.depth == 0 ==> Above(at, k) < 0)
    ensures r != 0 && k.depth > 0 ==> HeadOf(at, Parent(k)) != r
  {
    assert NodeLinked(l, at, k) && RingOk(at, sz, k);
    if k.depth > 0 {
      HeadFacts(at, sz, Parent(k), Parent(k));
      if r != 0 {
        assert r in n;
        OutsideHead(at, sz, k, n, Parent(k));
      }
    }
  }

  lemma LeaveMembers(at: Rings, sz: Sizes, k: Key, j: nat)
    requires Shape(at, sz) && k in at && j < |at[k]| && |at[k]| > 1
    ensures Members(at[k := Left(at[k], j)]) == Members(at) - {at[k][j]}
    ensures Outside(at, k, Left(at[k], j))
  {
    assert RingOk(at, sz, k);
    forall a
      ensures a in Left(at[k], j) <==> a in at[k] && a != at[k][j]
    {
      LeftElements(at[k], j, a);
    }
    forall q | q in at && q != k
      ensures forall a <- at[q] :: a !in at[k]
    {
      assert KeysApart(at, sz, q, k);
    }
    MembersReplace(at, k, Left(at[k], j), {at[k][j]}, {});
  }

  /** After the tree node has left its ring, the rest of the ring can replace it. */
  lemma LooseAfterLeaving(l1: Links, at: Rings, sz: Sizes, k: Key)
    requires Shape(at, sz) && k in at && |at[k]| > 1
    requires RingLinked(l1, Left(at[k], 0), k.bin) && Detached(l1, Left(at[k], 0)[0])
    ensures Loose(l1, at, Left(at[k], 0), k.bin)
    ensures Left(at[k], 0)[0] != HeadOf(at, k)
  {
    assert RingOk(at, sz, k);
    LeftElements(at[k], 0, Left(at[k], 0)[0]);
    assert Left(at[k], 0)[0] in Left(at[k], 0);
  }

  /** The leaf that was cut off can replace the node above it. */
  lemma LeafLoose(l: Links, l1: Links, at: Rings, sz: Sizes, k: Key, kr: Key)
    requires Shape(at, sz) && k in at && kr in at && kr != k && IsLeaf(at, kr) && Below(kr, k)
    requires Linked(l, at) && Cuts(l, l1, at, kr) && RingLinked(l1, at[kr], kr.bin) && Linked(l1, at - {kr})
    ensures kr.bin == k.bin && Covers(k, SizeAt(at, sz, kr))
    ensures Loose(l1, at - {kr}, at[kr], k.bin) && Outside(at - {kr}, k, at[kr]) && k in at - {kr}
    ensures HeadOf(at, kr) == at[kr][0] && HeadOf(at, kr) != HeadOf(at, k) && HeadOf(at - {kr}, k) == HeadOf(at, k)
    ensures Above(at - {kr}, k) == Above(at, k) && LinkedBut(l1, at - {kr}, k)
  {
    NodeFacts(l, at, sz, kr);
    HeadFacts(at, sz, kr, k);
    assert RingOk(at, sz, kr);
    BelowCovers(kr, k, SizeAt(at, sz, kr));
    BelowDepth(kr, k);
    ChildParent(kr, 0);
    ParentIn(at, sz, kr);
    HeadFacts(at, sz, kr, Parent(kr));
    forall q | q in at - {kr} && q != k
      ensures forall a <- (at - {kr})[q] :: a !in at[kr]
    {
      assert KeysApart(at, sz, q, kr);
    }
    if k.depth > 0 { LeafParents(at, kr, k); }
  }
}
