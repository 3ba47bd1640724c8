/** insert_large_chunk, unlink_large_chunk and the best-fit searches of lj_alloc.c, on the
    link fields of the tree chunks. Chunk sizes are read from the heads, which this
    class does not own: they are passed in as `sz`. */
module AllocTreeBins {
  import opened AllocIndex
  import opened AllocTrie
  import BitWords
  import BinMaps

  class TreeBins {
    var child: map<(int, nat), int>
    var parent: map<int, int>
    var fd: map<int, int>
    var bk: map<int, int>
    var index: map<int, nat>
    var treebins: seq<int>
    var treemap: bv32
    ghost var at: Rings

    /** The bins that treemap marks. */
    ghost function Marks(): set<nat>
      reads `treemap
    {
      BinMaps.Bins(treemap)
    }

    ghost function L(): Links
      reads this
    {
      Links(child, parent, fd, bk, index, treebins, Marks())
    }

    /** Every treebin is a bitwise trie on size with one tree node per size and the rest in
        its ring; the map marks exactly the non-empty bins. */
    ghost predicate Valid(sz: Sizes)
      reads this
    {
      Shape(at, sz) && Linked(L(), at)
    }

    ghost function Chunks(): set<int>
      reads this
    {
      Members(at)
    }

    constructor ()
      ensures Chunks() == {} && forall sz :: Valid(sz)
    {
      child, parent, fd, bk, index := map[], map[], map[], map[], map[];
      treebins := seq(NTREEBINS, _ => 0);
      treemap := 0;
      at := map[];
      BinMaps.EmptySpec(0);
    }

    // ---------------------------------------------------------------- insert_large_chunk

    /** The writes for a chunk that becomes a tree node of its own. */
    method Place(x: int, i: nat, t: int, b: nat, ghost nk: Key, ghost sz: Sizes)
      requires Valid(sz) && MayPlace(at, sz, nk, x) && nk.bin == i
      requires if nk.depth == 0 then t == Slot(i) else t == HeadOf(at, Parent(nk)) && b == nk.prefix % 2
      modifies this
      ensures Valid(sz) && Chunks() == old(Chunks()) + {x}
    {
      hide FreshSize, RingsOk, AllApart, Members, HeadOf;
      ghost var l := L();
      IndexBound(sz[x]);
      if nk.depth > 0 { HeadFacts(at, sz, Parent(nk), Parent(nk)); }
      index := index[x := i];
      child := child[(x, 0) := 0][(x, 1) := 0];
      if t == Slot(i) {
        BinMaps.MarkSpec(treemap, i);
        treemap := BitWords.Mark(treemap, BinMaps.Idx2Bit(i));
        treebins := treebins[i := x];
      } else {
        child := child[(t, b) := x];
      }
      parent := parent[x := t];
      fd, bk := fd[x := x], bk[x := x];
      PlaceShape(at, sz, nk, x);
      PlaceLinked(l, L(), at, sz, nk, x);
      at := at[nk := [x]];
    }

    /** The writes for a chunk that joins the ring of a tree node of its size. */
    method Join(x: int, i: nat, t: int, ghost k: Key, ghost sz: Sizes)
      requires Valid(sz) && MayJoin(at, sz, k, x) && t == HeadOf(at, k) && i == k.bin
      modifies this
      ensures Valid(sz) && Chunks() == old(Chunks()) + {x}
    {
      NodeFacts(L(), at, sz, k);
      ghost var l := L();
      index := index[x := i];
      child := child[(x, 0) := 0][(x, 1) := 0];
      var f := fd[t];
      fd := fd[t := x];
      bk := bk[f := x];
      fd := fd[x := f];
      bk := bk[x := t];
      parent := parent[x := 0];
      JoinShape(at, sz, k, x);
      JoinLinked(l, L(), at, sz, k, x);
      forall a
        ensures a in Joined(at[k], x) <==> a in at[k] || a == x
      {
        JoinedElements(at[k], x, a);
      }
      MembersReplace(at, k, Joined(at[k], x), {}, {x});
      at := at[k := Joined(at[k], x)];
    }

    method Insert(x: int, s: nat, sz: Sizes)
      requires Valid(sz) && x > 0 && x !in Chunks() && x in sz && sz[x] == s && LargeSize(s)
      modifies this
      ensures Valid(sz) && Chunks() == old(Chunks()) + {x}
    {
      var i := TreeIndex(s);
      IndexBound(s);
      RootCovers(s);
      BinMaps.MarkSpec(treemap, i);
      if !BinMaps.Marked(treemap, i) {
        AbsentBin(i, s, sz);
        Place(x, i, Slot(i), 0, RootKey(i), sz);
      } else {
        InsertBelow(x, s, i, sz);
      }
    }

    /** The walk down an existing trie. */
    method InsertBelow(x: int, s: nat, i: nat, sz: Sizes)
      requires Valid(sz) && x > 0 && x !in Chunks() && x in sz && sz[x] == s && LargeSize(s)
      requires i == TreeIndex(s) && i < NTREEBINS && RootKey(i) in at && Covers(RootKey(i), s)
      modifies this
      ensures Valid(sz) && Chunks() == old(Chunks()) + {x}
    {
      var t := treebins[i];
      var reg: nat := Register(s, LeftShift(i));
      ghost var k := RootKey(i);
      while true
        invariant Valid(sz) && Chunks() == old(Chunks())
        invariant Walking(at, s, t, k, reg) && Passed(at, sz, s, k) && k.bin == i
        decreases KeyBits(i) - k.depth
      {
        InsertStep(L(), at, sz, x, s, t, k, reg);
        if sz[t] != s {
          var b := reg / SIGN_BIT;
          reg := (2 * reg) % SIZE_T_LIMIT;
          if child[(t, b)] != 0 {
            t := child[(t, b)];
            k := Child(k, b);
          } else {
            Place(x, i, t, b, Child(k, b), sz);
            return;
          }
        } else {
          Join(x, i, t, k, sz);
          return;
        }
      }
    }

    lemma AbsentBin(i: nat, s: nat, sz: Sizes)
      requires Valid(sz) && i < NTREEBINS && i !in Marks()
      ensures RootKey(i) !in at && FreshSize(at, sz, i, s)
    {
      forall q | q in at && q.bin == i
        ensures false
      {
        assert RingOk(at, sz, q);
        Ancestors(at, sz, q, SizeAt(at, sz, q), 0);
        RootCovers(SizeAt(at, sz, q));
      }
    }

    // ---------------------------------------------------------------- unlink_large_chunk

    /** Finds the rightmost-deepest leaf below `x` and cuts it off; 0 if x has no child. */
    method CutLeaf(x: int, ghost kx: Key, ghost sz: Sizes) returns (r: int, ghost kr: Key)
      requires Valid(sz) && kx in at && x == HeadOf(at, kx)
      modifies `child
      ensures r == 0 ==> kr == kx && IsLeaf(at, kx) && child == old(child)
      ensures r != 0 ==> kr in at && kr != kx && kr.depth > kx.depth && IsLeaf(at, kr) && Below(kr, kx)
      ensures r != 0 ==> r == HeadOf(at, kr) && Cuts(old(L()), L(), at, kr)
    {
      ChildFacts(L(), at, sz, kx);
      var rp := (x, 1);
      r := child[rp];
      if r == 0 {
        rp := (x, 0);
        r := child[rp];
      }
      kr := kx;
      if r != 0 {
        BelowChild(kx, kx, rp.1);
        kr := Child(kx, rp.1);
        while true
          invariant L() == old(L())
          invariant kr in at && r == HeadOf(at, kr) && kr.depth > kx.depth && Below(kr, kx)
          invariant rp == (HeadOf(at, Parent(kr)), kr.prefix % 2)
          decreases 64 - kr.depth
        {
          ChildFacts(L(), at, sz, kr);
          var cp := (r, 1);
          if child[cp] == 0 {
            cp := (r, 0);
          }
          if child[cp] == 0 {
            break;
          }
          rp := cp;
          r := child[rp];
          BelowChild(kr, kx, rp.1);
          kr := Child(kr, rp.1);
        }
        child := child[rp := 0];
      }
    }

    /** `r` takes over the parent and the children of `x`. */
    method Adopt(x: int, xp: int, r: int)
      requires (x, 0) in child && (x, 1) in child && r != x
      modifies `child, `parent
      ensures var c0, c1 := old(child[(x, 0)]), old(child[(x, 1)]); var left := if c0 == 0 then old(child) else old(child)[(r, 0) := c0];
        child == if c1 == 0 then left else left[(r, 1) := c1]
      ensures var c0, c1 := old(child[(x, 0)]), old(child[(x, 1)]); var up := old(parent)[r := xp]; var p0 := if c0 == 0 then up else up[c0 := r];
        parent == if c1 == 0 then p0 else p0[c1 := r]
    {
      parent := parent[r := xp];
      var c0 := child[(x, 0)];
      if c0 != 0 {
        child := child[(r, 0) := c0];
        parent := parent[c0 := r];
      }
      var c1 := child[(x, 1)];
      if c1 != 0 {
        child := child[(r, 1) := c1];
        parent := parent[c1 := r];
      }
    }

    /** `r` comes where `x` hung. */
    method Hang(x: int, xp: int, r: int)
      requires x in index && index[x] < |treebins| && index[x] < NTREEBINS && (x != treebins[index[x]] ==> (xp, 0) in child)
      modifies `child, `treebins, `treemap
      ensures x == old(treebins[index[x]]) ==> treebins == old(treebins)[index[x] := r] && child == old(child)
      ensures x == old(treebins[index[x]]) ==> BinMaps.Bins(treemap) == BinMaps.Bins(old(treemap)) - if r == 0 then {index[x]} else {}
      ensures x != old(treebins[index[x]]) ==> treebins == old(treebins) && treemap == old(treemap)
      ensures x != old(treebins[index[x]]) ==> child == old(child)[(xp, if old(child)[(xp, 0)] == x then 0 else 1) := r]
    {
      if x == treebins[index[x]] {
        treebins := treebins[index[x] := r];
        if r == 0 {
          BinMaps.MarkSpec(treemap, index[x]);
          treemap := BitWords.Clear(treemap, BinMaps.Idx2Bit(index[x]));
        }
      } else if child[(xp, 0)] == x {
        child := child[(xp, 0) := r];
      } else {
        child := child[(xp, 1) := r];
      }
    }

    /** The block that puts `r` (or nothing) where the tree node `x` hung. For a ring
        member that is no tree node the parent is 0, and nothing happens. */
    method Replace(x: int, xp: int, r: int, ghost isNode: bool, ghost k: Key, ghost n: seq<int>, ghost sz: Sizes)
      requires isNode ==> Shape(at, sz) && LinkedBut(L(), at, k) && k in at && x == HeadOf(at, k) && xp == Above(at, k)
      requires isNode ==> x in index && index[x] == k.bin
      requires isNode ==>
        if r == 0 then IsLeaf(at, k) else n != [] && n[0] == r && Outside(at, k, n) && r > 0 && r != x
      requires !isNode ==> xp == 0
      modifies this
      ensures at == old(at)
      ensures isNode && r == 0 ==> Cuts(old(L()), L(), at, k)
      ensures isNode && r != 0 ==> Rehangs(old(L()), L(), at, k, n)
      ensures !isNode ==> L() == old(L())
    {
      if isNode {
        RootOrNot(L(), at, sz, k);
        if k.depth > 0 { ParentSlots(L(), at, sz, k); }
        ReplaceFacts(L(), at, sz, k, n, r);
      }
      if xp != 0 {
        Hang(x, xp, r);
        if r != 0 {
          Adopt(x, xp, r);
        }
      }
    }

    /** unlink_large_chunk for a chunk with others of its size. */
    method UnlinkFromRing(x: int, ghost k: Key, ghost j: nat, ghost sz: Sizes)
      requires Valid(sz) && k in at && j < |at[k]| && at[k][j] == x && |at[k]| > 1
      modifies this
      ensures Valid(sz) && Chunks() == old(Chunks()) - {x}
    {
      ghost var l := L();
      NodeFacts(l, at, sz, k);
      assert RingLinkedAt(l, at[k], k.bin, j);
      var xp := parent[x];
      var f := fd[x];
      var r := bk[x];
      bk := bk[f := r];
      fd := fd[r := f];
      ghost var l1, n := L(), Left(at[k], j);
      LeaveShape(at, sz, k, j);
      LeaveLinkedBut(l, l1, at, sz, k, j);
      LeaveRing(l, l1, at[k], k.bin, j);
      LeaveMembers(at, sz, k, j);
      if j == 0 { LooseAfterLeaving(l1, at, sz, k); } else { assert Detached(l, x); }
      Replace(x, xp, r, j == 0, k, n, sz);
      if j == 0 {
        RehangLinked(l1, L(), at, sz, k, n);
      } else {
        LeaveLinked(l, l1, at, sz, k, j);
      }
      at := at[k := n];
    }

    /** unlink_large_chunk for the only chunk of its size. */
    method UnlinkAlone(x: int, ghost k: Key, ghost sz: Sizes)
      requires Valid(sz) && k in at && at[k] == [x]
      modifies this
      ensures Valid(sz) && Chunks() == old(Chunks()) - {x}
    {
      ghost var l := L();
      NodeFacts(l, at, sz, k);
      var xp := parent[x];
      var r;
      ghost var kr;
      r, kr := CutLeaf(x, k, sz);
      ghost var l1, rest := L(), at - {kr};
      MembersWithout(at, sz, k, kr, x);
      if r == 0 {
        Replace(x, xp, r, true, k, [], sz);
        RemoveShape(at, sz, k);
        CutLinked(l, L(), at, sz, k);
        at := at - {k};
      } else {
        ghost var n, at0 := at[kr], at;
        CutLinked(l, l1, at, sz, kr);
        RemoveShape(at, sz, kr);
        LeafLoose(l, l1, at, sz, k, kr);
        at := rest;
        Replace(x, xp, r, true, k, n, sz);
        RehangLinked(l1, L(), rest, sz, k, n);
        RehangShape(at0, sz, k, kr);
        at := rest[k := n];
      }
    }

    method Unlink(x: int, ghost sz: Sizes)
      requires Valid(sz) && x in Chunks()
      modifies this
      ensures Valid(sz) && Chunks() == old(Chunks()) - {x}
    {
      ghost var k :| k in at && x in at[k];
      ghost var j: nat :| j < |at[k]| && at[k][j] == x;
      NodeFacts(L(), at, sz, k);
      assert RingLinkedAt(L(), at[k], k.bin, j);
      if bk[x] != x {
        UnlinkFromRing(x, k, j, sz);
      } else {
        UnlinkAlone(x, k, sz);
      }
    }
  }
}
