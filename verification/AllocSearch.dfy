/** The searches of tmalloc_large and tmalloc_small over the treebins. */
module AllocSearch {
  import opened AllocIndex
  import opened AllocTrie
  import opened AllocTreeBins
  import opened AllocBestFit
  import BitWords
  import BinMaps

  /** The remembered subtree as the code keeps it: a node, or 0. */
  ghost predicate Remembered(at: Rings, rst: int, r: Untaken) {
    if r.Subtree? then r.k in at && rst == HeadOf(at, r.k) && rst != 0 else rst == 0
  }

  /** The state at the head of the first walk of tmalloc_large. */
  ghost predicate FirstWalk(at: Rings, sz: Sizes, nb: nat, v: int, rsize: nat, t: int, k: Key, reg: nat, r: Untaken) {
    && Choice(at, sz, nb, v, rsize) && rsize > 0 && k in at && t == HeadOf(at, k) && k.bin == TreeIndex(nb)
    && (v != 0 ==> LargeSize(sz[v]) && TreeIndex(sz[v]) == k.bin)
    && (LargeSize(nb) ==> Descending(at, sz, nb, v, k, r) && Walking(at, nb, t, k, reg))
    && (r.Subtree? ==> r.k in at)
  }

  /** What the first walk hands over: a node from which to walk leftmost, or a finished bin. */
  ghost predicate Handover(at: Rings, sz: Sizes, nb: nat, v: int, rsize: nat, t: int, k: Key) {
    && Choice(at, sz, nb, v, rsize)
    && (t != 0 ==> t == HeadOf(at, k) && Walkable(at, sz, nb, v, k, k))
    && (t == 0 ==> Settled(at, sz, nb, v) || (v == 0 && LargeSize(nb) && BinsDone(at, sz, nb, 0, TreeIndex(nb))))
  }

  /** Comparing with the node of the walk keeps what the walk has established. */
  lemma FirstCompared(at: Rings, sz: Sizes, nb: nat, v: int, rsize: nat, t: int, k: Key, reg: nat, r: Untaken)
    requires Shape(at, sz) && 0 < nb < SIZE_T_LIMIT && FirstWalk(at, sz, nb, v, rsize, t, k, reg, r)
    ensures t in sz && t > 0
    ensures var trem := Minus(sz[t], nb); trem < rsize ==> trem == 0 ==> Settled(at, sz, nb, t) && Choice(at, sz, nb, t, 0)
    ensures var trem := Minus(sz[t], nb); trem < rsize && trem != 0 ==>
      FirstWalk(at, sz, nb, t, trem, t, k, reg, r) && Beaten(sz, nb, t, sz[t])
    ensures var trem := Minus(sz[t], nb); trem >= rsize ==> Beaten(sz, nb, v, sz[t]) && sz[t] != nb
  {
    Compared(at, sz, nb, v, rsize, k);
    assert RingOk(at, sz, k);
    Wrapped(sz[t], nb);
    var trem := Minus(sz[t], nb);
    if trem < rsize && LargeSize(nb) {
      forall q | q in at && q.bin == k.bin && !Beaten(sz, nb, t, SizeAt(at, sz, q))
        ensures Reachable(at, sz, k, r, q)
      {
        assert !Beaten(sz, nb, v, SizeAt(at, sz, q));
      }
    }
  }

  /** One step down. */
  lemma FirstStep(l: Links, at: Rings, sz: Sizes, nb: nat, v: int, rsize: nat, t: int, k: Key, reg: nat, r: Untaken, b: nat)
    requires Shape(at, sz) && Linked(l, at) && 0 < nb < SIZE_T_LIMIT && FirstWalk(at, sz, nb, v, rsize, t, k, reg, r)
    requires Beaten(sz, nb, v, SizeAt(at, sz, k)) && SizeAt(at, sz, k) != nb
    requires b == reg / SIGN_BIT && b < 2 && (nb >= CHUNK_LIMIT || LargeSize(nb)) && (nb >= CHUNK_LIMIT ==> v == 0)
    ensures (t, 1) in l.child && (t, b) in l.child && k.depth <= 64
    ensures l.child[(t, b)] == HeadOf(at, Child(k, b))
    ensures Remembered(at, if l.child[(t, 1)] != 0 && l.child[(t, 1)] != l.child[(t, b)] then l.child[(t, 1)] else if r.Subtree? then HeadOf(at, r.k) else 0, NextUntaken(at, k, b, r))
    ensures l.child[(t, b)] != 0 ==>
      FirstWalk(at, sz, nb, v, rsize, l.child[(t, b)], Child(k, b), (2 * reg) % SIZE_T_LIMIT, NextUntaken(at, k, b, r)) && k.depth < 64
    ensures l.child[(t, b)] == 0 ==> var r' := NextUntaken(at, k, b, r);
      Handover(at, sz, nb, v, rsize, if r'.Subtree? then HeadOf(at, r'.k) else 0, if r'.Subtree? then r'.k else k)
  {
    ChildFacts(l, at, sz, k);
    var r' := NextUntaken(at, k, b, r);
    if Child(k, 1) in at && b == 0 && Child(k, 0) in at { HeadFacts(at, sz, Child(k, 0), Child(k, 1)); }
    if r.Subtree? { HeadFacts(at, sz, r.k, r.k); }
    if r'.Subtree? { HeadFacts(at, sz, r'.k, r'.k); }
    if LargeSize(nb) {
      WalkBit(at, sz, nb, t, k, reg);
      DescendStep(at, sz, nb, v, k, r, b);
      if l.child[(t, b)] == 0 {
        DescentEnds(at, sz, nb, v, Child(k, b), r');
        if !r'.Subtree? && v != 0 { ChoiceBeatsLaterBins(at, sz, nb, v, k.bin); }
      }
    } else {
      NothingFits(at, sz, nb);
    }
  }

  /** The first walk starts at the root of the bin of the request. */
  lemma RootStart(l: Links, at: Rings, sz: Sizes, nb: nat)
    requires Shape(at, sz) && Linked(l, at) && MIN_LARGE_SIZE <= nb < SIZE_T_LIMIT && TreeIndex(nb) < NTREEBINS
    requires l.bins[TreeIndex(nb)] != 0
    ensures var i := TreeIndex(nb);
      FirstWalk(at, sz, nb, 0, SIZE_T_LIMIT - nb, l.bins[i], RootKey(i), Register(nb, LeftShift(i)), NoneYet)
  {
    var k := RootKey(TreeIndex(nb));
    assert k in at;
    if LargeSize(nb) {
      RootCovers(nb);
      forall q | q in at && q.bin == k.bin
        ensures Reachable(at, sz, k, NoneYet, q)
      {
        assert RingOk(at, sz, q);
        RootCovers(SizeAt(at, sz, q));
      }
    }
  }

  /** No stored size is near a request that large. */
  lemma TooLarge(at: Rings, sz: Sizes, nb: nat, k: Key)
    requires Shape(at, sz) && k in at && CHUNK_LIMIT <= nb < SIZE_T_LIMIT
    ensures SizeAt(at, sz, k) < nb && Minus(SizeAt(at, sz, k), nb) >= SIZE_T_LIMIT - nb
  {
    assert RingOk(at, sz, k);
    Wrapped(SizeAt(at, sz, k), nb);
  }

  /** The first loop of tmalloc_large. */
  method TowardsRequest(b: TreeBins, nb: nat, sz: Sizes) returns (t: int, v: int, rsize: nat, ghost k: Key)
    requires b.Valid(sz) && MIN_LARGE_SIZE <= nb < SIZE_T_LIMIT && TreeIndex(nb) < NTREEBINS
    requires b.treebins[TreeIndex(nb)] != 0
    ensures Handover(b.at, sz, nb, v, rsize, t, k)
  {
    var idx := TreeIndex(nb);
    t := b.treebins[idx];
    v, rsize := 0, SIZE_T_LIMIT - nb;
    var sizebits: nat := Register(nb, LeftShift(idx));
    var rst := 0;
    k := RootKey(idx);
    ghost var r := NoneYet;
    RootStart(b.L(), b.at, sz, nb);
    while true
      invariant FirstWalk(b.at, sz, nb, v, rsize, t, k, sizebits, r)
      invariant Remembered(b.at, rst, r) && sizebits < SIZE_T_LIMIT && (nb >= CHUNK_LIMIT ==> v == 0)
      decreases 64 - k.depth
    {
      FirstCompared(b.at, sz, nb, v, rsize, t, k, sizebits, r);
      if nb >= CHUNK_LIMIT { TooLarge(b.at, sz, nb, k); }
      var trem := Minus(sz[t], nb);
      if trem < rsize {
        v, rsize := t, trem;
        if trem == 0 {
          break;
        }
      }
      ghost var s := t;
      var bit := sizebits / SIGN_BIT;
      FirstStep(b.L(), b.at, sz, nb, v, rsize, t, k, sizebits, r, bit);
      var rt := b.child[(t, 1)];
      t := b.child[(t, bit)];
      if rt != 0 && rt != t {
        rst := rt;
      }
      r := NextUntaken(b.at, k, bit, r);
      if t == 0 {
        t := rst;
        k := if r.Subtree? then r.k else k;
        break;
      }
      k := Child(k, bit);
      sizebits := (2 * sizebits) % SIZE_T_LIMIT;
    }
  }

  /** One round of the walk along leftmost children: compare, then move on. */
  lemma LeftmostRound(l: Links, at: Rings, sz: Sizes, nb: nat, v: int, t: int, k: Key, top: Key)
    requires Shape(at, sz) && Linked(l, at) && Walkable(at, sz, nb, v, k, top) && t == HeadOf(at, k)
    requires Beaten(sz, nb, v, SizeAt(at, sz, k))
    ensures (t, 0) in l.child && (t, 1) in l.child && k.depth <= 64
    ensures var c := if l.child[(t, 0)] != 0 then l.child[(t, 0)] else l.child[(t, 1)];
      c == HeadOf(at, LeftmostKey(at, k))
      && (if c != 0 then k.depth < 64 && Walkable(at, sz, nb, v, LeftmostKey(at, k), top) else Settled(at, sz, nb, v))
  {
    ChildFacts(l, at, sz, k);
    WalkableStep(at, sz, nb, v, k, top);
  }

  /** A better choice keeps the walk going. */
  lemma WalkableBetter(at: Rings, sz: Sizes, nb: nat, v: int, v': int, k: Key, top: Key)
    requires Walkable(at, sz, nb, v, k, top) && forall s :: Beaten(sz, nb, v, s) ==> Beaten(sz, nb, v', s)
    ensures Walkable(at, sz, nb, v', k, top)
  {
    if Settled(at, sz, nb, v) {
      forall q | q in at
        ensures Beaten(sz, nb, v', SizeAt(at, sz, q))
      {
        assert Beaten(sz, nb, v, SizeAt(at, sz, q));
      }
    }
  }

  /** The last loop of tmalloc_large. */
  method AlongLeftmost(b: TreeBins, nb: nat, t0: int, v0: int, rsize0: nat, ghost k0: Key, sz: Sizes) returns (v: int, rsize: nat)
    requires b.Valid(sz) && 0 < nb < SIZE_T_LIMIT && Choice(b.at, sz, nb, v0, rsize0)
    requires if t0 != 0 then t0 == HeadOf(b.at, k0) && Walkable(b.at, sz, nb, v0, k0, k0) else Settled(b.at, sz, nb, v0)
    ensures Choice(b.at, sz, nb, v, rsize) && Settled(b.at, sz, nb, v)
  {
    var t := t0;
    ghost var k := k0;
    v, rsize := v0, rsize0;
    while t != 0
      invariant Choice(b.at, sz, nb, v, rsize)
      invariant if t != 0 then t == HeadOf(b.at, k) && Walkable(b.at, sz, nb, v, k, k0) else Settled(b.at, sz, nb, v)
      decreases t != 0, 64 - k.depth
    {
      Compared(b.at, sz, nb, v, rsize, k);
      var trem := Minus(sz[t], nb);
      if trem < rsize {
        WalkableBetter(b.at, sz, nb, v, t, k, k0);
        rsize, v := trem, t;
      }
      LeftmostRound(b.L(), b.at, sz, nb, v, t, k, k0);
      k := LeftmostKey(b.at, k);
      t := if b.child[(t, 0)] != 0 then b.child[(t, 0)] else b.child[(t, 1)];
    }
  }

  /** Nothing is stored in an unmarked bin. */
  lemma MarkedBins(l: Links, at: Rings, sz: Sizes, q: Key)
    requires Shape(at, sz) && Linked(l, at) && q in at
    ensures q.bin in l.marks && q.bin < NTREEBINS
  {
    assert RingOk(at, sz, q);
    Ancestors(at, sz, q, SizeAt(at, sz, q), 0);
    RootCovers(SizeAt(at, sz, q));
  }

  /** The search of tmalloc_large: a smallest chunk that fits, or none. */
  method BestFit(b: TreeBins, nb: nat, sz: Sizes) returns (v: int, rsize: nat)
    requires b.Valid(sz) && MIN_LARGE_SIZE <= nb < SIZE_T_LIMIT
    ensures v == 0 ==> rsize == SIZE_T_LIMIT - nb && forall a <- b.Chunks() :: a in sz && sz[a] < nb
    ensures v != 0 ==> v in b.Chunks() && v in sz && nb <= sz[v] && rsize == sz[v] - nb
    ensures v != 0 ==> forall a <- b.Chunks() :: a in sz && (sz[a] >= nb ==> sz[v] <= sz[a])
  {
    hide Choice;
    var idx := TreeIndex(nb);
    IndexBoundAny(nb);
    v, rsize := 0, SIZE_T_LIMIT - nb;
    ghost var k := RootKey(idx);
    var t := b.treebins[idx];
    if t != 0 {
      t, v, rsize, k := TowardsRequest(b, nb, sz);
    } else {
      EmptyBin(b.L(), b.at, sz, nb);
    }
    if t == 0 && v == 0 {
      var leftbits := BitWords.Common(BitWords.LeftBits(BinMaps.Idx2Bit(idx)), b.treemap);
      ghost var left := BinMaps.Bins(leftbits);
      BinMaps.LeftBitsSpec(b.treemap, idx);
      BinMaps.EmptySpec(leftbits);
      if leftbits == 0 {
        AfterBin(b.L(), b.at, sz, nb, left);
      } else {
        BinMaps.FfsSpec(leftbits);
        var j := BinMaps.Ffs(leftbits);
        if LargeSize(nb) {
          FirstNonEmpty(b.L(), b.at, sz, nb, left, j);
        } else {
          NothingFits(b.at, sz, nb);
        }
        k := RootKey(j);
        t := b.treebins[j];
      }
    }
    v, rsize := AlongLeftmost(b, nb, t, v, rsize, k, sz);
    forall a | a in b.Chunks()
      ensures a in sz && (sz[a] >= nb ==> v != 0 && sz[v] <= sz[a])
    {
      SettledChunks(b.at, sz, nb, v, a);
    }
  }

  /** No tree in the bin of the request. */
  lemma EmptyBin(l: Links, at: Rings, sz: Sizes, nb: nat)
    requires Shape(at, sz) && Linked(l, at) && MIN_LARGE_SIZE <= nb < SIZE_T_LIMIT
    requires TreeIndex(nb) < NTREEBINS && l.bins[TreeIndex(nb)] == 0
    ensures Settled(at, sz, nb, 0) || (LargeSize(nb) && BinsDone(at, sz, nb, 0, TreeIndex(nb)))
  {
    var i := TreeIndex(nb);
    if RootKey(i) in at { HeadFacts(at, sz, RootKey(i), RootKey(i)); }
    if LargeSize(nb) {
      forall q | q in at && q.bin <= i
        ensures Beaten(sz, nb, 0, SizeAt(at, sz, q))
      {
        assert RingOk(at, sz, q);
        MarkedBins(l, at, sz, q);
        EarlierBin(at, sz, nb, q);
      }
    } else {
      NothingFits(at, sz, nb);
    }
  }

  /** With no marked bin above, the search is over. */
  lemma AfterBin(l: Links, at: Rings, sz: Sizes, nb: nat, leftbits: set<nat>)
    requires Shape(at, sz) && Linked(l, at) && leftbits == (set j <- l.marks | j > TreeIndex(nb)) == {}
    requires Settled(at, sz, nb, 0) || BinsDone(at, sz, nb, 0, TreeIndex(nb))
    ensures Settled(at, sz, nb, 0)
  {
    forall q | q in at
      ensures Beaten(sz, nb, 0, SizeAt(at, sz, q))
    {
      MarkedBins(l, at, sz, q);
      assert q.bin !in leftbits;
    }
  }

  lemma FirstNonEmpty(l: Links, at: Rings, sz: Sizes, nb: nat, leftbits: set<nat>, j: nat)
    requires Shape(at, sz) && Linked(l, at) && LargeSize(nb) && BinsDone(at, sz, nb, 0, TreeIndex(nb))
    requires leftbits == (set i <- l.marks | i > TreeIndex(nb)) && j in leftbits && forall m <- leftbits :: j <= m
    ensures j < NTREEBINS && RootKey(j) in at && l.bins[j] == HeadOf(at, RootKey(j)) != 0
    ensures Walkable(at, sz, nb, 0, RootKey(j), RootKey(j))
  {
    forall q | q in at
      ensures q.bin <= TreeIndex(nb) || q.bin >= j
    {
      MarkedBins(l, at, sz, q);
      assert q.bin in leftbits || q.bin <= TreeIndex(nb);
    }
    HeadFacts(at, sz, RootKey(j), RootKey(j));
    NextBin(at, sz, nb, TreeIndex(nb), j);
  }

  /** For a small request every tree chunk fits, and the first non-empty bin has the smallest. */
  lemma SmallStart(l: Links, at: Rings, sz: Sizes, nb: nat, j: nat)
    requires Shape(at, sz) && Linked(l, at) && nb < MIN_LARGE_SIZE && j in l.marks && forall m <- l.marks :: j <= m
    ensures j < NTREEBINS && l.bins[j] == HeadOf(at, RootKey(j)) != 0
    ensures Walkable(at, sz, nb, 0, RootKey(j), RootKey(j))
  {
    var k := RootKey(j);
    forall q | q in at
      ensures Later(at, sz, k, q) && SizeAt(at, sz, q) >= nb
    {
      assert RingOk(at, sz, q);
      MarkedBins(l, at, sz, q);
      if q.bin == j { RootCovers(SizeAt(at, sz, q)); }
    }
    HeadFacts(at, sz, k, k);
  }

  /** The search of tmalloc_small: a smallest chunk of all treebins. */
  method Smallest(b: TreeBins, nb: nat, sz: Sizes) returns (v: int, rsize: nat)
    requires b.Valid(sz) && 0 < nb < MIN_LARGE_SIZE && b.treemap != 0
    ensures v in b.Chunks() && v in sz && nb < sz[v] && rsize == sz[v] - nb
    ensures forall a <- b.Chunks() :: a in sz && sz[v] <= sz[a]
  {
    BinMaps.FfsSpec(b.treemap);
    var i := BinMaps.Ffs(b.treemap);
    SmallStart(b.L(), b.at, sz, nb, i);
    ghost var top, k := RootKey(i), RootKey(i);
    var t := b.treebins[i];
    Compared(b.at, sz, nb, 0, SIZE_T_LIMIT - nb, k);
    FitsSmall(b.at, sz, nb, k);
    v, rsize := t, Minus(sz[t], nb);
    WalkableBetter(b.at, sz, nb, 0, v, k, top);
    while true
      invariant Choice(b.at, sz, nb, v, rsize) && v != 0 && t == HeadOf(b.at, k)
      invariant Walkable(b.at, sz, nb, v, k, top) && Beaten(sz, nb, v, SizeAt(b.at, sz, k))
      decreases 64 - k.depth
    {
      LeftmostRound(b.L(), b.at, sz, nb, v, t, k, top);
      t := if b.child[(t, 0)] != 0 then b.child[(t, 0)] else b.child[(t, 1)];
      if t == 0 {
        break;
      }
      k := LeftmostKey(b.at, k);
      Compared(b.at, sz, nb, v, rsize, k);
      var trem := Minus(sz[t], nb);
      if trem < rsize {
        WalkableBetter(b.at, sz, nb, v, t, k, top);
        rsize, v := trem, t;
      }
    }
    forall a | a in b.Chunks()
      ensures a in sz && sz[v] <= sz[a] && sz[a] >= MIN_LARGE_SIZE
    {
      SettledChunks(b.at, sz, nb, v, a);
      MemberLarge(b.at, sz, a);
    }
  }

  lemma FitsSmall(at: Rings, sz: Sizes, nb: nat, k: Key)
    requires Shape(at, sz) && k in at && nb < MIN_LARGE_SIZE
    ensures Minus(SizeAt(at, sz, k), nb) == SizeAt(at, sz, k) - nb < SIZE_T_LIMIT - nb
  {
    assert RingOk(at, sz, k);
  }

  lemma MemberLarge(at: Rings, sz: Sizes, a: int)
    requires Shape(at, sz) && a in Members(at)
    ensures a in sz && a > 0 && LargeSize(sz[a])
  {
    var q :| q in at && a in at[q];
    assert RingOk(at, sz, q);
  }
}
