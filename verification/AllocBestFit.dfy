/** Why the searches of tmalloc_large and tmalloc_small find a best fit: the order of the
    positions of a trie, and what each round of the two walks settles. */
module AllocBestFit {
  import opened Shifts
  import opened AllocIndex
  import opened AllocTrie

  /** Size `s` does not beat the choice `v` for a request `nb`. */
  ghost predicate Beaten(sz: Sizes, nb: nat, v: int, s: nat) {
    s >= nb ==> v != 0 && v in sz && sz[v] <= s
  }

  /** What is stored at `q` lies at or below `t`, or is larger than all of that. */
  ghost predicate Later(at: Rings, sz: Sizes, t: Key, q: Key) {
    || q.bin > t.bin
    || (q.bin == t.bin && t.depth <= KeyBits(t.bin)
        && var p := Shr(SizeAt(at, sz, q), KeyBits(t.bin) - t.depth);
           p > t.prefix || (p == t.prefix && q.depth >= t.depth))
  }

  /** All candidates not yet compared with are at or after `t`. */
  ghost predicate Pending(at: Rings, sz: Sizes, nb: nat, v: int, t: Key) {
    forall q {:trigger Later(at, sz, t, q)} :: q in at && !Beaten(sz, nb, v, SizeAt(at, sz, q)) ==> Later(at, sz, t, q)
  }

  ghost predicate Settled(at: Rings, sz: Sizes, nb: nat, v: int) {
    forall q {:trigger SizeAt(at, sz, q)} :: q in at ==> Beaten(sz, nb, v, SizeAt(at, sz, q))
  }

  /** The choice so far, with the unsigned remainder the code keeps. */
  ghost predicate Choice(at: Rings, sz: Sizes, nb: nat, v: int, rsize: nat) {
    if v == 0 then rsize == SIZE_T_LIMIT - nb
    else v in Members(at) && v in sz && sz[v] >= nb && rsize == sz[v] - nb < SIZE_T_LIMIT - nb
  }

  /** Subtraction of size_t values. */
  function Minus(a: nat, b: nat): nat { (a - b) % SIZE_T_LIMIT }

  lemma Wrapped(s: nat, nb: nat)
    requires s < SIZE_T_LIMIT && nb < SIZE_T_LIMIT
    ensures Minus(s, nb) == if s >= nb then s - nb else SIZE_T_LIMIT + s - nb
  {}

  /** Comparing the wrapped remainders picks the smaller fit, and never a misfit. */
  lemma Compared(at: Rings, sz: Sizes, nb: nat, v: int, rsize: nat, k: Key)
    requires Shape(at, sz) && k in at && 0 < nb < SIZE_T_LIMIT && Choice(at, sz, nb, v, rsize)
    ensures var t := HeadOf(at, k); t in sz && sz[t] == SizeAt(at, sz, k) && t > 0
    ensures var t := HeadOf(at, k); var trem := Minus(sz[t], nb);
      trem < rsize ==> Choice(at, sz, nb, t, trem) && (trem == 0 ==> sz[t] == nb)
    ensures var t := HeadOf(at, k); var trem := Minus(sz[t], nb);
      var v' := if trem < rsize then t else v;
      Beaten(sz, nb, v', SizeAt(at, sz, k)) && forall s :: Beaten(sz, nb, v, s) ==> Beaten(sz, nb, v', s)
  {
    assert RingOk(at, sz, k);
    HeadFacts(at, sz, k, k);
    var t := HeadOf(at, k);
    assert t in Members(at);
    Wrapped(sz[t], nb);
  }

  /** A difference in the leading bits shows at every later depth, the same way round. */
  lemma PrefixGrows(x: nat, y: nat, m: nat, n: nat)
    requires Shr(x, m + n) < Shr(y, m + n)
    ensures Shr(x, m) < Shr(y, m)
  {
    ShrAdd(x, m, n);
    ShrAdd(y, m, n);
    ShrLess(Shr(x, m), Shr(y, m), n);
  }

  // ---------------------------------------------------------------- the leftmost walk

  /** leftmost_child, as a position. */
  ghost function LeftmostKey(at: Rings, t: Key): Key {
    if Child(t, 0) in at then Child(t, 0) else Child(t, 1)
  }

  /** After comparing with the node at `t`, everything left over is at or after its
      leftmost child. */
  lemma LeftmostStep(at: Rings, sz: Sizes, nb: nat, v: int, t: Key)
    requires Shape(at, sz) && t in at && Pending(at, sz, nb, v, t)
    requires Beaten(sz, nb, v, SizeAt(at, sz, t)) && SizeAt(at, sz, t) >= nb
    ensures if LeftmostKey(at, t) in at then Pending(at, sz, nb, v, LeftmostKey(at, t)) else Settled(at, sz, nb, v)
  {
    assert RingOk(at, sz, t);
    var t' := LeftmostKey(at, t);
    forall q | q in at && !Beaten(sz, nb, v, SizeAt(at, sz, q))
      ensures t' in at && Later(at, sz, t', q)
    {
      assert Later(at, sz, t, q);
      LeftmostStepAt(at, sz, nb, v, t, q);
    }
  }

  /** What lies strictly below a position lies at or below one of its children. */
  lemma StrictlyBelow(at: Rings, sz: Sizes, t: Key, q: Key)
    requires RingsOk(at, sz) && q in at && q != t && q.bin == t.bin && q.depth >= t.depth
    requires t.depth <= KeyBits(t.bin) && Shr(SizeAt(at, sz, q), KeyBits(t.bin) - t.depth) == t.prefix
    ensures t.depth < q.depth <= KeyBits(q.bin) && Covers(q, SizeAt(at, sz, q))
  {
    hide Shr;
    assert RingOk(at, sz, q);
  }

  lemma BelowStep(at: Rings, sz: Sizes, t: Key, q: Key) returns (b: nat)
    requires Shape(at, sz) && t in at && q in at && q != t && q.bin == t.bin && q.depth >= t.depth
    requires t.depth <= KeyBits(t.bin) && Shr(SizeAt(at, sz, q), KeyBits(t.bin) - t.depth) == t.prefix
    ensures b < 2 && Child(t, b) in at && q.depth > t.depth && t.depth < KeyBits(t.bin)
    ensures Shr(SizeAt(at, sz, q), KeyBits(t.bin) - t.depth - 1) == 2 * t.prefix + b
  {
    hide Shr, RingOk;
    var s, n := SizeAt(at, sz, q), KeyBits(t.bin) - t.depth;
    StrictlyBelow(at, sz, t, q);
    Ancestors(at, sz, q, s, t.depth + 1);
    ShrStep(s, n - 1);
    b := Shr(s, n - 1) % 2;
    assert KeyAt(q.bin, s, t.depth + 1) == Child(t, b);
  }

  lemma LeftmostStepAt(at: Rings, sz: Sizes, nb: nat, v: int, t: Key, q: Key)
    requires Shape(at, sz) && t in at && q in at && Later(at, sz, t, q)
    requires Beaten(sz, nb, v, SizeAt(at, sz, t)) && SizeAt(at, sz, t) >= nb
    requires !Beaten(sz, nb, v, SizeAt(at, sz, q))
    ensures LeftmostKey(at, t) in at && Later(at, sz, LeftmostKey(at, t), q)
  {
    NotLarger(at, sz, t, q);
    var b := BelowStep(at, sz, t, q);
  }

  /** Of two stored sizes, one in a later bin or with larger leading bits is larger. */
  lemma NotLarger(at: Rings, sz: Sizes, t: Key, q: Key)
    requires Shape(at, sz) && t in at && q in at && Later(at, sz, t, q)
    requires SizeAt(at, sz, q) < SizeAt(at, sz, t)
    ensures q.bin == t.bin && q != t && q.depth >= t.depth
    ensures t.depth <= KeyBits(t.bin) && Shr(SizeAt(at, sz, q), KeyBits(t.bin) - t.depth) == t.prefix
  {
    hide Shr;
    assert RingOk(at, sz, t) && RingOk(at, sz, q);
    var s, st, n := SizeAt(at, sz, q), SizeAt(at, sz, t), KeyBits(t.bin) - t.depth;
    if q.bin > t.bin { IndexOrder(st, s); }
    if Shr(s, n) > t.prefix { ShrLess(st, s, n); }
  }

  // ---------------------------------------------------------------- the walk towards the request

  /** rst, the deepest untaken right subtree, as a position. */
  datatype Untaken = NoneYet | Subtree(k: Key)

  /** Where a stored size can still be: below the walk, or at or after `rst`. */
  ghost predicate Reachable(at: Rings, sz: Sizes, k: Key, rst: Untaken, q: Key) {
    || (k.depth <= KeyBits(k.bin) && q.depth >= k.depth && Shr(SizeAt(at, sz, q), KeyBits(k.bin) - k.depth) == k.prefix)
    || (rst.Subtree? && Later(at, sz, rst.k, q))
  }

  /** The walk is at `k`, on the way of `nb`. */
  ghost predicate Descending(at: Rings, sz: Sizes, nb: nat, v: int, k: Key, rst: Untaken) {
    && k.bin == TreeIndex(nb) < NTREEBINS && Covers(k, nb)
    && (rst.Subtree? ==>
          && rst.k in at && rst.k.bin == k.bin && 0 < rst.k.depth <= k.depth
          && rst.k.prefix == Shr(nb, KeyBits(k.bin) - rst.k.depth) + 1)
    && forall q {:trigger Reachable(at, sz, k, rst, q)} :: q in at && q.bin == k.bin && !Beaten(sz, nb, v, SizeAt(at, sz, q)) ==> Reachable(at, sz, k, rst, q)
  }

  ghost function NextUntaken(at: Rings, k: Key, b: nat, rst: Untaken): Untaken {
    if b == 0 && Child(k, 1) in at then Subtree(Child(k, 1)) else rst
  }

  lemma DescendAt(at: Rings, sz: Sizes, nb: nat, v: int, k: Key, rst: Untaken, b: nat, q: Key)
    requires Shape(at, sz) && Descending(at, sz, nb, v, k, rst) && k in at && k.depth < KeyBits(k.bin)
    requires b == Shr(nb, KeyBits(k.bin) - k.depth - 1) % 2
    requires Beaten(sz, nb, v, SizeAt(at, sz, k)) && q in at && q.bin == k.bin
    requires !Beaten(sz, nb, v, SizeAt(at, sz, q))
    ensures Reachable(at, sz, Child(k, b), NextUntaken(at, k, b, rst), q)
  {
    hide RingOk, RingsOk, KeysApart, Shr;
    var s, n := SizeAt(at, sz, q), KeyBits(k.bin) - k.depth;
    ShrStep(nb, n - 1);
    ShrStep(s, n - 1);
    assert Reachable(at, sz, k, rst, q);
    if q.depth >= k.depth && Shr(s, n) == k.prefix {
      var c := BelowStep(at, sz, k, q);
      if c < b { ShrLess(s, nb, n - 1); }
    } else {
      var m := KeyBits(k.bin) - rst.k.depth;
      PrefixGrows(nb, s, n, m - n);
    }
  }

  lemma DescendStep(at: Rings, sz: Sizes, nb: nat, v: int, k: Key, rst: Untaken, b: nat)
    requires Shape(at, sz) && Descending(at, sz, nb, v, k, rst) && k in at && k.depth < KeyBits(k.bin)
    requires b == Shr(nb, KeyBits(k.bin) - k.depth - 1) % 2
    requires Beaten(sz, nb, v, SizeAt(at, sz, k))
    ensures Descending(at, sz, nb, v, Child(k, b), NextUntaken(at, k, b, rst))
  {
    CoversStep(k, nb);
    forall q | q in at && q.bin == k.bin && !Beaten(sz, nb, v, SizeAt(at, sz, q))
      ensures Reachable(at, sz, Child(k, b), NextUntaken(at, k, b, rst), q)
    {
      DescendAt(at, sz, nb, v, k, rst, b, q);
    }
  }

  // ---------------------------------------------------------------- from one walk to the other

  /** Everything stored at or below `top` fits the request. */
  ghost predicate AllFit(at: Rings, sz: Sizes, nb: nat, top: Key) {
    forall q {:trigger Below(q, top)} :: q in at && Below(q, top) ==> SizeAt(at, sz, q) >= nb
  }

  /** The second walk may start, or go on, at `k`. */
  ghost predicate Walkable(at: Rings, sz: Sizes, nb: nat, v: int, k: Key, top: Key) {
    && k in at
    && (Settled(at, sz, nb, v) || (Pending(at, sz, nb, v, k) && AllFit(at, sz, nb, top) && Below(k, top)))
  }

  /** Nothing in bin `i` or before it can still improve the choice. */
  ghost predicate BinsDone(at: Rings, sz: Sizes, nb: nat, v: int, i: nat) {
    forall q {:trigger SizeAt(at, sz, q)} :: q in at && q.bin <= i ==> Beaten(sz, nb, v, SizeAt(at, sz, q))
  }

  lemma EarlierBin(at: Rings, sz: Sizes, nb: nat, q: Key)
    requires RingsOk(at, sz) && q in at && LargeSize(nb)
    ensures q.bin < TreeIndex(nb) ==> SizeAt(at, sz, q) < nb
    ensures q.bin > TreeIndex(nb) ==> SizeAt(at, sz, q) > nb
  {
    assert RingOk(at, sz, q);
    if q.bin < TreeIndex(nb) { IndexOrder(SizeAt(at, sz, q), nb); }
    if q.bin > TreeIndex(nb) { IndexOrder(nb, SizeAt(at, sz, q)); }
  }

  /** The first walk fell off the trie: whatever is left hangs at or after `rst`. */
  lemma DescentEndsAt(at: Rings, sz: Sizes, nb: nat, v: int, k: Key, rst: Untaken, q: Key)
    requires Shape(at, sz) && Descending(at, sz, nb, v, k, rst) && k !in at && LargeSize(nb)
    requires q in at && q.bin <= k.bin && !Beaten(sz, nb, v, SizeAt(at, sz, q))
    ensures rst.Subtree? && Later(at, sz, rst.k, q)
  {
    hide RingOk;
    assert RingOk(at, sz, q);
    EarlierBin(at, sz, nb, q);
    assert Reachable(at, sz, k, rst, q);
    NoneBelow(at, sz, k, q);
  }

  /** Nothing is stored below a vacant position. */
  lemma NoneBelow(at: Rings, sz: Sizes, k: Key, q: Key)
    requires Shape(at, sz) && k !in at && q in at && q.bin == k.bin
    ensures !(k.depth <= KeyBits(k.bin) && q.depth >= k.depth && Shr(SizeAt(at, sz, q), KeyBits(k.bin) - k.depth) == k.prefix)
  {
    assert RingOk(at, sz, q);
    if k.depth <= KeyBits(k.bin) && q.depth >= k.depth && Shr(SizeAt(at, sz, q), KeyBits(k.bin) - k.depth) == k.prefix {
      Ancestors(at, sz, q, SizeAt(at, sz, q), k.depth);
    }
  }

  lemma DescentEnds(at: Rings, sz: Sizes, nb: nat, v: int, k: Key, rst: Untaken)
    requires Shape(at, sz) && Descending(at, sz, nb, v, k, rst) && k !in at && LargeSize(nb)
    ensures if rst.Subtree? then Walkable(at, sz, nb, v, rst.k, rst.k) else BinsDone(at, sz, nb, v, k.bin)
  {
    hide Settled, AllFit, Below, RingOk;
    forall q | q in at && !Beaten(sz, nb, v, SizeAt(at, sz, q)) && q.bin <= k.bin
      ensures rst.Subtree? && Later(at, sz, rst.k, q)
    {
      DescentEndsAt(at, sz, nb, v, k, rst, q);
    }
    if rst.Subtree? { UntakenFits(at, sz, nb, v, k, rst); }
  }

  lemma UntakenFits(at: Rings, sz: Sizes, nb: nat, v: int, k: Key, rst: Untaken)
    requires Shape(at, sz) && Descending(at, sz, nb, v, k, rst) && rst.Subtree?
    ensures AllFit(at, sz, nb, rst.k) && Below(rst.k, rst.k)
  {
    hide Reachable, Beaten;
    forall q | q in at && Below(q, rst.k)
      ensures SizeAt(at, sz, q) >= nb
    {
      assert RingOk(at, sz, q);
      BelowCovers(q, rst.k, SizeAt(at, sz, q));
      ShrLess(nb, SizeAt(at, sz, q), KeyBits(k.bin) - rst.k.depth);
    }
  }

  /** With a choice from the bin of the request, later bins do not matter. */
  lemma ChoiceBeatsLaterBins(at: Rings, sz: Sizes, nb: nat, v: int, i: nat)
    requires Shape(at, sz) && BinsDone(at, sz, nb, v, i) && v != 0 && v in sz && LargeSize(sz[v]) && TreeIndex(sz[v]) == i
    ensures Settled(at, sz, nb, v)
  {
    forall q | q in at && q.bin > i
      ensures Beaten(sz, nb, v, SizeAt(at, sz, q))
    {
      assert RingOk(at, sz, q);
      IndexOrder(sz[v], SizeAt(at, sz, q));
    }
  }

  /** Without one, the next non-empty bin has the best fits. */
  lemma NextBin(at: Rings, sz: Sizes, nb: nat, i: nat, j: nat)
    requires Shape(at, sz) && LargeSize(nb) && i == TreeIndex(nb) < j && BinsDone(at, sz, nb, 0, i)
    requires forall q <- at :: q.bin <= i || q.bin >= j
    requires RootKey(j) in at
    ensures Walkable(at, sz, nb, 0, RootKey(j), RootKey(j))
  {
    forall q | q in at && !Beaten(sz, nb, 0, SizeAt(at, sz, q))
      ensures Later(at, sz, RootKey(j), q)
    {
      assert RingOk(at, sz, q);
      if q.bin == j { RootCovers(SizeAt(at, sz, q)); }
    }
    forall q | q in at && Below(q, RootKey(j))
      ensures SizeAt(at, sz, q) >= nb
    {
      assert RingOk(at, sz, q);
      BelowCovers(q, RootKey(j), SizeAt(at, sz, q));
      EarlierBin(at, sz, nb, q);
    }
  }

  /** A request no chunk can be large enough for. */
  lemma NothingFits(at: Rings, sz: Sizes, nb: nat)
    requires RingsOk(at, sz) && nb >= CHUNK_LIMIT
    ensures Settled(at, sz, nb, 0)
  {
    forall q | q in at
      ensures SizeAt(at, sz, q) < nb
    {
      assert RingOk(at, sz, q);
    }
  }

  lemma IndexBoundAny(s: nat)
    ensures TreeIndex(s) < NTREEBINS
  {
    var x := (s / 256) % 0x1_0000_0000;
    if 0 < x <= 0xFFFF {
      Shr24(x);
      FlsBound(x, 15);
    }
  }

  /** One round of the second walk. */
  lemma WalkableStep(at: Rings, sz: Sizes, nb: nat, v: int, k: Key, top: Key)
    requires Shape(at, sz) && Walkable(at, sz, nb, v, k, top) && Beaten(sz, nb, v, SizeAt(at, sz, k))
    ensures if LeftmostKey(at, k) in at then Walkable(at, sz, nb, v, LeftmostKey(at, k), top)
      else Settled(at, sz, nb, v)
  {
    if !Settled(at, sz, nb, v) {
      LeftmostStep(at, sz, nb, v, k);
      BelowDepth(k, top);
      BelowChild(k, top, if Child(k, 0) in at then 0 else 1);
    }
  }

  /** What "settled" means for the chunks. */
  lemma SettledChunks(at: Rings, sz: Sizes, nb: nat, v: int, a: int)
    requires Shape(at, sz) && Settled(at, sz, nb, v) && a in Members(at)
    ensures a in sz && (sz[a] >= nb ==> v != 0 && v in sz && sz[v] <= sz[a])
  {
    var q :| q in at && a in at[q];
    assert RingOk(at, sz, q);
  }
}
