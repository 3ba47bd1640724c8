/** Which free memory serves a request. */
module AllocServe {
  import opened AllocIndex
  import opened AllocTiles
  import opened AllocBooks

  /** The chunks in the bins: the free ones, without top and the designated victim. */
  ghost function Binned(b: Book): set<int> { FreeTiles(b.t) - {b.top, b.dv} }

  ghost predicate Fits(b: Book, nb: nat, a: int) { a in Binned(b) && a in b.t && b.t[a].size >= nb }

  ghost predicate SmallestFit(b: Book, nb: nat, p: int) {
    Fits(b, nb, p) && forall a :: Fits(b, nb, a) ==> b.t[p].size <= b.t[a].size
  }

  /** A chunk in a bin goes before the designated victim if that is too small; if it has the size of
      a small request or the next one; or if it is the better fit for a large one. */
  ghost predicate Goes(b: Book, nb: nat, a: int) {
    && Fits(b, nb, a)
    && (b.dvsize < nb || if nb < MIN_LARGE_SIZE then b.t[a].size <= nb + 8 && b.t[a].size < MIN_LARGE_SIZE else b.t[a].size < b.dvsize)
  }

  ghost predicate FromBins(b: Book, nb: nat) { exists a :: Goes(b, nb, a) }

  /** The tiles after `nb` bytes of `p` are in use. What is too small for a chunk is not split off. */
  ghost function Cut(t: Tiles, p: int, nb: nat): Tiles
    requires p in t && nb <= t[p].size
  {
    if t[p].size - nb >= MIN_CHUNK_SIZE then t[p := Tile(nb, true)][p + nb := Tile(t[p].size - nb, false)]
    else t[p := Tile(t[p].size, true)]
  }

  ghost predicate SameTop(b: Book, b': Book) { b'.top == b.top && b'.topsize == b.topsize && b'.segs == b.segs }

  ghost predicate Victim(b: Book, dv: int, dvsize: nat) { b.dv == dv && b.dvsize == dvsize }

  /** The chunk `p` of a bin is used. Small requests make the rest the designated victim, large ones
      leave it to the bins. */
  ghost predicate UsesBinned(b: Book, b': Book, nb: nat, p: int) {
    && p in b.t && nb <= b.t[p].size && b'.t == Cut(b.t, p, nb) && SameTop(b, b')
    && var rest := b.t[p].size - nb;
       if nb < MIN_LARGE_SIZE && rest >= MIN_CHUNK_SIZE then Victim(b', p + nb, rest) else Victim(b', b.dv, b.dvsize)
  }

  /** The designated victim is used, and what is left of it remains the victim. */
  ghost predicate UsesVictim(b: Book, b': Book, nb: nat) {
    && b.dv in b.t && nb <= b.dvsize == b.t[b.dv].size && b'.t == Cut(b.t, b.dv, nb) && SameTop(b, b')
    && var rest := b.dvsize - nb; if rest >= MIN_CHUNK_SIZE then Victim(b', b.dv + nb, rest) else Victim(b', 0, 0)
  }

  ghost predicate UsesTop(b: Book, b': Book, nb: nat) {
    && nb < b.topsize && b'.t == b.t[b.top := Tile(nb, true)][b.top + nb := Tile(b.topsize - nb, false)]
    && b'.top == b.top + nb && b'.topsize == b.topsize - nb && b'.segs == b.segs && Victim(b', b.dv, b.dvsize)
  }

  /** Where a request for a chunk of `nb` bytes is served, and what becomes of the rest. Without any
      free memory of that size the system has given new bytes, which may have gone into top. */
  ghost predicate ServedBy(b: Book, b': Book, nb: nat, p: int) {
    if FromBins(b, nb) then SmallestFit(b, nb, p) && UsesBinned(b, b', nb, p)
    else if nb <= b.dvsize then p == b.dv && UsesVictim(b, b', nb)
    else if nb < b.topsize then p == b.top && UsesTop(b, b', nb)
    else p == b.top || p !in b.t
  }

  /** The same, whatever happens to the state then. */
  ghost predicate Serves(b: Book, nb: nat, p: int) { exists b' :: ServedBy(b, b', nb, p) }

  // ---------------------------------------------------------------- what that means

  /** Top and new memory are the last resort: nothing else that is free is large enough. */
  lemma TopIsLast(b: Book, b': Book, bins: set<int>, nb: nat, p: int)
    requires Good(b, bins, {}) && nb > 0 && ServedBy(b, b', nb, p) && (p == b.top || p !in FreeTiles(b.t))
    ensures forall a <- FreeTiles(b.t) - {b.top} :: b.t[a].size < nb
    ensures if nb < b.topsize then p == b.top else p == b.top || p !in b.t
  {
    assert !FromBins(b, nb);
    assert Accounted(b, bins, {}) && b.dvsize < nb;
    forall a | a in FreeTiles(b.t) - {b.top}
      ensures b.t[a].size < nb
    {
      Positive(b, bins, {}, a);
      if a != b.dv { assert !Goes(b, nb, a); }
    }
  }

  /** A small request that finds a chunk of its size or the next one in a smallbin gets one of these,
      and the better one. */
  lemma ExactFirst(b: Book, b': Book, nb: nat, p: int, a: int)
    requires ServedBy(b, b', nb, p) && nb < MIN_LARGE_SIZE && a in Binned(b) && nb <= b.t[a].size <= nb + 8 && b.t[a].size < MIN_LARGE_SIZE
    ensures p in Binned(b) && nb <= b.t[p].size <= b.t[a].size
    ensures b'.t == b.t[p := Tile(b.t[p].size, true)] && Victim(b', b.dv, b.dvsize)
  {
    assert Fits(b, nb, a) && Goes(b, nb, a);
  }

  /** Otherwise it gets the designated victim if that fits, and else a smallest fitting chunk. */
  lemma ElseVictim(b: Book, b': Book, nb: nat, p: int)
    requires ServedBy(b, b', nb, p) && nb < MIN_LARGE_SIZE
    requires forall a <- Binned(b) :: b.t[a].size < nb || b.t[a].size > nb + 8 || b.t[a].size >= MIN_LARGE_SIZE
    ensures nb <= b.dvsize ==> p == b.dv
    ensures nb > b.dvsize && (exists a :: Fits(b, nb, a)) ==> SmallestFit(b, nb, p)
  {
    if nb > b.dvsize && exists a :: Fits(b, nb, a) {
      var a :| Fits(b, nb, a);
      assert Goes(b, nb, a);
    }
  }

  /** A large request gets a best fit over the bins and the designated victim together. */
  lemma LargeBest(b: Book, b': Book, nb: nat, p: int)
    requires ServedBy(b, b', nb, p) && nb >= MIN_LARGE_SIZE && (nb <= b.dvsize || exists a :: Fits(b, nb, a))
    ensures if p == b.dv then nb <= b.dvsize else Fits(b, nb, p)
    ensures var best := if p == b.dv then b.dvsize else b.t[p].size;
      (nb <= b.dvsize ==> best <= b.dvsize) && forall a :: Fits(b, nb, a) ==> best <= b.t[a].size
  {
    forall a | Fits(b, nb, a)
      ensures !FromBins(b, nb) ==> nb <= b.dvsize <= b.t[a].size
    {
      if !FromBins(b, nb) { assert !Goes(b, nb, a); }
    }
    if FromBins(b, nb) {
      var a :| Goes(b, nb, a);
    }
  }

  // ---------------------------------------------------------------- for the callers

  /** The bins as they are kept: the chunks of smallbins and treebins, and the sizes that the map of
      the smallbins has marked. */
  ghost predicate Kinds(b: Book, small: set<int>, tree: set<int>, marks: set<nat>) {
    && Binned(b) == small + tree
    && (forall a <- small :: a in b.t && b.t[a].size < MIN_LARGE_SIZE && exists i <- marks :: b.t[a].size == 8 * i)
    && (forall a <- tree :: a in b.t && b.t[a].size >= MIN_LARGE_SIZE)
  }

  lemma SmallServed(b: Book, small: set<int>, tree: set<int>, marks: set<nat>, idx: nat, p: int)
    requires Kinds(b, small, tree, marks) && p in small && (idx in marks || idx + 1 in marks)
    requires b.t[p].size == if idx in marks then 8 * idx else 8 * idx + 8
    ensures FromBins(b, 8 * idx) && SmallestFit(b, 8 * idx, p)
  {
    assert Goes(b, 8 * idx, p);
    forall a | Fits(b, 8 * idx, a)
      ensures b.t[p].size <= b.t[a].size
    {}
  }

  /** The first non-empty smallbin behind number `idx`. */
  ghost predicate NextMark(marks: set<nat>, idx: nat, i: nat) { i in marks && i > idx && forall j <- marks :: j <= idx || j >= i }

  lemma NextServed(b: Book, small: set<int>, tree: set<int>, marks: set<nat>, idx: nat, p: int)
    requires Kinds(b, small, tree, marks) && p in small && b.dvsize < 8 * idx && idx !in marks
    requires exists i: nat :: NextMark(marks, idx, i) && b.t[p].size == 8 * i
    ensures FromBins(b, 8 * idx) && SmallestFit(b, 8 * idx, p)
  {
    assert Goes(b, 8 * idx, p);
    forall a | Fits(b, 8 * idx, a)
      ensures b.t[p].size <= b.t[a].size
    {}
  }

  lemma TreeServed(b: Book, small: set<int>, tree: set<int>, marks: set<nat>, idx: nat, p: int)
    requires Kinds(b, small, tree, marks) && p in tree && b.dvsize < 8 * idx < MIN_LARGE_SIZE && forall j <- marks :: j < idx
    requires forall a <- tree :: b.t[p].size <= b.t[a].size
    ensures FromBins(b, 8 * idx) && SmallestFit(b, 8 * idx, p)
  {
    assert Goes(b, 8 * idx, p);
    forall a | Fits(b, 8 * idx, a)
      ensures a in tree
    {}
  }

  /** A small request that finds nothing in the bins: no size that goes before the victim, and
      nothing at all if the victim is too small. */
  lemma SmallElsewhere(b: Book, small: set<int>, tree: set<int>, marks: set<nat>, idx: nat)
    requires Kinds(b, small, tree, marks) && 8 * idx < MIN_LARGE_SIZE && idx !in marks && idx + 1 !in marks
    requires b.dvsize < 8 * idx ==> tree == {} && forall j <- marks :: j < idx
    ensures !FromBins(b, 8 * idx)
  {
    forall a | Fits(b, 8 * idx, a)
      ensures !Goes(b, 8 * idx, a)
    {}
  }

  lemma LargeServed(b: Book, small: set<int>, tree: set<int>, marks: set<nat>, nb: nat, p: int)
    requires Kinds(b, small, tree, marks) && nb >= MIN_LARGE_SIZE && p in tree && b.t[p].size >= nb && (b.dvsize < nb || b.t[p].size < b.dvsize)
    requires forall a <- tree :: b.t[a].size >= nb ==> b.t[p].size <= b.t[a].size
    ensures FromBins(b, nb) && SmallestFit(b, nb, p)
  {
    assert Goes(b, nb, p);
  }

  lemma LargeElsewhere(b: Book, small: set<int>, tree: set<int>, marks: set<nat>, nb: nat)
    requires Kinds(b, small, tree, marks) && nb >= MIN_LARGE_SIZE
    requires forall a <- tree :: b.t[a].size >= nb ==> nb <= b.dvsize <= b.t[a].size
    ensures !FromBins(b, nb)
  {}
}
