/** lj_alloc_free: merging with the neighbours, trimming top, releasing segments. */
module AllocFree {
  import opened AllocIndex
  import AllocBestFit
  import opened AllocTiles
  import opened AllocMoves
  import opened AllocSegments
  import opened AllocBooks
  import opened AllocState
  import opened AllocSystem

  // ---------------------------------------------------------------- merging

  /** A chunk given back is gone for the client, and nothing else is. */
  lemma Returned(m: MState, b: Book, held: set<int>, x: int, p: int, y: int)
    requires m.Sound(b, held) && Merging(b.m, b.t, b.segs, b.top, x, p, y) && x <= p && p in Live(b.t, b.segs) && p != m.state
    requires var n := Next(b.t, p);
      held == (if x == p then {} else {x}) + (if b.t[n].used || n == b.top then {} else {n})
    requires Emptied(HeapOf(b.t, b.segs, m.direct, m.state), b.content, p)
    ensures var b' := GaveBack(b, x, p);
      m.Sound(b', if Next(b.t, p) == b.top then {} else {x}) && x in b'.t && b'.t[x] == Tile(y - x, false) && p !in m.direct
      && HeapOf(b'.t, b'.segs, m.direct, m.state) == HeapOf(b.t, b.segs, m.direct, m.state) - {p}
  {
    hide Good, DirectsOk, Mapped, Remembered, Spares, Owned, Emptied, HeapOf, Kept, SameSizes, GaveBack;
    var b' := GaveBack(b, x, p);
    ReturnedStep(m, b, held, x, p, y);
    RememberedOwned(b.m, HeapOf(b.t, b.segs, m.direct, m.state), b.content);
    OwnedByOthers(HeapOf(b.t, b.segs, m.direct, m.state), b.content, p);
    ReturnedSpares(b, x, p, y);
    m.Restore(b, b', held, if Next(b.t, p) == b.top then {} else {x}, x);
  }

  lemma ReturnedStep(m: MState, b: Book, held: set<int>, x: int, p: int, y: int)
    requires m.Sound(b, held) && Merging(b.m, b.t, b.segs, b.top, x, p, y) && x <= p && p in Live(b.t, b.segs) && p != m.state
    requires var n := Next(b.t, p);
      held == (if x == p then {} else {x}) + (if b.t[n].used || n == b.top then {} else {n})
    ensures var b' := GaveBack(b, x, p);
      Good(b', m.Bins(), if Next(b.t, p) == b.top then {} else {x}) && SameSizes(b.m, b'.m, m.Bins()) && Kept(b.m, b'.m, b.t, b'.t)
      && m.state in Live(b'.t, b'.segs) && b'.segs == b.segs && b'.content == b.content
      && x in b'.t && b'.t[x] == Tile(y - x, false) && p !in m.direct
      && HeapOf(b'.t, b'.segs, m.direct, m.state) == HeapOf(b.t, b.segs, m.direct, m.state) - {p}
  {
    hide Mapped, Remembered, HeapOf, Geometry, Tags, Live;
    var b' := GaveBack(b, x, p);
    GiveBack(b, m.Bins(), held, x, p, y);
    FreeMerge(b.m, b.t, b.segs, b.top, x, p, y);
    if p in m.direct { DirectApart(b.t, b.segs, b.top, b.m, p, m.direct[p]); }
    ReturnedHeap(b, b', m.direct, m.state, x, p);
  }

  lemma ReturnedSpares(b: Book, x: int, p: int, y: int)
    requires Merging(b.m, b.t, b.segs, b.top, x, p, y)
    ensures x <= p && p in b.t && Next(b.t, p) in b.t ==> var b' := GaveBack(b, x, p); Spares(b.m, b'.m, b.t, b'.t, 0, x)
  {}

  lemma ReturnedHeap(b: Book, b': Book, direct: Directs, state: int, x: int, p: int)
    requires p in b.t && Next(b.t, p) in b.t && x <= p && b' == GaveBack(b, x, p) && p != state && p !in direct
    requires Live(b'.t, b'.segs) == Live(b.t, b.segs) - {p}
    ensures HeapOf(b'.t, b'.segs, direct, state) == HeapOf(b.t, b.segs, direct, state) - {p}
  {
    var h, h' := HeapOf(b.t, b.segs, direct, state), HeapOf(b'.t, b'.segs, direct, state);
    assert h'.Keys == h.Keys - {p};
    forall a | a in h'
      ensures h'[a] == h[a]
    {
      if a !in direct { assert a in Live(b'.t, b'.segs); }
    }
  }

  /** The chunk `p` in use, with the free chunk before it taken from its bin if there is
      one: `x` is where the merged chunk will start. */
  ghost predicate Freeing(m: MState, x: int, p: int)
    reads m
  {
    && p in Live(m.tiles, m.segs) && p != m.state && Next(m.tiles, p) in m.tiles && x <= p
    && (if x == p then p in m.mem.head && m.mem.head[p].pinuse
        else x in m.tiles && !m.tiles[x].used && Next(m.tiles, x) == p && x != m.top)
  }

  ghost function Front(x: int, p: int): set<int> { if x == p then {} else {x} }

  lemma FreeingMerges(m: MState, held: set<int>, x: int, p: int)
    requires m.ValidBut(held) && Freeing(m, x, p)
    ensures var n := Next(m.tiles, p);
      Merging(m.mem, m.tiles, m.segs, m.top, x, p, if m.tiles[n].used then n else Next(m.tiles, n))
      && n in m.mem.head && m.mem.head[n].cinuse == m.tiles[n].used && m.mem.head[n].size == m.tiles[n].size && m.mem.head[n].pinuse
      && p in m.mem.head && m.mem.head[p].size == m.tiles[p].size
  {
    LiveClient(m.Bk(), m.Bins(), held, p);
    var i := ClientNext(m.mem, m.tiles, m.segs, m.top, p);
    assert Tagged(m.mem, m.tiles, Next(m.tiles, p));
  }

  /** The step as a whole: what will hold once memory has been written. */
  lemma MayFree(m: MState, x: int, p: int)
    requires Freeing(m, x, p)
    requires var n := Next(m.tiles, p); m.ValidBut(Front(x, p) + (if m.tiles[n].used || n == m.top then {} else {n}))
    requires Emptied(m.Heap(), m.content, p)
    ensures m.top in m.tiles && m.tiles[m.top] == Tile(m.topsize, false)
    ensures var b', n := GaveBack(m.Bk(), x, p), Next(m.tiles, p);
      m.Sound(b', if n == m.top then {} else {x}) && x in b'.t && p !in m.direct
      && b'.t[x] == Tile((if m.tiles[n].used then n else Next(m.tiles, n)) - x, false)
      && HeapOf(b'.t, b'.segs, m.direct, m.state) == m.Heap() - {p}
  {
    var n := Next(m.tiles, p);
    var held := Front(x, p) + (if m.tiles[n].used || n == m.top then {} else {n});
    FreeingMerges(m, held, x, p);
    TopTile(m, held);
    hide Good;
    Returned(m, m.Bk(), held, x, p, if m.tiles[n].used then n else Next(m.tiles, n));
  }

  lemma TopTile(m: MState, held: set<int>)
    requires m.ValidBut(held)
    ensures m.top in m.tiles && m.tiles[m.top] == Tile(m.topsize, false)
  {}

  // The writes of lj_alloc_free, by what follows the chunk.

  method WriteBeforeUsed(m: MState, x: int, p: int, psize: nat, next: int)
    requires p in m.tiles && next == Next(m.tiles, p) && next in m.tiles && x <= p && x + psize == next && m.tiles[next].used && next != m.top
    modifies m`mem, m`tiles
    ensures m.Bk() == GaveBack(old(m.Bk()), x, p)
  {
    ghost var t' := MergedTiles(m.tiles, x, p);
    m.mem := SetFreeWithPinuse(m.mem, x, psize, next);
    m.tiles := t';
  }

  method WriteBeforeTop(m: MState, x: int, p: int, psize: nat)
    requires p in m.tiles && m.top == Next(m.tiles, p) && m.top in m.tiles && m.tiles[m.top] == Tile(m.topsize, false) && x <= p && x + psize == m.top
    modifies m`mem, m`tiles, m`top, m`topsize
    ensures m.Bk() == GaveBack(old(m.Bk()), x, p)
  {
    ghost var t' := MergedTiles(m.tiles, x, p);
    m.topsize := m.topsize + psize;
    m.top := x;
    m.mem := SetHead(m.mem, x, Head(m.topsize, true, false));
    m.tiles := t';
  }

  method WriteBeforeFree(m: MState, x: int, p: int, psize: nat, next: int)
    requires p in m.tiles && next == Next(m.tiles, p) && next in m.tiles && x <= p && !m.tiles[next].used && next != m.top
    requires x + psize == Next(m.tiles, next)
    modifies m`mem, m`tiles
    ensures m.Bk() == GaveBack(old(m.Bk()), x, p)
  {
    ghost var t' := MergedTiles(m.tiles, x, p);
    m.mem := SetSizeAndPinuseOfFree(m.mem, x, psize);
    m.tiles := t';
  }

  method FreeBeforeUsed(m: MState, x: int, p: int, psize: nat, next: int)
    requires m.ValidBut(Front(x, p)) && Freeing(m, x, p) && Emptied(m.Heap(), m.content, p) && next == Next(m.tiles, p) && psize == next - x && m.tiles[next].used
    modifies m`mem, m`tiles
    ensures m.ValidBut({x}) && x in m.tiles && m.tiles[x].size == psize && m.Heap() == old(m.Heap()) - {p}
    ensures m.Bk() == GaveBack(old(m.Bk()), x, p)
  {
    hide DirectsOk, Geometry, Tags, UsedOk, Remembered, Mapped, HeapOf, Good, MState.Sound;
    assert Front(x, p) + {} == Front(x, p);
    TopTile(m, Front(x, p));
    hide Good;
    MayFree(m, x, p);
    WriteBeforeUsed(m, x, p, psize, next);
  }

  method FreeBeforeTop(m: MState, x: int, p: int, psize: nat)
    requires m.ValidBut(Front(x, p)) && Freeing(m, x, p) && Emptied(m.Heap(), m.content, p) && m.top == Next(m.tiles, p) && psize == m.top - x
    modifies m`mem, m`tiles, m`top, m`topsize
    ensures m.Valid() && m.Heap() == old(m.Heap()) - {p} && m.Bk() == GaveBack(old(m.Bk()), x, p)
  {
    hide Good, HeapOf, MState.Sound;
    assert Front(x, p) + {} == Front(x, p);
    MayFree(m, x, p);
    WriteBeforeTop(m, x, p, psize);
  }

  /** What follows is free, and has been taken from its bin or from dv. */
  method FreeBeforeHeld(m: MState, x: int, p: int, psize: nat, next: int)
    requires Freeing(m, x, p) && Emptied(m.Heap(), m.content, p) && m.ValidBut(Front(x, p) + {next}) && next == Next(m.tiles, p) && next != m.top && !m.tiles[next].used
    requires psize == Next(m.tiles, next) - x
    modifies m`mem, m`tiles
    ensures m.ValidBut({x}) && x in m.tiles && m.tiles[x].size == psize && m.Heap() == old(m.Heap()) - {p}
    ensures m.Bk() == GaveBack(old(m.Bk()), x, p)
  {
    hide Good;
    MayFree(m, x, p);
    WriteBeforeFree(m, x, p, psize, next);
  }

  // ---------------------------------------------------------------- release_unused_segments

  /** After the system has taken a segment back. */
  lemma Released(m: MState, b: Book, bins: set<int>, direct: Directs, mapped: set<int>, k: nat)
    requires DirectsOk(b.m, b.segs, direct) && m.state in Live(b.t, b.segs)
    requires 0 < k < |b.segs| && b.segs[k].base in b.t && Good(b, bins, {b.segs[k].base}) && Mapped(b.segs, direct, mapped)
    requires Next(b.t, b.segs[k].base) >= b.segs[k].base + b.segs[k].size - TOP_FOOT_SIZE
    requires Remembered(b.m, HeapOf(b.t, b.segs, direct, m.state), b.content)
    ensures var b' := Dropped(b, k);
      && Good(b', bins, {}) && DirectsOk(b.m, b'.segs, direct) && m.state in Live(b'.t, b'.segs)
      && Mapped(b'.segs, direct, mapped - Range(b.segs[k].base, b.segs[k].size))
      && HeapOf(b'.t, b'.segs, direct, m.state) == HeapOf(b.t, b.segs, direct, m.state)
  {
    var b' := Dropped(b, k);
    Forget(b, bins, k);
    ReleasedDirects(b, direct, k);
    ReleasedMapped(b, bins, direct, mapped, k);
    LiveKept(b, b');
    SameHeap(b, b', direct, m.state);
  }

  lemma LiveKept(b: Book, b': Book)
    requires Live(b'.t, b'.segs) == Live(b.t, b.segs) && forall a <- b'.t :: a in b.t && b'.t[a] == b.t[a]
    ensures forall a <- Live(b.t, b.segs) :: a in b'.t && b'.t[a] == b.t[a]
  {
    forall a | a in Live(b.t, b.segs)
      ensures a in b'.t && b'.t[a] == b.t[a]
    {
      assert a in Live(b'.t, b'.segs);
    }
  }

  lemma ReleasedDirects(b: Book, direct: Directs, k: nat)
    requires DirectsOk(b.m, b.segs, direct) && 0 < k < |b.segs|
    ensures DirectsOk(b.m, WithoutSeg(b.segs, k), direct)
  {
    var segs' := WithoutSeg(b.segs, k);
    forall p, j | p in direct && 0 <= j < |segs'|
      ensures Disjoint(p, direct[p], segs'[j].base, segs'[j].size)
    {
      assert DirectOk(b.m, b.segs, p, direct[p]);
      WithoutAt(b.segs, k, j);
    }
    forall p | p in direct
      ensures p in b.m.head && p in b.m.foot
    {
      assert DirectOk(b.m, b.segs, p, direct[p]);
    }
    DirectsAfter(b.m, b.m, b.segs, segs', direct);
  }

  /** Disjoint ranges lose nothing when one of them goes. */
  lemma RangeKept(base: int, n: nat, b: int, k: nat, mapped: set<int>)
    requires Disjoint(base, n, b, k) && Range(base, n) <= mapped
    ensures Range(base, n) <= mapped - Range(b, k)
  {}

  lemma ReleasedMapped(b: Book, bins: set<int>, direct: Directs, mapped: set<int>, k: nat)
    requires 0 < k < |b.segs| && Segments(b.t, b.segs) && DirectsOk(b.m, b.segs, direct) && Mapped(b.segs, direct, mapped)
    ensures Mapped(WithoutSeg(b.segs, k), direct, mapped - Range(b.segs[k].base, b.segs[k].size))
  {
    var segs', s := WithoutSeg(b.segs, k), b.segs[k];
    forall j | 0 <= j < |segs'|
      ensures Range(segs'[j].base, segs'[j].size) <= mapped - Range(s.base, s.size)
    {
      WithoutAt(b.segs, k, j);
      var i := if j < k then j else j + 1;
      assert i < k ==> SegsApart(b.segs, i, k);
      assert k < i ==> SegsApart(b.segs, k, i);
      assert Range(b.segs[i].base, b.segs[i].size) <= mapped;
      RangeKept(segs'[j].base, segs'[j].size, s.base, s.size, mapped);
    }
    forall p | p in direct
      ensures Range(p, direct[p]) <= mapped - Range(s.base, s.size)
    {
      assert DirectOk(b.m, b.segs, p, direct[p]);
      RangeKept(p, direct[p], s.base, s.size, mapped);
    }
  }

  /** The free first chunk of a segment is taken from dv or from its bin. */
  method HoldFirst(m: MState, k: nat)
    requires m.Valid() && 0 < k < |m.segs| && m.segs[k].base in m.tiles && !m.tiles[m.segs[k].base].used
    modifies m`dv, m`dvsize, m.small, m.tree
    ensures m.ValidBut({m.segs[k].base})
  {
    hide Good, DirectsOk, Mapped;
    FirstTile(m, k);
    NotTop(m, k);
    var p := m.segs[k].base;
    assert {} + {p} == {p};
    if p == m.dv {
      m.ReleaseDv();
    } else {
      m.UnlinkChunk(p, m.mem.head[p].size);
    }
  }

  /** A whole segment that is one free chunk is given back, or, if the system refuses, its
      chunk is binned again. */
  method ReleaseSegment(m: MState, k: nat) returns (ok: bool)
    requires m.Valid() && 0 < k < |m.segs| && m.segs[k].base in m.tiles && !m.tiles[m.segs[k].base].used
    requires Next(m.tiles, m.segs[k].base) >= m.segs[k].base + m.segs[k].size - TOP_FOOT_SIZE
    modifies m`mapped, m`denied, m`segs, m`tiles, m`dv, m`dvsize, m.small, m.tree
    ensures m.Valid() && m.Heap() == old(m.Heap())
    ensures ok ==> m.segs == old(m.segs[..k] + m.segs[k + 1..]) && m.tiles == old(Drop(m.tiles, m.segs[k].base, m.segs[k].base + m.segs[k].size))
    ensures ok ==> m.denied == old(m.denied)
    ensures !ok ==> m.segs == old(m.segs) && m.tiles == old(m.tiles) && m.denied == old(m.denied + [(m.segs[k].base, m.segs[k].size)])
  {
    hide MState.Sound, HeapOf;
    FirstTile(m, k);
    var p := m.segs[k].base;
    var psize := m.mem.head[p].size;
    HoldFirst(m, k);
    ok := UnmapHeld(m, k);
    if !ok { m.InsertChunk(p, psize); }
  }

  /** If the system takes the segment back, its tiles and its record go. */
  method UnmapHeld(m: MState, k: nat) returns (ok: bool)
    requires 0 < k < |m.segs| && m.segs[k].base in m.tiles && m.ValidBut({m.segs[k].base})
    requires Next(m.tiles, m.segs[k].base) >= m.segs[k].base + m.segs[k].size - TOP_FOOT_SIZE
    modifies m`mapped, m`denied, m`segs, m`tiles
    ensures m.Heap() == old(m.Heap()) && if ok then m.Valid() else m.segs == old(m.segs) && m.ValidBut({m.segs[k].base})
    ensures ok ==> m.segs == old(m.segs[..k] + m.segs[k + 1..]) && m.tiles == old(Drop(m.tiles, m.segs[k].base, m.segs[k].base + m.segs[k].size))
    ensures ok ==> m.denied == old(m.denied)
    ensures !ok ==> m.tiles == old(m.tiles) && m.denied == old(m.denied + [(m.segs[k].base, m.segs[k].size)])
  {
    hide Good, Remembered, DirectsOk, Mapped, Live, HeapOf, Drop;
    var base, size := m.segs[k].base, m.segs[k].size;
    ghost var b := m.Bk();
    Released(m, b, m.Bins(), m.direct, m.mapped, k);
    ok := m.Munmap(base, size);
    if ok {
      m.tiles := Drop(m.tiles, base, base + size);
      m.segs := m.segs[..k] + m.segs[k + 1..];
      assert m.Bk() == Dropped(b, k);
    }
  }

  lemma NotTop(m: MState, k: nat)
    requires m.Valid() && 0 < k < |m.segs|
    ensures m.segs[k].base != m.top
  {
    assert SegOk(m.tiles, m.segs, 0) && SegOk(m.tiles, m.segs, k) && SegsApart(m.segs, 0, k);
    Positive(m.Bk(), m.Bins(), {}, m.top);
  }

  /** The first chunk of the segment is free and holds all of it. */
  ghost predicate Unused(t: Tiles, s: Seg) { s.base in t && !t[s.base].used && Next(t, s.base) >= s.base + s.size - TOP_FOOT_SIZE }

  /** Segments behind the first that are unused are those that the system has not taken back. */
  ghost predicate UnusedDenied(t: Tiles, segs: seq<Seg>, n: nat, denied: seq<(int, nat)>) {
    forall j | 0 < j < n && j < |segs| && Unused(t, segs[j]) :: (segs[j].base, segs[j].size) in denied
  }

  /** release_unused_segments: all unused segments go, as far as the system takes them back. */
  method ReleaseUnusedSegments(m: MState) returns (released: nat)
    requires m.Valid()
    modifies m`mapped, m`denied, m`segs, m`tiles, m`dv, m`dvsize, m`releaseChecks, m.small, m.tree
    ensures m.Valid() && m.Heap() == old(m.Heap())
    ensures UnusedDenied(m.tiles, m.segs, |m.segs|, m.denied) && old(m.denied) <= m.denied
    ensures m.segs != [] && old(m.segs) != [] && m.segs[0] == old(m.segs)[0]
  {
    hide Good, DirectsOk, Mapped, HeapOf, MState.Sound, UnusedDenied;
    TopFits(m);
    released := 0;
    var nsegs, k := 0, 1;
    NoneYet(m.tiles, m.segs, m.denied);
    while k < |m.segs|
      invariant m.Valid() && m.Heap() == old(m.Heap()) && 0 < k && m.segs != [] && m.segs[0] == old(m.segs)[0]
      invariant UnusedDenied(m.tiles, m.segs, k, m.denied) && old(m.denied) <= m.denied
      decreases |m.segs| - k
    {
      nsegs := nsegs + 1;
      FirstTile(m, k);
      var p, size := m.segs[k].base, m.segs[k].size;
      var psize := m.mem.head[p].size;
      ghost var t, segs, denied := m.tiles, m.segs, m.denied;
      if !m.mem.head[p].cinuse && p + psize >= p + size - TOP_FOOT_SIZE {
        var ok := ReleaseSegment(m, k);
        if ok {
          released := released + size;
          OneGone(t, segs, k, denied);
        } else {
          OneMore(t, segs, k, denied, m.denied);
          k := k + 1;
        }
      } else {
        OneMore(t, segs, k, denied, denied);
        k := k + 1;
      }
    }
    AllSeen(m.tiles, m.segs, k, m.denied);
    m.releaseChecks := if nsegs > MAX_RELEASE_CHECK_RATE then nsegs else MAX_RELEASE_CHECK_RATE;
  }

  lemma NoneYet(t: Tiles, segs: seq<Seg>, denied: seq<(int, nat)>)
    ensures UnusedDenied(t, segs, 1, denied)
  {}

  lemma AllSeen(t: Tiles, segs: seq<Seg>, k: nat, denied: seq<(int, nat)>)
    requires UnusedDenied(t, segs, k, denied) && k >= |segs|
    ensures UnusedDenied(t, segs, |segs|, denied)
  {}

  lemma StillDenied(d: seq<(int, nat)>, d': seq<(int, nat)>, x: (int, nat))
    requires d <= d' && x in d
    ensures x in d'
  {}

  lemma OneGone(t: Tiles, segs: seq<Seg>, k: nat, denied: seq<(int, nat)>)
    requires 0 < k < |segs| && UnusedDenied(t, segs, k, denied)
    ensures UnusedDenied(Drop(t, segs[k].base, segs[k].base + segs[k].size), segs[..k] + segs[k + 1..], k, denied)
  {}

  lemma OneMore(t: Tiles, segs: seq<Seg>, k: nat, denied: seq<(int, nat)>, denied': seq<(int, nat)>)
    requires 0 < k < |segs| && UnusedDenied(t, segs, k, denied)
    requires if Unused(t, segs[k]) then denied' == denied + [(segs[k].base, segs[k].size)] else denied' == denied
    ensures UnusedDenied(t, segs, k + 1, denied')
  {
    assert Unused(t, segs[k]) ==> (segs[k].base, segs[k].size) in denied';
  }

  // ---------------------------------------------------------------- alloc_trim

  /** How much of top goes back: a multiple of the granularity that leaves more than `pad`. */
  function Extra(topsize: nat, pad: nat): nat
    requires topsize > pad
  {
    ((topsize - pad + (GRANULARITY - 1)) / GRANULARITY - 1) * GRANULARITY
  }

  lemma ExtraFacts(topsize: nat, pad: nat)
    requires topsize > pad
    ensures Granular(Extra(topsize, pad)) && pad < topsize - Extra(topsize, pad) <= pad + GRANULARITY
  {
    var q := (topsize - pad + (GRANULARITY - 1)) / GRANULARITY;
    assert q >= 1 && q * GRANULARITY <= topsize - pad + (GRANULARITY - 1) < q * GRANULARITY + GRANULARITY;
    assert (q - 1) * GRANULARITY % GRANULARITY == 0;
  }

  /** has_segment_link for the first segment. */
  predicate HasSegmentLink(segs: seq<Seg>, state: int)
    requires segs != []
  {
    Within(state, segs[0].base, segs[0].size) || exists j :: 0 < j < |segs| && Within(segs[j].rec, segs[0].base, segs[0].size)
  }

  /** The tail of the first segment is gone: top ends earlier. */
  lemma Trimmed(m: MState, b: Book, mapped: set<int>, extra: nat)
    requires m.small.Valid(SizesOf(b.m)) && m.tree.Valid(SizesOf(b.m)) && DirectsOk(b.m, b.segs, m.direct) && m.state in Live(b.t, b.segs)
    requires Good(b, m.Bins(), {}) && Mapped(b.segs, m.direct, mapped) && Granular(extra) && TOP_FOOT_SIZE <= extra < b.topsize
    requires m.mapped == mapped - Range(b.segs[0].base + b.segs[0].size - extra, extra)
    requires Remembered(b.m, HeapOf(b.t, b.segs, m.direct, m.state), b.content)
    ensures var b' := Resized(b, b.segs[0].size - extra, b.topsize - extra);
      m.Sound(b', {}) && HeapOf(b'.t, b'.segs, m.direct, m.state) == HeapOf(b.t, b.segs, m.direct, m.state)
  {
    hide Remembered, Spares, Mapped, Owned, DirectsOk, Tags;
    var n, s := b.segs[0].size - extra, b.topsize - extra;
    var b' := Resized(b, n, s);
    TrimResizes(b, m.Bins(), extra);
    Resize(b, m.Bins(), n, s);
    ReframeSmall(m.small, SizesOf(b.m), SizesOf(b'.m));
    ReframeTree(m.tree, SizesOf(b.m), SizesOf(b'.m));
    TrimDirects(b, m.Bins(), m.direct, extra);
    TrimMapped(b, m.direct, mapped, extra);
    TrimLive(b, m.Bins(), b');
    SameHeap(b, b', m.direct, m.state);
    RememberedOwned(b.m, HeapOf(b.t, b.segs, m.direct, m.state), b.content);
    ResizedSpares(b, n, s);
    StillThere(b, b', m.direct, m.state, b.top + s, -1);
  }

  lemma TrimLive(b: Book, bins: set<int>, b': Book)
    requires Good(b, bins, {}) && forall a <- b.t :: a != b.top ==> a in b'.t && b'.t[a] == b.t[a]
    ensures forall a <- Live(b.t, b.segs) :: a in b'.t && b'.t[a] == b.t[a]
  {}

  lemma TrimResizes(b: Book, bins: set<int>, extra: nat)
    requires Good(b, bins, {}) && Granular(extra) && extra < b.topsize
    ensures MayResize(b.t, b.segs, b.top, b.segs[0].size - extra, b.topsize - extra)
  {
    hide Tail, Tags, UsedOk, Accounted, Placed, FreeOk, Clear, Granular;
    var n := b.segs[0].size - extra;
    assert SegOk(b.t, b.segs, 0);
    Positive(b, bins, {}, b.top);
    GranularSums(0, b.segs[0].size, extra);
    GranularAligned(extra);
    PositiveGranular(n);
    Minus8(b.topsize, extra);
    forall j | 0 < j < |b.segs|
      ensures Disjoint(b.segs[0].base, n, b.segs[j].base, b.segs[j].size)
    {
      assert SegsApart(b.segs, 0, j);
    }
  }

  lemma PositiveGranular(n: int)
    requires n > 0 && Granular(n)
    ensures n >= GRANULARITY
  {}

  lemma TrimDirects(b: Book, bins: set<int>, direct: Directs, extra: nat)
    requires Good(b, bins, {}) && DirectsOk(b.m, b.segs, direct) && TOP_FOOT_SIZE <= extra < b.topsize
    ensures var b' := Resized(b, b.segs[0].size - extra, b.topsize - extra); DirectsOk(b'.m, b'.segs, direct)
  {
    var b' := Resized(b, b.segs[0].size - extra, b.topsize - extra);
    forall p, j | p in direct && 0 <= j < |b'.segs|
      ensures Disjoint(p, direct[p], b'.segs[j].base, b'.segs[j].size)
    {
      assert DirectOk(b.m, b.segs, p, direct[p]);
      assert Disjoint(p, direct[p], b.segs[j].base, b.segs[j].size);
    }
    forall p | p in direct
      ensures p != b.top && p != b.top + b.topsize - extra && p in b.m.head && p in b.m.foot
    {
      assert DirectOk(b.m, b.segs, p, direct[p]);
      assert Disjoint(p, direct[p], b.segs[0].base, b.segs[0].size);
    }
    DirectsAfter(b.m, b'.m, b.segs, b'.segs, direct);
  }

  lemma TrimMapped(b: Book, direct: Directs, mapped: set<int>, extra: nat)
    requires Segments(b.t, b.segs) && DirectsOk(b.m, b.segs, direct) && Mapped(b.segs, direct, mapped) && extra < b.segs[0].size
    ensures Mapped(ResizedSegs(b.segs, b.segs[0].size - extra), direct, mapped - Range(b.segs[0].base + b.segs[0].size - extra, extra))
  {
    var segs', n := ResizedSegs(b.segs, b.segs[0].size - extra), b.segs[0].size - extra;
    var at := b.segs[0].base + n;
    forall j | 0 <= j < |segs'|
      ensures Range(segs'[j].base, segs'[j].size) <= mapped - Range(at, extra)
    {
      assert j > 0 ==> SegsApart(b.segs, 0, j);
      assert Range(b.segs[j].base, b.segs[j].size) <= mapped;
      if j == 0 { RangePrefix(b.segs[0].base, n, b.segs[0].size, mapped); }
      RangeKept(segs'[j].base, segs'[j].size, at, extra, mapped);
    }
    forall p | p in direct
      ensures Range(p, direct[p]) <= mapped - Range(at, extra)
    {
      assert DirectOk(b.m, b.segs, p, direct[p]) && Disjoint(p, direct[p], b.segs[0].base, b.segs[0].size);
      RangeKept(p, direct[p], at, extra, mapped);
    }
  }

  lemma RangePrefix(base: int, n: nat, k: nat, mapped: set<int>)
    requires n <= k && Range(base, k) <= mapped
    ensures Range(base, n) <= mapped
  {
    forall x | x in Range(base, n)
      ensures x in mapped
    {
      InRange(x, base, k);
    }
  }

  method WriteTrim(m: MState, extra: nat)
    requires m.segs != [] && extra <= m.segs[0].size && extra <= m.topsize
    modifies m`mem, m`tiles, m`segs, m`topsize, m`trimCheck
    ensures m.Bk() == Resized(old(m.Bk()), old(m.segs)[0].size - extra, old(m.topsize) - extra)
  {
    m.segs := m.segs[0 := Seg(m.segs[0].base, m.segs[0].size - extra, m.segs[0].rec)];
    m.topsize := m.topsize - extra;
    m.mem := InitTop(m.mem, m.top, m.topsize);
    m.trimCheck := DEFAULT_TRIM_THRESHOLD;
    m.tiles := m.tiles[m.top := Tile(m.topsize, false)];
  }

  /** The part of alloc_trim that shrinks top. */
  method ShrinkTop(m: MState, extra: nat) returns (released: nat)
    requires m.Valid() && Granular(extra) && extra < m.topsize && extra <= m.segs[0].size && m.segs != []
    modifies m`mem, m`tiles, m`segs, m`topsize, m`trimCheck, m`mapped, m`denied
    ensures m.Valid() && m.Heap() == old(m.Heap()) && m.segs != [] && m.segs[0].base == old(m.segs)[0].base
    ensures m.topsize == old(m.topsize) - released && m.segs[0].size == old(m.segs)[0].size - released
    ensures released == extra || (released == 0 && m.denied == old(m.denied) + [(m.segs[0].base + m.segs[0].size - extra, extra)])
  {
    hide Good, DirectsOk, Mapped, HeapOf;
    released := 0;
    var newsize := m.segs[0].size - extra;
    ghost var b, mapped := m.Bk(), m.mapped;
    // mremap, or else munmap: either way the system may refuse.
    var ok := m.Munmap(m.segs[0].base + newsize, extra);
    if ok {
      released := extra;
    }
    if released != 0 {
      PositiveGranular(extra);
      Trimmed(m, b, mapped, extra);
      WriteTrim(m, extra);
    } else {
      assert m.mapped == mapped;
    }
  }

  lemma TopFits(m: MState)
    requires m.Valid()
    ensures m.segs != [] && m.topsize < m.segs[0].size && m.top > 0
  {
    assert SegOk(m.tiles, m.segs, 0);
    Positive(m.Bk(), m.Bins(), {}, m.top);
  }

  /** Top can be shrunk: more than `pad` is left then, its segment has that much, and neither a segment
      record nor the state is in the way. */
  predicate TrimDue(topsize: nat, segs: seq<Seg>, state: int, pad: nat)
    requires segs != []
  {
    pad < SIZE_T_LIMIT - 128 && topsize > pad + TOP_FOOT_SIZE
    && segs[0].size >= Extra(topsize, pad + TOP_FOOT_SIZE) && !HasSegmentLink(segs, state)
  }

  /** alloc_trim: top gets smaller if it can be shrunk and the system takes the memory back, by as many
      units as leave more than `pad`, and unused segments go. */
  method AllocTrim(m: MState, pad: nat) returns (any: bool)
    requires m.Valid()
    modifies m, m.small, m.tree
    ensures m.Valid() && m.Heap() == old(m.Heap()) && m.direct == old(m.direct) && m.content == old(m.content)
    ensures old(m.segs) != [] && m.segs != [] && m.top == old(m.top) && m.segs[0].base == old(m.segs)[0].base
    ensures if TrimDue(old(m.topsize), old(m.segs), m.state, pad)
      then TopTrimmed(old(m.topsize), m.topsize, Extra(old(m.topsize), pad + TOP_FOOT_SIZE), m.segs[0].base + m.segs[0].size, m.denied)
      else m.topsize == old(m.topsize)
    ensures pad < SIZE_T_LIMIT - 128 ==> UnusedDenied(m.tiles, m.segs, |m.segs|, m.denied)
  {
    hide Good, DirectsOk, Mapped, HeapOf, Geometry, Accounted, MState.Sound, UnusedDenied;
    var released := 0;
    TopFits(m);
    ghost var tail := (0, 0);
    if pad < SIZE_T_LIMIT - 128 && m.top != 0 {
      if m.topsize > pad + TOP_FOOT_SIZE {
        var extra := Extra(m.topsize, pad + TOP_FOOT_SIZE);
        ExtraFacts(m.topsize, pad + TOP_FOOT_SIZE);
        if m.segs[0].size >= extra && !HasSegmentLink(m.segs, m.state) {
          released := ShrinkTop(m, extra);
          tail := (m.segs[0].base + m.segs[0].size - extra, extra);
        }
      }
      ghost var denied := m.denied;
      var more := ReleaseUnusedSegments(m);
      if tail in denied { StillDenied(denied, m.denied, tail); }
      released := released + more;
      if released == 0 && m.topsize > m.trimCheck {
        m.trimCheck := SIZE_T_LIMIT - 1;
      }
    }
    any := released != 0;
  }

  ghost predicate TopTrimmed(topsize: nat, topsize': nat, extra: nat, end: int, denied: seq<(int, nat)>) {
    topsize' == topsize - extra || (topsize' == topsize && (end - extra, extra) in denied)
  }

  // ---------------------------------------------------------------- direct chunks

  lemma DirectGone(m: MState, b: Book, direct: Directs, mapped: set<int>, p: int)
    requires Good(b, m.Bins(), {}) && DirectsOk(b.m, b.segs, direct) && Mapped(b.segs, direct, mapped) && p in direct
    ensures DirectsOk(b.m, b.segs, direct - {p})
    ensures Mapped(b.segs, direct - {p}, mapped) && Mapped(b.segs, direct - {p}, mapped - Range(p, direct[p]))
    ensures p !in b.t && HeapOf(b.t, b.segs, direct - {p}, m.state) == HeapOf(b.t, b.segs, direct, m.state) - {p}
  {
    var d', n := direct - {p}, direct[p];
    assert DirectOk(b.m, b.segs, p, n);
    DirectApart(b.t, b.segs, b.top, b.m, p, n);
    forall q | q in d'
      ensures DirectOk(b.m, b.segs, q, d'[q]) && Range(q, d'[q]) <= mapped - Range(p, n)
    {
      assert DirectOk(b.m, b.segs, q, direct[q]) && Disjoint(q, direct[q], p, direct[p]);
      RangeKept(q, d'[q], p, n, mapped);
    }
    forall q, r | q in d' && r in d' && q != r
      ensures Disjoint(q, d'[q], r, d'[r])
    {
      assert Disjoint(q, direct[q], r, direct[r]);
    }
    forall j | 0 <= j < |b.segs|
      ensures Range(b.segs[j].base, b.segs[j].size) <= mapped - Range(p, n)
    {
      assert Disjoint(p, n, b.segs[j].base, b.segs[j].size);
      RangeKept(b.segs[j].base, b.segs[j].size, p, n, mapped);
    }
    DirectGoneHeap(b.t, b.segs, direct, m.state, p);
  }

  lemma DirectGoneHeap(t: Tiles, segs: seq<Seg>, direct: Directs, state: int, p: int)
    requires p in direct && p !in t
    ensures HeapOf(t, segs, direct - {p}, state) == HeapOf(t, segs, direct, state) - {p}
  {
    var h, h' := HeapOf(t, segs, direct, state), HeapOf(t, segs, direct - {p}, state);
    assert h'.Keys == h.Keys - {p};
    forall a | a in h'
      ensures h'[a] == h[a]
    {}
  }

  lemma DirectFields(m: MState, p: int)
    requires DirectsOk(m.mem, m.segs, m.direct) && p in m.direct
    ensures p in m.mem.head && p in m.mem.foot && m.mem.foot[p] == IS_DIRECT_BIT && m.mem.head[p].size + DIRECT_FOOT_PAD == m.direct[p]
  {
    assert DirectOk(m.mem, m.segs, p, m.direct[p]);
  }

  lemma RemembersOthers(m: Mem, h: map<int, int>, content: map<int, nat>, p: int)
    requires Remembered(m, h, content) && Emptied(h, content, p)
    ensures Remembered(m, h - {p}, content)
  {
    OwnedByOthers(h, content, p);
  }

  method FreeDirect(m: MState, p: int)
    requires m.Valid() && p in m.direct && p in m.mem.head && p in m.mem.foot && Emptied(m.Heap(), m.content, p)
    modifies m`direct, m`mapped, m`denied
    ensures m.Valid() && m.Heap() == old(m.Heap()) - {p}
    ensures m.direct == old(m.direct) - {p}
    ensures m.mapped == old(m.mapped - Range(p, m.direct[p])) || m.denied == old(m.denied + [(p, m.direct[p])])
  {
    hide Good, DirectsOk, Mapped, HeapOf;
    DirectFields(m, p);
    var prevsize := m.mem.foot[p] - IS_DIRECT_BIT;
    var psize := m.mem.head[p].size + prevsize + DIRECT_FOOT_PAD;
    DirectGone(m, m.Bk(), m.direct, m.mapped, p);
    RemembersOthers(m.mem, m.Heap(), m.content, p);
    var ok := m.Munmap(p - prevsize, psize);
    m.direct := m.direct - {p};
  }

  // ---------------------------------------------------------------- lj_alloc_free

  /** How the two kinds of chunks are told apart: by the PINUSE bit and the lowest bit of the
      foot field before the chunk. */
  lemma IsDirect(m: MState, p: int)
    requires m.Valid() && p in m.Heap()
    ensures p in m.mem.head && p > 0 && p != m.state
    ensures p in m.direct ==> !m.mem.head[p].pinuse && p in m.mem.foot && m.mem.foot[p] % 2 == 1
    ensures p !in m.direct ==> p in Live(m.tiles, m.segs) && p in m.tiles && Next(m.tiles, p) in m.tiles && m.mem.head[p].size == m.tiles[p].size
    ensures p !in m.direct && !m.mem.head[p].pinuse ==> p in m.mem.foot && m.mem.foot[p] % 2 == 0 && m.mem.foot[p] > 0 && Freeing(m, p - m.mem.foot[p], p)
    ensures p !in m.direct && m.mem.head[p].pinuse ==> Freeing(m, p, p)
  {
    hide Freeing, MState.ValidBut;
    if p in m.direct { DirectIs(m, p); } else { SegmentIs(m, p); }
  }

  lemma DirectIs(m: MState, p: int)
    requires m.Valid() && p in m.direct
    ensures p in m.mem.head && p > 0 && p != m.state
    ensures !m.mem.head[p].pinuse && p in m.mem.foot && m.mem.foot[p] % 2 == 1
  {
    assert DirectOk(m.mem, m.segs, p, m.direct[p]);
    DirectApart(m.tiles, m.segs, m.top, m.mem, p, m.direct[p]);
    assert m.state in m.tiles;
  }

  lemma SegmentIs(m: MState, p: int)
    requires m.Valid() && p in m.Heap() && p !in m.direct
    ensures p in m.mem.head && p > 0 && p != m.state && p in Live(m.tiles, m.segs) && p in m.tiles
    ensures Next(m.tiles, p) in m.tiles && m.mem.head[p].size == m.tiles[p].size
    ensures if m.mem.head[p].pinuse then Freeing(m, p, p)
      else p in m.mem.foot && m.mem.foot[p] % 2 == 0 && m.mem.foot[p] > 0 && Freeing(m, p - m.mem.foot[p], p)
  {
    hide Remembered, DirectsOk, Mapped, Good;
    LiveFacts(m.Bk(), m.Bins(), p);
    if !m.mem.head[p].pinuse { FreeBeforeFacts(m.Bk(), m.Bins(), p); }
  }

  lemma LiveFacts(b: Book, bins: set<int>, p: int)
    requires Good(b, bins, {}) && p in Live(b.t, b.segs)
    ensures p in b.m.head && p > 0 && Next(b.t, p) in b.t && b.m.head[p].size == b.t[p].size
  {
    hide Geometry, Tags, UsedOk, Accounted, InSeg;
    Positive(b, bins, {}, p);
    LiveClient(b, bins, {}, p);
    var i := ClientNext(b.m, b.t, b.segs, b.top, p);
  }

  lemma FreeBeforeFacts(b: Book, bins: set<int>, p: int)
    requires Good(b, bins, {}) && p in b.t && p in b.m.head && !b.m.head[p].pinuse
    ensures p in b.m.foot && b.m.foot[p] % 2 == 0 && b.m.foot[p] > 0
    ensures var x := p - b.m.foot[p]; x in b.t && !b.t[x].used && Next(b.t, x) == p && x != b.top
  {
    hide Geometry, Tags, UsedOk, Accounted, InSeg;
    var j := FreeBefore(b.m, b.t, b.segs, b.top, p);
    Positive(b, bins, {}, p - b.m.foot[p]);
    Even(b.m.foot[p]);
  }

  lemma {:induction false} Even(n: nat)
    requires n % 8 == 0
    ensures n % 2 == 0
  {
    if n >= 8 { Even(n - 8); }
  }

  /** What follows a chunk that is being freed. */
  lemma NextFacts(m: MState, held: set<int>, x: int, p: int)
    requires m.ValidBut(held) && Freeing(m, x, p) && (held == {} || held == {x})
    ensures var n := Next(m.tiles, p);
      n in m.tiles && n in m.mem.head && m.mem.head[n].cinuse == m.tiles[n].used && m.mem.head[n].size == m.tiles[n].size
      && m.mem.head[n].pinuse && n != x && n > 0 && (n == m.top ==> !m.tiles[n].used)
      && (n == m.dv ==> !m.tiles[n].used && m.dvsize == m.tiles[n].size) && (!m.tiles[n].used && n != m.top && n != m.dv ==> n in m.Bins())
  {
    FreeingMerges(m, held, x, p);
    Positive(m.Bk(), m.Bins(), held, Next(m.tiles, p));
    Positive(m.Bk(), m.Bins(), held, p);
  }

  /** The merged chunk goes to dv or into a bin. */
  method FinishFree(m: MState, x: int, psize: nat, wasDv: bool)
    requires m.ValidBut({x}) && x in m.tiles && m.tiles[x].size == psize && (wasDv ==> m.dv == 0)
    modifies m, m.small, m.tree
    ensures m.Valid() && m.Heap() == old(m.Heap()) && m.content == old(m.content)
    ensures if wasDv then m.Bk() == old(m.Bk()).(dv := x, dvsize := psize)
      else if psize < 256 || AllocBestFit.Minus(old(m.releaseChecks), 1) != 0 then m.Bk() == old(m.Bk())
      else UnusedDenied(m.tiles, m.segs, |m.segs|, m.denied)
  {
    hide Good, DirectsOk, Mapped, HeapOf, UnusedDenied;
    if wasDv {
      m.MakeDv(x, psize);
    } else {
      m.InsertChunk(x, psize);
      if psize >= 256 {
        m.releaseChecks := AllocBestFit.Minus(m.releaseChecks, 1);
        if m.releaseChecks == 0 {
          var released := ReleaseUnusedSegments(m);
        }
      }
    }
  }

  method FreeIntoDv(m: MState, x: int, p: int, psize: nat, next: int)
    requires m.ValidBut(Front(x, p)) && Freeing(m, x, p) && Emptied(m.Heap(), m.content, p) && next == Next(m.tiles, p) && next == m.dv && psize == next - x
    modifies m
    ensures m.Valid() && m.Heap() == old(m.Heap()) - {p} && m.content == old(m.content)
    ensures x in m.tiles && m.Bk() == GaveBack(old(m.Bk()), x, p).(dv := x, dvsize := m.tiles[x].size)
  {
    hide Good, DirectsOk, Mapped, HeapOf;
    NextFacts(m, Front(x, p), x, p);
    DvNotTop(m, Front(x, p));
    var dsize := m.dvsize + psize;
    m.ReleaseDv(Front(x, p));
    FreeBeforeHeld(m, x, p, dsize, next);
    m.MakeDv(x, dsize);
  }

  lemma DvNotTop(m: MState, held: set<int>)
    requires m.ValidBut(held) && m.dv != 0
    ensures m.dv != m.top
  {}

  method FreeIntoNext(m: MState, x: int, p: int, psize: nat, next: int) returns (size: nat)
    requires m.ValidBut(Front(x, p)) && Freeing(m, x, p) && Emptied(m.Heap(), m.content, p) && next == Next(m.tiles, p) && next in m.Bins() && psize == next - x
    modifies m`mem, m`tiles, m.small, m.tree
    ensures m.ValidBut({x}) && x in m.tiles && m.tiles[x].size == size && m.Heap() == old(m.Heap()) - {p}
    ensures m.Bk() == GaveBack(old(m.Bk()), x, p)
  {
    hide Good, DirectsOk, Mapped, HeapOf;
    NextFacts(m, Front(x, p), x, p);
    var nsize := m.mem.head[next].size;
    size := psize + nsize;
    m.UnlinkChunk(next, nsize, Front(x, p));
    FreeBeforeHeld(m, x, p, size, next);
  }

  /** The chunk `p` and its free neighbours are one: it is top, the designated victim, or in a bin, as its
      neighbours were. */
  ghost function Freed(b: Book, x: int, p: int, wasDv: bool): Book
    requires p in b.t && Next(b.t, p) in b.t && x <= p
  {
    var n, b' := Next(b.t, p), GaveBack(b, x, p);
    if n != b.top && (wasDv || n == b.dv) then b'.(dv := x, dvsize := b'.t[x].size) else b'
  }

  /** No memory goes back to the system at this occasion: top does not get too large, and it is not yet
      time to look for unused segments. */
  ghost predicate Quiet(b: Book, x: int, p: int, wasDv: bool, trimCheck: nat, releaseChecks: nat)
    requires p in b.t && Next(b.t, p) in b.t && x <= p
  {
    var n := Next(b.t, p);
    if n == b.top then b.topsize + (n - x) <= trimCheck
    else wasDv || n == b.dv || Freed(b, x, p, wasDv).t[x].size < 256 || AllocBestFit.Minus(releaseChecks, 1) != 0
  }

  /** lj_alloc_free for the chunk `p` of a segment, from the test of `next` on. `x` is where
      the merged chunk starts; it has been taken from its bin, or from dv if `wasDv`. */
  method FreeForward(m: MState, x: int, p: int, wasDv: bool)
    requires m.ValidBut(Front(x, p)) && Freeing(m, x, p) && p in m.mem.head && Emptied(m.Heap(), m.content, p) && (wasDv ==> m.dv == 0 && x != p)
    modifies m, m.small, m.tree
    ensures m.Valid() && m.Heap() == old(m.Heap()) - {p} && m.content == old(m.content)
    ensures p in old(m.tiles) && Next(old(m.tiles), p) in old(m.tiles) && x <= p
    ensures if Quiet(old(m.Bk()), x, p, wasDv, old(m.trimCheck), old(m.releaseChecks)) then m.Bk() == Freed(old(m.Bk()), x, p, wasDv)
      else UnusedDenied(m.tiles, m.segs, |m.segs|, m.denied)
  {
    hide Good, DirectsOk, Mapped, HeapOf, Freeing, UnusedDenied, MergedMem, MergedTiles, MState.Sound;
    TopTile(m, Front(x, p));
    StepForward(m, x, p);
    MergedAt(m.tiles, x, p);
    var next := p + m.mem.head[p].size;
    var psize := next - x;
    if !m.mem.head[next].cinuse {
      if next == m.top {
        FreeBeforeTop(m, x, p, psize);
        if m.topsize > m.trimCheck {
          var any := AllocTrim(m, 0);
        }
        return;
      } else if next == m.dv {
        FreeIntoDv(m, x, p, psize, next);
        return;
      }
      psize := FreeIntoNext(m, x, p, psize, next);
    } else {
      FreeBeforeUsed(m, x, p, psize, next);
    }
    FinishFree(m, x, psize, wasDv);
  }

  lemma MergedAt(t: Tiles, x: int, p: int)
    requires p in t && Next(t, p) in t && x <= p
    ensures var n := Next(t, p); var y := if t[n].used then n else Next(t, n);
      x in MergedTiles(t, x, p) && (x < y ==> MergedTiles(t, x, p)[x] == Tile(y - x, false))
  {}

  lemma StepForward(m: MState, x: int, p: int)
    requires m.ValidBut(Front(x, p)) && Freeing(m, x, p)
    ensures p in m.tiles && p in m.mem.head && m.mem.head[p].size == m.tiles[p].size && x <= p
    ensures var n := Next(m.tiles, p);
      n in m.tiles && n in m.mem.head && m.mem.head[n].cinuse == m.tiles[n].used && n > 0
      && (!m.tiles[n].used && n != m.top && n != m.dv ==> n in m.Bins()) && (m.tiles[n].used ==> n != m.top && n != m.dv)
  {
    FreeingMerges(m, Front(x, p), x, p);
    NextFacts(m, Front(x, p), x, p);
  }

  /** `x` is the free chunk right in front of `p`, or `p` itself if there is none. */
  ghost predicate FrontIs(t: Tiles, p: int, x: int) {
    if x == p then forall a <- t :: !t[a].used ==> Next(t, a) != p else x in t && !t[x].used && Next(t, x) == p
  }

  /** What becomes of the chunk `p` of a segment: it merges with its free neighbours, and at most once in a
      while the system gets memory back. */
  ghost predicate FreedFrom(b: Book, b': Book, p: int, x: int, trimCheck: nat, releaseChecks: nat, denied: seq<(int, nat)>) {
    && p in b.t && Next(b.t, p) in b.t && x <= p && FrontIs(b.t, p, x)
    && var wasDv := x != p && x == b.dv;
       var b0 := if wasDv then b.(dv := 0, dvsize := 0) else b;
       if Quiet(b0, x, p, wasDv, trimCheck, releaseChecks) then b' == Freed(b0, x, p, wasDv) else UnusedDenied(b'.t, b'.segs, |b'.segs|, denied)
  }

  ghost predicate FreesTo(b: Book, b': Book, p: int, trimCheck: nat, releaseChecks: nat, denied: seq<(int, nat)>) {
    exists x :: FreedFrom(b, b', p, x, trimCheck, releaseChecks, denied)
  }

  lemma NoneInFront(m: MState, p: int)
    requires m.Valid() && p in m.tiles && p in m.mem.head && m.mem.head[p].pinuse
    ensures FrontIs(m.tiles, p, p)
  {
    hide Good, DirectsOk, Mapped, Remembered;
    forall a | a in m.tiles && !m.tiles[a].used
      ensures Next(m.tiles, a) != p
    {
      if Next(m.tiles, a) in m.tiles { Shown(m.Bk(), m.Bins(), a); }
    }
  }

  lemma Shown(b: Book, bins: set<int>, a: int)
    requires Good(b, bins, {}) && a in b.t && Next(b.t, a) in b.t
    ensures Next(b.t, a) in b.m.head && b.m.head[Next(b.t, a)].pinuse == b.t[a].used
  {
    assert Tagged(b.m, b.t, a);
  }

  /** lj_alloc_free for a chunk `p` of a segment that has a free chunk in front of it. */
  method FreeWithFront(m: MState, p: int, prevsize: int) returns (prev: int)
    requires m.Valid() && Freeing(m, p - prevsize, p) && prevsize != 0 && p in m.mem.head && Emptied(m.Heap(), m.content, p)
    modifies m, m.small, m.tree
    ensures m.Valid() && m.Heap() == old(m.Heap()) - {p} && m.content == old(m.content)
    ensures FreedFrom(old(m.Bk()), m.Bk(), p, prev, old(m.trimCheck), old(m.releaseChecks), m.denied)
  {
    hide Good, DirectsOk, Mapped, HeapOf, DirectOk, Geometry, Emptied, MState.Sound, Quiet, Freed, UnusedDenied;
    prev := p - prevsize;
    PrevFacts(m, prev, p);
    if prev != m.dv {
      m.UnlinkChunk(prev, prevsize);
      assert {} + {prev} == Front(prev, p);
      FreeForward(m, prev, p, false);
    } else {
      m.ReleaseDv();
      assert {} + {prev} == Front(prev, p);
      FreeForward(m, prev, p, true);
    }
  }

  /** lj_alloc_free: the block is gone, the others are as they were. */
  method Free(m: MState, ptr: int)
    requires m.Valid() && (ptr == 0 || ptr - 16 in m.Heap())
    modifies m, m.small, m.tree
    ensures m.Valid() && m.Heap() == if ptr == 0 then old(m.Heap()) else old(m.Heap()) - {ptr - 16}
    ensures m.content == if ptr == 0 then old(m.content) else Forgotten(old(m.content), ptr - 16, old(m.Heap())[ptr - 16])
    ensures ptr != 0 && ptr - 16 in old(m.direct) ==> m.Bk() == old(m.Bk()).(content := m.content) && m.direct == old(m.direct) - {ptr - 16}
    ensures ptr != 0 && ptr - 16 !in old(m.direct) ==> FreesTo(old(m.Bk()).(content := m.content), m.Bk(), ptr - 16, old(m.trimCheck), old(m.releaseChecks), m.denied)
  {
    hide Good, DirectsOk, Mapped, HeapOf, DirectOk, Geometry, Emptied, MState.Sound, Quiet, Freed, UnusedDenied;
    if ptr != 0 {
      var p := ptr - 16;
      Discard(m, p);
      IsDirect(m, p);
      ghost var b, x, trimCheck, releaseChecks := m.Bk(), p, m.trimCheck, m.releaseChecks;
      if !m.mem.head[p].pinuse {
        var prevsize := m.mem.foot[p];
        if prevsize % 2 == 1 {
          FreeDirect(m, p);
        } else {
          x := FreeWithFront(m, p, prevsize);
        }
      } else {
        NoneInFront(m, p);
        FreeForward(m, p, p, false);
      }
      assert p in old(m.direct) || FreedFrom(b, m.Bk(), p, x, trimCheck, releaseChecks, m.denied);
    }
  }

  /** The words of a block that goes need not be remembered. */
  ghost method Discard(m: MState, p: int)
    requires m.Valid() && p in m.Heap()
    modifies m`content
    ensures m.Valid() && m.content == Forgotten(old(m.content), p, m.Heap()[p]) && Emptied(m.Heap(), m.content, p)
  {
    hide HeapOf;
    m.content := Forgotten(m.content, p, m.Heap()[p]);
  }

  lemma PrevFacts(m: MState, x: int, p: int)
    requires m.Valid() && Freeing(m, x, p) && x != p
    ensures x in m.mem.head && m.mem.head[x].size == p - x && x > 0 && (x != m.dv ==> x in m.Bins())
  {
    Positive(m.Bk(), m.Bins(), {}, x);
  }
}
