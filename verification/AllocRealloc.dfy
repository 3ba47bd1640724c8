/** lj_alloc_realloc and lj_alloc_f. */
module AllocRealloc {
  import opened AllocIndex
  import opened AllocTiles
  import opened AllocMoves
  import opened AllocBooks
  import opened AllocState
  import opened AllocSystem
  import opened AllocServe
  import opened AllocMalloc
  import opened AllocFree
  import opened AllocStore

  // ---------------------------------------------------------------- in place

  /** A block of `s` bytes becomes two. */
  lemma MaySplit(m: MState, p: int, nb: nat)
    requires m.Valid() && p in Live(m.tiles, m.segs) && p != m.state && p in m.tiles
    requires nb >= MIN_CHUNK_SIZE && nb % 8 == 0 && m.tiles[p].size >= nb + MIN_CHUNK_SIZE
    requires Fitted(m.Heap(), m.content, p, nb - CHUNK_OVERHEAD)
    ensures var b', r := Shrunk(m.Bk(), p, nb), m.tiles[p].size - nb;
      m.Sound(b', {}) && p + nb !in m.Heap() && p in m.Heap()
      && HeapOf(b'.t, b'.segs, m.direct, m.state) == m.Heap()[p := nb - CHUNK_OVERHEAD][p + nb := r - CHUNK_OVERHEAD]
  {
    hide Good, DirectsOk, Mapped, HeapOf, Remembered, Kept, Spares, SameSizes, Owned, Fitted;
    var b, b' := m.Bk(), Shrunk(m.Bk(), p, nb);
    SplitStep(m, p, nb);
    AllOwned(m);
    OwnedFitted(m.Heap(), HeapOf(b'.t, b'.segs, m.direct, m.state), m.content, p, nb - CHUNK_OVERHEAD);
    KeptSpares(b.m, b'.m, b.t, b'.t, -1);
    m.Restore(b, b', {}, {}, -1);
  }

  lemma SplitStep(m: MState, p: int, nb: nat)
    requires m.Valid() && p in Live(m.tiles, m.segs) && p != m.state && p in m.tiles
    requires nb >= MIN_CHUNK_SIZE && nb % 8 == 0 && m.tiles[p].size >= nb + MIN_CHUNK_SIZE
    ensures var b, b', r := m.Bk(), Shrunk(m.Bk(), p, nb), m.tiles[p].size - nb;
      Good(b', m.Bins(), {}) && SameSizes(b.m, b'.m, m.Bins()) && Kept(b.m, b'.m, b.t, b'.t) && m.state in Live(b'.t, b'.segs)
      && p + nb !in m.Heap() && p in m.Heap() && b'.m.foot == b.m.foot
      && HeapOf(b'.t, b'.segs, m.direct, m.state) == m.Heap()[p := nb - CHUNK_OVERHEAD][p + nb := r - CHUNK_OVERHEAD]
  {
    hide Mapped, Remembered, Kept, DirectsOk, Geometry, Tags, SameSizes, HeapOf;
    var b, b', q := m.Bk(), Shrunk(m.Bk(), p, nb), p + nb;
    Shrink(b, m.Bins(), p, nb);
    DirectsKept(b.m, b'.m, b.t, b'.t, b.segs, b.top, b'.top, m.direct);
    SplitApart(b', m.direct, p, q);
    hide Good, DirectsOk;
    SplitHeap(b.t, b'.t, b.segs, m.direct, m.state, p, nb);
  }

  lemma SplitApart(b: Book, direct: Directs, p: int, q: int)
    requires Physical(b.m, b.t, b.segs, b.top) && DirectsOk(b.m, b.segs, direct) && p in b.t && q in b.t
    ensures p !in direct && q !in direct
  {
    if p in direct { DirectApart(b.t, b.segs, b.top, b.m, p, direct[p]); }
    if q in direct { DirectApart(b.t, b.segs, b.top, b.m, q, direct[q]); }
  }

  lemma SplitHeap(t: Tiles, t': Tiles, segs: seq<Seg>, direct: Directs, state: int, p: int, nb: nat)
    requires p in t && nb <= t[p].size && t' == t[p := Tile(nb, true)][p + nb := Tile(t[p].size - nb, true)] && nb > 0
    requires p in Live(t, segs) && Live(t', segs) == Live(t, segs) + {p + nb} && p + nb !in t && p != state && state in t
    requires p !in direct && p + nb !in direct
    ensures p in HeapOf(t, segs, direct, state) && p + nb !in HeapOf(t, segs, direct, state)
    ensures HeapOf(t', segs, direct, state)
         == HeapOf(t, segs, direct, state)[p := nb - CHUNK_OVERHEAD][p + nb := t[p].size - nb - CHUNK_OVERHEAD]
  {
    var h, h' := HeapOf(t, segs, direct, state), HeapOf(t', segs, direct, state);
    assert h'.Keys == h.Keys + {p + nb};
    forall a | a in h'
      ensures h'[a] == h[p := nb - CHUNK_OVERHEAD][p + nb := t[p].size - nb - CHUNK_OVERHEAD][a]
    {}
  }

  method SplitBlock(m: MState, p: int, nb: nat, rsize: nat)
    requires m.Valid() && p in Live(m.tiles, m.segs) && p != m.state && p in m.tiles
    requires nb >= MIN_CHUNK_SIZE && nb % 8 == 0 && rsize >= MIN_CHUNK_SIZE && m.tiles[p].size == nb + rsize
    requires Fitted(m.Heap(), m.content, p, nb - CHUNK_OVERHEAD)
    modifies m`mem, m`tiles
    ensures m.Valid() && p + nb !in old(m.Heap()) && p in old(m.Heap())
    ensures m.Heap() == old(m.Heap())[p := nb - CHUNK_OVERHEAD][p + nb := rsize - CHUNK_OVERHEAD]
  {
    hide Good, DirectsOk, Mapped, HeapOf;
    MaySplit(m, p, nb);
    ghost var b' := Shrunk(m.Bk(), p, nb);
    m.mem := SetInuse(m.mem, p, nb);
    m.mem := SetInuse(m.mem, p + nb, rsize);
    m.tiles := m.tiles[p := Tile(nb, true)][p + nb := Tile(rsize, true)];
    assert m.Bk() == b';
  }

  lemma MayExpand(m: MState, p: int, nb: nat)
    requires m.Valid() && p in Live(m.tiles, m.segs) && p != m.state && p in m.tiles && Next(m.tiles, p) == m.top
    requires nb >= MIN_CHUNK_SIZE && nb % 8 == 0 && m.tiles[p].size <= nb < m.tiles[p].size + m.topsize
    ensures m.top in m.tiles && m.topsize == m.tiles[m.top].size && p in m.Heap()
    ensures var b' := Expanded(m.Bk(), p, nb);
      m.Sound(b', {}) && HeapOf(b'.t, b'.segs, m.direct, m.state) == m.Heap()[p := nb - CHUNK_OVERHEAD]
  {
    var b, b' := m.Bk(), Expanded(m.Bk(), p, nb);
    Expand(b, m.Bins(), p, nb);
    DirectsKept(b.m, b'.m, b.t, b'.t, b.segs, b.top, b'.top, m.direct);
    if p in m.direct { DirectApart(b'.t, b'.segs, b'.top, b'.m, p, m.direct[p]); }
    ExpandLive(b, m.Bins(), p, nb);
    ExpandedHeap(b, b', m.direct, m.state, p, nb);
    StillCovered(m.Heap(), HeapOf(b'.t, b'.segs, m.direct, m.state), m.content);
    KeptSpares(b.m, b'.m, b.t, b'.t, -1);
    m.Restore(b, b', {}, {}, -1);
  }

  lemma ExpandedHeap(b: Book, b': Book, direct: Directs, state: int, p: int, nb: nat)
    requires p in Live(b.t, b.segs) && p != state && p !in direct && Live(b'.t, b'.segs) == Live(b.t, b.segs)
    requires p in b.t && p in b'.t && b'.t[p].size == nb && forall a <- Live(b.t, b.segs) :: a != p ==> a in b'.t && b'.t[a] == b.t[a]
    ensures p in HeapOf(b.t, b.segs, direct, state) && HeapOf(b.t, b.segs, direct, state)[p] == b.t[p].size - CHUNK_OVERHEAD
    ensures HeapOf(b'.t, b'.segs, direct, state) == HeapOf(b.t, b.segs, direct, state)[p := nb - CHUNK_OVERHEAD]
  {
    var h, h' := HeapOf(b.t, b.segs, direct, state), HeapOf(b'.t, b'.segs, direct, state);
    assert h'.Keys == h.Keys;
    forall a | a in h'
      ensures h'[a] == h[p := nb - CHUNK_OVERHEAD][a]
    {}
  }

  lemma ExpandLive(b: Book, bins: set<int>, p: int, nb: nat)
    requires Good(b, bins, {}) && p in Live(b.t, b.segs) && Next(b.t, p) == b.top && MIN_CHUNK_SIZE <= nb < b.t[p].size + b.topsize
    ensures forall a <- Live(b.t, b.segs) :: a != p ==> a in Expanded(b, p, nb).t && Expanded(b, p, nb).t[a] == b.t[a]
  {
    var z := p + nb;
    if p < z < b.top { Inside(b, bins, {}, p, z); }
    if b.top < z { Inside(b, bins, {}, b.top, z); }
  }

  method ExpandBlock(m: MState, p: int, nb: nat, oldsize: nat)
    requires m.Valid() && p in Live(m.tiles, m.segs) && p != m.state && p in m.tiles && m.tiles[p].size == oldsize && Next(m.tiles, p) == m.top
    requires nb >= MIN_CHUNK_SIZE && nb % 8 == 0 && m.tiles[p].size <= nb < m.tiles[p].size + m.topsize
    modifies m`mem, m`tiles, m`top, m`topsize
    ensures m.Valid() && p in old(m.Heap()) && m.Heap() == old(m.Heap())[p := nb - CHUNK_OVERHEAD]
  {
    hide Good, DirectsOk, Mapped, HeapOf, SizesOf, MState.Sound;
    MayExpand(m, p, nb);
    ghost var b' := Expanded(m.Bk(), p, nb);
    var newsize := oldsize + m.topsize;
    var newtopsize := newsize - nb;
    var newtop := p + nb;
    m.mem := SetInuse(m.mem, p, nb);
    m.mem := SetHead(m.mem, newtop, Head(newtopsize, true, false));
    m.tiles := (m.tiles - {m.top})[p := Tile(nb, true)][newtop := Tile(newtopsize, false)];
    m.top := newtop;
    m.topsize := newtopsize;
    assert m.Bk() == b';
  }

  // ---------------------------------------------------------------- direct_resize

  /** The mapping of the direct chunk `p` may become `k` bytes long. */
  ghost predicate MayResizeDirect(b: Book, bins: set<int>, direct: Directs, p: int, k: nat) {
    && Good(b, bins, {}) && DirectsOk(b.m, b.segs, direct) && p in direct && k >= 64 && OnPage(k) && p + k <= ADDRESS_LIMIT
    && (forall j | 0 <= j < |b.segs| :: Disjoint(p, k, b.segs[j].base, b.segs[j].size))
    && (forall q <- direct :: q != p ==> Disjoint(p, k, q, direct[q]))
  }

  function ResizedMem(m: Mem, p: int, psize: nat): Mem {
    SetHead(SetHead(SetHead(m, p, Head(psize, false, true)), p + psize, Head(8, true, true)), p + psize + 8, Head(0, false, false))
  }

  lemma DirectResized(b: Book, bins: set<int>, direct: Directs, p: int, k: nat)
    requires MayResizeDirect(b, bins, direct, p, k)
    ensures var m', d' := ResizedMem(b.m, p, k - DIRECT_FOOT_PAD), direct[p := k];
      Good(b.(m := m'), bins, {}) && SameSizes(b.m, m', bins) && DirectsOk(m', b.segs, d') && p !in b.t
  {
    var m', d' := ResizedMem(b.m, p, k - DIRECT_FOOT_PAD), direct[p := k];
    assert DirectOk(b.m, b.segs, p, direct[p]);
    forall a | a in b.t
      ensures a < p || a >= p + k
    {
      var i := SegOf(b.t, b.segs, b.top, a);
      assert Disjoint(p, k, b.segs[i].base, b.segs[i].size);
    }
    WritesAway(b, m', bins, {});
    forall q | q in d'
      ensures DirectOk(m', b.segs, q, d'[q])
    {
      assert DirectOk(b.m, b.segs, q, direct[q]);
      assert q != p ==> Disjoint(p, k, q, direct[q]);
    }
    forall q, r | q in d' && r in d' && q != r
      ensures Disjoint(q, d'[q], r, d'[r])
    {
      assert Disjoint(q, direct[q], r, direct[r]);
      assert q != p ==> Disjoint(p, k, q, direct[q]);
      assert r != p ==> Disjoint(p, k, r, direct[r]);
    }
  }

  /** What the system grants is enough for that. */
  lemma GrantedResize(b: Book, bins: set<int>, direct: Directs, mapped: set<int>, p: int, k: nat)
    requires Good(b, bins, {}) && DirectsOk(b.m, b.segs, direct) && Mapped(b.segs, direct, mapped) && p in direct
    requires k >= 64 && OnPage(k) && p + k <= ADDRESS_LIMIT && (k > direct[p] ==> Range(p + direct[p], k - direct[p]) !! mapped)
    ensures MayResizeDirect(b, bins, direct, p, k)
  {
    var n := direct[p];
    assert DirectOk(b.m, b.segs, p, n);
    if k > n { FreshApart(b, bins, {}, direct, mapped, p + n, k - n); }
    forall j | 0 <= j < |b.segs|
      ensures Disjoint(p, k, b.segs[j].base, b.segs[j].size)
    {
      assert Disjoint(p, n, b.segs[j].base, b.segs[j].size);
      assert k > n ==> Disjoint(p + n, k - n, b.segs[j].base, b.segs[j].size);
      assert SegOk(b.t, b.segs, j);
    }
    forall q | q in direct && q != p
      ensures Disjoint(p, k, q, direct[q])
    {
      assert Disjoint(p, n, q, direct[q]) && DirectOk(b.m, b.segs, q, direct[q]);
      assert k > n ==> Disjoint(p + n, k - n, q, direct[q]);
    }
  }

  lemma GrantedMapped(b: Book, bins: set<int>, direct: Directs, mapped: set<int>, mapped': set<int>, p: int, k: nat)
    requires MayResizeDirect(b, bins, direct, p, k) && Mapped(b.segs, direct, mapped)
    requires var n := direct[p]; mapped' == if k <= n then mapped - Range(p + k, n - k) else mapped + Range(p + n, k - n)
    ensures Mapped(b.segs, direct[p := k], mapped')
  {
    hide UsedOk;
    var n, d' := direct[p], direct[p := k];
    assert DirectOk(b.m, b.segs, p, n);
    forall j | 0 <= j < |b.segs|
      ensures Range(b.segs[j].base, b.segs[j].size) <= mapped'
    {
      assert Range(b.segs[j].base, b.segs[j].size) <= mapped && Disjoint(p, n, b.segs[j].base, b.segs[j].size);
      if k <= n { RangeKept(b.segs[j].base, b.segs[j].size, p + k, n - k, mapped); }
    }
    forall q | q in d'
      ensures Range(q, d'[q]) <= mapped'
    {
      assert Range(q, direct[q]) <= mapped && Range(p, n) <= mapped;
      if q != p {
        assert Disjoint(q, direct[q], p, direct[p]);
        if k <= n { RangeKept(q, direct[q], p + k, n - k, mapped); }
      } else if k <= n {
        RangePrefix(p, k, n, mapped);
        RangeKept(p, k, p + k, n - k, mapped);
      } else {
        RangeParts(p, n, k - n, mapped');
      }
    }
  }

  lemma ResizedHeap(t: Tiles, segs: seq<Seg>, direct: Directs, state: int, p: int, k: nat)
    requires p !in t && p in direct && state in t
    ensures p in HeapOf(t, segs, direct, state)
    ensures HeapOf(t, segs, direct[p := k], state) == HeapOf(t, segs, direct, state)[p := k - DIRECT_FOOT_PAD - DIRECT_CHUNK_OVERHEAD]
  {
    var h, h' := HeapOf(t, segs, direct, state), HeapOf(t, segs, direct[p := k], state);
    assert h'.Keys == h.Keys;
  }

  /** The step as a whole, after the system has agreed. */
  lemma ResizeGranted(m: MState, mapped: set<int>, p: int, k: nat)
    requires m.small.Valid(SizesOf(m.mem)) && m.tree.Valid(SizesOf(m.mem)) && Good(m.Bk(), m.Bins(), {}) && m.state in Live(m.tiles, m.segs)
    requires DirectsOk(m.mem, m.segs, m.direct) && Mapped(m.segs, m.direct, mapped) && p in m.direct
    requires Remembered(m.mem, m.Heap(), m.content) && Fitted(m.Heap(), m.content, p, k - DIRECT_FOOT_PAD - DIRECT_CHUNK_OVERHEAD)
    requires k >= 64 && OnPage(k) && p + k <= ADDRESS_LIMIT && (k > m.direct[p] ==> Range(p + m.direct[p], k - m.direct[p]) !! mapped)
    requires var n := m.direct[p]; m.mapped == if k <= n then mapped - Range(p + k, n - k) else mapped + Range(p + n, k - n)
    ensures var m', d' := ResizedMem(m.mem, p, k - DIRECT_FOOT_PAD), m.direct[p := k];
      m.small.Valid(SizesOf(m')) && m.tree.Valid(SizesOf(m')) && Good(m.Bk().(m := m'), m.Bins(), {})
      && DirectsOk(m', m.segs, d') && Mapped(m.segs, d', m.mapped)
      && p in m.Heap() && HeapOf(m.tiles, m.segs, d', m.state) == m.Heap()[p := k - DIRECT_FOOT_PAD - DIRECT_CHUNK_OVERHEAD]
      && Remembered(m', HeapOf(m.tiles, m.segs, d', m.state), m.content)
  {
    hide DirectsOk, Geometry, Tags, Mapped, Fitted, UsedOk, HeapOf;
    GrantedResize(m.Bk(), m.Bins(), m.direct, mapped, p, k);
    hide Good;
    DirectResized(m.Bk(), m.Bins(), m.direct, p, k);
    GrantedMapped(m.Bk(), m.Bins(), m.direct, mapped, m.mapped, p, k);
    ResizedHeap(m.tiles, m.segs, m.direct, m.state, p, k);
    ReframeSmall(m.small, SizesOf(m.mem), SizesOf(ResizedMem(m.mem, p, k - DIRECT_FOOT_PAD)));
    ReframeTree(m.tree, SizesOf(m.mem), SizesOf(ResizedMem(m.mem, p, k - DIRECT_FOOT_PAD)));
    OwnedFitted(m.Heap(), m.Heap()[p := k - DIRECT_FOOT_PAD - DIRECT_CHUNK_OVERHEAD], m.content, p, k - DIRECT_FOOT_PAD - DIRECT_CHUNK_OVERHEAD);
    ResizeSpares(m.Bk(), m.Bins(), m.direct, m.state, p, k);
  }

  /** The writes at the two ends of a resized mapping miss all stored words. */
  lemma ResizeSpares(b: Book, bins: set<int>, direct: Directs, state: int, p: int, k: nat)
    requires MayResizeDirect(b, bins, direct, p, k) && k >= 64
    requires var h := HeapOf(b.t, b.segs, direct, state);
      p in h && Remembered(b.m, h, b.content) && Fitted(h, b.content, p, k - DIRECT_FOOT_PAD - DIRECT_CHUNK_OVERHEAD)
    ensures forall a <- b.content :: WordIs(ResizedMem(b.m, p, k - DIRECT_FOOT_PAD), a, b.content[a])
  {
    hide HeapOf, MayResizeDirect;
    forall a | a in b.content
      ensures WordIs(ResizedMem(b.m, p, k - DIRECT_FOOT_PAD), a, b.content[a])
    {
      var q :| q in HeapOf(b.t, b.segs, direct, state) && InBlock(q, HeapOf(b.t, b.segs, direct, state)[q], a);
      if q != p { OutsideMapping(b, bins, direct, state, p, k, q, a); }
    }
  }

  lemma OutsideMapping(b: Book, bins: set<int>, direct: Directs, state: int, p: int, k: nat, q: int, a: int)
    requires MayResizeDirect(b, bins, direct, p, k) && q != p
    requires q in HeapOf(b.t, b.segs, direct, state) && InBlock(q, HeapOf(b.t, b.segs, direct, state)[q], a)
    ensures a - 8 < p || a - 8 >= p + k
  {
    if q in direct {
      assert Disjoint(p, k, q, direct[q]);
    } else {
      var i := SegOf(b.t, b.segs, b.top, q);
      TileInSeg(b.t, b.segs, b.top, q, i);
      assert Disjoint(p, k, b.segs[i].base, b.segs[i].size);
    }
  }

  /** The block at `p` cannot have a chunk of `nb` bytes where it is, unless the system agrees: it is
      too small and top does not follow or is too small too, or it is a mapping of another size. */
  ghost predicate Stuck(b: Book, h: map<int, int>, direct: Directs, p: int, nb: nat) {
    p in h &&
      if p in direct then
        var oldsize := h[p] + DIRECT_CHUNK_OVERHEAD;
        nb < 256 || !(nb + 8 <= oldsize <= nb + GRANULARITY / 2)
      else
        var oldsize := h[p] + CHUNK_OVERHEAD;
        oldsize < nb && (p + oldsize != b.top || oldsize + b.topsize <= nb)
  }

  /** The block at `p` stays, with `n` bytes. What is left of a block in a segment is split off if it is
      large enough for a chunk; a mapping is kept as it is, unless it is too small or much too large. */
  ghost predicate StaysAs(b: Book, h: map<int, int>, direct: Directs, p: int, nb: nat, n: int) {
    p in h &&
      if p in direct then
        var oldsize := h[p] + DIRECT_CHUNK_OVERHEAD;
        nb >= 256 && n == if nb + 8 <= oldsize <= nb + GRANULARITY / 2 then h[p] else PageAlign(Plus(nb, 55)) - DIRECT_FOOT_PAD - DIRECT_CHUNK_OVERHEAD
      else
        var oldsize := h[p] + CHUNK_OVERHEAD;
        if oldsize >= nb then n == (if oldsize - nb >= MIN_CHUNK_SIZE then nb else oldsize) - CHUNK_OVERHEAD
        else p + oldsize == b.top && nb < oldsize + b.topsize && n == nb - CHUNK_OVERHEAD
  }

  /** Nothing free is large enough for `n` bytes, and the system has just refused all requests. */
  ghost predicate OutOfMemory(b: Book, were: seq<nat>, now: seq<nat>, n: nat)
    requires n < SIZE_T_LIMIT
  {
    ChunkForFacts(n);
    NothingLeft(b, ChunkFor(n)) && now == were + Asked(ChunkFor(n))
  }

  /** direct_resize; 0 if the chunk cannot be resized where it is. */
  method DirectResize(m: MState, p: int, nb: nat) returns (newp: int)
    requires m.Valid() && p in m.direct && MIN_CHUNK_SIZE <= nb <= SIZE_T_LIMIT - 120 && nb % 8 == 0
    modifies m`mem, m`direct, m`mapped, m`content
    ensures m.Valid() && p in old(m.Heap()) && p > 0
    ensures newp == 0 ==> m.Heap() == old(m.Heap()) && m.Bk() == old(m.Bk()) && Stuck(old(m.Bk()), old(m.Heap()), old(m.direct), p, nb)
    ensures newp != 0 ==> p in m.Heap() && m.content == Shortened(old(m.content), p, old(m.Heap())[p], m.Heap()[p])
    ensures newp != 0 ==> newp == p && p in m.Heap() && m.Heap()[p] >= nb - CHUNK_OVERHEAD && m.Heap() == old(m.Heap())[p := m.Heap()[p]]
    ensures newp != 0 ==> p in m.Heap() && StaysAs(old(m.Bk()), old(m.Heap()), old(m.direct), p, nb, m.Heap()[p])
  {
    hide MState.Sound, HeapOf, Shortened, Geometry, Range;
    DirectHeld(m, p);
    var oldsize := m.mem.head[p].size;
    if nb < 256 {
      return 0;
    }
    if oldsize >= nb + 8 && oldsize - nb <= GRANULARITY / 2 {
      NotShortened(m.content, p, m.Heap()[p], m.Heap()[p]);
      return p;
    }
    var oldmmsize, newmmsize := oldsize + DIRECT_FOOT_PAD, PageAlign(Plus(nb, 48 + 7));
    MremapSize(nb);
    var ok := Remap(m, p, oldmmsize, newmmsize);
    newp := if ok then p else 0;
  }

  /** The system is asked to resize the mapping where it is. */
  method Remap(m: MState, p: int, n: nat, k: nat) returns (ok: bool)
    requires m.Valid() && p in m.direct && m.direct[p] == n && (k == 0 || (k >= 64 && OnPage(k)))
    modifies m`mem, m`direct, m`mapped, m`content
    ensures m.Valid() && p in old(m.Heap())
    ensures !ok ==> m.Heap() == old(m.Heap()) && m.Bk() == old(m.Bk())
    ensures ok ==> k > 0 && m.Heap() == old(m.Heap())[p := k - DIRECT_FOOT_PAD - DIRECT_CHUNK_OVERHEAD]
    ensures ok ==> m.content == Shortened(old(m.content), p, old(m.Heap())[p], k - DIRECT_FOOT_PAD - DIRECT_CHUNK_OVERHEAD)
  {
    hide Good, DirectsOk, Mapped, HeapOf, Remembered, Shortened, Fitted, Geometry, Range;
    DirectHeld(m, p);
    ghost var mapped, b := m.mapped, m.Bk();
    ok := m.Mremap(p, n, k);
    if ok {
      ShortenedFits(m.mem, m.Heap(), m.content, p, k - DIRECT_FOOT_PAD - DIRECT_CHUNK_OVERHEAD);
      m.content := Shortened(m.content, p, m.Heap()[p], k - DIRECT_FOOT_PAD - DIRECT_CHUNK_OVERHEAD);
      GoodAnyway(b, m.Bins(), m.content);
      ResizeGranted(m, mapped, p, k);
      WriteResized(m, p, k);
    }
  }

  lemma ShortenedFits(m: Mem, h: map<int, int>, content: map<int, nat>, p: int, n: int)
    requires Remembered(m, h, content) && p in h
    ensures var c := Shortened(content, p, h[p], n); Remembered(m, h, c) && Fitted(h, c, p, n)
  {}

  lemma GoodAnyway(b: Book, bins: set<int>, content: map<int, nat>)
    requires Good(b, bins, {})
    ensures Good(b.(content := content), bins, {})
  {}

  lemma NotShortened(content: map<int, nat>, p: int, n0: int, n: int)
    requires n >= n0
    ensures Shortened(content, p, n0, n) == content
  {}

  lemma DirectHeld(m: MState, p: int)
    requires m.Valid() && p in m.direct
    ensures p in m.mem.head && m.mem.head[p].size + DIRECT_FOOT_PAD == m.direct[p] && p in m.Heap() && p > 0
    ensures m.Heap()[p] == m.mem.head[p].size - DIRECT_CHUNK_OVERHEAD && m.state in m.tiles
  {
    assert DirectOk(m.mem, m.segs, p, m.direct[p]);
  }

  /** The new mapping size: large enough, or zero if it wrapped around. */
  lemma MremapSize(nb: nat)
    requires 256 <= nb <= SIZE_T_LIMIT - 120
    ensures var k := PageAlign(Plus(nb, 55)); k == 0 || (k >= nb + 55 && OnPage(k))
  {
    PlusFacts(nb, 55);
    PlusFacts(Plus(nb, 55), PAGE - 1);
    PageFloor(Plus(Plus(nb, 55), PAGE - 1));
  }

  method WriteResized(m: MState, p: int, k: nat)
    requires k >= DIRECT_FOOT_PAD
    modifies m`mem, m`direct
    ensures m.mem == ResizedMem(old(m.mem), p, k - DIRECT_FOOT_PAD) && m.direct == old(m.direct)[p := k]
  {
    var psize := k - DIRECT_FOOT_PAD;
    m.mem := SetHead(m.mem, p, Head(psize, false, true));
    m.mem := SetHead(m.mem, p + psize, Head(8, true, true));
    m.mem := SetHead(m.mem, p + psize + 8, Head(0, false, false));
    m.direct := m.direct[p := k];
  }

  // ---------------------------------------------------------------- lj_alloc_realloc

  /** The outcome of resizing the block `p` to `n` bytes: nothing has changed, or there is a
      block at `mem` instead, at the same place or a new one. */
  ghost predicate Moved(h: map<int, int>, h': map<int, int>, p: int, mem: int, n: nat) {
    if mem == 0 then h' == h
    else mem - 16 in h' && h'[mem - 16] >= n && (mem - 16 == p || mem - 16 !in h) && h' == (h - {p})[mem - 16 := h'[mem - 16]]
  }

  /** The cases in which the chunk stays where it is; 0 if it cannot. */
  method ReallocInPlace(m: MState, p: int, nb: nat) returns (newp: int)
    requires m.Valid() && p in m.Heap() && MIN_CHUNK_SIZE <= nb <= SIZE_T_LIMIT - 120 && nb % 8 == 0
    modifies m, m.small, m.tree
    ensures m.Valid() && newp in {0, p} && p > 0
    ensures newp == 0 ==> m.Heap() == old(m.Heap()) && m.Bk() == old(m.Bk()) && m.refused == old(m.refused)
    ensures newp == 0 ==> Stuck(old(m.Bk()), old(m.Heap()), old(m.direct), p, nb)
    ensures newp != 0 ==> p in m.Heap() && m.Heap()[p] >= nb - CHUNK_OVERHEAD && m.Heap() == old(m.Heap())[p := m.Heap()[p]]
    ensures newp != 0 ==> p in m.Heap() && m.content == Shortened(old(m.content), p, old(m.Heap())[p], m.Heap()[p])
    ensures newp != 0 ==> p in m.Heap() && StaysAs(old(m.Bk()), old(m.Heap()), old(m.direct), p, nb, m.Heap()[p])
  {
    hide Good, DirectsOk, Mapped, HeapOf, MState.ValidBut, Remembered, Forgotten, Shortened;
    IsDirect(m, p);
    var isDirect := !m.mem.head[p].pinuse && m.mem.foot[p] % 2 == 1;
    if isDirect {
      newp := DirectResize(m, p, nb);
      return;
    }
    BlockSize(m, p);
    TopTile(m, {});
    var oldsize := m.mem.head[p].size;
    var next := p + oldsize;
    if oldsize >= nb {
      var rsize := oldsize - nb;
      if rsize >= MIN_CHUNK_SIZE {
        Shorten(m, p, nb - CHUNK_OVERHEAD);
        NothingBehind(m.content, p, nb, rsize);
        SplitBlock(m, p, nb, rsize);
        Free(m, p + nb + 16);
      } else {
        NotShortened(m.content, p, m.Heap()[p], m.Heap()[p]);
      }
      newp := p;
    } else if next == m.top && oldsize + m.topsize > nb {
      NotShortened(m.content, p, m.Heap()[p], nb - CHUNK_OVERHEAD);
      ExpandBlock(m, p, nb, oldsize);
      newp := p;
    } else {
      newp := 0;
    }
  }

  /** The words at the end of a block need not be remembered. */
  ghost method Shorten(m: MState, p: int, n: int)
    requires m.Valid() && p in m.Heap()
    modifies m`content
    ensures m.Valid() && m.content == Shortened(old(m.content), p, m.Heap()[p], n) && Fitted(m.Heap(), m.content, p, n)
  {
    hide HeapOf;
    ShortenedFits(m.mem, m.Heap(), m.content, p, n);
    m.content := Shortened(m.content, p, m.Heap()[p], n);
  }

  /** In particular none of the block that is split off. */
  lemma NothingBehind(content: map<int, nat>, p: int, nb: nat, r: nat)
    requires forall a <- content :: InBlock(p, nb + r - CHUNK_OVERHEAD, a) ==> InBlock(p, nb - CHUNK_OVERHEAD, a)
    ensures Forgotten(content, p + nb, r - CHUNK_OVERHEAD) == content
  {}

  lemma BlockSize(m: MState, p: int)
    requires m.Valid() && p in m.Heap() && p !in m.direct && p in m.tiles
    ensures m.Heap()[p] == m.tiles[p].size - CHUNK_OVERHEAD && m.tiles[p].size >= MIN_CHUNK_SIZE
    ensures m.Heap() == m.Heap()[p := m.tiles[p].size - CHUNK_OVERHEAD]
  {
    LiveClient(m.Bk(), m.Bins(), {}, p);
  }

  /** What the words of the block at `p` become when its first `n` bytes move to `q`; those of
      other blocks stay. */
  ghost predicate Carried(c: map<int, nat>, c': map<int, nat>, p: int, n0: int, q: int, n: int) {
    forall a <- c ::
      && (!InBlock(p, n0, a) ==> a in c' && c'[a] == c[a])
      && (InBlock(p, n0, a) && a + 8 <= p + 16 + n ==> a - p + q in c' && c'[a - p + q] == c[a])
  }

  /** memcpy, word by word, of the first `n` bytes. */
  method CopyBlock(m: MState, p: int, q: int, n: nat)
    requires m.Valid() && p in m.Heap() && q in m.Heap() && p != q && n <= m.Heap()[p] && n <= m.Heap()[q]
    requires Emptied(m.Heap(), m.content, q)
    modifies m`mem, m`content
    ensures m.Valid() && m.Heap() == old(m.Heap())
    ensures forall a <- old(m.content) :: a in m.content && m.content[a] == old(m.content)[a]
    ensures forall i: nat | 8 * i + 8 <= n && Address(p, i) in old(m.content) ::
      Address(q, i) in m.content && m.content[Address(q, i)] == old(m.content)[Address(p, i)]
  {
    hide Good, DirectsOk, Mapped, HeapOf, MState.ValidBut;
    ghost var c := m.content;
    var i := 0;
    while 8 * i + 8 <= n
      invariant 8 * i <= n && m.Valid() && m.Heap() == old(m.Heap())
      invariant forall a <- c :: a in m.content && m.content[a] == c[a]
      invariant forall j: nat | j < i && Address(p, j) in c :: Address(q, j) in m.content && m.content[Address(q, j)] == c[Address(p, j)]
    {
      var word := Load(m, p, i);
      Inside8(m, q, i);
      Store(m, q, i, word);
      i := i + 1;
    }
  }

  lemma Inside8(m: MState, q: int, i: nat)
    requires m.Valid() && q in m.Heap() && 8 * i + 8 <= m.Heap()[q]
    ensures InBlock(q, m.Heap()[q], Address(q, i))
  {
    BlockBytes(m, q);
  }

  /** A new block has nothing in it. */
  lemma NewIsEmpty(m: MState, h: map<int, int>, q: int)
    requires m.Valid() && q in m.Heap() && q !in h && m.Heap() == h[q := m.Heap()[q]] && forall a <- m.content :: Owned(h, a)
    ensures Emptied(m.Heap(), m.content, q)
  {
    hide HeapOf, MState.ValidBut;
    forall a | a in m.content
      ensures !InBlock(q, m.Heap()[q], a)
    {
      var p :| p in h && InBlock(p, h[p], a);
      BlocksApart(m, p, q);
    }
  }

  /** Where the block is then: at its place with the size it should have, or where malloc has served the
      request, and that only if it could not stay. */
  ghost predicate NewPlace(b: Book, h: map<int, int>, direct: Directs, h': map<int, int>, p: int, q: int, n: nat)
    requires n < SIZE_T_LIMIT
  {
    ChunkForFacts(n);
    if q == p then p in h' && StaysAs(b, h, direct, p, ChunkFor(n), h'[p])
    else Stuck(b, h, direct, p, ChunkFor(n)) && Serves(b, ChunkFor(n), q)
  }

  /** lj_alloc_realloc: what has been stored in the block is still there, as far as it fits. */
  method Realloc(m: MState, ptr: int, nsize: nat) returns (mem: int)
    requires m.Valid() && ptr - 16 in m.Heap() && nsize < SIZE_T_LIMIT
    modifies m, m.small, m.tree
    ensures m.Valid() && Moved(old(m.Heap()), m.Heap(), ptr - 16, mem, nsize)
    ensures if mem == 0 then m.content == old(m.content) else Carried(old(m.content), m.content, ptr - 16, old(m.Heap())[ptr - 16], mem - 16, nsize)
    ensures mem == 0 ==> nsize >= MAX_REQUEST || OutOfMemory(old(m.Bk()), old(m.refused), m.refused, nsize)
    ensures mem == 0 ==> nsize >= MAX_REQUEST || Stuck(old(m.Bk()), old(m.Heap()), old(m.direct), ptr - 16, ChunkFor(nsize))
    ensures mem != 0 ==> NewPlace(old(m.Bk()), old(m.Heap()), old(m.direct), m.Heap(), ptr - 16, mem - 16, nsize)
  {
    hide Good, DirectsOk, Mapped, HeapOf, NothingLeft, MState.ValidBut, Stuck, StaysAs, FromBins;
    ghost var h0, c0 := m.Heap(), m.content;
    if nsize >= MAX_REQUEST {
      return 0;
    }
    ChunkForFacts(nsize);
    var oldp, nb := ptr - 16, if nsize < MIN_REQUEST then MIN_CHUNK_SIZE else PadRequest(nsize);
    var newp := ReallocInPlace(m, oldp, nb);
    if newp != 0 {
      mem := newp + 16;
      assert (h0 - {oldp})[oldp := m.Heap()[oldp]] == h0[oldp := m.Heap()[oldp]];
      ShortenedIsCarried(c0, oldp, h0[oldp], m.Heap()[oldp], nsize);
    } else {
      mem := Relocate(m, oldp, nsize);
    }
  }

  lemma ShortenedIsCarried(c: map<int, nat>, p: int, n0: int, n1: int, n: nat)
    requires n <= n1
    ensures Carried(c, Shortened(c, p, n0, n1), p, n0, p, n)
  {}

  /** The part that allocates, copies and frees. */
  method Relocate(m: MState, oldp: int, nsize: nat) returns (mem: int)
    requires m.Valid() && oldp in m.Heap() && nsize < MAX_REQUEST
    modifies m, m.small, m.tree
    ensures m.Valid() && Moved(old(m.Heap()), m.Heap(), oldp, mem, nsize)
    ensures if mem == 0 then m.content == old(m.content) else Carried(old(m.content), m.content, oldp, old(m.Heap())[oldp], mem - 16, nsize)
    ensures mem == 0 ==> OutOfMemory(old(m.Bk()), old(m.refused), m.refused, nsize)
    ensures mem != 0 ==> mem - 16 != oldp && Serves(old(m.Bk()), ChunkFor(nsize), mem - 16)
  {
    hide Good, DirectsOk, Mapped, HeapOf, NothingLeft, MState.ValidBut, Remembered, ServedBy;
    ghost var h0, c0 := m.Heap(), m.content;
    AllOwned(m);
    mem := Malloc(m, nsize);
    if mem != 0 {
      NewIsEmpty(m, h0, mem - 16);
      var oc := OldSize(m, oldp);
      CopyBlock(m, oldp, mem - 16, if oc < nsize then oc else nsize);
      CopiedIsCarried(m, c0, oldp, mem - 16, nsize);
      ghost var h1 := m.Heap();
      assert h1 == h0[mem - 16 := h1[mem - 16]] && mem - 16 != oldp;
      Free(m, oldp + 16);
      assert m.Heap() == (h0 - {oldp})[mem - 16 := h1[mem - 16]];
    }
  }

  lemma AllOwned(m: MState)
    requires m.Valid()
    ensures forall a <- m.content :: Owned(m.Heap(), a)
  {}

  /** The size of a block, from its head: overhead_for. */
  method OldSize(m: MState, p: int) returns (n: nat)
    requires m.Valid() && p in m.Heap()
    ensures n == m.Heap()[p] && p > 0
  {
    IsDirect(m, p);
    BlockBytes(m, p);
    if p in m.direct { DirectHeld(m, p); }
    n := m.mem.head[p].size - (if !m.mem.head[p].pinuse && m.mem.foot[p] % 2 == 1 then DIRECT_CHUNK_OVERHEAD else CHUNK_OVERHEAD);
  }

  /** After the copy the words are where they should be, even when the old block goes. */
  lemma CopiedIsCarried(m: MState, c: map<int, nat>, p: int, q: int, n: nat)
    requires m.Valid() && p in m.Heap() && q in m.Heap() && p != q && n <= m.Heap()[q]
    requires forall a <- c :: a in m.content && m.content[a] == c[a]
    requires forall i: nat | 8 * i + 8 <= n && 8 * i + 8 <= m.Heap()[p] && Address(p, i) in c ::
      Address(q, i) in m.content && m.content[Address(q, i)] == c[Address(p, i)]
    ensures Carried(c, Forgotten(m.content, p, m.Heap()[p]), p, m.Heap()[p], q, n)
  {
    hide DirectsOk, Remembered, HeapOf, MState.Sound;
    BlockBytes(m, p);
    BlocksApart(m, p, q);
    hide HeapOf, MState.ValidBut;
    forall a | a in c && InBlock(p, m.Heap()[p], a) && a + 8 <= p + 16 + n
      ensures var b := a - p + q; b in m.content && m.content[b] == c[a] && !InBlock(p, m.Heap()[p], b)
    {
      var i := (a - p - 16) / 8;
      assert a == Address(p, i);
    }
  }

  /** Why a call gives no block: a resize asks for too much, or there is no memory, and the block to
      be resized cannot grow where it is. */
  ghost predicate Refusal(b: Book, h: map<int, int>, direct: Directs, were: seq<nat>, now: seq<nat>, ptr: int, n: nat)
    requires n < SIZE_T_LIMIT
  {
    (ptr != 0 && n >= MAX_REQUEST) || (OutOfMemory(b, were, now, n) && (ptr != 0 ==> Stuck(b, h, direct, ptr - 16, ChunkFor(n))))
  }

  /** lj_alloc_f */
  method AllocF(m: MState, ptr: int, nsize: nat) returns (mem: int)
    requires m.Valid() && nsize < SIZE_T_LIMIT && (ptr == 0 || ptr - 16 in m.Heap())
    modifies m, m.small, m.tree
    ensures m.Valid()
    ensures nsize == 0 ==> mem == 0 && m.Heap() == if ptr == 0 then old(m.Heap()) else old(m.Heap()) - {ptr - 16}
    ensures nsize != 0 && ptr == 0 ==> Served(old(m.Heap()), m.Heap(), mem, nsize)
    ensures nsize != 0 && ptr != 0 ==> Moved(old(m.Heap()), m.Heap(), ptr - 16, mem, nsize)
    ensures m.content == old(m.content) || (ptr != 0 && (nsize == 0 || mem != 0))
    ensures ptr != 0 && nsize == 0 ==> m.content == Forgotten(old(m.content), ptr - 16, old(m.Heap())[ptr - 16])
    ensures ptr != 0 && mem != 0 ==> Carried(old(m.content), m.content, ptr - 16, old(m.Heap())[ptr - 16], mem - 16, nsize)
    ensures nsize != 0 && mem == 0 ==> Refusal(old(m.Bk()), old(m.Heap()), old(m.direct), old(m.refused), m.refused, ptr, nsize)
    ensures ptr == 0 && mem != 0 ==> ServedBy(old(m.Bk()), m.Bk(), ChunkFor(nsize), mem - 16)
    ensures ptr != 0 && mem != 0 ==> NewPlace(old(m.Bk()), old(m.Heap()), old(m.direct), m.Heap(), ptr - 16, mem - 16, nsize)
  {
    hide Good, DirectsOk, Mapped, HeapOf, NothingLeft, ServedBy, NewPlace;
    if nsize == 0 {
      Free(m, ptr);
      mem := 0;
    } else if ptr == 0 {
      mem := Malloc(m, nsize);
    } else {
      mem := Realloc(m, ptr, nsize);
    }
  }
}
