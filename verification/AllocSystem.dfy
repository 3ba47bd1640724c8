/** alloc_sys and the rest of lj_alloc.c that maps memory: direct chunks, and segments that
    are appended, prepended or added. */
module AllocSystem {
  import opened AllocIndex
  import opened AllocTiles
  import opened AllocMoves
  import opened AllocSegments
  import opened AllocBooks
  import opened AllocState

  /** Addition of size_t values. */
  function Plus(a: nat, b: nat): nat { (a + b) % SIZE_T_LIMIT }

  /** page_align and granularity_align */
  function PageAlign(s: nat): nat { Plus(s, PAGE - 1) / PAGE * PAGE }
  function GranularityAlign(s: nat): nat { Plus(s, GRANULARITY - 1) / GRANULARITY * GRANULARITY }

  const DEFAULT_MMAP_THRESHOLD := 0x2_0000

  lemma PlusFacts(a: nat, b: nat)
    requires a < SIZE_T_LIMIT && b < SIZE_T_LIMIT
    ensures Plus(a, b) == if a + b < SIZE_T_LIMIT then a + b else a + b - SIZE_T_LIMIT
  {}

  lemma PageFloor(x: nat)
    ensures x - PAGE < x / PAGE * PAGE <= x && OnPage(x / PAGE * PAGE)
  {}

  lemma GranularityFloor(x: nat)
    ensures var y := x / GRANULARITY * GRANULARITY; x - GRANULARITY < y <= x && Granular(y) && (y > 0 ==> y >= GRANULARITY)
  {
    var q := x / GRANULARITY;
    assert q * GRANULARITY % GRANULARITY == 0;
  }

  /** A mapping size that passes the wrap-around check of direct_alloc leaves room for the
      chunk and its overhead. */
  lemma DirectSize(nb: nat)
    requires DEFAULT_MMAP_THRESHOLD <= nb < SIZE_T_LIMIT && PageAlign(Plus(nb, 55)) > nb
    ensures PageAlign(Plus(nb, 55)) >= nb + 55 && OnPage(PageAlign(Plus(nb, 55)))
  {
    PlusFacts(nb, 55);
    PlusFacts(Plus(nb, 55), PAGE - 1);
    PageFloor(Plus(Plus(nb, 55), PAGE - 1));
  }

  /** The same for the segment size in alloc_sys. */
  lemma SegmentSize(nb: nat)
    requires MIN_CHUNK_SIZE <= nb < SIZE_T_LIMIT && GranularityAlign(Plus(nb, 65)) > nb
    ensures GranularityAlign(Plus(nb, 65)) >= nb + 65
    ensures Granular(GranularityAlign(Plus(nb, 65))) && GranularityAlign(Plus(nb, 65)) >= GRANULARITY
  {
    PlusFacts(nb, 65);
    PlusFacts(Plus(nb, 65), GRANULARITY - 1);
    GranularityFloor(Plus(Plus(nb, 65), GRANULARITY - 1));
  }

  // ---------------------------------------------------------------- what the client sees

  /** The outcome of a request for `n` bytes: nothing, or a new block at `mem`. */
  ghost predicate Served(h: map<int, int>, h': map<int, int>, mem: int, n: nat) {
    if mem == 0 then h' == h
    else mem - 16 !in h && mem - 16 in h' && h'[mem - 16] >= n && h' == h[mem - 16 := h'[mem - 16]]
  }

  // ---------------------------------------------------------------- direct_alloc

  function DirectMem(m: Mem, p: int, n: nat): Mem
    requires n >= DIRECT_FOOT_PAD
  {
    var m1 := SetHead(m.(foot := m.foot[p := IS_DIRECT_BIT]), p, Head(n - DIRECT_FOOT_PAD, false, true));
    SetHead(SetHead(m1, p + n - DIRECT_FOOT_PAD, Head(8, true, true)), p + n - DIRECT_FOOT_PAD + 8, Head(0, false, false))
  }

  lemma DirectAdded(b: Book, bins: set<int>, direct: Directs, mapped: set<int>, p: int, n: nat)
    requires Good(b, bins, {}) && DirectsOk(b.m, b.segs, direct) && Mapped(b.segs, direct, mapped)
    requires Range(p, n) !! mapped && p > 0 && OnPage(p) && OnPage(n) && n > 0 && p + n <= ADDRESS_LIMIT
    ensures Good(b.(m := DirectMem(b.m, p, n)), bins, {}) && SameSizes(b.m, DirectMem(b.m, p, n), bins) && p !in b.t
    ensures DirectsOk(DirectMem(b.m, p, n), b.segs, direct[p := n]) && Mapped(b.segs, direct[p := n], mapped + Range(p, n))
    ensures p !in direct
  {
    hide Geometry, Tags, Tail;
    var m' := DirectMem(b.m, p, n);
    FreshApart(b, bins, {}, direct, mapped, p, n);
    forall a | a in b.t
      ensures a < p || a >= p + n
    {
      var i := SegOf(b.t, b.segs, b.top, a);
      assert Disjoint(p, n, b.segs[i].base, b.segs[i].size);
    }
    WritesAway(b, m', bins, {});
    var direct' := direct[p := n];
    forall q | q in direct'
      ensures DirectOk(m', b.segs, q, direct'[q])
    {
      if q != p { assert DirectOk(b.m, b.segs, q, direct[q]) && Disjoint(p, n, q, direct[q]); }
    }
    forall q, r | q in direct' && r in direct' && q != r
      ensures Disjoint(q, direct'[q], r, direct'[r])
    {
      if q == p {
        assert Disjoint(p, n, r, direct[r]);
      } else if r == p {
        assert Disjoint(p, n, q, direct[q]);
      } else {
        assert Disjoint(q, direct[q], r, direct[r]);
      }
    }
  }

  lemma DirectHeap(t: Tiles, segs: seq<Seg>, direct: Directs, state: int, p: int, n: nat)
    requires p !in t && p !in direct && state in t
    ensures p !in HeapOf(t, segs, direct, state)
    ensures HeapOf(t, segs, direct[p := n], state) == HeapOf(t, segs, direct, state)[p := n - DIRECT_FOOT_PAD - DIRECT_CHUNK_OVERHEAD]
  {
    var h, h' := HeapOf(t, segs, direct, state), HeapOf(t, segs, direct[p := n], state);
    assert h'.Keys == h.Keys + {p};
  }

  /** The writes of direct_alloc. */
  method WriteDirect(m: MState, p: int, n: nat)
    requires n >= DIRECT_FOOT_PAD
    modifies m`mem, m`direct
    ensures m.mem == DirectMem(old(m.mem), p, n) && m.direct == old(m.direct)[p := n]
  {
    var psize := n - DIRECT_FOOT_PAD;
    m.mem := m.mem.(foot := m.mem.foot[p := IS_DIRECT_BIT]);
    m.mem := SetHead(m.mem, p, Head(psize, false, true));
    m.mem := SetHead(m.mem, p + psize, Head(8, true, true));
    m.mem := SetHead(m.mem, p + psize + 8, Head(0, false, false));
    m.direct := m.direct[p := n];
  }

  /** The mapped bytes become a direct chunk. */
  lemma MayAddDirect(m: MState, mapped: set<int>, p: int, n: nat)
    requires m.small.Valid(SizesOf(m.mem)) && m.tree.Valid(SizesOf(m.mem)) && Good(m.Bk(), m.Bins(), {}) && m.state in Live(m.tiles, m.segs)
    requires DirectsOk(m.mem, m.segs, m.direct) && Mapped(m.segs, m.direct, mapped) && Remembered(m.mem, m.Heap(), m.content)
    requires Range(p, n) !! mapped && p > 0 && OnPage(p) && OnPage(n) && n > 0 && p + n <= ADDRESS_LIMIT
    ensures var m', d' := DirectMem(m.mem, p, n), m.direct[p := n];
      m.small.Valid(SizesOf(m')) && m.tree.Valid(SizesOf(m')) && Good(m.Bk().(m := m'), m.Bins(), {})
      && DirectsOk(m', m.segs, d') && Mapped(m.segs, d', mapped + Range(p, n))
      && p !in m.Heap() && p !in m.tiles && HeapOf(m.tiles, m.segs, d', m.state) == m.Heap()[p := n - DIRECT_FOOT_PAD - DIRECT_CHUNK_OVERHEAD]
      && Remembered(m', HeapOf(m.tiles, m.segs, d', m.state), m.content)
  {
    hide DirectsOk, DirectOk, Geometry, Tags, UsedOk;
    DirectAdded(m.Bk(), m.Bins(), m.direct, mapped, p, n);
    DirectHeap(m.tiles, m.segs, m.direct, m.state, p, n);
    ReframeSmall(m.small, SizesOf(m.mem), SizesOf(DirectMem(m.mem, p, n)));
    ReframeTree(m.tree, SizesOf(m.mem), SizesOf(DirectMem(m.mem, p, n)));
    StillCovered(m.Heap(), m.Heap()[p := n - DIRECT_FOOT_PAD - DIRECT_CHUNK_OVERHEAD], m.content);
    DirectSpares(m.Bk(), m.direct, m.state, mapped, p, n);
  }

  /** A new mapping leaves stored words alone. */
  lemma DirectSpares(b: Book, direct: Directs, state: int, mapped: set<int>, p: int, n: nat)
    requires Geometry(b.t, b.segs, b.top) && DirectsOk(b.m, b.segs, direct) && Mapped(b.segs, direct, mapped)
    requires Range(p, n) !! mapped && n >= PAGE && Remembered(b.m, HeapOf(b.t, b.segs, direct, state), b.content)
    ensures forall a <- b.content :: WordIs(DirectMem(b.m, p, n), a, b.content[a])
  {
    hide HeapOf, Geometry, DirectsOk, Mapped, Range, Owned;
    forall a | a in b.content
      ensures WordIs(DirectMem(b.m, p, n), a, b.content[a])
    {
      OwnedMapped(b.t, b.segs, b.top, b.m, direct, state, mapped, a);
      InRange(p, p, n);
      InRange(p + n - DIRECT_FOOT_PAD, p, n);
      InRange(p + n - DIRECT_FOOT_PAD + 8, p, n);
    }
  }

  /** What direct_alloc asks the system for: nothing if the size wraps around. */
  function DirectAsked(nb: nat): seq<nat>
    requires nb < SIZE_T_LIMIT
  {
    var mmsize := PageAlign(Plus(nb, 48 + 7));
    if mmsize > nb then [mmsize] else []
  }

  method DirectAlloc(m: MState, nb: nat) returns (mem: int)
    requires m.Valid() && DEFAULT_MMAP_THRESHOLD <= nb < SIZE_T_LIMIT
    modifies m`mem, m`direct, m`mapped, m`refused
    ensures m.Valid() && Served(old(m.Heap()), m.Heap(), mem, nb - CHUNK_OVERHEAD)
    ensures nb == SIZE_T_LIMIT - 1 ==> mem == 0
    ensures mem == 0 ==> m.refused == old(m.refused) + DirectAsked(nb)
    ensures mem != 0 ==> mem - 16 !in m.tiles
  {
    hide Good, DirectsOk, Mapped, Remembered, Owned, HeapOf;
    mem := 0;
    var mmsize := PageAlign(Plus(nb, 48 + 7));
    if mmsize > nb {
      DirectSize(nb);
      ghost var mapped := m.mapped;
      var mm := m.Mmap(mmsize);
      if mm != -1 {
        MayAddDirect(m, mapped, mm, mmsize);
        WriteDirect(m, mm, mmsize);
        mem := mm + 16;
      }
    }
  }

  // ---------------------------------------------------------------- segments

  /** Mapped bytes that nothing uses yet. */
  ghost predicate Spare(segs: seq<Seg>, direct: Directs, mapped: set<int>, base: int, n: nat) {
    && base > 0 && OnPage(base) && Granular(n) && n >= GRANULARITY && base + n <= ADDRESS_LIMIT && Range(base, n) <= mapped
    && (forall j | 0 <= j < |segs| :: Disjoint(base, n, segs[j].base, segs[j].size))
    && (forall p <- direct :: Disjoint(base, n, p, direct[p]))
  }

  ghost predicate Region(m: MState, base: int, n: nat)
    reads m
  {
    Spare(m.segs, m.direct, m.mapped, base, n)
  }

  /** Direct chunks do not notice changes in segments that stay clear of them. */
  lemma DirectsAfter(m: Mem, m': Mem, segs: seq<Seg>, segs': seq<Seg>, direct: Directs)
    requires DirectsOk(m, segs, direct)
    requires forall p, j | p in direct && 0 <= j < |segs'| :: Disjoint(p, direct[p], segs'[j].base, segs'[j].size)
    requires forall p <- direct :: p in m.head && p in m'.head && m'.head[p] == m.head[p] && p in m.foot && p in m'.foot && m'.foot[p] == m.foot[p]
    ensures DirectsOk(m', segs', direct)
  {
    forall p | p in direct
      ensures DirectOk(m', segs', p, direct[p])
    {
      assert DirectOk(m, segs, p, direct[p]);
    }
  }

  lemma DirectClear(m: MState, base: int, n: nat, p: int, j: nat)
    requires DirectsOk(m.mem, m.segs, m.direct) && p in m.direct && j < |m.segs|
    ensures Disjoint(p, m.direct[p], m.segs[j].base, m.segs[j].size) && m.direct[p] > 0
    ensures p in m.mem.head && p in m.mem.foot
  {
    assert DirectOk(m.mem, m.segs, p, m.direct[p]);
  }

  lemma RangeParts(b: int, k: nat, n: nat, mapped: set<int>)
    requires Range(b, k) <= mapped && Range(b + k, n) <= mapped
    ensures Range(b, k + n) <= mapped
  {
    forall x | x in Range(b, k + n)
      ensures x in mapped
    {
      if x < b + k { InRange(x, b, k); } else { InRange(x, b + k, n); }
    }
  }

  /** The region lies right behind the segment that holds top. */
  lemma MayAppend(m: MState, tbase: int, tsize: nat)
    requires m.Valid() && Region(m, tbase, tsize) && tbase == m.segs[0].base + m.segs[0].size
    ensures var b' := Resized(m.Bk(), m.segs[0].size + tsize, m.topsize + tsize);
      m.Sound(b', {}) && HeapOf(b'.t, b'.segs, m.direct, m.state) == m.Heap()
  {
    hide Good, DirectsOk, Mapped, HeapOf, Remembered, Spare, MayResize;
    TopThere(m);
    var b, n, s := m.Bk(), m.segs[0].size + tsize, m.topsize + tsize;
    var b' := Resized(b, n, s);
    AppendMayResize(m, tbase, tsize);
    Resize(b, m.Bins(), n, s);
    ReframeSmall(m.small, SizesOf(b.m), SizesOf(b'.m));
    ReframeTree(m.tree, SizesOf(b.m), SizesOf(b'.m));
    AppendDirects(m, tbase, tsize);
    AppendMapped(m, tbase, tsize);
    SameHeap(b, b', m.direct, m.state);
    AppendRemembers(m, b', n, s);
  }

  lemma TopThere(m: MState)
    requires m.Valid()
    ensures m.segs != [] && m.top in m.tiles && m.topsize == m.tiles[m.top].size
    ensures m.small.Valid(SizesOf(m.mem)) && m.tree.Valid(SizesOf(m.mem)) && m.state in Live(m.tiles, m.segs)
  {}

  lemma AppendRemembers(m: MState, b': Book, n: nat, s: nat)
    requires m.Valid() && m.segs != [] && m.top in m.tiles && b' == Resized(m.Bk(), n, s) && MayResize(m.tiles, m.segs, m.top, n, s)
    requires Good(b', m.Bins(), {}) && DirectsOk(b'.m, b'.segs, m.direct)
    requires HeapOf(b'.t, b'.segs, m.direct, m.state) == m.Heap()
    ensures Remembered(b'.m, m.Heap(), m.content)
  {
    hide DirectsOk, Mapped, HeapOf, Owned, Geometry;
    ResizedEnd(m, n, s);
    ResizedSpares(m.Bk(), n, s);
    StillThere(m.Bk(), b', m.direct, m.state, m.top + s, -1);
  }

  lemma ResizedSpares(b: Book, n: nat, s: nat)
    requires b.segs != [] && b.top in b.t
    ensures var b' := Resized(b, n, s); Spares(b.m, b'.m, b.t, b'.t, b.top + s, -1) && b'.content == b.content
  {}

  lemma ResizedEnd(m: MState, n: nat, s: nat)
    requires m.Valid() && m.segs != [] && m.top in m.tiles && MayResize(m.tiles, m.segs, m.top, n, s)
    ensures m.top + s == End(ResizedSegs(m.segs, n), 0)
  {}

  lemma AlignedSums(a: nat, n: nat, s: nat)
    requires Granular(a) && Granular(n) && s % 8 == 0
    ensures Granular(a + n) && (s + n) % 8 == 0
  {
    GranularAligned(n);
    GranularSums(0, a, n);
  }

  lemma AppendMayResize(m: MState, tbase: int, tsize: nat)
    requires m.Valid() && Region(m, tbase, tsize) && tbase == m.segs[0].base + m.segs[0].size
    ensures MayResize(m.tiles, m.segs, m.top, m.segs[0].size + tsize, m.topsize + tsize)
  {
    var n := m.segs[0].size + tsize;
    assert SegOk(m.tiles, m.segs, 0);
    Positive(m.Bk(), m.Bins(), {}, m.top);
    AlignedSums(m.segs[0].size, tsize, m.topsize);
    forall j | 0 < j < |m.segs|
      ensures Disjoint(m.segs[0].base, n, m.segs[j].base, m.segs[j].size)
    {
      assert SegsApart(m.segs, 0, j) && Disjoint(tbase, tsize, m.segs[j].base, m.segs[j].size);
      assert SegOk(m.tiles, m.segs, j);
    }
  }

  lemma SameHeap(b: Book, b': Book, direct: Directs, state: int)
    requires Live(b'.t, b'.segs) == Live(b.t, b.segs) && forall a <- Live(b.t, b.segs) :: a in b'.t && b'.t[a] == b.t[a]
    ensures HeapOf(b'.t, b'.segs, direct, state) == HeapOf(b.t, b.segs, direct, state)
  {
    var h, h' := HeapOf(b.t, b.segs, direct, state), HeapOf(b'.t, b'.segs, direct, state);
    assert h'.Keys == h.Keys;
    forall a | a in h
      ensures h'[a] == h[a]
    {}
  }

  lemma AppendDirects(m: MState, tbase: int, tsize: nat)
    requires m.Valid() && Region(m, tbase, tsize) && tbase == m.segs[0].base + m.segs[0].size
    ensures var b' := Resized(m.Bk(), m.segs[0].size + tsize, m.topsize + tsize); DirectsOk(b'.m, b'.segs, m.direct)
  {
    hide DirectOk, Range;
    var b' := Resized(m.Bk(), m.segs[0].size + tsize, m.topsize + tsize);
    forall p, j | p in m.direct && 0 <= j < |b'.segs|
      ensures Disjoint(p, m.direct[p], b'.segs[j].base, b'.segs[j].size)
    {
      DirectClear(m, tbase, tsize, p, j);
      assert Disjoint(tbase, tsize, p, m.direct[p]);
    }
    forall p | p in m.direct
      ensures p != m.top && p != m.top + m.topsize + tsize && p in m.mem.head && p in m.mem.foot
    {
      DirectClear(m, tbase, tsize, p, 0);
      assert Disjoint(tbase, tsize, p, m.direct[p]);
    }
    DirectsAfter(m.mem, b'.m, m.segs, b'.segs, m.direct);
  }

  lemma AppendMapped(m: MState, tbase: int, tsize: nat)
    requires m.Valid() && Region(m, tbase, tsize) && tbase == m.segs[0].base + m.segs[0].size
    ensures Mapped(ResizedSegs(m.segs, m.segs[0].size + tsize), m.direct, m.mapped)
  {
    var segs' := ResizedSegs(m.segs, m.segs[0].size + tsize);
    forall j | 0 <= j < |segs'|
      ensures Range(segs'[j].base, segs'[j].size) <= m.mapped
    {
      if j == 0 { RangeParts(m.segs[0].base, m.segs[0].size, tsize, m.mapped); } else { assert segs'[j] == m.segs[j]; }
    }
  }

  method WriteAppend(m: MState, tsize: nat)
    requires m.segs != []
    modifies m`mem, m`tiles, m`segs, m`topsize, m`trimCheck
    ensures m.Bk() == Resized(old(m.Bk()), old(m.segs)[0].size + tsize, old(m.topsize) + tsize)
  {
    m.segs := m.segs[0 := Seg(m.segs[0].base, m.segs[0].size + tsize, m.segs[0].rec)];
    m.topsize := m.topsize + tsize;
    m.mem := InitTop(m.mem, m.top, m.topsize);
    m.trimCheck := DEFAULT_TRIM_THRESHOLD;
    m.tiles := m.tiles[m.top := Tile(m.topsize, false)];
  }

  method Append(m: MState, tbase: int, tsize: nat)
    requires m.Valid() && Region(m, tbase, tsize) && tbase == m.segs[0].base + m.segs[0].size
    modifies m`mem, m`tiles, m`segs, m`topsize, m`trimCheck
    ensures m.Valid() && m.Heap() == old(m.Heap()) && m.topsize == old(m.topsize) + tsize
  {
    hide Spare, HeapOf;
    MayAppend(m, tbase, tsize);
    WriteAppend(m, tsize);
  }

  // ---------------------------------------------------------------- prepend_alloc

  /** The region lies right before segment `i`. */
  ghost predicate Prepends(m: MState, i: nat, tbase: int, tsize: nat)
    reads m
  {
    Region(m, tbase, tsize) && i < |m.segs| && tbase + tsize == m.segs[i].base
  }

  lemma LowerDirects(m: MState, b': Book, i: nat, tbase: int, tsize: nat)
    requires DirectsOk(m.mem, m.segs, m.direct) && Prepends(m, i, tbase, tsize) && DirectsOk(m.mem, m.segs, m.direct)
    requires b'.segs == LoweredSegs(m.segs, i, tsize) && Geometry(m.tiles, m.segs, m.top) && Geometry(b'.t, b'.segs, b'.top)
    requires Kept(m.mem, b'.m, m.tiles, b'.t)
    ensures DirectsOk(b'.m, b'.segs, m.direct)
  {
    forall p, j | p in m.direct && 0 <= j < |b'.segs|
      ensures Disjoint(p, m.direct[p], b'.segs[j].base, b'.segs[j].size)
    {
      DirectClear(m, tbase, tsize, p, j);
      assert Disjoint(tbase, tsize, p, m.direct[p]);
    }
    forall p | p in m.direct
      ensures p !in m.tiles && p !in b'.t && p in m.mem.head && p in m.mem.foot
    {
      assert DirectOk(m.mem, m.segs, p, m.direct[p]);
      DirectApart(m.tiles, m.segs, m.top, m.mem, p, m.direct[p]);
      TileClear(b'.t, b'.segs, b'.top, p, m.direct[p]);
    }
    DirectsAfter(m.mem, b'.m, m.segs, b'.segs, m.direct);
  }

  lemma LowerMapped(m: MState, i: nat, tbase: int, tsize: nat)
    requires Mapped(m.segs, m.direct, m.mapped) && Prepends(m, i, tbase, tsize)
    ensures Mapped(LoweredSegs(m.segs, i, tsize), m.direct, m.mapped)
  {
    var segs' := LoweredSegs(m.segs, i, tsize);
    forall j | 0 <= j < |segs'|
      ensures Range(segs'[j].base, segs'[j].size) <= m.mapped
    {
      if j == i { RangeParts(tbase, tsize, m.segs[i].size, m.mapped); } else { assert segs'[j] == m.segs[j]; }
    }
  }

  lemma DirectElsewhere(m: MState, base: int, n: nat, p: int)
    requires DirectsOk(m.mem, m.segs, m.direct) && Region(m, base, n) && p in m.direct
    ensures p != base
  {
    assert DirectOk(m.mem, m.segs, p, m.direct[p]) && Disjoint(base, n, p, m.direct[p]);
  }

  lemma PrependSound(m: MState, b: Book, b': Book, held: set<int>, held': set<int>, i: nat, tbase: int, tsize: nat, nb: nat, f: int)
    requires m.Sound(b, held) && b.t == m.tiles && b.segs == m.segs && b.m == m.mem && b.top == m.top
    requires Prepends(m, i, tbase, tsize) && Prepended(b, b', m.Bins(), held', i, tsize, nb)
    requires Spares(b.m, b'.m, b.t, b'.t, 0, f) && b'.content == b.content
    ensures m.Sound(b', held') && tbase !in m.Heap()
    ensures HeapOf(b'.t, b'.segs, m.direct, m.state) == m.Heap()[tbase := nb - CHUNK_OVERHEAD]
  {
    hide Remembered, Spares, Mapped, HeapOf, Owned;
    ReframeSmall(m.small, SizesOf(b.m), SizesOf(b'.m));
    ReframeTree(m.tree, SizesOf(b.m), SizesOf(b'.m));
    LowerDirects(m, b', i, tbase, tsize);
    LowerMapped(m, i, tbase, tsize);
    if tbase in m.direct { DirectElsewhere(m, tbase, tsize, tbase); }
    PrependedHeap(b, b', m.direct, m.state, tbase, nb);
    RememberedOwned(b.m, m.Heap(), b.content);
    StillCovered(m.Heap(), HeapOf(b'.t, b'.segs, m.direct, m.state), b.content);
    StillThere(b, b', m.direct, m.state, 0, f);
  }

  lemma PrependedHeap(b: Book, b': Book, direct: Directs, state: int, tbase: int, nb: nat)
    requires Live(b'.t, b'.segs) == Live(b.t, b.segs) + {tbase} && tbase !in b.t && tbase !in direct && state in b.t
    requires tbase in b'.t && b'.t[tbase].size == nb && forall a <- Live(b.t, b.segs) :: a in b'.t && b'.t[a] == b.t[a]
    ensures tbase !in HeapOf(b.t, b.segs, direct, state)
    ensures HeapOf(b'.t, b'.segs, direct, state) == HeapOf(b.t, b.segs, direct, state)[tbase := nb - CHUNK_OVERHEAD]
  {
    var h, h' := HeapOf(b.t, b.segs, direct, state), HeapOf(b'.t, b'.segs, direct, state);
    assert h'.Keys == h.Keys + {tbase};
    forall a | a in h'
      ensures h'[a] == h[tbase := nb - CHUNK_OVERHEAD][a]
    {}
  }

  lemma RegionLowers(m: MState, b: Book, held: set<int>, i: nat, tbase: int, tsize: nat)
    requires Prepends(m, i, tbase, tsize) && m.Sound(b, held) && b.t == m.tiles && b.segs == m.segs && b.top == m.top
    ensures MayLower(b.t, b.segs, b.top, i, tsize)
  {}

  // The writes of prepend_alloc and of the lines of alloc_sys before it, case by case. The
  // segment is lowered here after the first chunk has been unlinked; neither reads what the
  // other writes.

  lemma TopBook(b: Book, i: nat, tbase: int, tsize: nat, nb: nat)
    requires i < |b.segs| && b.segs[i].base == b.top && b.top in b.t && b.topsize == b.t[b.top].size && 0 < nb <= tsize && tbase + tsize == b.segs[i].base
    ensures Expanded(Lowered(b, i, tsize), tbase, nb)
         == b.(m := SetHead(SetSizeAndPinuseOfInuse(b.m, tbase, nb), tbase + nb, Head(b.topsize + tsize - nb, true, false)),
               t := (b.t - {b.top})[tbase := Tile(nb, true)][tbase + nb := Tile(b.topsize + tsize - nb, false)], segs := LoweredSegs(b.segs, i, tsize), top := tbase + nb, topsize := b.topsize + tsize - nb)
  {
    hide LoweredSegs;
    Overwrite(b.m.head, tbase, Head(tsize, true, true), Head(nb, true, true));
  }

  method WritePrependTop(m: MState, i: nat, tbase: int, tsize: nat, nb: nat)
    requires i < |m.segs| && m.segs[i].base == m.top && m.top in m.tiles && m.topsize == m.tiles[m.top].size
    requires 0 < nb <= tsize && tbase + tsize == m.top
    modifies m`mem, m`tiles, m`segs, m`top, m`topsize
    ensures m.Bk() == Expanded(Lowered(old(m.Bk()), i, tsize), tbase, nb)
  {
    hide Expanded, Lowered;
    ghost var b := m.Bk();
    TopBook(b, i, tbase, tsize, nb);
    var q := tbase + nb;
    m.segs := m.segs[i := Seg(tbase, m.segs[i].size + tsize, m.segs[i].rec)];
    m.mem := SetSizeAndPinuseOfInuse(m.mem, tbase, nb);
    m.tiles := (m.tiles - {m.top})[tbase := Tile(nb, true)][q := Tile(m.topsize + tsize - nb, false)];
    m.topsize := m.topsize + (tsize - nb);
    m.top := q;
    m.mem := SetHead(m.mem, q, Head(m.topsize, true, false));
  }

  /** A segment that starts with a free chunk, after its growth at the start by `n` bytes; the first
      `nb` of these are a block, and the rest has merged with that chunk. */
  ghost function PrependedHeld(b: Book, i: nat, n: nat, nb: nat): Book
    requires i < |b.segs| && b.segs[i].base in b.t && nb <= n
  {
    CarvedMerged(Lowered(b, i, n), b.segs[i].base - n, nb)
  }

  lemma HeldBook(b: Book, i: nat, tbase: int, tsize: nat, nb: nat)
    requires i < |b.segs| && b.segs[i].base in b.t && 0 < nb <= tsize && tbase + tsize == b.segs[i].base
    ensures PrependedHeld(b, i, tsize, nb)
         == b.(m := SetSizeAndPinuseOfFree(SetSizeAndPinuseOfInuse(b.m, tbase, nb), tbase + nb, tsize - nb + b.t[b.segs[i].base].size),
               t := (b.t - {b.segs[i].base})[tbase := Tile(nb, true)][tbase + nb := Tile(tsize - nb + b.t[b.segs[i].base].size, false)], segs := LoweredSegs(b.segs, i, tsize))
  {
    hide LoweredSegs;
    Overwrite(b.m.head, tbase, Head(tsize, true, true), Head(nb, true, true));
  }

  method WritePrependHeld(m: MState, i: nat, tbase: int, tsize: nat, nb: nat, psize: nat)
    requires i < |m.segs| && m.segs[i].base in m.tiles && psize == m.tiles[m.segs[i].base].size
    requires 0 < nb <= tsize && tbase + tsize == m.segs[i].base
    modifies m`mem, m`tiles, m`segs
    ensures m.Bk() == PrependedHeld(old(m.Bk()), i, tsize, nb)
  {
    hide PrependedHeld;
    ghost var b := m.Bk();
    HeldBook(b, i, tbase, tsize, nb);
    var q, n := tbase + nb, m.segs[i].base;
    m.segs := m.segs[i := Seg(tbase, m.segs[i].size + tsize, m.segs[i].rec)];
    m.mem := SetSizeAndPinuseOfInuse(m.mem, tbase, nb);
    m.mem := SetSizeAndPinuseOfFree(m.mem, q, tsize - nb + psize);
    m.tiles := (m.tiles - {n})[tbase := Tile(nb, true)][q := Tile(tsize - nb + psize, false)];
  }

  lemma UsedBook(b: Book, i: nat, tbase: int, tsize: nat, nb: nat)
    requires i < |b.segs| && b.segs[i].base in b.t && 0 < nb < tsize && tbase + tsize == b.segs[i].base
    ensures Carved(Lowered(b, i, tsize), tbase, nb)
         == b.(m := SetFreeWithPinuse(SetSizeAndPinuseOfInuse(b.m, tbase, nb), tbase + nb, tsize - nb, b.segs[i].base),
               t := b.t[tbase := Tile(nb, true)][tbase + nb := Tile(tsize - nb, false)], segs := LoweredSegs(b.segs, i, tsize))
  {
    hide LoweredSegs;
    Overwrite(b.m.head, tbase, Head(tsize, true, true), Head(nb, true, true));
    Overwrite(b.t, tbase, Tile(tsize, true), Tile(nb, true));
  }

  lemma Overwrite<K, V>(m: map<K, V>, k: K, x: V, y: V)
    ensures m[k := x][k := y] == m[k := y]
  {}

  method WritePrependUsed(m: MState, i: nat, tbase: int, tsize: nat, nb: nat)
    requires i < |m.segs| && m.segs[i].base in m.tiles && 0 < nb < tsize && tbase + tsize == m.segs[i].base
    modifies m`mem, m`tiles, m`segs
    ensures m.Bk() == Carved(Lowered(old(m.Bk()), i, tsize), tbase, nb)
  {
    hide Carved, Lowered;
    ghost var b := m.Bk();
    UsedBook(b, i, tbase, tsize, nb);
    var q, n := tbase + nb, m.segs[i].base;
    m.segs := m.segs[i := Seg(tbase, m.segs[i].size + tsize, m.segs[i].rec)];
    m.mem := SetSizeAndPinuseOfInuse(m.mem, tbase, nb);
    m.mem := SetFreeWithPinuse(m.mem, q, tsize - nb, n);
    m.tiles := m.tiles[tbase := Tile(nb, true)][q := Tile(tsize - nb, false)];
  }

  method PrependToTop(m: MState, i: nat, tbase: int, tsize: nat, nb: nat)
    requires m.Valid() && Prepends(m, i, tbase, tsize) && PrependSizes(tsize, nb) && m.segs[i].base == m.top
    modifies m`mem, m`tiles, m`segs, m`top, m`topsize
    ensures m.Valid() && tbase !in old(m.Heap()) && m.Heap() == old(m.Heap())[tbase := nb - CHUNK_OVERHEAD]
  {
    hide Good, DirectsOk, Mapped, HeapOf, Remembered;
    ghost var b := m.Bk();
    FirstTile(m, i);
    RegionLowers(m, b, {}, i, tbase, tsize);
    AllocBooks.PrependTop(b, m.Bins(), i, tsize, nb);
    PrependSound(m, b, Expanded(Lowered(b, i, tsize), tbase, nb), {}, {}, i, tbase, tsize, nb, -1);
    WritePrependTop(m, i, tbase, tsize, nb);
  }

  method PrependToDv(m: MState, i: nat, tbase: int, tsize: nat, nb: nat)
    requires m.Valid() && Prepends(m, i, tbase, tsize) && PrependSizes(tsize, nb) && m.segs[i].base == m.dv
    modifies m`mem, m`tiles, m`segs, m`dv, m`dvsize
    ensures m.Valid() && tbase !in old(m.Heap()) && m.Heap() == old(m.Heap())[tbase := nb - CHUNK_OVERHEAD]
  {
    hide Good, DirectsOk, Mapped, HeapOf, Remembered;
    var q, dsize := tbase + nb, m.dvsize + (tsize - nb);
    var dvs := m.dvsize;
    FirstTile(m, i);
    assert {} + {m.dv} == {m.dv};
    m.ReleaseDv();
    ghost var b := m.Bk();
    MayPrependHeld(m, b, i, tbase, tsize, nb);
    WritePrependHeld(m, i, tbase, tsize, nb, dvs);
    m.MakeDv(q, dsize);
  }

  /** The one footer that is written lies behind the free chunk. */
  lemma HeldSpares(b: Book, i: nat, n: nat, x: int, nb: nat)
    requires i < |b.segs| && x == b.segs[i].base - n && b.segs[i].base in b.t && nb <= n
    requires var b' := PrependedHeld(b, i, n, nb); Kept(b.m, b'.m, b.t, b'.t)
    ensures var b' := PrependedHeld(b, i, n, nb); Spares(b.m, b'.m, b.t, b'.t, 0, x + nb) && b'.content == b.content
  {}

  lemma UsedSpares(b: Book, i: nat, n: nat, x: int, nb: nat)
    requires i < |b.segs| && x == b.segs[i].base - n && nb <= n
    requires var b' := Carved(Lowered(b, i, n), x, nb); Kept(b.m, b'.m, b.t, b'.t)
    ensures var b' := Carved(Lowered(b, i, n), x, nb); Spares(b.m, b'.m, b.t, b'.t, 0, x + nb) && b'.content == b.content
  {}

  lemma MayPrependHeld(m: MState, b: Book, i: nat, tbase: int, tsize: nat, nb: nat)
    requires Prepends(m, i, tbase, tsize) && PrependSizes(tsize, nb) && b == m.Bk() && m.Sound(b, {m.segs[i].base})
    requires m.segs[i].base in b.t
    ensures var b' := PrependedHeld(b, i, tsize, nb);
      m.Sound(b', {tbase + nb}) && tbase !in m.Heap() && HeapOf(b'.t, b'.segs, m.direct, m.state) == m.Heap()[tbase := nb - CHUNK_OVERHEAD]
      && b'.dv == b.dv && tbase + nb in b'.t && b'.t[tbase + nb].size == tsize - nb + b.t[m.segs[i].base].size
  {
    hide Good, DirectsOk, Mapped, HeapOf, Remembered, Spares, Kept, DirectOk, MayLower, Spare, Live, Owned, SameSizes;
    var p := m.segs[i].base;
    RegionLowers(m, b, {p}, i, tbase, tsize);
    AllocBooks.PrependHeld(b, m.Bins(), i, tsize, nb);
    HeldSpares(b, i, tsize, tbase, nb);
    PrependSound(m, b, PrependedHeld(b, i, tsize, nb), {p}, {tbase + nb}, i, tbase, tsize, nb, tbase + nb);
  }

  lemma MayPrependUsed(m: MState, b: Book, i: nat, tbase: int, tsize: nat, nb: nat)
    requires Prepends(m, i, tbase, tsize) && PrependSizes(tsize, nb) && b == m.Bk() && m.Sound(b, {})
    requires m.segs[i].base in m.tiles && m.tiles[m.segs[i].base].used
    ensures var b' := Carved(Lowered(b, i, tsize), tbase, nb);
      m.Sound(b', {tbase + nb}) && tbase !in m.Heap() && HeapOf(b'.t, b'.segs, m.direct, m.state) == m.Heap()[tbase := nb - CHUNK_OVERHEAD]
      && tbase + nb in b'.t && b'.t[tbase + nb].size == tsize - nb
  {
    hide Good, DirectsOk, Mapped, HeapOf, Remembered, Spares, Kept, MayLower, Live;
    RegionLowers(m, b, {}, i, tbase, tsize);
    AllocBooks.PrependUsed(b, m.Bins(), i, tsize, nb);
    UsedSpares(b, i, tsize, tbase, nb);
    PrependSound(m, b, Carved(Lowered(b, i, tsize), tbase, nb), {}, {tbase + nb}, i, tbase, tsize, nb, tbase + nb);
  }

  lemma FirstTile(m: MState, i: nat)
    requires m.Valid() && i < |m.segs|
    ensures var p := m.segs[i].base; p in m.tiles && p > 0 && p in m.mem.head && m.mem.head[p].size == m.tiles[p].size
    ensures var p := m.segs[i].base; m.mem.head[p].cinuse == m.tiles[p].used && (p == m.dv ==> m.dvsize == m.tiles[p].size && !m.tiles[p].used)
    ensures var p := m.segs[i].base; !m.tiles[p].used && p != m.top && p != m.dv ==> p in m.Bins()
    ensures m.top in m.tiles && m.topsize == m.tiles[m.top].size
  {
    assert SegOk(m.tiles, m.segs, i);
    Positive(m.Bk(), m.Bins(), {}, m.segs[i].base);
    assert Tagged(m.mem, m.tiles, m.segs[i].base);
  }

  method PrependToFree(m: MState, i: nat, tbase: int, tsize: nat, nb: nat)
    requires m.Valid() && Prepends(m, i, tbase, tsize) && PrependSizes(tsize, nb)
    requires m.segs[i].base in m.Bins()
    modifies m`mem, m`tiles, m`segs, m.small, m.tree
    ensures m.Valid() && tbase !in old(m.Heap()) && m.Heap() == old(m.Heap())[tbase := nb - CHUNK_OVERHEAD]
  {
    hide Good, DirectsOk, Mapped, HeapOf, Remembered, Geometry, SizesOf, WordIs;
    var q, p := tbase + nb, m.segs[i].base;
    FirstTile(m, i);
    var nsize := m.mem.head[p].size;
    m.UnlinkChunk(p, nsize);
    assert {} + {p} == {p};
    ghost var b := m.Bk();
    MayPrependHeld(m, b, i, tbase, tsize, nb);
    WritePrependHeld(m, i, tbase, tsize, nb, nsize);
    m.InsertChunk(q, tsize - nb + nsize);
  }

  method PrependToUsed(m: MState, i: nat, tbase: int, tsize: nat, nb: nat)
    requires m.Valid() && Prepends(m, i, tbase, tsize) && PrependSizes(tsize, nb)
    requires m.segs[i].base in m.tiles && m.tiles[m.segs[i].base].used
    modifies m`mem, m`tiles, m`segs, m.small, m.tree
    ensures m.Valid() && tbase !in old(m.Heap()) && m.Heap() == old(m.Heap())[tbase := nb - CHUNK_OVERHEAD]
  {
    hide Good, DirectsOk, Mapped, HeapOf, Remembered;
    var q := tbase + nb;
    ghost var b := m.Bk();
    MayPrependUsed(m, b, i, tbase, tsize, nb);
    WritePrependUsed(m, i, tbase, tsize, nb);
    m.InsertChunk(q, tsize - nb);
  }

  /** prepend_alloc */
  method PrependAlloc(m: MState, i: nat, tbase: int, tsize: nat, nb: nat) returns (mem: int)
    requires m.Valid() && Prepends(m, i, tbase, tsize) && PrependSizes(tsize, nb)
    modifies m, m.small, m.tree
    ensures m.Valid() && mem != 0 && Served(old(m.Heap()), m.Heap(), mem, nb - CHUNK_OVERHEAD) && m.content == old(m.content)
    ensures mem == tbase + 16
  {
    hide Good, DirectsOk, Mapped, HeapOf, Remembered, DirectOk, Tags, MState.Sound;
    FirstTile(m, i);
    var oldfirst := m.segs[i].base;
    if oldfirst == m.top {
      PrependToTop(m, i, tbase, tsize, nb);
    } else if oldfirst == m.dv {
      PrependToDv(m, i, tbase, tsize, nb);
    } else if !m.mem.head[oldfirst].cinuse {
      PrependToFree(m, i, tbase, tsize, nb);
    } else {
      PrependToUsed(m, i, tbase, tsize, nb);
    }
    mem := tbase + 16;
  }

  // ---------------------------------------------------------------- add_segment

  /** Memory has changed in the old top, from its head to the end of its segment, and in the new
      segment only. */
  ghost predicate ChangedIn(m: Mem, m': Mem, s: Seg, top: int, tbase: int, tsize: nat) {
    && (forall a {:trigger SameHead(m, m', a)} :: !(top <= a < s.base + s.size) && !(tbase <= a < tbase + tsize) ==> SameHead(m, m', a))
    && (forall a {:trigger SameFoot(m, m', a)} :: !(top < a < s.base + s.size) && !(tbase <= a < tbase + tsize) ==> SameFoot(m, m', a))
  }

  ghost predicate SameHead(m: Mem, m': Mem, a: int) { a in m.head ==> a in m'.head && m'.head[a] == m.head[a] }

  ghost predicate SameFoot(m: Mem, m': Mem, a: int) { a in m.foot ==> a in m'.foot && m'.foot[a] == m.foot[a] }

  lemma AddDirects(b: Book, m': Mem, direct: Directs, mapped: set<int>, csp: int, tbase: int, tsize: nat)
    requires b.segs != [] && DirectsOk(b.m, b.segs, direct) && Spare(b.segs, direct, mapped, tbase, tsize) && ChangedIn(b.m, m', b.segs[0], b.top, tbase, tsize) && b.segs[0].base <= b.top
    ensures DirectsOk(m', AddedSegs(b.segs, csp, tbase, tsize), direct)
  {
    var segs' := AddedSegs(b.segs, csp, tbase, tsize);
    forall p, j | p in direct && 0 <= j < |segs'|
      ensures Disjoint(p, direct[p], segs'[j].base, segs'[j].size)
    {
      assert DirectOk(b.m, b.segs, p, direct[p]) && Disjoint(tbase, tsize, p, direct[p]);
      assert j > 0 ==> Disjoint(p, direct[p], b.segs[j - 1].base, b.segs[j - 1].size);
    }
    forall p | p in direct
      ensures p in b.m.head && p in m'.head && m'.head[p] == b.m.head[p] && p in b.m.foot && p in m'.foot && m'.foot[p] == b.m.foot[p]
    {
      assert DirectOk(b.m, b.segs, p, direct[p]) && Disjoint(tbase, tsize, p, direct[p]);
      assert Disjoint(p, direct[p], b.segs[0].base, b.segs[0].size);
      assert SameHead(b.m, m', p) && SameFoot(b.m, m', p);
    }
    DirectsAfter(b.m, m', b.segs, segs', direct);
  }

  lemma AddMapped(segs: seq<Seg>, direct: Directs, mapped: set<int>, csp: int, tbase: int, tsize: nat)
    requires segs != [] && Mapped(segs, direct, mapped) && Range(tbase, tsize) <= mapped
    ensures Mapped(AddedSegs(segs, csp, tbase, tsize), direct, mapped)
  {
    var segs' := AddedSegs(segs, csp, tbase, tsize);
    forall j | 0 <= j < |segs'|
      ensures Range(segs'[j].base, segs'[j].size) <= mapped
    {
      if j > 0 { assert segs'[j].base == segs[j - 1].base && segs'[j].size == segs[j - 1].size; }
    }
  }

  lemma AfterAddSegment(m: MState, b: Book, m': Mem, tbase: int, tsize: nat)
    requires m.Sound(b, {}) && Spare(b.segs, m.direct, m.mapped, tbase, tsize) && ChangedIn(b.m, m', b.segs[0], b.top, tbase, tsize)
    requires AddWrites(b.m, m', b.t, b.segs, b.top, tbase, tsize)
    ensures var b' := Added(b, m', tbase, tsize); var held := if b.topsize < MIN_CHUNK_SIZE then {} else {b.top};
      m.Sound(b', held) && HeapOf(b'.t, b'.segs, m.direct, m.state) == HeapOf(b.t, b.segs, m.direct, m.state)
      && (b.topsize >= MIN_CHUNK_SIZE ==> b.top in b'.t && b'.t[b.top].size == b.topsize)
  {
    var b' := Added(b, m', tbase, tsize);
    Add(b, m.Bins(), m', tbase, tsize);
    AddOldTiles(b, m.Bins(), m', tbase, tsize);
    ReframeSmall(m.small, SizesOf(b.m), SizesOf(m'));
    ReframeTree(m.tree, SizesOf(b.m), SizesOf(m'));
    AddDirects(b, m', m.direct, m.mapped, RecordAt(b.top, b.topsize), tbase, tsize);
    AddMapped(b.segs, m.direct, m.mapped, RecordAt(b.top, b.topsize), tbase, tsize);
    SameHeap(b, b', m.direct, m.state);
    AddSpares(b, m', m.direct, m.state, m.mapped, tbase, tsize);
  }

  /** Stored words are neither in the old top nor in the new segment. */
  lemma AddSpares(b: Book, m': Mem, direct: Directs, state: int, mapped: set<int>, tbase: int, tsize: nat)
    requires Geometry(b.t, b.segs, b.top) && DirectsOk(b.m, b.segs, direct) && Spare(b.segs, direct, mapped, tbase, tsize)
    requires ChangedIn(b.m, m', b.segs[0], b.top, tbase, tsize) && Remembered(b.m, HeapOf(b.t, b.segs, direct, state), b.content)
    ensures forall a <- b.content :: WordIs(m', a, b.content[a])
  {
    hide HeapOf, Geometry, DirectsOk, Spare, ChangedIn, Owned;
    forall a | a in b.content
      ensures WordIs(m', a, b.content[a])
    {
      OwnedClear(b.t, b.segs, b.top, b.m, direct, state, mapped, tbase, tsize, a);
      ChangedAt(b.m, m', b.segs[0], b.top, tbase, tsize, a);
    }
  }

  lemma ChangedAt(m: Mem, m': Mem, s: Seg, top: int, tbase: int, tsize: nat, a: int)
    requires ChangedIn(m, m', s, top, tbase, tsize)
    ensures !(top <= a - 8 < s.base + s.size) && !(tbase <= a - 8 < tbase + tsize) ==> SameHead(m, m', a - 8)
    ensures !(top < a < s.base + s.size) && !(tbase <= a < tbase + tsize) ==> SameFoot(m, m', a)
  {}

  lemma OwnedClear(t: Tiles, segs: seq<Seg>, top: int, m: Mem, direct: Directs, state: int, mapped: set<int>, tbase: int, tsize: nat, a: int)
    requires Geometry(t, segs, top) && DirectsOk(m, segs, direct) && Spare(segs, direct, mapped, tbase, tsize) && Owned(HeapOf(t, segs, direct, state), a)
    ensures segs != []
    ensures !(top <= a - 8 < segs[0].base + segs[0].size) && !(tbase <= a - 8 < tbase + tsize)
    ensures !(top < a < segs[0].base + segs[0].size) && !(tbase <= a < tbase + tsize)
  {
    var h := HeapOf(t, segs, direct, state);
    var q :| q in h && InBlock(q, h[q], a);
    if q in direct {
      assert DirectOk(m, segs, q, direct[q]);
      assert Disjoint(q, direct[q], segs[0].base, segs[0].size) && Disjoint(tbase, tsize, q, direct[q]);
    } else {
      BelowTop(t, segs, top, q);
      var i := SegOf(t, segs, top, q);
      assert Disjoint(tbase, tsize, segs[i].base, segs[i].size);
    }
  }

  /** A used tile lies below top, or in another segment. */
  lemma BelowTop(t: Tiles, segs: seq<Seg>, top: int, q: int)
    requires Geometry(t, segs, top) && q in t && t[q].used
    ensures segs != [] && segs[0].base <= top
    ensures Next(t, q) <= top || q >= segs[0].base + segs[0].size || Next(t, q) + 8 <= segs[0].base
  {
    var i := SegOf(t, segs, top, q);
    assert SegOk(t, segs, 0);
    if i > 0 { assert SegsApart(segs, 0, i); }
    if q < top { assert Clear(t, q, top); } else { assert Clear(t, top, q); }
  }

  ghost predicate Fenced(m: Mem, m': Mem, lo: int, oldEnd: int) {
    && m'.foot == m.foot && (forall a <- m.head :: a < lo || a >= oldEnd - 8 ==> a in m'.head && m'.head[a] == m.head[a])
    && (forall a <- Fences(lo, oldEnd - 8) :: a in m'.head && m'.head[a] == Head(8, true, true))
  }

  lemma FencesNext(lo: int, p: int)
    requires lo <= p && p % 8 == 0
    ensures Fences(lo, p + 8) == Fences(lo, p)[p := FENCEPOST]
  {
    forall a | lo <= a < p + 8 && a % 8 == 0
      ensures a < p || a == p
    {
      assert a == 8 * (a / 8) && p == 8 * (p / 8);
    }
  }

  /** The loop that inserts the trailing fenceposts. */
  method WriteFenceposts(m: MState, tnext: int, oldEnd: int)
    requires tnext % 8 == 0 && oldEnd % 8 == 0 && tnext + 16 <= oldEnd
    modifies m`mem
    ensures Fenced(old(m.mem), m.mem, tnext, oldEnd)
  {
    var p := tnext;
    while true
      invariant tnext <= p <= oldEnd - 16 && p % 8 == 0 && m.mem.foot == old(m.mem.foot)
      invariant forall a <- old(m.mem.head) :: a < tnext || a >= oldEnd - 8 ==> a in m.mem.head && m.mem.head[a] == old(m.mem.head)[a]
      invariant forall a <- Fences(tnext, p) :: a in m.mem.head && m.mem.head[a] == Head(8, true, true)
      decreases oldEnd - p
    {
      var nextp := p + 8;
      FencesNext(tnext, p);
      m.mem := SetHead(m.mem, p, Head(8, true, true));
      if nextp + 8 < oldEnd {
        p := nextp;
      } else {
        break;
      }
    }
  }

  /** align_offset */
  function AlignOffset(a: int): nat { if a % 8 == 0 then 0 else 8 - a % 8 }

  /** Where add_segment puts the record, as computed there. */
  function RecordPlace(oldEnd: int, oldTop: int): int {
    var rawsp := oldEnd - (32 + 32 + 7);
    var asp := rawsp + AlignOffset(rawsp + 16);
    if asp < oldTop + MIN_CHUNK_SIZE then oldTop else asp
  }

  lemma RecordPlaceFacts(t: Tiles, segs: seq<Seg>, top: int, tbase: int, tsize: nat)
    requires MayAdd(t, segs, top, tbase, tsize)
    ensures var oldEnd := segs[0].base + segs[0].size; var csp := RecordPlace(oldEnd, top);
      csp == RecordAt(top, t[top].size) && csp % 8 == 0 && oldEnd % 8 == 0 && csp + 64 <= oldEnd
      && segs[0].base <= top <= csp && (csp != top ==> csp - top == t[top].size)
  {
    hide OnPage, Granular, RecordPlace, RecordAt;
    AddTop(t, segs, top, tbase, tsize);
    RecordPlaceSums(segs[0].base + segs[0].size, top, t[top].size);
  }

  lemma RecordPlaceSums(oldEnd: int, top: int, size: nat)
    requires oldEnd == top + size + 64 && oldEnd % 8 == 0 && top % 8 == 0 && size > 0
    ensures var csp := RecordPlace(oldEnd, top);
      csp == RecordAt(top, size) && csp % 8 == 0 && csp + 64 <= oldEnd && top <= csp && (csp != top ==> csp - top == size)
  {
    RecordPlaceAt(oldEnd, top);
    hide RecordPlace;
  }

  lemma RecordPlaceAt(oldEnd: int, top: int)
    requires oldEnd % 8 == 0
    ensures RecordPlace(oldEnd, top) == if oldEnd - 64 < top + MIN_CHUNK_SIZE then top else oldEnd - 64
  {
    var e := oldEnd / 8;
    assert oldEnd - 55 == 8 * (e - 7) + 1;
  }

  /** Old tiles other than top are neither where the new ones go nor where their heads are
      written. */
  lemma OldPlaces(t: Tiles, segs: seq<Seg>, top: int, tbase: int, tsize: nat)
    requires MayAdd(t, segs, top, tbase, tsize)
    ensures forall a <- t :: a != top ==> !(top <= a < segs[0].base + segs[0].size) && !(tbase <= a < tbase + tsize)
  {
    forall a | a in t && a != top
      ensures !(top <= a < segs[0].base + segs[0].size) && !(tbase <= a < tbase + tsize)
    {
      var i := AddOld(t, segs, top, tbase, tsize, a);
    }
  }

  function BeforeFences(m: Mem, csp: int, tbase: int, tsize: nat): Mem
    requires tsize >= TOP_FOOT_SIZE
  {
    SetSizeAndPinuseOfInuse(InitTop(m, tbase, tsize - TOP_FOOT_SIZE), csp, 32)
  }

  function AfterFences(m: Mem, csp: int, oldTop: int): Mem
    requires oldTop <= csp
  {
    if csp != oldTop then SetFreeWithPinuse(m, oldTop, csp - oldTop, csp) else m
  }

  lemma AddWritten(m: Mem, m2: Mem, t: Tiles, segs: seq<Seg>, top: int, tbase: int, tsize: nat)
    requires MayAdd(t, segs, top, tbase, tsize) && Tags(m, t, segs)
    requires Fenced(BeforeFences(m, RecordAt(top, t[top].size), tbase, tsize), m2, RecordAt(top, t[top].size) + 32, segs[0].base + segs[0].size)
    ensures var m' := AfterFences(m2, RecordAt(top, t[top].size), top);
      AddWrites(m, m', t, segs, top, tbase, tsize) && ChangedIn(m, m', segs[0], top, tbase, tsize)
  {
    hide AddWrites, ChangedIn, Fenced, BeforeFences, AfterFences, Geometry, Tags;
    AddShape(t, segs, top, tbase, tsize);
    AddTop(t, segs, top, tbase, tsize);
    AddNewTop(t, segs, top, tbase, tsize);
    OldPlaces(t, segs, top, tbase, tsize);
    var csp := RecordAt(top, t[top].size);
    AddChanges(m, m2, segs[0], top, t[top].size, tbase, tsize);
    AddOldWrites(m, m2, t, segs[0], top, tbase, tsize);
    AddNewWrites(m, m2, segs[0], top, t[top].size, tbase, tsize);
    AddWritesAre(m, AfterFences(m2, csp, top), t, segs, top, tbase, tsize);
  }

  lemma AddShape(t: Tiles, segs: seq<Seg>, top: int, tbase: int, tsize: nat)
    requires MayAdd(t, segs, top, tbase, tsize)
    ensures segs != [] && top in t && Disjoint(tbase, tsize, segs[0].base, segs[0].size)
  {}

  /** The writes happen in the old top, or in the new segment. */
  lemma AddChanges(m: Mem, m2: Mem, s: Seg, top: int, n: nat, tbase: int, tsize: nat)
    requires tsize >= GRANULARITY && n > 0
    requires var csp := RecordAt(top, n); Fenced(BeforeFences(m, csp, tbase, tsize), m2, csp + 32, s.base + s.size) && csp + 32 <= s.base + s.size - 8
    ensures ChangedIn(m, AfterFences(m2, RecordAt(top, n), top), s, top, tbase, tsize)
  {}

  /** Old tiles other than top keep their heads and all of them their footers. */
  lemma AddOldWrites(m: Mem, m2: Mem, t: Tiles, s: Seg, top: int, tbase: int, tsize: nat)
    requires top in t && tsize >= GRANULARITY && t[top].size > 0 && Next(t, top) !in t
    requires var csp := RecordAt(top, t[top].size); Fenced(BeforeFences(m, csp, tbase, tsize), m2, csp + 32, s.base + s.size) && csp + 32 <= s.base + s.size - 8
    requires forall a <- t :: a != top ==> !(top <= a < s.base + s.size) && !(tbase <= a < tbase + tsize)
    ensures var m' := AfterFences(m2, RecordAt(top, t[top].size), top);
      (forall a <- t :: a != top && a in m.head ==> a in m'.head && m'.head[a] == m.head[a])
      && (forall a <- t :: a in m.foot ==> a in m'.foot && m'.foot[a] == m.foot[a])
  {}

  lemma AddNewWrites(m: Mem, m2: Mem, s: Seg, top: int, n: nat, tbase: int, tsize: nat)
    requires tsize >= GRANULARITY && n > 0
    requires var csp := RecordAt(top, n); Fenced(BeforeFences(m, csp, tbase, tsize), m2, csp + 32, s.base + s.size) && csp + 32 <= s.base + s.size - 8
    requires Disjoint(tbase, tsize, s.base, s.size) && s.base <= top
    ensures var csp := RecordAt(top, n); var m' := AfterFences(m2, csp, top);
      && tbase in m'.head && m'.head[tbase] == Head(tsize - TOP_FOOT_SIZE, true, false)
      && csp in m'.head && m'.head[csp] == Head(32, csp == top, true)
      && (forall a <- Fences(csp + 32, s.base + s.size - 8) :: a in m'.head && m'.head[a] == Head(8, true, true))
      && (csp != top ==> top in m'.head && m'.head[top] == Head(n, true, false) && csp in m'.foot && m'.foot[csp] == n)
  {}

  lemma AddWritesAre(m: Mem, m': Mem, t: Tiles, segs: seq<Seg>, top: int, tbase: int, tsize: nat)
    requires segs != [] && top in t && tsize >= TOP_FOOT_SIZE
    requires (forall a <- t :: a != top && a in m.head ==> a in m'.head && m'.head[a] == m.head[a])
    requires (forall a <- t :: a in m.foot ==> a in m'.foot && m'.foot[a] == m.foot[a])
    requires var csp, s, n := RecordAt(top, t[top].size), segs[0], t[top].size;
      && tbase in m'.head && m'.head[tbase] == Head(tsize - TOP_FOOT_SIZE, true, false)
      && csp in m'.head && m'.head[csp] == Head(32, csp == top, true)
      && (forall a <- Fences(csp + 32, s.base + s.size - 8) :: a in m'.head && m'.head[a] == Head(8, true, true))
      && (csp != top ==> top in m'.head && m'.head[top] == Head(n, true, false) && csp in m'.foot && m'.foot[csp] == n)
    ensures AddWrites(m, m', t, segs, top, tbase, tsize)
  {}

  /** The writes of add_segment, up to the footer of the rest of the old top. */
  method WriteAddSegment(m: MState, tbase: int, tsize: nat)
    requires MayAdd(m.tiles, m.segs, m.top, tbase, tsize) && Tags(m.mem, m.tiles, m.segs)
    requires m.segs != [] && m.top in m.tiles && tsize >= TOP_FOOT_SIZE
    modifies m`mem, m`tiles, m`segs, m`top, m`topsize, m`trimCheck
    ensures AddWrites(old(m.mem), m.mem, old(m.tiles), old(m.segs), old(m.top), tbase, tsize)
    ensures ChangedIn(old(m.mem), m.mem, old(m.segs)[0], old(m.top), tbase, tsize)
    ensures m.Bk() == Added(old(m.Bk()), m.mem, tbase, tsize)
  {
    hide MayAdd, Tags, AddWrites, ChangedIn, Fenced, RecordPlace, AddedTiles, Geometry, InitTop, SetSizeAndPinuseOfInuse, SetFreeWithPinuse;
    var oldTop := m.top;
    var oldEnd := m.segs[0].base + m.segs[0].size;
    var csp := RecordPlace(oldEnd, oldTop);
    RecordPlaceFacts(m.tiles, m.segs, m.top, tbase, tsize);
    ghost var t', m0, segs0 := AddedTiles(m.tiles, m.segs, m.top, tbase, tsize), m.mem, m.segs;
    m.top := tbase;
    m.topsize := tsize - TOP_FOOT_SIZE;
    m.mem := InitTop(m.mem, m.top, m.topsize);
    m.trimCheck := DEFAULT_TRIM_THRESHOLD;
    m.mem := SetSizeAndPinuseOfInuse(m.mem, csp, 32);
    m.segs := [Seg(tbase, tsize, 0), Seg(m.segs[0].base, m.segs[0].size, csp)] + m.segs[1..];
    WriteFenceposts(m, csp + 32, oldEnd);
    AddWritten(m0, m.mem, m.tiles, segs0, oldTop, tbase, tsize);
    if csp != oldTop {
      m.mem := SetFreeWithPinuse(m.mem, oldTop, csp - oldTop, csp);
    }
    m.tiles := t';
  }

  /** add_segment */
  method AddSegment(m: MState, tbase: int, tsize: nat)
    requires m.Valid() && Region(m, tbase, tsize)
    modifies m, m.small, m.tree
    ensures m.Valid() && m.Heap() == old(m.Heap()) && m.top == tbase && m.topsize == tsize - TOP_FOOT_SIZE && m.content == old(m.content)
  {
    hide AddWrites, Geometry, Remembered, HeapOf, MState.Sound;
    var oldTop, psize := m.top, m.topsize;
    ghost var b := m.Bk();
    RegionAdds(m, tbase, tsize);
    WriteAddSegment(m, tbase, tsize);
    AfterAddSegment(m, b, m.mem, tbase, tsize);
    if psize >= MIN_CHUNK_SIZE {
      m.InsertChunk(oldTop, psize);
    }
  }

  lemma RegionAdds(m: MState, tbase: int, tsize: nat)
    requires m.Valid() && Region(m, tbase, tsize)
    ensures MayAdd(m.tiles, m.segs, m.top, tbase, tsize) && Tags(m.mem, m.tiles, m.segs)
    ensures m.segs != [] && m.top in m.tiles && m.topsize == m.tiles[m.top].size
  {}
}
