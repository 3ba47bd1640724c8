/** lj_alloc_malloc: where a request is served from. */
module AllocMalloc {
  import BitWords
  import BinMaps
  import opened AllocIndex
  import AllocSearch
  import AllocBestFit
  import opened AllocSmallBins
  import opened AllocTiles
  import opened AllocMoves
  import opened AllocBooks
  import opened AllocState
  import opened AllocSystem
  import opened AllocServe

  const MAX_SMALL_REQUEST := 240
  const MIN_REQUEST := 23
  const MAX_REQUEST := SIZE_T_LIMIT - 128

  /** pad_request */
  function PadRequest(n: nat): nat { (n + 15) / 8 * 8 }

  /** The chunk size for a request; a size no chunk can have if the request is too large. */
  function ChunkFor(n: nat): nat {
    if n >= MAX_REQUEST then SIZE_T_LIMIT - 1 else if n < MIN_REQUEST then MIN_CHUNK_SIZE else PadRequest(n)
  }

  lemma ChunkForFacts(n: nat)
    requires n < SIZE_T_LIMIT
    ensures MIN_CHUNK_SIZE <= ChunkFor(n) < SIZE_T_LIMIT && (n < MAX_REQUEST ==> ChunkFor(n) % 8 == 0 && ChunkFor(n) - CHUNK_OVERHEAD >= n)
    ensures n <= MAX_SMALL_REQUEST ==> ChunkFor(n) < 256
    ensures n > MAX_SMALL_REQUEST ==> ChunkFor(n) >= 256
  {}

  // ---------------------------------------------------------------- alloc_sys

  /** The first segment that ends where the new bytes start, or |segs|. */
  method SegmentEndingAt(m: MState, at: int) returns (sp: nat)
    ensures sp <= |m.segs| && (sp < |m.segs| ==> at == m.segs[sp].base + m.segs[sp].size)
    ensures forall j | 0 <= j < sp :: at != m.segs[j].base + m.segs[j].size
  {
    sp := 0;
    while sp < |m.segs| && at != m.segs[sp].base + m.segs[sp].size
      invariant sp <= |m.segs| && forall j | 0 <= j < sp :: at != m.segs[j].base + m.segs[j].size
    {
      sp := sp + 1;
    }
  }

  method SegmentStartingAt(m: MState, at: int) returns (sp: nat)
    ensures sp <= |m.segs| && (sp < |m.segs| ==> at == m.segs[sp].base)
  {
    sp := 0;
    while sp < |m.segs| && m.segs[sp].base != at
      invariant sp <= |m.segs|
    {
      sp := sp + 1;
    }
  }

  /** segment_holds */
  predicate SegmentHolds(s: Seg, a: int) { s.base <= a < s.base + s.size }

  lemma OnlyFirstHoldsTop(m: MState, sp: nat)
    requires m.Valid() && sp < |m.segs|
    ensures SegmentHolds(m.segs[sp], m.top) <==> sp == 0
  {
    assert SegOk(m.tiles, m.segs, 0) && SegOk(m.tiles, m.segs, sp);
    Positive(m.Bk(), m.Bins(), {}, m.top);
    if SegmentHolds(m.segs[sp], m.top) { OneSeg(m.tiles, m.segs, 0, sp, m.top); }
  }

  /** Fresh bytes are a region the allocator may use. */
  lemma NewRegion(m: MState, mapped: set<int>, base: int, n: nat)
    requires m.Valid() && Mapped(m.segs, m.direct, mapped) && m.mapped == mapped + Range(base, n)
    requires Range(base, n) !! mapped && base > 0 && OnPage(base) && Granular(n) && n >= GRANULARITY && base + n <= ADDRESS_LIMIT
    ensures Region(m, base, n) && base !in m.tiles
  {
    FreshApart(m.Bk(), m.Bins(), {}, m.direct, mapped, base, n);
    NotATile(m.Bk(), m.Bins(), {}, base, n);
  }

  /** The bytes get into a segment; then they are in top, unless prepend_alloc has used them. */
  method NewSpace(m: MState, tbase: int, tsize: nat, nb: nat) returns (mem: int)
    requires m.Valid() && Region(m, tbase, tsize) && MIN_CHUNK_SIZE <= nb && nb % 8 == 0 && nb + 65 <= tsize
    modifies m, m.small, m.tree
    ensures m.Valid() && mem != 0 && Served(old(m.Heap()), m.Heap(), mem, nb - CHUNK_OVERHEAD) && m.content == old(m.content)
    ensures mem - 16 == old(m.top) || mem - 16 == tbase
  {
    hide Good, DirectsOk, Mapped, HeapOf, BinsOk, Live, MState.Sound, Geometry;
    TopPositive(m);
    var sp := SegmentEndingAt(m, tbase);
    if sp < |m.segs| { OnlyFirstHoldsTop(m, sp); }
    if sp < |m.segs| && SegmentHolds(m.segs[sp], m.top) {
      Append(m, tbase, tsize);
    } else {
      sp := SegmentStartingAt(m, tbase + tsize);
      if sp < |m.segs| {
        mem := PrependAlloc(m, sp, tbase, tsize, nb);
        return;
      } else {
        AddSegment(m, tbase, tsize);
      }
    }
    TopPositive(m);
    var p := m.UseTop(nb);
    mem := p + 16;
  }

  lemma TopPositive(m: MState)
    requires m.Valid()
    ensures m.top > 0 && m.topsize > 0 && m.segs != [] && m.top % 8 == 0 && m.topsize % 8 == 0
  {
    Positive(m.Bk(), m.Bins(), {}, m.top);
  }

  /** What alloc_sys asks the system for, if nothing is given. */
  function Asked(nb: nat): seq<nat>
    requires nb < SIZE_T_LIMIT
  {
    var rsize := GranularityAlign(Plus(nb, TOP_FOOT_SIZE + 1));
    (if nb >= DEFAULT_MMAP_THRESHOLD then DirectAsked(nb) else []) + (if rsize > nb then [rsize] else [])
  }

  /** It asks for nothing exactly if the size wraps around when it is rounded to pages. */
  lemma AsksNothing(nb: nat)
    requires nb < SIZE_T_LIMIT
    ensures Asked(nb) == [] <==> nb + 55 + PAGE - 1 >= SIZE_T_LIMIT
  {
    AlignedUp(nb, 55, PAGE);
    AlignedUp(nb, 65, GRANULARITY);
  }

  lemma AlignedUp(nb: nat, k: nat, g: nat)
    requires nb < SIZE_T_LIMIT && 0 < k < g <= 0x2_0000 && SIZE_T_LIMIT % g == 0
    ensures Plus(Plus(nb, k), g - 1) / g * g > nb <==> nb + k + g - 1 < SIZE_T_LIMIT
  {
    hide Plus;
    PlusIs(nb, k);
    PlusIs(Plus(nb, k), g - 1);
    Floor(Plus(Plus(nb, k), g - 1), g);
  }

  lemma PlusIs(a: nat, b: nat)
    requires a < SIZE_T_LIMIT && b < SIZE_T_LIMIT
    ensures Plus(a, b) == if a + b < SIZE_T_LIMIT then a + b else a + b - SIZE_T_LIMIT
  {}

  lemma Floor(x: nat, g: nat)
    requires g > 0
    ensures x - g < x / g * g <= x
  {}

  method AllocSys(m: MState, nb: nat) returns (mem: int)
    requires m.Valid() && MIN_CHUNK_SIZE <= nb < SIZE_T_LIMIT && (nb % 8 == 0 || nb == SIZE_T_LIMIT - 1)
    modifies m, m.small, m.tree
    ensures m.Valid() && Served(old(m.Heap()), m.Heap(), mem, nb - CHUNK_OVERHEAD) && m.content == old(m.content)
    ensures nb == SIZE_T_LIMIT - 1 ==> mem == 0
    ensures mem == 0 ==> m.refused == old(m.refused) + Asked(nb)
    ensures mem != 0 ==> mem - 16 == old(m.top) || mem - 16 !in old(m.tiles)
  {
    hide Good, DirectsOk, HeapOf, Remembered, DirectOk, Spare, Live, Geometry, BinsOk, Tags;
    if nb >= DEFAULT_MMAP_THRESHOLD {
      mem := DirectAlloc(m, nb);
      if mem != 0 {
        return;
      }
    }
    mem := 0;
    var rsize := GranularityAlign(Plus(nb, TOP_FOOT_SIZE + 1));
    if rsize > nb {
      SegmentSize(nb);
      ghost var mapped := m.mapped;
      var mp := m.Mmap(rsize);
      if mp != -1 {
        NewRegion(m, mapped, mp, rsize);
        mem := NewSpace(m, mp, rsize, nb);
      }
    }
  }

  // ---------------------------------------------------------------- from the treebins

  lemma BinSizes(m: MState, a: int)
    requires m.Valid() && a in m.Bins()
    ensures a in m.tiles && a in m.mem.head && m.mem.head[a].size == m.tiles[a].size && a > 0
    ensures m.tiles[a].size < ADDRESS_LIMIT && m.tiles[a].size % 8 == 0
  {
    m.BinFor(a, {});
    Positive(m.Bk(), m.Bins(), {}, a);
  }

  /** Takes the unlinked chunk `v`, `rsize` larger than needed. */
  method UseLarge(m: MState, v: int, nb: nat, rsize: nat)
    requires m.ValidBut({v}) && v in m.tiles && m.tiles[v].size == nb + rsize && nb >= MIN_LARGE_SIZE && nb % 8 == 0
    modifies m, m.small, m.tree
    ensures m.Valid() && v !in old(m.Heap()) && v in m.Heap() && m.Heap()[v] >= nb - CHUNK_OVERHEAD && m.content == old(m.content)
    ensures m.Heap() == old(m.Heap())[v := m.Heap()[v]] && UsesBinned(old(m.Bk()), m.Bk(), nb, v)
  {
    hide Good, DirectsOk, Mapped, HeapOf, BinsOk, MState.Sound;
    if rsize < MIN_CHUNK_SIZE {
      m.UseHeldWhole(v, rsize + nb);
    } else {
      var r := m.UseHeldFront(v, nb);
      m.InsertChunk(r, rsize);
    }
  }

  /** tmalloc_large: a best fit over all treebins, unless the designated victim fits at
      least as well. */
  method TmallocLarge(m: MState, nb: nat) returns (mem: int)
    requires m.Valid() && MIN_LARGE_SIZE <= nb < SIZE_T_LIMIT && nb % 8 == 0
    modifies m, m.small, m.tree
    ensures m.Valid() && Served(old(m.Heap()), m.Heap(), mem, nb - CHUNK_OVERHEAD) && m.content == old(m.content)
    ensures mem == 0 ==> m.Bk() == old(m.Bk()) && m.Bins() == old(m.Bins()) && m.small.smallmap == old(m.small.smallmap)
    ensures mem == 0 ==> m.refused == old(m.refused)
    ensures mem == 0 ==> forall a <- old(m.tree.Chunks()) ::
      a in old(m.tiles) && (old(m.tiles)[a].size >= nb ==> nb <= old(m.dvsize) <= old(m.tiles)[a].size)
    ensures mem != 0 ==> Best(old(m.tiles), old(m.tree.Chunks()), old(m.dvsize), nb, mem - 16) && UsesBinned(old(m.Bk()), m.Bk(), nb, mem - 16)
  {
    hide Good, DirectsOk, Mapped, HeapOf, DirectOk, Geometry;
    var v, rsize := AllocSearch.BestFit(m.tree, nb, SizesOf(m.mem));
    Chosen(m, nb, v, rsize);
    if v != 0 && rsize < AllocBestFit.Minus(m.dvsize, nb) {
      m.UnlinkChunk(v, nb + rsize);
      assert {} + {v} == {v};
      UseLarge(m, v, nb, rsize);
      mem := v + 16;
    } else {
      mem := 0;
    }
  }

  lemma DvSize(m: MState)
    requires m.Valid()
    ensures m.dvsize < ADDRESS_LIMIT && (m.dvsize > 0 ==> m.dv in m.tiles && m.dv > 0 && m.tiles[m.dv] == Tile(m.dvsize, false) && m.dvsize >= MIN_CHUNK_SIZE)
  {
    if m.dv != 0 {
      Positive(m.Bk(), m.Bins(), {}, m.dv);
      var i := FreeNeighbours(m.mem, m.tiles, m.segs, m.top, m.dv);
    }
  }

  /** What the result of the search and the comparison with the designated victim mean. */
  lemma Chosen(m: MState, nb: nat, v: int, rsize: nat)
    requires m.Valid() && MIN_LARGE_SIZE <= nb < SIZE_T_LIMIT
    requires var sz := SizesOf(m.mem); if v == 0 then forall a <- m.tree.Chunks() :: a in sz && sz[a] < nb
      else v in m.tree.Chunks() && v in sz && nb <= sz[v] && rsize == sz[v] - nb && forall a <- m.tree.Chunks() :: a in sz && (sz[a] >= nb ==> sz[v] <= sz[a])
    ensures if v != 0 && rsize < AllocBestFit.Minus(m.dvsize, nb)
      then Best(m.tiles, m.tree.Chunks(), m.dvsize, nb, v) && v in m.mem.head && m.mem.head[v].size == nb + rsize == m.tiles[v].size && v > 0
      else forall a <- m.tree.Chunks() :: a in m.tiles && (m.tiles[a].size >= nb ==> nb <= m.dvsize <= m.tiles[a].size)
  {
    forall a | a in m.tree.Chunks()
      ensures a in m.tiles && a in m.mem.head && SizesOf(m.mem)[a] == m.tiles[a].size < ADDRESS_LIMIT && a > 0
    {
      BinSizes(m, a);
    }
    DvSize(m);
    AllocBestFit.Wrapped(m.dvsize, nb);
  }

  /** The chunk `v` is a smallest one that fits, and fits better than the designated victim. */
  ghost predicate Best(t: Tiles, chunks: set<int>, dvsize: nat, nb: nat, v: int) {
    && v in chunks && v in t && t[v].size >= nb && (dvsize < nb || t[v].size < dvsize)
    && forall a <- chunks :: a in t && (t[a].size >= nb ==> t[v].size <= t[a].size)
  }

  /** Takes the front of `p`, and makes the rest the designated victim, or takes it all. */
  method UseAndReplaceDv(m: MState, p: int, nb: nat, rsize: nat)
    requires m.ValidBut({p}) && p in m.tiles && m.tiles[p].size == nb + rsize && MIN_CHUNK_SIZE <= nb < MIN_LARGE_SIZE && nb % 8 == 0 && m.dvsize < 256
    modifies m, m.small
    ensures m.Valid() && p !in old(m.Heap()) && p in m.Heap() && m.Heap()[p] >= nb - CHUNK_OVERHEAD && m.content == old(m.content)
    ensures m.Heap() == old(m.Heap())[p := m.Heap()[p]] && UsesBinned(old(m.Bk()), m.Bk(), nb, p)
  {
    hide Good, DirectsOk, Mapped, HeapOf, SizesOf, MState.Sound;
    if rsize < MIN_CHUNK_SIZE {
      m.UseHeldWhole(p, rsize + nb);
    } else {
      var r := m.UseHeldFront(p, nb);
      m.ReplaceDv(r, rsize);
    }
  }

  /** tmalloc_small: a smallest chunk of all treebins. */
  method TmallocSmall(m: MState, nb: nat) returns (mem: int)
    requires m.Valid() && MIN_CHUNK_SIZE <= nb < MIN_LARGE_SIZE && nb % 8 == 0 && m.tree.treemap != 0 && m.dvsize < nb
    modifies m, m.small, m.tree
    ensures m.Valid() && mem != 0 && Served(old(m.Heap()), m.Heap(), mem, nb - CHUNK_OVERHEAD) && m.content == old(m.content)
    ensures mem - 16 in old(m.tree.Chunks()) && mem - 16 in old(m.tiles)
    ensures forall a <- old(m.tree.Chunks()) :: a in old(m.tiles) && old(m.tiles)[mem - 16].size <= old(m.tiles)[a].size
    ensures UsesBinned(old(m.Bk()), m.Bk(), nb, mem - 16)
  {
    hide Good, DirectsOk, Mapped, HeapOf, Live, SmallBins.Chunks;
    var v, rsize := AllocSearch.Smallest(m.tree, nb, SizesOf(m.mem));
    forall a | a in m.tree.Chunks()
      ensures a in m.tiles && a in m.mem.head && SizesOf(m.mem)[a] == m.tiles[a].size && a > 0
    {
      BinSizes(m, a);
    }
    m.UnlinkChunk(v, nb + rsize);
    assert {} + {v} == {v};
    UseAndReplaceDv(m, v, nb, rsize);
    mem := v + 16;
  }

  // ---------------------------------------------------------------- from the smallbins

  /** A remainderless fit: the bin of the size, or else the next one. */
  method SmallFit(m: MState, idx: nat, nb: nat) returns (mem: int)
    requires m.Valid() && nb == 8 * idx && MIN_CHUNK_SIZE <= nb < MIN_LARGE_SIZE && (idx in m.small.Marks() || idx + 1 in m.small.Marks())
    modifies m, m.small
    ensures m.Valid() && mem != 0 && Served(old(m.Heap()), m.Heap(), mem, nb - CHUNK_OVERHEAD) && m.content == old(m.content)
    ensures mem - 16 in old(m.small.Chunks()) && UsesBinned(old(m.Bk()), m.Bk(), nb, mem - 16)
    ensures old(m.tiles)[mem - 16].size == 8 * if idx in old(m.small.Marks()) then idx else idx + 1
  {
    hide Good, DirectsOk, Mapped, HeapOf, Remembered, MState.Sound;
    BinMaps.SmallBits(m.small.smallmap, idx);
    var smallbits := BinMaps.ShiftRight(m.small.smallmap, idx);
    var i := if BitWords.Odd(smallbits) then idx else idx + 1;
    var p := m.TakeSmall(i);
    PositiveHeld(m, p);
    m.UseHeldWhole(p, 8 * i);
    mem := p + 16;
  }

  lemma PositiveHeld(m: MState, p: int)
    requires m.ValidBut({p}) && p in m.tiles
    ensures p > 0
  {
    Positive(m.Bk(), m.Bins(), {p}, p);
  }

  method NextBin(smallmap: bv32, idx: nat) returns (i: nat)
    requires idx < 32 && exists j :: j in BinMaps.Bins(smallmap) && j > idx
    ensures NextMark(BinMaps.Bins(smallmap), idx, i)
  {
    BinMaps.SmallBits(smallmap, idx);
    var smallbits := BinMaps.ShiftRight(smallmap, idx);
    var leftbits := BitWords.Common(BinMaps.ShiftLeft(smallbits, idx), BitWords.LeftBits(BinMaps.Idx2Bit(idx)));
    ghost var j :| j in BinMaps.Bins(smallmap) && j > idx;
    assert j in BinMaps.Bins(leftbits);
    BinMaps.EmptySpec(leftbits);
    BinMaps.FfsSpec(leftbits);
    i := BinMaps.Ffs(leftbits);
    forall k | k in BinMaps.Bins(smallmap) && k > idx
      ensures k >= i
    {
      assert k in BinMaps.Bins(leftbits);
    }
  }

  /** A chunk from the next non-empty smallbin. */
  method SmallNext(m: MState, idx: nat, nb: nat) returns (mem: int)
    requires m.Valid() && nb == 8 * idx && MIN_CHUNK_SIZE <= nb < MIN_LARGE_SIZE && m.dvsize < 256
    requires exists j :: j in m.small.Marks() && j > idx
    modifies m, m.small
    ensures m.Valid() && mem != 0 && Served(old(m.Heap()), m.Heap(), mem, nb - CHUNK_OVERHEAD) && m.content == old(m.content)
    ensures mem - 16 in old(m.small.Chunks()) && UsesBinned(old(m.Bk()), m.Bk(), nb, mem - 16)
    ensures exists i: nat :: NextMark(old(m.small.Marks()), idx, i) && old(m.tiles)[mem - 16].size == 8 * i
  {
    hide Good, DirectsOk, Mapped, HeapOf;
    var i := NextBin(m.small.smallmap, idx);
    var p := m.TakeSmall(i);
    PositiveHeld(m, p);
    UseAndReplaceDv(m, p, nb, 8 * i - nb);
    mem := p + 16;
  }

  // ---------------------------------------------------------------- from the designated victim

  method FromDv(m: MState, nb: nat) returns (mem: int)
    requires m.Valid() && nb >= MIN_CHUNK_SIZE && nb % 8 == 0 && nb <= m.dvsize
    modifies m
    ensures m.Valid() && mem != 0 && Served(old(m.Heap()), m.Heap(), mem, nb - CHUNK_OVERHEAD) && m.content == old(m.content)
    ensures mem == old(m.dv) + 16 && UsesVictim(old(m.Bk()), m.Bk(), nb)
  {
    hide Good, DirectsOk, Mapped, HeapOf, Range, MState.Sound, WordIs;
    DvSize(m);
    var rsize := m.dvsize - nb;
    var p := m.dv;
    assert {} + {m.dv} == {m.dv};
    m.ReleaseDv();
    if rsize >= MIN_CHUNK_SIZE {
      var r := m.UseHeldFront(p, nb);
      m.MakeDv(r, rsize);
    } else {
      m.UseHeldWhole(p, rsize + nb);
    }
    mem := p + 16;
  }

  // ---------------------------------------------------------------- lj_alloc_malloc

  /** No free chunk is large enough, and top could not be split either. */
  ghost predicate NothingLeft(b: Book, nb: nat) {
    b.topsize <= nb && forall a <- FreeTiles(b.t) :: a != b.top ==> b.t[a].size < nb
  }

  lemma NoneFits(m: MState, nb: nat)
    requires m.Valid() && nb > m.dvsize && nb >= m.topsize
    requires forall a <- m.tree.Chunks() :: a in m.tiles && m.tiles[a].size < nb
    requires forall j <- m.small.Marks() :: 8 * j < nb
    ensures NothingLeft(m.Bk(), nb)
  {
    DvSize(m);
    forall a | a in FreeTiles(m.tiles) && a != m.top
      ensures m.tiles[a].size < nb
    {
      Positive(m.Bk(), m.Bins(), {}, a);
      assert Accounted(m.Bk(), m.Bins(), {}) && (a == m.dv || a in m.Bins());
      if a != m.dv && a in m.small.Chunks() {
        BinSizes(m, a);
        m.small.MemberSmall(a, SizesOf(m.mem));
        var j := m.tiles[a].size / 8;
        assert j in m.small.Marks() && 8 * j == m.tiles[a].size;
      }
    }
  }

  /** The part of lj_alloc_malloc behind the bins. */
  method FromDvOrTop(m: MState, nb: nat) returns (mem: int)
    requires m.Valid() && MIN_CHUNK_SIZE <= nb < SIZE_T_LIMIT && (nb % 8 == 0 || nb == SIZE_T_LIMIT - 1)
    modifies m, m.small, m.tree
    ensures m.Valid() && Served(old(m.Heap()), m.Heap(), mem, nb - CHUNK_OVERHEAD) && m.content == old(m.content)
    ensures mem == 0 ==> nb > old(m.dvsize) && nb >= old(m.topsize) && m.refused == old(m.refused) + Asked(nb)
    ensures nb == SIZE_T_LIMIT - 1 ==> mem == 0
    ensures mem != 0 && !FromBins(old(m.Bk()), nb) ==> ServedBy(old(m.Bk()), m.Bk(), nb, mem - 16)
  {
    hide Good, DirectsOk, Mapped, HeapOf;
    DvSize(m);
    TopSize(m);
    if nb <= m.dvsize {
      mem := FromDv(m, nb);
    } else if nb < m.topsize {
      TopPositive(m);
      var p := m.UseTop(nb);
      mem := p + 16;
    } else {
      mem := AllocSys(m, nb);
    }
  }

  lemma TopSize(m: MState)
    requires m.Valid()
    ensures m.topsize < ADDRESS_LIMIT
  {
    Positive(m.Bk(), m.Bins(), {}, m.top);
  }

  /** The bins, seen as tiles. */
  lemma KindsOf(m: MState)
    requires m.Valid()
    ensures Kinds(m.Bk(), m.small.Chunks(), m.tree.Chunks(), m.small.Marks())
    ensures m.tree.treemap == 0 ==> m.tree.Chunks() == {}
  {
    forall a | a in m.small.Chunks()
      ensures a in m.tiles && m.tiles[a].size < MIN_LARGE_SIZE && exists i <- m.small.Marks() :: m.tiles[a].size == 8 * i
    {
      SmallKind(m, a);
    }
    forall a | a in m.tree.Chunks()
      ensures a in m.tiles && m.tiles[a].size >= MIN_LARGE_SIZE && m.tree.treemap != 0
    {
      m.BinFor(a, {});
      TreeMarked(m, a);
    }
    assert Accounted(m.Bk(), m.Bins(), {});
  }

  lemma SmallKind(m: MState, a: int)
    requires m.Valid() && a in m.small.Chunks()
    ensures a in m.tiles && m.tiles[a].size < MIN_LARGE_SIZE && exists i <- m.small.Marks() :: m.tiles[a].size == 8 * i
  {
    BinSizes(m, a);
    m.small.MemberSmall(a, SizesOf(m.mem));
    assert m.tiles[a].size == 8 * SmallIndex(m.tiles[a].size);
  }

  /** lj_alloc_malloc for requests small enough for the smallbins. */
  method MallocSmall(m: MState, nb: nat) returns (mem: int)
    requires m.Valid() && MIN_CHUNK_SIZE <= nb < MIN_LARGE_SIZE && nb % 8 == 0
    modifies m, m.small, m.tree
    ensures m.Valid() && Served(old(m.Heap()), m.Heap(), mem, nb - CHUNK_OVERHEAD) && m.content == old(m.content)
    ensures mem == 0 ==> NothingLeft(old(m.Bk()), nb) && m.refused == old(m.refused) + Asked(nb)
    ensures mem != 0 ==> ServedBy(old(m.Bk()), m.Bk(), nb, mem - 16)
  {
    hide Good, DirectsOk, Mapped, HeapOf, NothingLeft, Kinds, FromBins, SmallestFit, UsesBinned, UsesVictim, UsesTop, DirectOk, Geometry, Tags, BinsOk;
    var idx := SmallIndex(nb);
    var smallbits := BinMaps.ShiftRight(m.small.smallmap, idx);
    BinMaps.SmallBits(m.small.smallmap, idx);
    ghost var b, s, t, marks := m.Bk(), m.small.Chunks(), m.tree.Chunks(), m.small.Marks();
    if BitWords.Low2(smallbits) {
      KindsOf(m);
      mem := SmallFit(m, idx, nb);
      SmallServed(b, s, t, marks, idx, mem - 16);
    } else {
      mem := MallocFurther(m, idx, nb, smallbits);
    }
  }

  /** The rest of a small request, when no smallbin fits it. */
  method MallocFurther(m: MState, idx: nat, nb: nat, smallbits: bv32) returns (mem: int)
    requires m.Valid() && MIN_CHUNK_SIZE <= nb < MIN_LARGE_SIZE && nb == 8 * idx
    requires smallbits == BinMaps.ShiftRight(m.small.smallmap, idx) && idx !in m.small.Marks() && idx + 1 !in m.small.Marks()
    modifies m, m.small, m.tree
    ensures m.Valid() && Served(old(m.Heap()), m.Heap(), mem, nb - CHUNK_OVERHEAD) && m.content == old(m.content)
    ensures mem == 0 ==> NothingLeft(old(m.Bk()), nb) && m.refused == old(m.refused) + Asked(nb)
    ensures mem != 0 ==> ServedBy(old(m.Bk()), m.Bk(), nb, mem - 16)
  {
    hide Good, DirectsOk, Mapped, HeapOf, NothingLeft, Kinds, FromBins, SmallestFit, UsesBinned, UsesVictim, UsesTop, DirectOk, Geometry, Tags, BinsOk;
    BinMaps.SmallBits(m.small.smallmap, idx);
    NoSmallbits(m, idx, nb);
    KindsOf(m);
    ghost var b, s, t, marks := m.Bk(), m.small.Chunks(), m.tree.Chunks(), m.small.Marks();
    if nb > m.dvsize {
      if smallbits != 0 {
        mem := SmallNext(m, idx, nb);
        NextServed(b, s, t, marks, idx, mem - 16);
        return;
      } else if m.tree.treemap != 0 {
        mem := TmallocSmall(m, nb);
        TreeServed(b, s, t, marks, idx, mem - 16);
        return;
      }
    }
    SmallElsewhere(b, s, t, marks, idx);
    mem := FromDvOrTop(m, nb);
  }

  /** The case in which neither the smallbins nor the treebins have anything. */
  lemma NoSmallbits(m: MState, idx: nat, nb: nat)
    requires m.Valid() && nb == 8 * idx
    ensures (forall j <- m.small.Marks() :: j < idx) && m.tree.treemap == 0 && nb > m.dvsize && nb >= m.topsize ==> NothingLeft(m.Bk(), nb)
  {
    if (forall j <- m.small.Marks() :: j < idx) && m.tree.treemap == 0 && nb > m.dvsize && nb >= m.topsize {
      forall a | a in m.tree.Chunks()
        ensures false
      {
        TreeMarked(m, a);
      }
      NoneFits(m, nb);
    }
  }

  lemma TreeMarked(m: MState, a: int)
    requires m.Valid() && a in m.tree.Chunks()
    ensures m.tree.treemap != 0
  {
    var q :| q in m.tree.at && a in m.tree.at[q];
    BinMaps.EmptySpec(m.tree.treemap);
    AllocSearch.MarkedBins(m.tree.L(), m.tree.at, SizesOf(m.mem), q);
  }

  /** lj_alloc_malloc for the other requests below MAX_REQUEST. */
  method MallocLarge(m: MState, nb: nat) returns (mem: int)
    requires m.Valid() && MIN_LARGE_SIZE <= nb < SIZE_T_LIMIT && nb % 8 == 0
    modifies m, m.small, m.tree
    ensures m.Valid() && Served(old(m.Heap()), m.Heap(), mem, nb - CHUNK_OVERHEAD) && m.content == old(m.content)
    ensures mem == 0 ==> NothingLeft(old(m.Bk()), nb) && m.refused == old(m.refused) + Asked(nb)
    ensures mem != 0 ==> ServedBy(old(m.Bk()), m.Bk(), nb, mem - 16)
  {
    hide Good, DirectsOk, Mapped, HeapOf, NothingLeft, Kinds, FromBins, SmallestFit, UsesBinned, UsesVictim, UsesTop, DirectOk, UsedOk;
    NoLarge(m, nb);
    KindsOf(m);
    ghost var b, s, t, marks := m.Bk(), m.small.Chunks(), m.tree.Chunks(), m.small.Marks();
    if m.tree.treemap != 0 {
      mem := TmallocLarge(m, nb);
      if mem != 0 {
        LargeServed(b, s, t, marks, nb, mem - 16);
        return;
      }
    }
    LargeElsewhere(b, s, t, marks, nb);
    mem := FromDvOrTop(m, nb);
  }

  lemma NoLarge(m: MState, nb: nat)
    requires m.Valid() && MIN_LARGE_SIZE <= nb
    ensures (forall a <- m.tree.Chunks() :: a in m.tiles && m.tiles[a].size < nb) && nb > m.dvsize && nb >= m.topsize ==> NothingLeft(m.Bk(), nb)
    ensures m.tree.treemap == 0 ==> m.tree.Chunks() == {}
  {
    if m.tree.treemap == 0 {
      forall a | a in m.tree.Chunks()
        ensures false
      {
        TreeMarked(m, a);
      }
    }
    if (forall a <- m.tree.Chunks() :: a in m.tiles && m.tiles[a].size < nb) && nb > m.dvsize && nb >= m.topsize {
      NoneFits(m, nb);
    }
  }

  /** lj_alloc_malloc. The free memory that a request gets is determined by what is free; it fails
      only when nothing free is large enough and the system gives nothing. */
  method Malloc(m: MState, nsize: nat) returns (mem: int)
    requires m.Valid() && nsize < SIZE_T_LIMIT
    modifies m, m.small, m.tree
    ensures m.Valid() && Served(old(m.Heap()), m.Heap(), mem, nsize) && m.content == old(m.content)
    ensures mem == 0 ==> NothingLeft(old(m.Bk()), ChunkFor(nsize)) && m.refused == old(m.refused) + Asked(ChunkFor(nsize))
    ensures mem != 0 ==> ServedBy(old(m.Bk()), m.Bk(), ChunkFor(nsize), mem - 16)
  {
    hide Good, DirectsOk, Mapped, HeapOf, ServedBy;
    ChunkForFacts(nsize);
    if nsize <= MAX_SMALL_REQUEST {
      var nb := if nsize < MIN_REQUEST then MIN_CHUNK_SIZE else PadRequest(nsize);
      mem := MallocSmall(m, nb);
    } else if nsize >= MAX_REQUEST {
      AllTooSmall(m);
      mem := FromDvOrTop(m, SIZE_T_LIMIT - 1);
    } else {
      mem := MallocLarge(m, PadRequest(nsize));
    }
  }

  lemma AllTooSmall(m: MState)
    requires m.Valid()
    ensures NothingLeft(m.Bk(), SIZE_T_LIMIT - 1)
  {
    TopSize(m);
    forall a | a in FreeTiles(m.tiles)
      ensures m.tiles[a].size < SIZE_T_LIMIT - 1
    {
      Positive(m.Bk(), m.Bins(), {}, a);
    }
  }
}
