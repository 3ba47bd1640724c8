/** malloc_state, its invariant, and the moves its operations are made of. */
module AllocState {
  import Trie = AllocTrie
  import opened AllocTreeBins
  import AllocSearch
  import opened AllocSmallBins
  import opened AllocTiles
  import opened AllocMoves
  import opened AllocSegments
  import opened AllocBooks

  /** A chunk mapped on its own, by its mapping. */
  type Directs = map<int, nat>

  const DIRECT_FOOT_PAD := 32
  const DIRECT_CHUNK_OVERHEAD := 16
  const CHUNK_OVERHEAD := 8
  const IS_DIRECT_BIT := 1

  predicate Within(x: int, base: int, n: nat) { base <= x < base + n }

  function Range(base: int, n: nat): set<int> { set x: int | base <= x < base + n && Within(x, base, n) }

  function SizesOf(m: Mem): Trie.Sizes { map a | a in m.head :: m.head[a].size }

  ghost predicate DirectOk(m: Mem, segs: seq<Seg>, p: int, n: nat) {
    && p > 0 && OnPage(p) && OnPage(n) && n > 0 && p + n <= ADDRESS_LIMIT
    && (forall j | 0 <= j < |segs| :: Disjoint(p, n, segs[j].base, segs[j].size))
    && p in m.head && m.head[p] == Head(n - DIRECT_FOOT_PAD, false, true) && p in m.foot && m.foot[p] == IS_DIRECT_BIT
  }

  ghost predicate DirectsOk(m: Mem, segs: seq<Seg>, direct: Directs) {
    && (forall p {:trigger DirectOk(m, segs, p, direct[p])} | p in direct :: DirectOk(m, segs, p, direct[p]))
    && (forall p, q {:trigger Disjoint(p, direct[p], q, direct[q])} | p in direct && q in direct && p != q :: Disjoint(p, direct[p], q, direct[q]))
  }

  /** The allocator only uses what the system has mapped. */
  ghost predicate Mapped(segs: seq<Seg>, direct: Directs, mapped: set<int>) {
    && (forall j {:trigger segs[j]} | 0 <= j < |segs| :: Range(segs[j].base, segs[j].size) <= mapped)
    && (forall p {:trigger direct[p]} | p in direct :: Range(p, direct[p]) <= mapped)
  }

  /** What the client has: block addresses and how many bytes it may use. */
  ghost function HeapOf(t: Tiles, segs: seq<Seg>, direct: Directs, state: int): map<int, int> {
    map p | p in (Live(t, segs) - {state}) + direct.Keys ::
      if p in direct then direct[p] - DIRECT_FOOT_PAD - DIRECT_CHUNK_OVERHEAD
      else if p in t then t[p].size - CHUNK_OVERHEAD else 0
  }

  /** The word at `a` belongs to a block. */
  ghost predicate Owned(h: map<int, int>, a: int) { exists q :: q in h && InBlock(q, h[q], a) }

  predicate InBlock(q: int, n: int, a: int) { q + 16 <= a && a + 8 <= q + 16 + n && a % 8 == 0 }

  /** All stored words belong to blocks, and are still there. */
  ghost predicate Remembered(m: Mem, h: map<int, int>, content: map<int, nat>) {
    forall a {:trigger a in content} | a in content :: WordIs(m, a, content[a]) && Owned(h, a)
  }

  /** Memory has changed at the heads of chunks, the trailer at `z`, and behind the free chunk `f`. */
  ghost predicate Spares(m: Mem, m': Mem, t: Tiles, t': Tiles, z: int, f: int) {
    && (forall a {:trigger a in m'.head} | a in m.head && a !in t && a !in t' && a != z :: a in m'.head && m'.head[a] == m.head[a])
    && (forall a {:trigger a in m'.foot} | a in m.foot && !(f in t' && !t'[f].used && a == Next(t', f)) :: a in m'.foot && m'.foot[a] == m.foot[a])
  }

  lemma DirectSeg(m: Mem, segs: seq<Seg>, p: int, n: nat, i: nat)
    requires DirectOk(m, segs, p, n) && i < |segs|
    ensures p < segs[i].base || p >= segs[i].base + segs[i].size
  {
    assert Disjoint(p, n, segs[i].base, segs[i].size);
  }

  /** Direct chunks are not tiles. */
  lemma DirectApart(t: Tiles, segs: seq<Seg>, top: int, m: Mem, p: int, n: nat)
    requires Geometry(t, segs, top) && DirectOk(m, segs, p, n)
    ensures p !in t
  {
    if p in t {
      var i := SegOf(t, segs, top, p);
      DirectSeg(m, segs, p, n, i);
    }
  }

  /** Writes to chunks of the segments leave direct chunks alone. */
  lemma DirectsKept(m: Mem, m': Mem, t: Tiles, t': Tiles, segs: seq<Seg>, top: int, top': int, direct: Directs)
    requires Geometry(t, segs, top) && Geometry(t', segs, top') && DirectsOk(m, segs, direct) && Kept(m, m', t, t')
    ensures DirectsOk(m', segs, direct)
  {
    forall p | p in direct
      ensures DirectOk(m', segs, p, direct[p])
    {
      assert DirectOk(m, segs, p, direct[p]);
      DirectApart(t, segs, top, m, p, direct[p]);
      DirectApart(t', segs, top', m, p, direct[p]);
    }
  }

  /** A word inside a block is no head of a chunk, no footer, and not in the trailer of top. */
  lemma Interior(t: Tiles, segs: seq<Seg>, top: int, m: Mem, direct: Directs, state: int, a: int)
    requires Geometry(t, segs, top) && DirectsOk(m, segs, direct) && Owned(HeapOf(t, segs, direct, state), a)
    ensures a - 8 > 0 && a - 8 !in t && a - 8 != End(segs, 0) && forall f | f in t && !t[f].used :: Next(t, f) != a
  {
    var h := HeapOf(t, segs, direct, state);
    var q :| q in h && InBlock(q, h[q], a);
    hide Geometry;
    if q in direct {
      InteriorDirect(t, segs, top, m, direct, q, a);
    } else {
      InteriorTile(t, segs, top, q, a);
    }
  }

  lemma InteriorTile(t: Tiles, segs: seq<Seg>, top: int, q: int, a: int)
    requires Geometry(t, segs, top) && q in t && t[q].used && q + 16 <= a <= Next(t, q)
    ensures a - 8 > 0 && a - 8 !in t && a - 8 != End(segs, 0) && forall f | f in t && !t[f].used :: Next(t, f) != a
  {
    var i := SegOf(t, segs, top, q);
    assert a - 8 in t ==> Clear(t, q, a - 8);
    assert SegOk(t, segs, 0);
    if i > 0 { assert SegsApart(segs, 0, i); }
    forall f | f in t && !t[f].used
      ensures Next(t, f) != a
    {
      var j := SegOf(t, segs, top, f);
      assert if f < q then Clear(t, f, q) else Clear(t, q, f);
    }
  }

  /** Bytes clear of the segments hold no tile. */
  lemma TileClear(t: Tiles, segs: seq<Seg>, top: int, p: int, n: nat)
    requires Geometry(t, segs, top) && n > 0 && forall j | 0 <= j < |segs| :: Disjoint(p, n, segs[j].base, segs[j].size)
    ensures p !in t
  {
    if p in t { var i := SegOf(t, segs, top, p); }
  }

  lemma InteriorDirect(t: Tiles, segs: seq<Seg>, top: int, m: Mem, direct: Directs, q: int, a: int)
    requires Geometry(t, segs, top) && DirectsOk(m, segs, direct) && q in direct && q + 16 <= a && a + 8 <= q + direct[q]
    ensures a - 8 > 0 && a - 8 !in t && a - 8 != End(segs, 0) && forall f | f in t && !t[f].used :: Next(t, f) != a
  {
    assert DirectOk(m, segs, q, direct[q]);
    assert SegOk(t, segs, 0) && Disjoint(q, direct[q], segs[0].base, segs[0].size);
    forall j | 0 <= j < |segs|
      ensures Disjoint(a - 8, 8, segs[j].base, segs[j].size)
    {
      assert Disjoint(q, direct[q], segs[j].base, segs[j].size);
    }
    TileClear(t, segs, top, a - 8, 8);
    forall f | f in t && !t[f].used
      ensures Next(t, f) != a
    {
      var j := SegOf(t, segs, top, f);
      assert Disjoint(q, direct[q], segs[j].base, segs[j].size);
    }
  }

  lemma WordStays(m: Mem, m': Mem, t: Tiles, t': Tiles, z: int, f: int, a: int, word: nat)
    requires Spares(m, m', t, t', z, f) && WordIs(m, a, word) && a - 8 !in t && a - 8 !in t' && a - 8 != z
    requires f in t' && !t'[f].used ==> Next(t', f) != a
    ensures WordIs(m', a, word)
  {
    assert a - 8 in m.head && a in m.foot;
  }

  /** Stored words outlive every change of memory that spares the blocks. */
  lemma StillThere(b: Book, b': Book, direct: Directs, state: int, z: int, f: int)
    requires Geometry(b.t, b.segs, b.top) && Geometry(b'.t, b'.segs, b'.top) && DirectsOk(b.m, b.segs, direct) && DirectsOk(b'.m, b'.segs, direct)
    requires Remembered(b.m, HeapOf(b.t, b.segs, direct, state), b.content) && Spares(b.m, b'.m, b.t, b'.t, z, f)
    requires z <= 0 || (b'.segs != [] && z == End(b'.segs, 0))
    requires forall a <- b.content :: Owned(HeapOf(b'.t, b'.segs, direct, state), a)
    ensures Remembered(b'.m, HeapOf(b'.t, b'.segs, direct, state), b.content)
  {
    hide HeapOf, Owned, Geometry, DirectsOk;
    forall a | a in b.content
      ensures WordIs(b'.m, a, b.content[a])
    {
      Interior(b.t, b.segs, b.top, b.m, direct, state, a);
      Interior(b'.t, b'.segs, b'.top, b'.m, direct, state, a);
      WordStays(b.m, b'.m, b.t, b'.t, z, f, a, b.content[a]);
    }
  }

  /** The bytes of a block are mapped. */
  lemma OwnedMapped(t: Tiles, segs: seq<Seg>, top: int, m: Mem, direct: Directs, state: int, mapped: set<int>, a: int)
    requires Geometry(t, segs, top) && DirectsOk(m, segs, direct) && Mapped(segs, direct, mapped) && Owned(HeapOf(t, segs, direct, state), a)
    ensures a - 8 in mapped && a in mapped
  {
    var h := HeapOf(t, segs, direct, state);
    var q :| q in h && InBlock(q, h[q], a);
    hide Geometry, Range;
    if q in direct {
      assert Range(q, direct[q]) <= mapped && DirectOk(m, segs, q, direct[q]);
      InRange(a - 8, q, direct[q]);
      InRange(a, q, direct[q]);
    } else {
      var i := SegOf(t, segs, top, q);
      assert Range(segs[i].base, segs[i].size) <= mapped;
      TileInSeg(t, segs, top, q, i);
      InRange(a - 8, segs[i].base, segs[i].size);
      InRange(a, segs[i].base, segs[i].size);
    }
  }

  lemma TileInSeg(t: Tiles, segs: seq<Seg>, top: int, q: int, i: nat)
    requires q in t && i < |segs| && InSeg(t, segs, top, q, i)
    ensures segs[i].base <= q && Next(t, q) + 8 <= segs[i].base + segs[i].size
  {}

  /** Nothing is stored in the block `p`. */
  ghost predicate Emptied(h: map<int, int>, content: map<int, nat>, p: int) {
    p in h ==> forall a <- content :: !InBlock(p, h[p], a)
  }

  /** What is left of the stored words when the block at `p` goes. */
  ghost function Forgotten(content: map<int, nat>, p: int, n: int): map<int, nat> {
    map a | a in content && !InBlock(p, n, a) :: content[a]
  }

  /** What is left of them when the block keeps `n` of its `n0` bytes. */
  ghost function Shortened(content: map<int, nat>, p: int, n0: int, n: int): map<int, nat> {
    map a | a in content && (InBlock(p, n0, a) ==> InBlock(p, n, a)) :: content[a]
  }

  ghost predicate Fitted(h: map<int, int>, content: map<int, nat>, p: int, n: int) {
    p in h ==> forall a <- content :: InBlock(p, h[p], a) ==> InBlock(p, n, a)
  }

  lemma OwnedFitted(h: map<int, int>, h': map<int, int>, content: map<int, nat>, p: int, n: int)
    requires (forall a <- content :: Owned(h, a)) && Fitted(h, content, p, n)
    requires p in h && p in h' && h'[p] == n && forall q <- h :: q != p ==> q in h' && h'[q] >= h[q]
    ensures forall a <- content :: Owned(h', a)
  {
    forall a | a in content
      ensures Owned(h', a)
    {
      var q :| q in h && InBlock(q, h[q], a);
    }
  }

  /** Chunks only: what `Kept` says, with no footer written. */
  lemma KeptSpares(m: Mem, m': Mem, t: Tiles, t': Tiles, f: int)
    requires Kept(m, m', t, t') && m'.foot == m.foot
    ensures Spares(m, m', t, t', 0, f)
  {}

  lemma OwnedByOthers(h: map<int, int>, content: map<int, nat>, p: int)
    requires (forall a <- content :: Owned(h, a)) && Emptied(h, content, p)
    ensures forall a <- content :: Owned(h - {p}, a)
  {
    forall a | a in content
      ensures Owned(h - {p}, a)
    {
      var q :| q in h && InBlock(q, h[q], a);
      assert q in h - {p};
    }
  }

  lemma RememberedOwned(m: Mem, h: map<int, int>, content: map<int, nat>)
    requires Remembered(m, h, content)
    ensures forall a <- content :: Owned(h, a)
  {}

  /** Blocks that stay at least as large cover the same words. */
  lemma StillCovered(h: map<int, int>, h': map<int, int>, content: map<int, nat>)
    requires (forall a <- content :: Owned(h, a)) && forall q <- h :: q in h' && h'[q] >= h[q]
    ensures forall a <- content :: Owned(h', a)
  {
    forall a | a in content
      ensures Owned(h', a)
    {
      var q :| q in h && InBlock(q, h[q], a);
    }
  }

  lemma ReframeTree(b: TreeBins, sz: Trie.Sizes, sz': Trie.Sizes)
    requires b.Valid(sz) && forall a <- b.Chunks() :: a in sz && a in sz' && sz'[a] == sz[a]
    ensures b.Valid(sz')
  {
    forall k | k in b.at
      ensures Trie.RingOk(b.at, sz', k) && Trie.SizeAt(b.at, sz', k) == Trie.SizeAt(b.at, sz, k)
    {
      ReframeRing(b.at, sz, sz', k);
    }
    forall k, k' | k in b.at && k' in b.at && k != k'
      ensures Trie.KeysApart(b.at, sz', k, k')
    {
      assert Trie.KeysApart(b.at, sz, k, k');
    }
  }

  lemma ReframeRing(at: Trie.Rings, sz: Trie.Sizes, sz': Trie.Sizes, k: Trie.Key)
    requires Trie.RingsOk(at, sz) && k in at
    requires forall a <- Trie.Members(at) :: a in sz && a in sz' && sz'[a] == sz[a]
    ensures Trie.RingOk(at, sz', k) && Trie.SizeAt(at, sz', k) == Trie.SizeAt(at, sz, k)
  {
    assert Trie.RingOk(at, sz, k);
    forall a | a in at[k]
      ensures a in sz && a in sz' && sz'[a] == sz[a]
    {
      assert a in Trie.Members(at);
    }
    assert at[k][0] in at[k];
  }

  lemma ReframeSmall(b: SmallBins, sz: Trie.Sizes, sz': Trie.Sizes)
    requires b.Valid(sz) && forall a <- b.Chunks() :: a in sz && a in sz' && sz'[a] == sz[a]
    ensures b.Valid(sz')
  {
    forall i: nat | i < |b.lists|
      ensures BinOk(b.fd, b.bk, b.Marks(), b.lists[i], sz', i)
    {
      assert BinOk(b.fd, b.bk, b.Marks(), b.lists[i], sz, i);
      forall a | a in b.lists[i]
        ensures a in sz' && sz'[a] == sz[a]
      {
        assert a in b.Chunks();
      }
    }
  }

  const STATE_SIZE := 872
  const DEFAULT_TRIM_THRESHOLD := 0x20_0000
  const MAX_RELEASE_CHECK_RATE := 255

  function InitialMem(tbase: int): Mem {
    InitTop(SetHead(Mem(map[], map[]), tbase, Head(STATE_SIZE, true, true)), tbase + STATE_SIZE, GRANULARITY - TOP_FOOT_SIZE - STATE_SIZE)
  }

  ghost function InitialTiles(tbase: int): Tiles {
    map[tbase := Tile(STATE_SIZE, true), tbase + STATE_SIZE := Tile(GRANULARITY - TOP_FOOT_SIZE - STATE_SIZE, false)]
  }

  lemma InitialPhysical(tbase: int)
    requires tbase > 0 && OnPage(tbase) && tbase + GRANULARITY <= ADDRESS_LIMIT
    ensures Physical(InitialMem(tbase), InitialTiles(tbase), [Seg(tbase, GRANULARITY, 0)], tbase + STATE_SIZE)
  {
    var t, segs, top := InitialTiles(tbase), [Seg(tbase, GRANULARITY, 0)], tbase + STATE_SIZE;
    PageAligned(tbase);
    InitialGeometry(tbase);
    assert Tagged(InitialMem(tbase), t, tbase) && Tagged(InitialMem(tbase), t, top);
    hide Geometry;
  }

  lemma InitialGeometry(tbase: int)
    requires tbase > 0 && OnPage(tbase) && tbase + GRANULARITY <= ADDRESS_LIMIT && tbase % 8 == 0
    ensures Geometry(InitialTiles(tbase), [Seg(tbase, GRANULARITY, 0)], tbase + STATE_SIZE)
  {
    var t, segs, top := InitialTiles(tbase), [Seg(tbase, GRANULARITY, 0)], tbase + STATE_SIZE;
    assert (tbase + STATE_SIZE) % 8 == 0;
    assert InSeg(t, segs, top, tbase, 0) && InSeg(t, segs, top, top, 0);
    assert SegOk(t, segs, 0);
    assert Clear(t, tbase, top) && FreeOk(t, top, tbase) && FreeOk(t, top, top);
  }

  lemma InitialGood(tbase: int)
    requires tbase > 0 && OnPage(tbase) && tbase + GRANULARITY <= ADDRESS_LIMIT
    ensures var n := GRANULARITY - TOP_FOOT_SIZE - STATE_SIZE; var segs := [Seg(tbase, GRANULARITY, 0)];
      Good(Book(InitialMem(tbase), InitialTiles(tbase), segs, tbase + STATE_SIZE, n, 0, 0, map[]), {}, {})
      && Live(InitialTiles(tbase), segs) == {tbase}
  {
    InitialPhysical(tbase);
    assert Recs([Seg(tbase, GRANULARITY, 0)]) == {};
    assert FreeTiles(InitialTiles(tbase)) == {tbase + STATE_SIZE};
  }

  class MState {
    var mem: Mem
    var dv: int
    var dvsize: nat
    var top: int
    var topsize: nat
    var segs: seq<Seg>
    var trimCheck: nat
    var releaseChecks: nat
    /** The addresses in use in the process, whoever mapped them. */
    var mapped: set<int>
    const small: SmallBins
    const tree: TreeBins
    /** The chunk malloc_state itself lives in. */
    const state: int
    ghost var tiles: Tiles
    ghost var direct: Directs
    /** The requests for fresh memory that the system has refused. */
    ghost var refused: seq<nat>
    /** The memory that the system would not take back: where it is, and how much. */
    ghost var denied: seq<(int, nat)>
    /** The words that the client has stored in blocks it still has. */
    ghost var content: map<int, nat>

    /** The part of lj_alloc_create after the first segment has been mapped. */
    constructor (tbase: int, mapped: set<int>)
      requires tbase > 0 && OnPage(tbase) && tbase + GRANULARITY <= ADDRESS_LIMIT && Range(tbase, GRANULARITY) <= mapped
      ensures Valid() && Heap() == map[] && fresh(small) && fresh(tree) && this.mapped == mapped && direct == map[]
    {
      state := tbase;
      this.mapped := mapped;
      segs := [Seg(tbase, GRANULARITY, 0)];
      mem := InitialMem(tbase);
      dv, dvsize := 0, 0;
      top, topsize := tbase + STATE_SIZE, GRANULARITY - TOP_FOOT_SIZE - STATE_SIZE;
      trimCheck, releaseChecks := DEFAULT_TRIM_THRESHOLD, MAX_RELEASE_CHECK_RATE;
      small := new SmallBins();
      tree := new TreeBins();
      tiles := InitialTiles(tbase);
      direct := map[];
      refused, denied, content := [], [], map[];
      new;
      InitialGood(tbase);
      assert Bins() == {};
    }

    ghost function Bk(): Book
      reads this
    {
      Book(mem, tiles, segs, top, topsize, dv, dvsize, content)
    }

    ghost function Bins(): set<int>
      reads small, tree
    {
      small.Chunks() + tree.Chunks()
    }

    /** Everything in order, with the chunks `held` out of the bins for the moment. */
    ghost predicate Sound(b: Book, held: set<int>)
      reads small, tree, `direct, `mapped
    {
      && Remembered(b.m, HeapOf(b.t, b.segs, direct, state), b.content)
      && small.Valid(SizesOf(b.m)) && tree.Valid(SizesOf(b.m)) && Good(b, Bins(), held)
      && DirectsOk(b.m, b.segs, direct) && Mapped(b.segs, direct, mapped) && state in Live(b.t, b.segs)
    }

    ghost predicate ValidBut(held: set<int>)
      reads this, small, tree
    {
      Sound(Bk(), held)
    }

    ghost predicate Valid()
      reads this, small, tree
    {
      ValidBut({})
    }

    ghost function Heap(): map<int, int>
      reads `tiles, `segs, `direct
    {
      HeapOf(tiles, segs, direct, state)
    }

    /** After a change of memory and tiles: the bins and the direct chunks are still right. */
    lemma Restore(b: Book, b': Book, held: set<int>, held': set<int>, f: int)
      requires Sound(b, held) && Good(b', Bins(), held') && b'.segs == b.segs
      requires SameSizes(b.m, b'.m, Bins()) && Kept(b.m, b'.m, b.t, b'.t) && state in Live(b'.t, b'.segs)
      requires Spares(b.m, b'.m, b.t, b'.t, 0, f) && b'.content == b.content
      requires forall a <- b.content :: Owned(HeapOf(b'.t, b'.segs, direct, state), a)
      ensures Sound(b', held')
    {
      hide HeapOf, Remembered, Spares, Owned;
      ReframeSmall(small, SizesOf(b.m), SizesOf(b'.m));
      ReframeTree(tree, SizesOf(b.m), SizesOf(b'.m));
      DirectsKept(b.m, b'.m, b.t, b'.t, b.segs, b.top, b'.top, direct);
      StillThere(b, b', direct, state, 0, f);
    }

    /** A chunk in a bin is in the one for its size. */
    lemma BinFor(p: int, held: set<int>)
      requires small.Valid(SizesOf(mem)) && tree.Valid(SizesOf(mem)) && Good(Bk(), Bins(), held) && p in Bins()
      ensures p in tiles && p in mem.head && mem.head[p].size == tiles[p].size && !tiles[p].used && p != top && p != dv
      ensures if tiles[p].size < 256 then p in small.Chunks() && p !in tree.Chunks() else p in tree.Chunks() && p !in small.Chunks()
    {
      assert Tagged(mem, tiles, p);
      if p in small.Chunks() { small.MemberSmall(p, SizesOf(mem)); }
      if p in tree.Chunks() { AllocSearch.MemberLarge(tree.at, SizesOf(mem), p); }
    }

    /** unlink_chunk */
    method UnlinkChunk(p: int, s: nat, ghost held: set<int> := {})
      requires ValidBut(held) && p in Bins() && p in mem.head && mem.head[p].size == s
      modifies small, tree
      ensures ValidBut(held + {p}) && Bins() == old(Bins()) - {p} && p in tiles && tiles[p].size == s && !tiles[p].used && p != top && p != dv
    {
      BinFor(p, held);
      ghost var bins := Bins();
      if s < 256 {
        small.Unlink(p, s, SizesOf(mem));
      } else {
        tree.Unlink(p, SizesOf(mem));
      }
      assert Bins() == bins - {p};
    }

    /** The first chunk of a smallbin, with unlink_first_small_chunk. */
    method TakeSmall(i: nat) returns (p: int)
      requires Valid() && i in small.Marks()
      modifies small
      ensures ValidBut({p}) && p in tiles && tiles[p].size == 8 * i && p in old(small.Chunks())
    {
      ghost var bins, chunks := Bins(), small.Chunks();
      p := small.TakeFirst(i, SizesOf(mem));
      SmallBin(p, chunks);
      assert Bins() == bins - {p};
    }

    lemma SmallBin(p: int, chunks: set<int>)
      requires tree.Valid(SizesOf(mem)) && Good(Bk(), chunks + tree.Chunks(), {}) && p in chunks
      requires p in mem.head && mem.head[p].size < 256
      ensures p in tiles && tiles[p].size == mem.head[p].size && p !in tree.Chunks() && !tiles[p].used && p != top && p != dv
    {
      assert Tagged(mem, tiles, p);
      if p in tree.Chunks() { AllocSearch.MemberLarge(tree.at, SizesOf(mem), p); }
    }

    /** insert_chunk */
    method InsertChunk(p: int, s: nat)
      requires ValidBut({p}) && p in tiles && tiles[p].size == s
      modifies small, tree
      ensures Valid() && Bins() == old(Bins()) + {p}
    {
      Positive(Bk(), Bins(), {p}, p);
      ghost var bins := Bins();
      if s < 256 {
        small.Insert(p, s, SizesOf(mem));
      } else {
        tree.Insert(p, s, SizesOf(mem));
      }
      assert Bins() == bins + {p};
    }

    // ---------------------------------------------------------------- taking

    /** What a step that hands out the chunk `p` with `s` bytes means for the client. */
    lemma HandOut(b: Book, b': Book, held: set<int>, held': set<int>, p: int, s: nat, f: int)
      requires Sound(b, held) && Good(b', Bins(), held') && b'.segs == b.segs
      requires SameSizes(b.m, b'.m, Bins()) && Kept(b.m, b'.m, b.t, b'.t) && Spares(b.m, b'.m, b.t, b'.t, 0, f) && b'.content == b.content
      requires Live(b'.t, b.segs) == Live(b.t, b.segs) + {p} && p !in Live(b.t, b.segs)
      requires p in b'.t && b'.t[p].size == s && forall a <- Live(b.t, b.segs) :: a in b'.t && b'.t[a] == b.t[a]
      ensures Sound(b', held')
      ensures HeapOf(b'.t, b'.segs, direct, state) == HeapOf(b.t, b.segs, direct, state)[p := s - CHUNK_OVERHEAD]
      ensures p !in HeapOf(b.t, b.segs, direct, state)
    {
      HandedHeap(b, b', held, held', p, s);
      StillCovered(HeapOf(b.t, b.segs, direct, state), HeapOf(b'.t, b'.segs, direct, state), b.content);
      Restore(b, b', held, held', f);
    }

    lemma HandedHeap(b: Book, b': Book, held: set<int>, held': set<int>, p: int, s: nat)
      requires Sound(b, held) && Good(b', Bins(), held') && b'.segs == b.segs && Kept(b.m, b'.m, b.t, b'.t)
      requires Live(b'.t, b.segs) == Live(b.t, b.segs) + {p} && p !in Live(b.t, b.segs)
      requires p in b'.t && b'.t[p].size == s && forall a <- Live(b.t, b.segs) :: a in b'.t && b'.t[a] == b.t[a]
      ensures HeapOf(b'.t, b'.segs, direct, state) == HeapOf(b.t, b.segs, direct, state)[p := s - CHUNK_OVERHEAD]
      ensures p !in HeapOf(b.t, b.segs, direct, state)
    {
      hide Kept, Geometry, DirectOk;
      DirectsKept(b.m, b'.m, b.t, b'.t, b.segs, b.top, b'.top, direct);
      if p in direct { DirectApart(b'.t, b'.segs, b'.top, b'.m, p, direct[p]); }
      var h, h' := HeapOf(b.t, b.segs, direct, state), HeapOf(b'.t, b'.segs, direct, state);
      assert h'.Keys == h.Keys + {p};
      forall a | a in h'
        ensures h'[a] == h[p := s - CHUNK_OVERHEAD][a]
      {}
    }

    lemma MayUseWhole(p: int, s: nat)
      requires ValidBut({p}) && p in tiles && tiles[p].size == s
      ensures var b' := TookWhole(Bk(), p);
        Sound(b', {}) && HeapOf(b'.t, b'.segs, direct, state) == Heap()[p := s - CHUNK_OVERHEAD] && p !in Heap()
    {
      TakeWhole(Bk(), Bins(), p);
      HandOut(Bk(), TookWhole(Bk(), p), {p}, {}, p, s, -1);
    }

    method UseHeldWhole(p: int, s: nat)
      requires ValidBut({p}) && p in tiles && tiles[p].size == s
      modifies `mem, `tiles
      ensures Valid() && Heap() == old(Heap())[p := s - CHUNK_OVERHEAD] && p !in old(Heap())
      ensures tiles == old(tiles)[p := Tile(s, true)]
    {
      hide DirectsOk, Live, HeapOf, Sound;
      MayUseWhole(p, s);
      ghost var b' := TookWhole(Bk(), p);
      mem := SetInuseAndPinuse(mem, p, s);
      tiles := tiles[p := Tile(s, true)];
      assert Bk() == b';
    }

    lemma MayUseFront(p: int, nb: nat)
      requires ValidBut({p}) && p in tiles && nb >= MIN_CHUNK_SIZE && nb % 8 == 0 && tiles[p].size >= nb + MIN_CHUNK_SIZE
      ensures p in mem.head && mem.head[p].size == tiles[p].size
      ensures var b' := TookFront(Bk(), p, nb);
        Sound(b', {p + nb}) && HeapOf(b'.t, b'.segs, direct, state) == Heap()[p := nb - CHUNK_OVERHEAD] && p !in Heap()
    {
      hide DirectsOk, Kept, Geometry, Remembered, Bins;
      var b := Bk();
      TakeFront(b, Bins(), p, nb);
      Inside(b, Bins(), {p}, p, p + nb);
      Positive(b, Bins(), {p}, p);
      HandOut(b, TookFront(b, p, nb), {p}, {p + nb}, p, nb, p + nb);
    }

    method WriteFront(p: int, nb: nat) returns (r: int)
      requires p in tiles && p in mem.head && mem.head[p].size == tiles[p].size && nb <= tiles[p].size
      modifies `mem, `tiles
      ensures Bk() == TookFront(old(Bk()), p, nb) && r == p + nb
    {
      r := p + nb;
      var rsize := mem.head[p].size - nb;
      mem := SetSizeAndPinuseOfInuse(mem, p, nb);
      mem := SetSizeAndPinuseOfFree(mem, r, rsize);
      tiles := tiles[p := Tile(nb, true)][r := Tile(rsize, false)];
    }

    method UseHeldFront(p: int, nb: nat) returns (r: int)
      requires ValidBut({p}) && p in tiles && nb >= MIN_CHUNK_SIZE && nb % 8 == 0 && tiles[p].size >= nb + MIN_CHUNK_SIZE
      modifies `mem, `tiles
      ensures r == p + nb && ValidBut({r}) && r in tiles && tiles[r] == Tile(old(tiles)[p].size - nb, false)
      ensures Heap() == old(Heap())[p := nb - CHUNK_OVERHEAD] && p !in old(Heap())
      ensures tiles == old(tiles)[p := Tile(nb, true)][r := Tile(old(tiles)[p].size - nb, false)]
    {
      hide DirectsOk, Remembered, HeapOf, SizesOf, Recs, Sound;
      MayUseFront(p, nb);
      r := WriteFront(p, nb);
    }

    lemma MayUseTop(nb: nat)
      requires Valid() && nb >= MIN_CHUNK_SIZE && nb % 8 == 0 && nb < topsize
      ensures top in tiles && topsize == tiles[top].size
      ensures var b' := TookTop(Bk(), nb);
        Sound(b', {}) && HeapOf(b'.t, b'.segs, direct, state) == Heap()[top := nb - CHUNK_OVERHEAD] && top !in Heap()
    {
      hide DirectsOk, Spares, Accounted, Bins;
      var b := Bk();
      TakeTop(b, Bins(), nb);
      Inside(b, Bins(), {}, top, top + nb);
      HandOut(b, TookTop(b, nb), {}, {}, top, nb, -1);
    }

    method WriteTop(nb: nat) returns (p: int)
      requires top in tiles && topsize == tiles[top].size && nb <= topsize
      modifies `mem, `tiles, `top, `topsize
      ensures Bk() == TookTop(old(Bk()), nb) && p == old(top)
    {
      topsize := topsize - nb;
      p := top;
      var r := p + nb;
      top := r;
      mem := SetHead(mem, r, Head(topsize, true, false));
      mem := SetSizeAndPinuseOfInuse(mem, p, nb);
      tiles := tiles[p := Tile(nb, true)][r := Tile(topsize, false)];
    }

    /** Splits top. */
    method UseTop(nb: nat) returns (p: int)
      requires Valid() && nb >= MIN_CHUNK_SIZE && nb % 8 == 0 && nb < topsize
      modifies `mem, `tiles, `top, `topsize
      ensures Valid() && p == old(top) && Heap() == old(Heap())[p := nb - CHUNK_OVERHEAD] && p !in old(Heap())
      ensures tiles == old(tiles)[p := Tile(nb, true)][p + nb := Tile(topsize, false)] && top == p + nb && topsize == old(topsize) - nb
    {
      hide Geometry, Tags, HeapOf, SizesOf;
      MayUseTop(nb);
      p := WriteTop(nb);
    }

    // ---------------------------------------------------------------- the designated victim

    /** The designated victim is no longer it, and not yet anything else. */
    method ReleaseDv(ghost held: set<int> := {})
      requires ValidBut(held) && dv != 0
      modifies `dv, `dvsize
      ensures ValidBut(held + {old(dv)}) && dv == 0 && dvsize == 0
    {
      HoldDv(Bk(), Bins(), held);
      dvsize := 0;
      dv := 0;
    }

    method MakeDv(p: int, s: nat)
      requires ValidBut({p}) && dv == 0 && p in tiles && tiles[p].size == s
      modifies `dv, `dvsize
      ensures Valid() && dv == p && dvsize == s
    {
      AllocBooks.SetDv(Bk(), Bins(), p);
      dvsize := s;
      dv := p;
    }

    /** The part of replace_dv that bins the old one. */
    lemma HoldBoth(r: int)
      requires ValidBut({r}) && dv != 0
      ensures Good(Bk().(dv := 0, dvsize := 0), Bins(), {r, dv}) && dv in tiles && dvsize == tiles[dv].size && dv % 8 == 0 && dv > 0
      ensures dv in mem.head && mem.head[dv].size == dvsize && dvsize % 8 == 0 && dv !in Bins()
    {
      HoldDv(Bk(), Bins(), {r});
      Positive(Bk(), Bins(), {r}, dv);
      assert {r} + {dv} == {r, dv};
    }

    /** replace_dv */
    method ReplaceDv(p: int, s: nat)
      requires ValidBut({p}) && p in tiles && tiles[p].size == s && dvsize < 256
      modifies small, `dv, `dvsize
      ensures Valid() && dv == p && dvsize == s
    {
      hide BinOk;
      var dvs := dvsize;
      ghost var b, bins, d := Bk(), Bins(), dv;
      if dvs != 0 {
        HoldBoth(p);
        small.Insert(dv, dvs, SizesOf(mem));
        assert Bins() == bins + {d};
        Rebinned(b.(dv := 0, dvsize := 0), bins, p, d);
      }
      dvsize := s;
      dv := p;
      AllocBooks.SetDv(b.(dv := 0, dvsize := 0), Bins(), p);
    }

    lemma Rebinned(b: Book, bins: set<int>, r: int, d: int)
      requires Good(b, bins, {r, d}) && r != d
      ensures Good(b, bins + {d}, {r})
    {
      Positive(b, bins, {r, d}, d);
    }

    // ---------------------------------------------------------------- the system

    /** Asks the system for `n` fresh bytes; -1 if it has none. */
    method Mmap(n: nat) returns (base: int)
      modifies `mapped, `refused
      ensures base == -1 ==> mapped == old(mapped) && refused == old(refused) + [n]
      ensures base != -1 ==> refused == old(refused)
      ensures base != -1 ==> base > 0 && OnPage(base) && base + n <= ADDRESS_LIMIT
      ensures base != -1 ==> Range(base, n) !! old(mapped) && mapped == old(mapped) + Range(base, n)
    {
      base := *;
      if base > 0 && OnPage(base) && base + n <= ADDRESS_LIMIT && Range(base, n) !! mapped {
        mapped := mapped + Range(base, n);
      } else {
        base := -1;
        refused := refused + [n];
      }
    }

    /** Returns `n` bytes to the system, which may refuse. */
    method Munmap(base: int, n: nat) returns (ok: bool)
      modifies `mapped, `denied
      ensures mapped == if ok then old(mapped) - Range(base, n) else old(mapped)
      ensures denied == if ok then old(denied) else old(denied) + [(base, n)]
    {
      ok := *;
      if ok {
        mapped := mapped - Range(base, n);
      } else {
        denied := denied + [(base, n)];
      }
    }

    /** Grows or shrinks a mapping where it is, or refuses. */
    method Mremap(base: int, n: nat, k: nat) returns (ok: bool)
      modifies `mapped
      ensures ok ==> k > 0 && base + k <= ADDRESS_LIMIT
      ensures ok && k <= n ==> mapped == old(mapped) - Range(base + k, n - k)
      ensures ok && k > n ==> Range(base + n, k - n) !! old(mapped) && mapped == old(mapped) + Range(base + n, k - n)
      ensures !ok ==> mapped == old(mapped)
    {
      ok := *;
      if k == 0 || base + k > ADDRESS_LIMIT {
        ok := false;
      } else if ok && k <= n {
        mapped := mapped - Range(base + k, n - k);
      } else if ok {
        if Range(base + n, k - n) !! mapped {
          mapped := mapped + Range(base + n, k - n);
        } else {
          ok := false;
        }
      }
    }
  }

  lemma InRange(x: int, base: int, n: nat)
    requires base <= x < base + n
    ensures x in Range(base, n)
  {
    assert Within(x, base, n);
  }

  /** Fresh bytes are disjoint from what is mapped already. */
  lemma RangesApart(base: int, n: nat, b: int, k: nat, mapped: set<int>)
    requires Range(base, n) !! mapped && Range(b, k) <= mapped && n > 0 && k > 0
    ensures Disjoint(base, n, b, k)
  {
    var x := if base < b then b else base;
    if b < base + n && base < b + k {
      InRange(x, base, n);
      InRange(x, b, k);
    }
  }

  lemma FreshApart(b: Book, bins: set<int>, held: set<int>, direct: Directs, mapped: set<int>, base: int, n: nat)
    requires Good(b, bins, held) && Mapped(b.segs, direct, mapped) && DirectsOk(b.m, b.segs, direct)
    requires Range(base, n) !! mapped && n > 0
    ensures forall j | 0 <= j < |b.segs| :: Disjoint(base, n, b.segs[j].base, b.segs[j].size)
    ensures (forall p <- direct :: Disjoint(base, n, p, direct[p])) && base !in direct
  {
    forall j | 0 <= j < |b.segs|
      ensures Disjoint(base, n, b.segs[j].base, b.segs[j].size)
    {
      assert SegOk(b.t, b.segs, j);
      RangesApart(base, n, b.segs[j].base, b.segs[j].size, mapped);
    }
    forall p | p in direct
      ensures Disjoint(base, n, p, direct[p]) && p != base
    {
      assert DirectOk(b.m, b.segs, p, direct[p]);
      RangesApart(base, n, p, direct[p], mapped);
    }
  }

  /** Bytes outside the segments hold no tile. */
  lemma NotATile(b: Book, bins: set<int>, held: set<int>, base: int, n: nat)
    requires Good(b, bins, held) && n > 0 && forall j | 0 <= j < |b.segs| :: Disjoint(base, n, b.segs[j].base, b.segs[j].size)
    ensures base !in b.t
  {
    forall a | a in b.t
      ensures a != base
    {
      var i := SegOf(b.t, b.segs, b.top, a);
      assert Disjoint(base, n, b.segs[i].base, b.segs[i].size);
    }
  }

  /** Writes away from the tiles change nothing about them. */
  lemma WritesAway(b: Book, m': Mem, bins: set<int>, held: set<int>)
    requires Good(b, bins, held)
    requires forall a <- b.t :: a in b.m.head ==> a in m'.head && m'.head[a] == b.m.head[a]
    requires forall a <- b.t :: a in b.m.foot ==> a in m'.foot && m'.foot[a] == b.m.foot[a]
    ensures Good(b.(m := m'), bins, held) && SameSizes(b.m, m', bins)
  {
    forall a | a in b.t
      ensures Tagged(m', b.t, a)
    {
      assert Tagged(b.m, b.t, a);
    }
    forall s | s in b.segs
      ensures s.base in m'.head && m'.head[s.base].pinuse
    {
      var j: nat :| j < |b.segs| && b.segs[j] == s;
      assert SegOk(b.t, b.segs, j);
    }
    Sizes(b, b.(m := m'), bins, held, held);
  }
}
