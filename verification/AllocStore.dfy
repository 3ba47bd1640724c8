/** The blocks of the client: where their bytes are, and what the client may do with them. */
module AllocStore {
  import opened AllocTiles
  import opened AllocBooks
  import opened AllocState
  import opened AllocMalloc

  // ---------------------------------------------------------------- blocks

  /** Where the bytes of a block are, in a segment or in a mapping of its own. */
  lemma BlockBytes(m: MState, p: int)
    requires m.Valid() && p in m.Heap()
    ensures p % 8 == 0 && p > 0 && m.Heap()[p] >= 0
    ensures p in m.direct ==> m.Heap()[p] + 48 == m.direct[p]
    ensures p !in m.direct ==> p in m.tiles && m.tiles[p].used && m.Heap()[p] + 8 == m.tiles[p].size
  {
    if p in m.direct {
      assert DirectOk(m.mem, m.segs, p, m.direct[p]);
      PageAligned(p);
      MappingLarge(m.direct[p]);
    } else {
      Positive(m.Bk(), m.Bins(), {}, p);
      LiveClient(m.Bk(), m.Bins(), {}, p);
    }
  }

  lemma MappingLarge(n: nat)
    requires n > 0 && OnPage(n)
    ensures n >= PAGE
  {}

  /** Blocks never overlap. */
  lemma BlocksApart(m: MState, p: int, q: int)
    requires m.Valid() && p in m.Heap() && q in m.Heap() && p != q
    ensures Disjoint(p + 16, m.Heap()[p], q + 16, m.Heap()[q])
  {
    BlockBytes(m, p);
    BlockBytes(m, q);
    if p in m.direct && q in m.direct {
      assert Disjoint(p, m.direct[p], q, m.direct[q]);
    } else if p in m.direct {
      MixedApart(m, p, q);
    } else if q in m.direct {
      MixedApart(m, q, p);
    } else {
      assert p < q ==> Clear(m.tiles, p, q);
      assert q < p ==> Clear(m.tiles, q, p);
    }
  }

  lemma MixedApart(m: MState, p: int, q: int)
    requires m.Valid() && p in m.direct && q in m.tiles
    ensures Disjoint(p, m.direct[p], q, m.tiles[q].size + 8)
  {
    assert DirectOk(m.mem, m.segs, p, m.direct[p]);
    var i := SegOf(m.tiles, m.segs, m.top, q);
    assert Disjoint(p, m.direct[p], m.segs[i].base, m.segs[i].size);
  }

  /** The word at `a` is one the client of the block [p, p + n) may write: it overlaps it. */
  predicate Overlaps(a: int, p: int, n: int) { a < p + n && p < a + 8 }

  /** The client has changed head and foot words only inside the block at `p`. */
  ghost predicate ClientWrites(m: Mem, m': Mem, p: int, n: int) {
    && (forall a {:trigger a in m'.head} | !Overlaps(a + 8, p + 16, n) && a in m.head :: a in m'.head && m'.head[a] == m.head[a])
    && (forall a {:trigger a in m'.foot} | !Overlaps(a, p + 16, n) && a in m.foot :: a in m'.foot && m'.foot[a] == m.foot[a])
  }

  // ---------------------------------------------------------------- the client's writes

  lemma EightApart(x: int, y: int)
    requires x % 8 == 0 && y % 8 == 0 && x < y
    ensures x + 8 <= y
  {}

  /** The head of a chunk, and the foot field behind a free one, lie outside every block. */
  lemma Untouched(m: MState, p: int, a: int)
    requires m.Valid() && p in m.Heap() && a in m.tiles
    ensures !Overlaps(a + 8, p + 16, m.Heap()[p])
    ensures (p !in m.direct && p in m.tiles && a == Next(m.tiles, p)) || !Overlaps(a, p + 16, m.Heap()[p])
  {
    BlockBytes(m, p);
    if p in m.direct {
      MixedApart(m, p, a);
    } else {
      Positive(m.Bk(), m.Bins(), {}, p);
      Positive(m.Bk(), m.Bins(), {}, a);
      assert p < a ==> Clear(m.tiles, p, a);
      if Next(m.tiles, p) < a { EightApart(Next(m.tiles, p), a); }
    }
  }

  /** So do the two words in front of a direct block. */
  lemma UntouchedDirect(m: MState, p: int, q: int)
    requires m.Valid() && p in m.Heap() && q in m.direct
    ensures !Overlaps(q + 8, p + 16, m.Heap()[p]) && !Overlaps(q, p + 16, m.Heap()[p])
  {
    BlockBytes(m, p);
    if p in m.direct {
      if p != q { assert Disjoint(p, m.direct[p], q, m.direct[q]); }
      DirectLong(m, q);
    } else {
      MixedApart(m, q, p);
      DirectLong(m, q);
    }
  }

  lemma DirectLong(m: MState, q: int)
    requires m.Valid() && q in m.direct
    ensures m.direct[q] >= 16
  {
    assert DirectOk(m.mem, m.segs, q, m.direct[q]);
    MappingLarge(m.direct[q]);
  }

  lemma NextDiffers(m: MState, p: int, a: int)
    requires m.Valid() && p in m.tiles && a in m.tiles && a != p
    ensures Next(m.tiles, a) != Next(m.tiles, p)
  {
    Positive(m.Bk(), m.Bins(), {}, p);
    Positive(m.Bk(), m.Bins(), {}, a);
    assert Clear(m.tiles, if a < p then a else p, if a < p then p else a);
  }

  lemma UnharmedTag(m: MState, mem': Mem, p: int, a: int)
    requires m.Valid() && p in m.Heap() && ClientWrites(m.mem, mem', p, m.Heap()[p]) && a in m.tiles
    ensures Tagged(mem', m.tiles, a)
  {
    BlockBytes(m, p);
    assert Tagged(m.mem, m.tiles, a);
    Untouched(m, p, a);
    var n := Next(m.tiles, a);
    if n in m.tiles {
      Untouched(m, p, n);
      if p in m.tiles && a != p { NextDiffers(m, p, a); }
      assert n in m.mem.head && n in mem'.head;
      assert !m.tiles[a].used ==> n in m.mem.foot && n in mem'.foot;
    }
  }

  /** The tags the allocator relies on are out of the client's reach, although a block covers
      the foot field of the chunk behind it. */
  lemma UnharmedTags(m: MState, mem': Mem, p: int)
    requires m.Valid() && p in m.Heap() && ClientWrites(m.mem, mem', p, m.Heap()[p])
    ensures Physical(mem', m.tiles, m.segs, m.top)
  {
    forall a | a in m.tiles
      ensures Tagged(mem', m.tiles, a)
    {
      UnharmedTag(m, mem', p, a);
    }
    forall s | s in m.segs
      ensures s.base in mem'.head && mem'.head[s.base].pinuse
    {
      var j: nat :| j < |m.segs| && m.segs[j] == s;
      assert SegOk(m.tiles, m.segs, j);
      Untouched(m, p, s.base);
      assert s.base in m.mem.head && s.base in mem'.head;
    }
  }

  lemma UnharmedDirects(m: MState, mem': Mem, p: int)
    requires m.Valid() && p in m.Heap() && ClientWrites(m.mem, mem', p, m.Heap()[p])
    ensures DirectsOk(mem', m.segs, m.direct)
  {
    forall q | q in m.direct
      ensures DirectOk(mem', m.segs, q, m.direct[q])
    {
      assert DirectOk(m.mem, m.segs, q, m.direct[q]);
      UntouchedDirect(m, p, q);
      assert q in mem'.head && q in mem'.foot;
    }
  }

  lemma UnharmedSizes(m: MState, mem': Mem, p: int)
    requires m.Valid() && p in m.Heap() && ClientWrites(m.mem, mem', p, m.Heap()[p])
    ensures forall a <- m.Bins() :: a in m.mem.head && a in mem'.head && mem'.head[a].size == m.mem.head[a].size
  {
    forall a | a in m.Bins()
      ensures a in m.mem.head && a in mem'.head && mem'.head[a].size == m.mem.head[a].size
    {
      BinSizes(m, a);
      Untouched(m, p, a);
    }
  }

  /** Whatever a client writes into a block of its own, the allocator stays in order, with the
      words that are still as they were. */
  lemma ClientCannotHarm(m: MState, mem': Mem, content': map<int, nat>, p: int)
    requires m.Valid() && p in m.Heap() && ClientWrites(m.mem, mem', p, m.Heap()[p]) && Remembered(mem', m.Heap(), content')
    ensures m.Sound(m.Bk().(m := mem', content := content'), {})
  {
    hide ClientWrites, Physical, Remembered;
    UnharmedTags(m, mem', p);
    UnharmedDirects(m, mem', p);
    UnharmedSizes(m, mem', p);
    ReframeSmall(m.small, SizesOf(m.mem), SizesOf(mem'));
    ReframeTree(m.tree, SizesOf(m.mem), SizesOf(mem'));
    AccountedSame(m.Bk(), m.Bk().(m := mem', content := content'), m.Bins());
  }

  lemma AccountedSame(b: Book, b': Book, bins: set<int>)
    requires Accounted(b, bins, {}) && b' == b.(m := b'.m, content := b'.content)
    ensures Accounted(b', bins, {})
  {}

  // ---------------------------------------------------------------- words of blocks

  /** The address of word number `i` of a block. */
  function Address(p: int, i: nat): int { p + 16 + 8 * i }

  lemma StoreRemembers(m: MState, p: int, i: nat, word: nat)
    requires m.Valid() && p in m.Heap() && 8 * i + 8 <= m.Heap()[p]
    ensures var a := Address(p, i);
      ClientWrites(m.mem, Stored(m.mem, a, word), p, m.Heap()[p]) && Remembered(Stored(m.mem, a, word), m.Heap(), m.content[a := word])
  {
    hide HeapOf;
    BlockBytes(m, p);
    var a := Address(p, i);
    hide HeapOf;
    assert InBlock(p, m.Heap()[p], a);
    forall b | b in m.content[a := word]
      ensures WordIs(Stored(m.mem, a, word), b, m.content[a := word][b]) && Owned(m.Heap(), b)
    {}
  }

  /** The client stores a word in its block. */
  method Store(m: MState, p: int, i: nat, word: nat)
    requires m.Valid() && p in m.Heap() && 8 * i + 8 <= m.Heap()[p]
    modifies m`mem, m`content
    ensures m.Valid() && m.Heap() == old(m.Heap()) && m.content == old(m.content)[Address(p, i) := word]
  {
    hide Good, DirectsOk, Mapped, HeapOf, Remembered, ClientWrites;
    StoreRemembers(m, p, i, word);
    ghost var content' := m.content[Address(p, i) := word];
    ClientCannotHarm(m, Stored(m.mem, Address(p, i), word), content', p);
    m.mem := Stored(m.mem, Address(p, i), word);
    m.content := content';
  }

  /** It loads a word: what has been stored there, if anything has. */
  method Load(m: MState, p: int, i: nat) returns (word: nat)
    requires m.Valid()
    ensures Address(p, i) in m.content ==> word == m.content[Address(p, i)]
  {
    var a := Address(p, i);
    word := if a in m.mem.foot then m.mem.foot[a] else 0;
  }
}
