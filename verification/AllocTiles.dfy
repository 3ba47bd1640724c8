/** The boundary tags of lj_alloc.c. The abstract state is a map of tiles, from chunk
    addresses to sizes and use; the memory holds the same facts redundantly, in the head of
    each chunk and in the head and the foot field of the chunk behind it. */
module AllocTiles {

  /** The head word: the size, and whether the chunk before and the chunk itself are in use. */
  datatype Head = Head(size: nat, pinuse: bool, cinuse: bool)
  datatype Mem = Mem(head: map<int, Head>, foot: map<int, nat>)

  /** A word of memory, seen as a head. */
  function HeadOf(word: nat): Head { Head(word / 8 * 8, word % 2 == 1, word / 2 % 2 == 1) }

  /** Memory after `word` has been stored at address `a`, where a chunk in front could have its
      head and a chunk there its foot field. */
  function Stored(m: Mem, a: int, word: nat): Mem { Mem(m.head[a - 8 := HeadOf(word)], m.foot[a := word]) }

  predicate WordIs(m: Mem, a: int, word: nat) { a in m.foot && m.foot[a] == word && a - 8 in m.head && m.head[a - 8] == HeadOf(word) }

  datatype Tile = Tile(size: nat, used: bool)
  type Tiles = map<int, Tile>

  /** A segment, with the chunk that holds its record (unused for the first one). */
  datatype Seg = Seg(base: int, size: nat, rec: int)

  const TOP_FOOT_SIZE := 64
  const MIN_CHUNK_SIZE := 32
  const FENCEPOST := Tile(8, true)
  const PAGE := 4096
  predicate OnPage(x: int) { x % PAGE == 0 }

  const GRANULARITY := 0x2_0000

  predicate Granular(n: int) { n % GRANULARITY == 0 }

  /** Memory is kept in the low 2 GB. */
  const ADDRESS_LIMIT := 0x8000_0000

  ghost function Next(t: Tiles, a: int): int
    requires a in t
  {
    a + t[a].size
  }

  /** Where the chunks of a segment end: the first segment holds top and keeps room for a
      record, the others end in fenceposts. */
  ghost function End(segs: seq<Seg>, i: nat): int
    requires i < |segs|
  {
    segs[i].base + segs[i].size - (if i == 0 then TOP_FOOT_SIZE else 8)
  }

  lemma PageAligned(x: int)
    requires OnPage(x)
    ensures x % 8 == 0
  {
    assert x == PAGE * (x / PAGE);
  }

  lemma GranularAligned(x: int)
    requires Granular(x)
    ensures OnPage(x) && x % 8 == 0
  {
    assert x == PAGE * (32 * (x / GRANULARITY));
  }

  lemma GranularSums(base: int, size: int, n: int)
    requires OnPage(base) && Granular(size) && Granular(n)
    ensures OnPage(base - n) && Granular(size + n) && Granular(size - n)
  {
    assert size == GRANULARITY * (size / GRANULARITY) && n == GRANULARITY * (n / GRANULARITY);
    GranularAligned(n);
    assert base == PAGE * (base / PAGE) && n == PAGE * (n / PAGE);
  }

  // ---------------------------------------------------------------- the invariant

  ghost predicate InSeg(t: Tiles, segs: seq<Seg>, top: int, a: int, i: nat)
    requires a in t && i < |segs|
  {
    && segs[i].base <= a && a % 8 == 0 && t[a].size > 0 && t[a].size % 8 == 0 && Next(t, a) <= End(segs, i)
    && (Next(t, a) in t || (Next(t, a) == End(segs, i) && if i == 0 then a == top else t[a] == FENCEPOST))
  }

  /** A tile lies in a segment and is followed by another one, or ends the segment. */
  ghost predicate Placed(t: Tiles, segs: seq<Seg>, top: int, a: int)
    requires a in t
  {
    exists i: nat :: i < |segs| && InSeg(t, segs, top, a, i)
  }

  ghost predicate Clear(t: Tiles, a: int, b: int)
    requires a in t
  {
    Next(t, a) <= b
  }

  /** A free tile is large enough to be binned, and what follows it is in use. */
  ghost predicate FreeOk(t: Tiles, top: int, a: int)
    requires a in t
  {
    !t[a].used ==> (a == top || t[a].size >= MIN_CHUNK_SIZE) && (Next(t, a) in t ==> t[Next(t, a)].used)
  }

  /** Behind the record of a segment there are only fenceposts. */
  ghost predicate Tail(t: Tiles, s: Seg) {
    && s.rec in t && t[s.rec] == Tile(32, true) && s.base <= s.rec <= s.base + s.size - TOP_FOOT_SIZE
    && forall a <- t :: s.rec < a < s.base + s.size ==> t[a] == FENCEPOST
  }

  ghost predicate SegOk(t: Tiles, segs: seq<Seg>, i: nat)
    requires i < |segs|
  {
    && segs[i].base > 0 && OnPage(segs[i].base) && segs[i].size >= GRANULARITY && Granular(segs[i].size)
    && segs[i].base + segs[i].size <= ADDRESS_LIMIT && segs[i].base in t
    && (i > 0 ==> Tail(t, segs[i]))
  }

  ghost predicate Disjoint(a: int, n: int, b: int, m: int) { a + n <= b || b + m <= a }

  ghost predicate SegsApart(segs: seq<Seg>, i: nat, j: nat)
    requires i < |segs| && j < |segs|
  {
    Disjoint(segs[i].base, segs[i].size, segs[j].base, segs[j].size)
  }

  ghost predicate Segments(t: Tiles, segs: seq<Seg>) {
    && segs != []
    && (forall i: nat {:trigger SegOk(t, segs, i)} | i < |segs| :: SegOk(t, segs, i))
    && (forall i: nat, j: nat {:trigger SegsApart(segs, i, j)} | i < j < |segs| :: SegsApart(segs, i, j))
  }

  ghost predicate TopOk(t: Tiles, segs: seq<Seg>, top: int) {
    segs != [] && top in t && !t[top].used && segs[0].base <= top && Next(t, top) == End(segs, 0)
  }

  /** The tiles cover every segment exactly, and no two free ones are neighbours. */
  ghost predicate Geometry(t: Tiles, segs: seq<Seg>, top: int) {
    && Segments(t, segs) && TopOk(t, segs, top)
    && (forall a {:trigger Placed(t, segs, top, a)} | a in t :: Placed(t, segs, top, a))
    && (forall a, b {:trigger Clear(t, a, b)} | a in t && b in t && a < b :: Clear(t, a, b))
    && (forall a {:trigger FreeOk(t, top, a)} | a in t :: FreeOk(t, top, a))
  }

  /** What memory says about one tile: its head, the PINUSE bit behind it, and its footer
      if it is free. */
  ghost predicate Tagged(m: Mem, t: Tiles, a: int)
    requires a in t
  {
    && a in m.head && m.head[a].size == t[a].size && m.head[a].cinuse == t[a].used
    && (Next(t, a) in t ==>
          && Next(t, a) in m.head && m.head[Next(t, a)].pinuse == t[a].used
          && (!t[a].used ==> Next(t, a) in m.foot && m.foot[Next(t, a)] == t[a].size))
  }

  ghost predicate Tags(m: Mem, t: Tiles, segs: seq<Seg>) {
    && (forall a {:trigger Tagged(m, t, a)} | a in t :: Tagged(m, t, a))
    && (forall s <- segs :: s.base in m.head && m.head[s.base].pinuse)
  }

  ghost predicate Physical(m: Mem, t: Tiles, segs: seq<Seg>, top: int) {
    Geometry(t, segs, top) && Tags(m, t, segs)
  }

  // ---------------------------------------------------------------- consequences

  lemma SegOf(t: Tiles, segs: seq<Seg>, top: int, a: int) returns (i: nat)
    requires Geometry(t, segs, top) && a in t
    ensures i < |segs| && InSeg(t, segs, top, a, i) && SegOk(t, segs, i)
  {
    assert Placed(t, segs, top, a);
    i :| i < |segs| && InSeg(t, segs, top, a, i);
  }

  /** No address lies in two segments. */
  lemma OneSeg(t: Tiles, segs: seq<Seg>, i: nat, j: nat, x: int)
    requires Segments(t, segs) && i < |segs| && j < |segs|
    requires segs[i].base <= x < segs[i].base + segs[i].size && segs[j].base <= x < segs[j].base + segs[j].size
    ensures i == j
  {
    assert i < j ==> SegsApart(segs, i, j);
    assert j < i ==> SegsApart(segs, j, i);
  }

  /** Neighbours lie in the same segment. */
  lemma SameSeg(t: Tiles, segs: seq<Seg>, top: int, a: int, b: int, i: nat)
    requires Geometry(t, segs, top) && a in t && b in t && i < |segs| && InSeg(t, segs, top, a, i)
    requires a <= b <= End(segs, i)
    ensures InSeg(t, segs, top, b, i)
  {
    var j := SegOf(t, segs, top, b);
    OneSeg(t, segs, i, j, b);
  }

  /** The tile before `b`: the one the code finds through the foot field. */
  lemma {:induction false} Before(t: Tiles, segs: seq<Seg>, top: int, b: int, i: nat, c: int) returns (a: int)
    requires Geometry(t, segs, top) && b in t && c in t && c < b
    requires i < |segs| && InSeg(t, segs, top, b, i) && InSeg(t, segs, top, c, i)
    ensures a in t && c <= a && Next(t, a) == b && InSeg(t, segs, top, a, i)
    decreases b - c
  {
    assert Clear(t, c, b);
    if Next(t, c) == b {
      a := c;
    } else {
      SameSeg(t, segs, top, c, Next(t, c), i);
      a := Before(t, segs, top, b, i, Next(t, c));
    }
  }

  /** Every byte of a segment up to its end belongs to exactly one tile. */
  lemma {:induction false} Covered(t: Tiles, segs: seq<Seg>, top: int, i: nat, c: int, x: int) returns (a: int)
    requires Geometry(t, segs, top) && i < |segs| && c in t && InSeg(t, segs, top, c, i) && c <= x < End(segs, i)
    ensures a in t && a <= x < Next(t, a)
    ensures forall b <- t :: b <= x < Next(t, b) ==> b == a
    decreases x - c
  {
    if x < Next(t, c) {
      a := c;
      forall b | b in t && b <= x < Next(t, b)
        ensures b == a
      {
        assert b < a ==> Clear(t, b, a);
        assert a < b ==> Clear(t, a, b);
      }
    } else {
      SameSeg(t, segs, top, c, Next(t, c), i);
      a := Covered(t, segs, top, i, Next(t, c), x);
    }
  }

  lemma TilesExactly(t: Tiles, segs: seq<Seg>, top: int, i: nat, x: int) returns (a: int)
    requires Geometry(t, segs, top) && i < |segs| && segs[i].base <= x < End(segs, i)
    ensures a in t && a <= x < Next(t, a)
    ensures forall b <- t :: b <= x < Next(t, b) ==> b == a
  {
    assert SegOk(t, segs, i);
    var j := SegOf(t, segs, top, segs[i].base);
    OneSeg(t, segs, i, j, segs[i].base);
    a := Covered(t, segs, top, i, segs[i].base, x);
  }

  /** When the PINUSE bit is clear, the foot field leads to a free tile. */
  lemma FreeBefore(m: Mem, t: Tiles, segs: seq<Seg>, top: int, b: int) returns (i: nat)
    requires Physical(m, t, segs, top) && b in t && b in m.head && !m.head[b].pinuse
    ensures b in m.foot && b - m.foot[b] in t && b - m.foot[b] != top
    ensures !t[b - m.foot[b]].used && Next(t, b - m.foot[b]) == b
    ensures i < |segs| && InSeg(t, segs, top, b, i) && InSeg(t, segs, top, b - m.foot[b], i)
  {
    i := SegOf(t, segs, top, b);
    assert segs[i].base in t;
    assert segs[i] in segs;
    SameSegBack(t, segs, top, segs[i].base, b, i);
    var a := Before(t, segs, top, b, i, segs[i].base);
    assert Tagged(m, t, a);
    if a == top { PastEnd(t, segs, top, b); }
  }

  /** The first tile of a segment is in it. */
  lemma SameSegBack(t: Tiles, segs: seq<Seg>, top: int, c: int, b: int, i: nat)
    requires Geometry(t, segs, top) && c in t && b in t && i < |segs| && InSeg(t, segs, top, b, i)
    requires segs[i].base <= c <= b
    ensures InSeg(t, segs, top, c, i)
  {
    var j := SegOf(t, segs, top, c);
    OneSeg(t, segs, i, j, c);
  }

  /** No tile starts where top ends. */
  lemma PastEnd(t: Tiles, segs: seq<Seg>, top: int, b: int)
    requires Geometry(t, segs, top) && b in t
    ensures b != End(segs, 0)
  {
    var j := SegOf(t, segs, top, b);
    assert SegOk(t, segs, 0);
    if 0 < j { assert SegsApart(segs, 0, j); }
  }

  // ---------------------------------------------------------------- retiling one stretch

  /** The tiles from `x` to `y` are replaced; the others stay. */
  ghost predicate Elsewhere(t: Tiles, t': Tiles, x: int, y: int) {
    forall a {:trigger a in t} {:trigger a in t'} | a < x || a >= y :: (a in t' <==> a in t) && (a in t ==> t'[a] == t[a])
  }

  /** The new tiles from `x` to `y`. */
  ghost predicate Pieces(t': Tiles, top': int, x: int, y: int) {
    && x in t'
    && (forall a <- t' :: x <= a < y ==>
          && a % 8 == 0 && t'[a].size > 0 && t'[a].size % 8 == 0 && Next(t', a) <= y
          && (Next(t', a) in t' || Next(t', a) == y)
          && FreeOk(t', top', a))
    && (forall a, b {:trigger Clear(t', a, b)} | a in t' && b in t' && x <= a < b < y :: Clear(t', a, b))
  }

  /** Replacing free tiles, or one in use that is neither a record nor a fencepost. */
  ghost predicate MayRetile(t: Tiles, segs: seq<Seg>, top: int, t': Tiles, top': int, i: nat, x: int, y: int) {
    && i < |segs| && x in t && x < y <= End(segs, i) && InSeg(t, segs, top, x, i)
    && t[x] != FENCEPOST && (forall j | 0 < j < |segs| :: segs[j].rec < x || y <= segs[j].rec)
    && (y in t || y == End(segs, 0) == End(segs, i))
    && Elsewhere(t, t', x, y) && Pieces(t', top', x, y)
    && (y in t ==> top' == top && (top < x || y <= top))
    && (y !in t ==> i == 0 && x <= top' < y && top' in t' && !t'[top'].used && Next(t', top') == y)
    && (!t'[x].used ==> forall a <- t :: Next(t, a) == x ==> t[a].used)
  }

  /** Only top reaches the end of its segment. */
  lemma TopLast(t: Tiles, segs: seq<Seg>, top: int, x: int)
    requires Geometry(t, segs, top) && x in t && segs[0].base <= x < End(segs, 0)
    ensures x <= top
  {
    assert top < x ==> Clear(t, top, x);
  }

  lemma PiecesClear(t': Tiles, top': int, x: int, y: int, a: int, b: int)
    requires Pieces(t', top', x, y) && a in t' && b in t' && x <= a < b < y
    ensures Next(t', a) <= b
  {
    assert Clear(t', a, b);
  }

  lemma RetileInside(t: Tiles, segs: seq<Seg>, top: int, t': Tiles, top': int, i: nat, x: int, y: int, a: int)
    requires Geometry(t, segs, top) && MayRetile(t, segs, top, t', top', i, x, y) && a in t' && x <= a < y
    ensures InSeg(t', segs, top', a, i)
  {
    if x <= top' < y && top' in t' && a < top' { PiecesClear(t', top', x, y, a, top'); }
    if x <= top' < y && top' in t' && top' < a { PiecesClear(t', top', x, y, top', a); }
  }

  lemma RetileOutside(t: Tiles, segs: seq<Seg>, top: int, t': Tiles, top': int, i: nat, x: int, y: int, a: int)
    requires Geometry(t, segs, top) && MayRetile(t, segs, top, t', top', i, x, y) && a in t && (a < x || a >= y)
    ensures Placed(t', segs, top', a)
  {
    hide Segments, SegOk, FreeOk, End;
    var j := SegOf(t, segs, top, a);
    assert a < x ==> Clear(t, a, x);
    if Next(t, a) !in t && j == 0 && y !in t { TopLast(t, segs, top, x); }
    assert InSeg(t', segs, top', a, j);
  }

  lemma RetileFree(t: Tiles, segs: seq<Seg>, top: int, t': Tiles, top': int, i: nat, x: int, y: int, a: int)
    requires Geometry(t, segs, top) && MayRetile(t, segs, top, t', top', i, x, y) && a in t && (a < x || a >= y)
    ensures FreeOk(t', top', a) && (a < x ==> Next(t, a) <= x)
  {
    hide Pieces;
    assert a < x ==> Clear(t, a, x);
    assert FreeOk(t, top, a);
    if a == top && y !in t { TopLast(t, segs, top, x); }
  }

  lemma RetileClear(t: Tiles, segs: seq<Seg>, top: int, t': Tiles, top': int, i: nat, x: int, y: int, a: int, b: int)
    requires Geometry(t, segs, top) && MayRetile(t, segs, top, t', top', i, x, y) && a in t' && b in t' && a < b
    ensures Clear(t', a, b)
  {
    assert a in t && b in t ==> Clear(t, a, b);
    if a < x { RetileFree(t, segs, top, t', top', i, x, y, a); }
  }

  lemma RetileGeometry(t: Tiles, segs: seq<Seg>, top: int, t': Tiles, top': int, i: nat, x: int, y: int)
    requires Geometry(t, segs, top) && MayRetile(t, segs, top, t', top', i, x, y)
    ensures Geometry(t', segs, top')
  {
    forall j: nat | j < |segs|
      ensures SegOk(t', segs, j)
    {
      RetileSegs(t, segs, top, t', top', i, x, y, j);
    }
    forall a | a in t'
      ensures Placed(t', segs, top', a) && FreeOk(t', top', a)
    {
      if x <= a < y {
        RetileInside(t, segs, top, t', top', i, x, y, a);
      } else {
        RetileOutside(t, segs, top, t', top', i, x, y, a);
        RetileFree(t, segs, top, t', top', i, x, y, a);
      }
    }
    forall a, b | a in t' && b in t' && a < b
      ensures Clear(t', a, b)
    {
      RetileClear(t, segs, top, t', top', i, x, y, a, b);
    }
  }

  /** Memory has changed only for the tiles from `x` to `y` and in what is said about them
      at `y`. */
  ghost predicate Writes(m: Mem, m': Mem, t: Tiles, x: int, y: int) {
    && (forall a <- t :: (a < x || a > y) && a in m.head ==> a in m'.head && m'.head[a] == m.head[a])
    && (forall a <- t :: (a <= x || a > y) && a in m.foot ==> a in m'.foot && m'.foot[a] == m.foot[a])
    && (x in m.head ==> x in m'.head && m'.head[x].pinuse == m.head[x].pinuse)
    && (y in t && y in m.head ==> y in m'.head && m'.head[y].size == m.head[y].size && m'.head[y].cinuse == m.head[y].cinuse)
  }

  lemma RetileTag(m: Mem, m': Mem, t: Tiles, segs: seq<Seg>, top: int, t': Tiles, top': int, i: nat, x: int, y: int, a: int)
    requires Physical(m, t, segs, top) && MayRetile(t, segs, top, t', top', i, x, y) && Writes(m, m', t, x, y)
    requires a in t && (a < x || a >= y)
    ensures Tagged(m', t', a)
  {
    hide Segments, TopOk, Pieces, FreeOk, InSeg, Placed;
    assert Tagged(m, t, a) && Tagged(m, t, x);
    assert a < x ==> Clear(t, a, x);
    PositiveTile(t, segs, top, a);
  }

  lemma PositiveTile(t: Tiles, segs: seq<Seg>, top: int, a: int)
    requires Geometry(t, segs, top) && a in t
    ensures t[a].size > 0
  {
    assert Placed(t, segs, top, a);
  }

  lemma BaseOutside(t: Tiles, segs: seq<Seg>, top: int, i: nat, x: int, y: int, s: Seg)
    requires Geometry(t, segs, top) && i < |segs| && x in t && InSeg(t, segs, top, x, i) && y <= End(segs, i) && s in segs
    ensures s.base <= x || s.base > y
    ensures s.base in t
  {
    var j: nat :| j < |segs| && segs[j] == s;
    assert SegOk(t, segs, j) && SegOk(t, segs, i);
    if x < s.base <= y { OneSeg(t, segs, i, j, s.base); }
  }

  /** Memory and tiles still agree after a stretch has been retiled. */
  lemma Retile(m: Mem, m': Mem, t: Tiles, segs: seq<Seg>, top: int, t': Tiles, top': int, i: nat, x: int, y: int)
    requires Physical(m, t, segs, top) && MayRetile(t, segs, top, t', top', i, x, y) && Writes(m, m', t, x, y)
    requires forall a <- t' :: x <= a < y ==> Tagged(m', t', a)
    ensures Physical(m', t', segs, top')
  {
    hide Geometry, Pieces, InSeg, FreeOk;
    RetileGeometry(t, segs, top, t', top', i, x, y);
    forall a | a in t'
      ensures Tagged(m', t', a)
    {
      if a < x || a >= y { RetileTag(m, m', t, segs, top, t', top', i, x, y, a); }
    }
    forall s | s in segs
      ensures s.base in m'.head && m'.head[s.base].pinuse
    {
      BaseOutside(t, segs, top, i, x, y, s);
    }
  }

  lemma RetileSegs(t: Tiles, segs: seq<Seg>, top: int, t': Tiles, top': int, i: nat, x: int, y: int, j: nat)
    requires Geometry(t, segs, top) && MayRetile(t, segs, top, t', top', i, x, y) && j < |segs|
    ensures SegOk(t', segs, j)
  {
    assert SegOk(t, segs, j) && SegOk(t, segs, i);
    assert i != j ==> Disjoint(segs[i].base, segs[i].size, segs[j].base, segs[j].size) by {
      assert i < j ==> SegsApart(segs, i, j);
      assert j < i ==> SegsApart(segs, j, i);
    }
    if j > 0 && j == i {
      assert x < segs[j].rec && y <= segs[j].rec;
    }
  }
}
