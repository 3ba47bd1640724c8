/** What the head and foot macros of lj_alloc.c do to the tiles: using, splitting, merging. */
module AllocMoves {
  import opened AllocTiles

  // ---------------------------------------------------------------- one or two new tiles

  ghost function Drop(t: Tiles, x: int, y: int): Tiles { map a | a in t && !(x <= a < y) :: t[a] }

  ghost function One(t: Tiles, x: int, y: int, used: bool): Tiles
    requires x <= y
  {
    Drop(t, x, y)[x := Tile(y - x, used)]
  }

  ghost function Two(t: Tiles, x: int, z: int, y: int, used1: bool, used2: bool): Tiles
    requires x <= z <= y
  {
    Drop(t, x, y)[x := Tile(z - x, used1)][z := Tile(y - z, used2)]
  }

  ghost predicate PrevUsed(t: Tiles, x: int) { forall a <- t :: Next(t, a) == x ==> t[a].used }

  /** The stretch from `x` to `y` is one that may be retiled. */
  ghost predicate Stretch(t: Tiles, segs: seq<Seg>, top: int, top': int, i: nat, x: int, y: int) {
    && i < |segs| && x in t && x < y <= End(segs, i) && InSeg(t, segs, top, x, i) && (y - x) % 8 == 0
    && t[x] != FENCEPOST && (forall j | 0 < j < |segs| :: segs[j].rec < x || y <= segs[j].rec)
    && (y in t || y == End(segs, 0) == End(segs, i))
    && (y in t ==> top' == top && (top < x || y <= top))
    && (y !in t ==> i == 0 && x <= top' < y)
  }

  lemma OneTagged(m': Mem, t: Tiles, x: int, y: int, used: bool)
    requires x < y && x in m'.head && m'.head[x].size == y - x && m'.head[x].cinuse == used
    requires y in t ==> y in m'.head && m'.head[y].pinuse == used
    requires y in t && !used ==> y in m'.foot && m'.foot[y] == y - x
    ensures Tagged(m', One(t, x, y, used), x)
  {}

  lemma RetileOne(m: Mem, m': Mem, t: Tiles, segs: seq<Seg>, top: int, top': int, i: nat, x: int, y: int, used: bool)
    requires Physical(m, t, segs, top) && Stretch(t, segs, top, top', i, x, y) && Writes(m, m', t, x, y)
    requires x in m'.head && m'.head[x].size == y - x && m'.head[x].cinuse == used
    requires y in t ==> y in m'.head && m'.head[y].pinuse == used
    requires y in t && !used ==> y in m'.foot && m'.foot[y] == y - x && t[y].used && y - x >= MIN_CHUNK_SIZE
    requires y !in t ==> !used && top' == x
    requires !used ==> PrevUsed(t, x)
    ensures Physical(m', One(t, x, y, used), segs, top')
  {
    hide Geometry, Tags, Writes, Clear;
    var t' := One(t, x, y, used);
    OneTagged(m', t, x, y, used);
    assert Pieces(t', top', x, y);
    Retile(m, m', t, segs, top, t', top', i, x, y);
  }

  lemma Apart8(x: int, z: int)
    requires x % 8 == 0 && z % 8 == 0
    ensures (z - x) % 8 == 0
  {
    assert x == 8 * (x / 8) && z == 8 * (z / 8);
  }

  lemma TwoPieces(t: Tiles, top': int, x: int, z: int, y: int, used1: bool, used2: bool)
    requires x < z < y && x % 8 == 0 && z % 8 == 0 && y % 8 == 0
    requires used1 && (!used2 && y in t ==> t[y].used) && (used2 || z == top' || y - z >= MIN_CHUNK_SIZE)
    ensures Pieces(Two(t, x, z, y, used1, used2), top', x, y)
  {
    hide Drop;
    Apart8(x, z);
    Apart8(z, y);
    TwoFree(t, top', x, z, y, used1, used2);
    hide FreeOk;
  }

  lemma TwoFree(t: Tiles, top': int, x: int, z: int, y: int, used1: bool, used2: bool)
    requires x < z < y && used1 && (!used2 && y in t ==> t[y].used) && (used2 || z == top' || y - z >= MIN_CHUNK_SIZE)
    ensures var t' := Two(t, x, z, y, used1, used2); FreeOk(t', top', x) && FreeOk(t', top', z)
    ensures forall a <- Two(t, x, z, y, used1, used2) :: x <= a < y ==> a == x || a == z
  {}

  lemma RetileTwo(m: Mem, m': Mem, t: Tiles, segs: seq<Seg>, top: int, top': int, i: nat, x: int, z: int, y: int, used2: bool)
    requires Physical(m, t, segs, top) && Stretch(t, segs, top, top', i, x, y) && Writes(m, m', t, x, y)
    requires x < z < y && z % 8 == 0
    requires x in m'.head && m'.head[x].size == z - x && m'.head[x].cinuse
    requires z in m'.head && m'.head[z].size == y - z && m'.head[z].cinuse == used2 && m'.head[z].pinuse
    requires y in t ==> y in m'.head && m'.head[y].pinuse == used2
    requires y in t && !used2 ==> y in m'.foot && m'.foot[y] == y - z && t[y].used && y - z >= MIN_CHUNK_SIZE
    requires y !in t ==> !used2 && top' == z
    ensures Physical(m', Two(t, x, z, y, true, used2), segs, top')
  {
    var t' := Two(t, x, z, y, true, used2);
    TwoPieces(t, top', x, z, y, true, used2);
    forall a | a in t' && x <= a < y
      ensures Tagged(m', t', a)
    {}
    Retile(m, m', t, segs, top, t', top', i, x, y);
  }

  // ---------------------------------------------------------------- the macros

  /** The word at `a` with its PINUSE bit set or cleared. */
  function WithPinuse(m: Mem, a: int, on: bool): Mem {
    var h := if a in m.head then m.head[a] else Head(0, false, false);
    m.(head := m.head[a := Head(h.size, on, h.cinuse)])
  }

  function SetFoot(m: Mem, p: int, s: nat): Mem { m.(foot := m.foot[p + s := s]) }

  function SetHead(m: Mem, p: int, h: Head): Mem { m.(head := m.head[p := h]) }

  function SetInuse(m: Mem, p: int, s: nat): Mem {
    var on := p in m.head && m.head[p].pinuse;
    WithPinuse(SetHead(m, p, Head(s, on, true)), p + s, true)
  }

  function SetInuseAndPinuse(m: Mem, p: int, s: nat): Mem { WithPinuse(SetHead(m, p, Head(s, true, true)), p + s, true) }

  function SetSizeAndPinuseOfInuse(m: Mem, p: int, s: nat): Mem { SetHead(m, p, Head(s, true, true)) }

  function SetSizeAndPinuseOfFree(m: Mem, p: int, s: nat): Mem { SetFoot(SetHead(m, p, Head(s, true, false)), p, s) }

  function SetFreeWithPinuse(m: Mem, p: int, s: nat, n: int): Mem { SetSizeAndPinuseOfFree(WithPinuse(m, n, false), p, s) }

  // ---------------------------------------------------------------- facts for the callers

  /** A free tile other than top has a tile in use on either side. */
  lemma FreeNeighbours(m: Mem, t: Tiles, segs: seq<Seg>, top: int, p: int) returns (i: nat)
    requires Physical(m, t, segs, top) && p in t && !t[p].used
    ensures PrevUsed(t, p) && p in m.head && m.head[p].pinuse && m.head[p].size == t[p].size
    ensures i < |segs| && InSeg(t, segs, top, p, i)
    ensures p != top ==> t[p].size >= MIN_CHUNK_SIZE && Next(t, p) in t && t[Next(t, p)].used && Next(t, p) in m.head
    ensures p != top ==> !m.head[Next(t, p)].pinuse && p < Next(t, p)
  {
    i := SegOf(t, segs, top, p);
    assert Tagged(m, t, p) && FreeOk(t, top, p);
    forall a | a in t && Next(t, a) == p
      ensures t[a].used
    {
      assert FreeOk(t, top, a);
    }
    if p == segs[i].base {
      assert segs[i] in segs;
    } else {
      assert segs[i].base in t;
      SameSegBack(t, segs, top, segs[i].base, p, i);
      var a := Before(t, segs, top, p, i, segs[i].base);
      assert Tagged(m, t, a);
    }
    if p != top {
      assert Tagged(m, t, Next(t, p));
    }
  }

  ghost predicate NoRecord(segs: seq<Seg>, x: int, y: int) { forall j | 0 < j < |segs| :: segs[j].rec < x || y <= segs[j].rec }

  /** A tile handed to the client. */
  ghost predicate Client(t: Tiles, segs: seq<Seg>, p: int) {
    p in t && t[p].used && t[p].size >= MIN_CHUNK_SIZE && forall j | 0 < j < |segs| :: segs[j].rec != p
  }

  lemma TileNoRecord(t: Tiles, segs: seq<Seg>, top: int, a: int)
    requires Geometry(t, segs, top) && a in t && (!t[a].used || Client(t, segs, a))
    ensures NoRecord(segs, a, Next(t, a))
  {
    forall j: nat | 0 < j < |segs|
      ensures segs[j].rec < a || Next(t, a) <= segs[j].rec
    {
      assert SegOk(t, segs, j);
      assert a < segs[j].rec ==> Clear(t, a, segs[j].rec);
    }
  }

  lemma ClientNext(m: Mem, t: Tiles, segs: seq<Seg>, top: int, p: int) returns (i: nat)
    requires Physical(m, t, segs, top) && Client(t, segs, p)
    ensures i < |segs| && InSeg(t, segs, top, p, i) && Next(t, p) in t && p != top && p in m.head && p % 8 == 0
    ensures m.head[p].size == t[p].size && Next(t, p) in m.head && m.head[Next(t, p)].cinuse == t[Next(t, p)].used
    ensures m.head[Next(t, p)].pinuse
  {
    i := SegOf(t, segs, top, p);
    assert Tagged(m, t, p);
    assert Tagged(m, t, Next(t, p));
  }

  /** Nothing starts inside a tile. */
  lemma DropTile(t: Tiles, segs: seq<Seg>, top: int, x: int)
    requires Geometry(t, segs, top) && x in t
    ensures Drop(t, x, Next(t, x)) == t - {x}
  {
    forall a | a in t && x < a
      ensures Next(t, x) <= a
    {
      assert Clear(t, x, a);
    }
    assert Placed(t, segs, top, x);
  }

  lemma FreeStretchOne(m: Mem, t: Tiles, segs: seq<Seg>, top: int, p: int) returns (i: nat)
    requires Physical(m, t, segs, top) && p in t && !t[p].used && p != top
    ensures Stretch(t, segs, top, top, i, p, Next(t, p)) && Drop(t, p, Next(t, p)) == t - {p}
  {
    i := FreeNeighbours(m, t, segs, top, p);
    TileNoRecord(t, segs, top, p);
    DropTile(t, segs, top, p);
    TopApart(t, segs, top, p);
  }

  lemma TopApart(t: Tiles, segs: seq<Seg>, top: int, p: int)
    requires Geometry(t, segs, top) && p in t && p != top
    ensures top < p || Next(t, p) <= top
  {
    assert p < top ==> Clear(t, p, top);
  }

  // ---------------------------------------------------------------- taking chunks

  /** A free chunk is handed out whole. */
  lemma UseWhole(m: Mem, t: Tiles, segs: seq<Seg>, top: int, p: int)
    requires Physical(m, t, segs, top) && p in t && !t[p].used && p != top
    ensures var s := t[p].size; Physical(SetInuseAndPinuse(m, p, s), t[p := Tile(s, true)], segs, top)
  {
    var s, y := t[p].size, Next(t, p);
    var i := FreeStretchOne(m, t, segs, top, p);
    var j := FreeNeighbours(m, t, segs, top, p);
    RetileOne(m, SetInuseAndPinuse(m, p, s), t, segs, top, top, i, p, y, true);
    assert One(t, p, y, true) == t[p := Tile(s, true)];
  }

  /** The front of a free chunk is handed out; the rest stays free. */
  lemma UseFront(m: Mem, t: Tiles, segs: seq<Seg>, top: int, p: int, nb: nat)
    requires Physical(m, t, segs, top) && p in t && !t[p].used && p != top
    requires 0 < nb && nb % 8 == 0 && t[p].size >= nb + MIN_CHUNK_SIZE
    ensures var r := t[p].size - nb;
      Physical(SetSizeAndPinuseOfFree(SetSizeAndPinuseOfInuse(m, p, nb), p + nb, r), t[p := Tile(nb, true)][p + nb := Tile(r, false)], segs, top)
  {
    hide Geometry;
    var r, y := t[p].size - nb, Next(t, p);
    var i := FreeStretchOne(m, t, segs, top, p);
    var j := FreeNeighbours(m, t, segs, top, p);
    RetileTwo(m, SetSizeAndPinuseOfFree(SetSizeAndPinuseOfInuse(m, p, nb), p + nb, r), t, segs, top, top, i, p, p + nb, y, false);
    assert Two(t, p, p + nb, y, true, false) == t[p := Tile(nb, true)][p + nb := Tile(r, false)];
  }

  /** The front of top is handed out. */
  lemma UseTop(m: Mem, t: Tiles, segs: seq<Seg>, top: int, nb: nat)
    requires Physical(m, t, segs, top) && 0 < nb < t[top].size && nb % 8 == 0
    ensures var r := t[top].size - nb;
      Physical(SetSizeAndPinuseOfInuse(SetHead(m, top + nb, Head(r, true, false)), top, nb),
               t[top := Tile(nb, true)][top + nb := Tile(r, false)], segs, top + nb)
  {
    var r, y := t[top].size - nb, Next(t, top);
    var i := FreeNeighbours(m, t, segs, top, top);
    TopStretch(t, segs, top, i, top + nb);
    var m' := SetSizeAndPinuseOfInuse(SetHead(m, top + nb, Head(r, true, false)), top, nb);
    RetileTwo(m, m', t, segs, top, top + nb, i, top, top + nb, y, false);
    assert Two(t, top, top + nb, y, true, false) == t[top := Tile(nb, true)][top + nb := Tile(r, false)];
  }

  lemma TopStretch(t: Tiles, segs: seq<Seg>, top: int, i: nat, top': int)
    requires Geometry(t, segs, top) && i < |segs| && InSeg(t, segs, top, top, i) && top <= top' < Next(t, top)
    ensures i == 0 && Next(t, top) !in t && Stretch(t, segs, top, top', i, top, Next(t, top))
    ensures Drop(t, top, Next(t, top)) == t - {top}
  {
    assert SegOk(t, segs, 0) && SegOk(t, segs, i);
    OneSeg(t, segs, 0, i, top);
    if Next(t, top) in t { PastEnd(t, segs, top, Next(t, top)); }
    TileNoRecord(t, segs, top, top);
    DropTile(t, segs, top, top);
  }

  // ---------------------------------------------------------------- giving chunks back

  /** What lj_alloc_free merges: the chunk `p`, with the free chunk before it (if `x` is not
      `p`) and the free chunk behind it (if there is one). */
  ghost predicate Merging(m: Mem, t: Tiles, segs: seq<Seg>, top: int, x: int, p: int, y: int) {
    && Physical(m, t, segs, top) && Client(t, segs, p)
    && (if x == p then p in m.head && m.head[p].pinuse else x in t && !t[x].used && Next(t, x) == p && x != top)
    && Next(t, p) in t
    && y == if t[Next(t, p)].used then Next(t, p) else Next(t, Next(t, p))
  }

  /** The part up to the end of the chunk given back. */
  lemma MergeFront(m: Mem, t: Tiles, segs: seq<Seg>, top: int, x: int, p: int, i: nat)
    requires Physical(m, t, segs, top) && Client(t, segs, p) && i < |segs| && InSeg(t, segs, top, p, i)
    requires if x == p then p in m.head && m.head[p].pinuse else x in t && !t[x].used && Next(t, x) == p && x != top
    ensures x <= p && InSeg(t, segs, top, x, i) && NoRecord(segs, x, Next(t, p)) && t[x] != FENCEPOST
    ensures PrevUsed(t, x) && x in m.head && m.head[x].pinuse && (top < x || Next(t, p) <= top)
    ensures Drop(t, x, Next(t, p)) == t - {x, p}
  {
    TileNoRecord(t, segs, top, p);
    DropTile(t, segs, top, p);
    TopApart(t, segs, top, p);
    if x == p {
      PinusePrev(m, t, segs, top, p);
    } else {
      var j := FreeNeighbours(m, t, segs, top, x);
      SameSegBack(t, segs, top, x, p, i) by { BaseBefore(t, segs, top, x, p, i); }
      TileNoRecord(t, segs, top, x);
      DropTile(t, segs, top, x);
      TopApart(t, segs, top, x);
      DropBoth(t, x, p, Next(t, p));
    }
  }

  lemma DropBoth(t: Tiles, x: int, z: int, y: int)
    requires x <= z <= y
    ensures Drop(t, x, y).Keys == Drop(t, x, z).Keys * Drop(t, z, y).Keys
  {}

  /** The free chunk behind it. */
  lemma MergeBack(m: Mem, t: Tiles, segs: seq<Seg>, top: int, n: int, i: nat)
    requires Physical(m, t, segs, top) && n in t && !t[n].used && i < |segs| && InSeg(t, segs, top, n, i)
    ensures NoRecord(segs, n, Next(t, n)) && Drop(t, n, Next(t, n)) == t - {n} && n < Next(t, n)
    ensures if n == top then Next(t, n) !in t && i == 0 && Next(t, n) == End(segs, 0) else Next(t, n) in t
    ensures n != top ==> t[Next(t, n)].used && Next(t, n) in m.head && !m.head[Next(t, n)].pinuse
    ensures n != top ==> top < n || Next(t, n) <= top
  {
    var j := FreeNeighbours(m, t, segs, top, n);
    TileNoRecord(t, segs, top, n);
    DropTile(t, segs, top, n);
    if n == top { TopStretch(t, segs, top, i, top); } else { TopApart(t, segs, top, n); }
  }

  lemma MergeStretch(m: Mem, t: Tiles, segs: seq<Seg>, top: int, x: int, p: int, y: int) returns (i: nat)
    requires Merging(m, t, segs, top, x, p, y)
    ensures Stretch(t, segs, top, if Next(t, p) == top then x else top, i, x, y)
    ensures PrevUsed(t, x) && x in m.head && m.head[x].pinuse && y - x >= MIN_CHUNK_SIZE
    ensures y in t ==> t[y].used && y in m.head && m.head[y].pinuse == t[Next(t, p)].used
    ensures y in t <==> Next(t, p) != top
    ensures Drop(t, x, y) == t - {x, p} - (if t[Next(t, p)].used then {} else {Next(t, p)})
  {
    hide Tags;
    var n := Next(t, p);
    i := ClientNext(m, t, segs, top, p);
    SameSeg(t, segs, top, p, n, i);
    MergeFront(m, t, segs, top, x, p, i);
    if !t[n].used {
      MergeBack(m, t, segs, top, n, i);
      DropBoth(t, x, n, y);
      NoRecordBoth(segs, x, n, y);
    }
  }

  lemma NoRecordBoth(segs: seq<Seg>, x: int, z: int, y: int)
    requires NoRecord(segs, x, z) && NoRecord(segs, z, y)
    ensures NoRecord(segs, x, y)
  {
    forall j | 0 < j < |segs|
      ensures segs[j].rec < x || y <= segs[j].rec
    {
      assert segs[j].rec < x || z <= segs[j].rec;
    }
  }

  /** The tile before a tile that is not the first of its segment is in the same segment. */
  lemma BaseBefore(t: Tiles, segs: seq<Seg>, top: int, x: int, p: int, i: nat)
    requires Geometry(t, segs, top) && x in t && p in t && Next(t, x) == p && i < |segs| && InSeg(t, segs, top, p, i)
    ensures segs[i].base <= x
  {
    var j := SegOf(t, segs, top, x);
    SameSeg(t, segs, top, x, p, j);
    OneSeg(t, segs, i, j, p);
  }

  lemma PinusePrev(m: Mem, t: Tiles, segs: seq<Seg>, top: int, p: int)
    requires Physical(m, t, segs, top) && p in t && p in m.head && m.head[p].pinuse
    ensures PrevUsed(t, p)
  {
    forall a | a in t && Next(t, a) == p
      ensures t[a].used
    {
      assert Tagged(m, t, a);
    }
  }

  function MergedTiles(t: Tiles, x: int, p: int): Tiles
    requires p in t && p + t[p].size in t
  {
    var n := p + t[p].size;
    var y := if t[n].used then n else n + t[n].size;
    (t - {x, p} - (if t[n].used then {} else {n}))[x := Tile(if x < y then y - x else 0, false)]
  }

  /** The writes of lj_alloc_free for the merged chunk. */
  function MergedMem(m: Mem, x: int, y: int, n: int, nextUsed: bool, top: int): Mem
    requires x <= y
  {
    if nextUsed then SetFreeWithPinuse(m, x, y - x, n)
    else if n == top then SetHead(m, x, Head(y - x, true, false))
    else SetSizeAndPinuseOfFree(m, x, y - x)
  }

  lemma FreeMerge(m: Mem, t: Tiles, segs: seq<Seg>, top: int, x: int, p: int, y: int)
    requires Merging(m, t, segs, top, x, p, y)
    ensures x < y
    ensures var n := Next(t, p);
      Physical(MergedMem(m, x, y, n, t[n].used, top), MergedTiles(t, x, p), segs, if n == top then x else top)
  {
    hide Geometry, Tags;
    var n := Next(t, p);
    var i := MergeStretch(m, t, segs, top, x, p, y);
    var m' := MergedMem(m, x, y, n, t[n].used, top);
    RetileOne(m, m', t, segs, top, if n == top then x else top, i, x, y, false);
    assert One(t, x, y, false) == MergedTiles(t, x, p);
  }

  // ---------------------------------------------------------------- lj_alloc_realloc in place

  lemma ClientStretch(m: Mem, t: Tiles, segs: seq<Seg>, top: int, p: int) returns (i: nat)
    requires Physical(m, t, segs, top) && Client(t, segs, p)
    ensures Stretch(t, segs, top, top, i, p, Next(t, p)) && Drop(t, p, Next(t, p)) == t - {p}
    ensures p in m.head && Next(t, p) in m.head && m.head[Next(t, p)].pinuse && Next(t, p) % 8 == 0
  {
    i := ClientNext(m, t, segs, top, p);
    TileNoRecord(t, segs, top, p);
    DropTile(t, segs, top, p);
    TopApart(t, segs, top, p);
  }

  /** A chunk in use is split in two chunks in use. */
  lemma SplitInuse(m: Mem, t: Tiles, segs: seq<Seg>, top: int, p: int, nb: nat)
    requires Physical(m, t, segs, top) && Client(t, segs, p) && 0 < nb < t[p].size && nb % 8 == 0
    ensures var r := t[p].size - nb;
      Physical(SetInuse(SetInuse(m, p, nb), p + nb, r), t[p := Tile(nb, true)][p + nb := Tile(r, true)], segs, top)
  {
    hide Tags, Writes, Tagged;
    var r, y := t[p].size - nb, Next(t, p);
    var i := ClientStretch(m, t, segs, top, p);
    RetileTwo(m, SetInuse(SetInuse(m, p, nb), p + nb, r), t, segs, top, top, i, p, p + nb, y, true);
    assert Two(t, p, p + nb, y, true, true) == t[p := Tile(nb, true)][p + nb := Tile(r, true)];
  }

  /** A chunk in use takes its space from top. */
  lemma TakeFromTop(m: Mem, t: Tiles, segs: seq<Seg>, top: int, p: int, nb: nat)
    requires Physical(m, t, segs, top) && Client(t, segs, p) && Next(t, p) == top && nb % 8 == 0
    requires 0 < nb < t[p].size + t[top].size
    ensures var r := t[p].size + t[top].size - nb;
      Physical(SetHead(SetInuse(m, p, nb), p + nb, Head(r, true, false)),
               (t - {top})[p := Tile(nb, true)][p + nb := Tile(r, false)], segs, p + nb)
  {
    hide Tags, Tagged, Stretch, Two;
    var r, y := t[p].size + t[top].size - nb, Next(t, top);
    var i := ClientStretch(m, t, segs, top, p);
    SameSeg(t, segs, top, p, top, i);
    TopStretch(t, segs, top, i, top);
    DropBoth(t, p, top, y);
    NoRecordBoth(segs, p, top, y);
    var m' := SetHead(SetInuse(m, p, nb), p + nb, Head(r, true, false));
    RetileTwo(m, m', t, segs, top, p + nb, i, p, p + nb, y, false);
    TopTaken(t, p, top, nb);
  }

  lemma TopTaken(t: Tiles, p: int, top: int, nb: nat)
    requires p in t && top in t && Next(t, p) == top && p < top && 0 < nb < t[p].size + t[top].size
    requires Drop(t, p, top) == t - {p} && Drop(t, top, Next(t, top)) == t - {top}
    requires Drop(t, p, Next(t, top)).Keys == Drop(t, p, top).Keys * Drop(t, top, Next(t, top)).Keys
    ensures Two(t, p, p + nb, Next(t, top), true, false)
      == (t - {top})[p := Tile(nb, true)][p + nb := Tile(t[p].size + t[top].size - nb, false)]
  {
    assert Drop(t, p, Next(t, top)) == t - {p} - {top};
  }

  /** What a chunk in use has after its first `nb` bytes becomes a free chunk of its own. */
  lemma GiveTail(m: Mem, t: Tiles, segs: seq<Seg>, top: int, p: int, nb: nat)
    requires Physical(m, t, segs, top) && Client(t, segs, p) && p in m.head && m.head[p].pinuse
    requires 0 < nb && nb % 8 == 0 && nb + MIN_CHUNK_SIZE <= t[p].size && Next(t, p) in t && t[Next(t, p)].used
    ensures var n, r := Next(t, p), t[p].size - nb;
      Physical(SetFreeWithPinuse(SetSizeAndPinuseOfInuse(m, p, nb), p + nb, r, n), t[p := Tile(nb, true)][p + nb := Tile(r, false)], segs, top)
  {
    hide Geometry, Tags;
    var n, r := Next(t, p), t[p].size - nb;
    var i := ClientStretch(m, t, segs, top, p);
    RetileTwo(m, SetFreeWithPinuse(SetSizeAndPinuseOfInuse(m, p, nb), p + nb, r, n), t, segs, top, top, i, p, p + nb, n, false);
    assert Two(t, p, p + nb, n, true, false) == t[p := Tile(nb, true)][p + nb := Tile(r, false)];
  }

  /** The same bytes go to the free chunk behind it. */
  lemma GiveTailMerged(m: Mem, t: Tiles, segs: seq<Seg>, top: int, p: int, nb: nat)
    requires Physical(m, t, segs, top) && Client(t, segs, p) && p in m.head && m.head[p].pinuse
    requires 0 < nb && nb % 8 == 0 && nb + MIN_CHUNK_SIZE <= t[p].size && Next(t, p) != top && Next(t, p) in t && !t[Next(t, p)].used
    ensures var n, r := Next(t, p), t[p].size + t[Next(t, p)].size - nb;
      Physical(SetSizeAndPinuseOfFree(SetSizeAndPinuseOfInuse(m, p, nb), p + nb, r), (t - {n})[p := Tile(nb, true)][p + nb := Tile(r, false)], segs, top)
  {
    hide Geometry, Tags, Stretch;
    var n, r := Next(t, p), t[p].size + t[Next(t, p)].size - nb;
    var i := ClientStretch(m, t, segs, top, p);
    GiveTailStretch(m, t, segs, top, p, i);
    RetileTwo(m, SetSizeAndPinuseOfFree(SetSizeAndPinuseOfInuse(m, p, nb), p + nb, r), t, segs, top, top, i, p, p + nb, Next(t, n), false);
    assert Two(t, p, p + nb, Next(t, n), true, false) == (t - {n})[p := Tile(nb, true)][p + nb := Tile(r, false)];
  }

  lemma GiveTailStretch(m: Mem, t: Tiles, segs: seq<Seg>, top: int, p: int, i: nat)
    requires Physical(m, t, segs, top) && Client(t, segs, p) && Next(t, p) != top && Next(t, p) in t && !t[Next(t, p)].used
    requires Stretch(t, segs, top, top, i, p, Next(t, p)) && Drop(t, p, Next(t, p)) == t - {p}
    ensures var n := Next(t, p); var y := Next(t, n);
      Stretch(t, segs, top, top, i, p, y) && Drop(t, p, y) == t - {p, n}
      && y in t && t[y].used && y in m.head && !m.head[y].pinuse
  {
    var n := Next(t, p);
    SameSeg(t, segs, top, p, n, i);
    MergeBack(m, t, segs, top, n, i);
    DropBoth(t, p, n, Next(t, n));
    NoRecordBoth(segs, p, n, Next(t, n));
  }
}
