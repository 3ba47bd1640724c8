/** What happens to the tiles when lj_alloc.c gets memory from the system or returns it. */
module AllocSegments {
  import opened AllocTiles
  import opened AllocMoves

  // ---------------------------------------------------------------- top grows or shrinks

  /** The two head writes of init_top. */
  function InitTop(m: Mem, p: int, s: nat): Mem {
    SetHead(SetHead(m, p, Head(s, true, false)), p + s, Head(TOP_FOOT_SIZE, false, false))
  }

  ghost function ResizedSegs(segs: seq<Seg>, n: nat): seq<Seg>
    requires segs != []
  {
    segs[0 := Seg(segs[0].base, n, segs[0].rec)]
  }

  ghost predicate MayResize(t: Tiles, segs: seq<Seg>, top: int, n: nat, s: nat) {
    && Geometry(t, segs, top) && n - segs[0].size == s - t[top].size && s > 0 && s % 8 == 0
    && n >= GRANULARITY && Granular(n) && segs[0].base + n <= ADDRESS_LIMIT
    && forall j | 0 < j < |segs| :: Disjoint(segs[0].base, n, segs[j].base, segs[j].size)
  }

  lemma ResizePlaced(t: Tiles, segs: seq<Seg>, top: int, n: nat, s: nat, a: int)
    requires MayResize(t, segs, top, n, s) && a in t
    ensures var t' := t[top := Tile(s, false)]; Placed(t', ResizedSegs(segs, n), top, a) && FreeOk(t', top, a)
  {
    var t', segs' := t[top := Tile(s, false)], ResizedSegs(segs, n);
    var i := SegOf(t, segs, top, a);
    assert FreeOk(t, top, a);
    var k := SegOf(t, segs, top, top);
    TopStretch(t, segs, top, k, top);
    if i == 0 { TopLast(t, segs, top, a); }
    assert a < top ==> Clear(t, a, top);
    if a == top && Next(t', top) in t' { ResizeEnd(t, segs, top, n, s); }
    assert InSeg(t', segs', top, a, if a == top then 0 else i);
  }

  /** No tile starts where the new top ends. */
  lemma ResizeEnd(t: Tiles, segs: seq<Seg>, top: int, n: nat, s: nat)
    requires MayResize(t, segs, top, n, s)
    ensures top + s !in t
  {
    if top + s in t {
      var i := SegOf(t, segs, top, top + s);
      if i == 0 { TopLast(t, segs, top, top + s); }
    }
  }

  lemma ResizeGeometry(t: Tiles, segs: seq<Seg>, top: int, n: nat, s: nat)
    requires MayResize(t, segs, top, n, s)
    ensures Geometry(t[top := Tile(s, false)], ResizedSegs(segs, n), top)
  {
    var t', segs' := t[top := Tile(s, false)], ResizedSegs(segs, n);
    forall a | a in t'
      ensures Placed(t', segs', top, a) && FreeOk(t', top, a)
    {
      ResizePlaced(t, segs, top, n, s, a);
    }
    forall a, b | a in t' && b in t' && a < b
      ensures Clear(t', a, b)
    {
      ResizeClear(t, segs, top, n, s, a, b);
    }
    forall j: nat | j < |segs'|
      ensures SegOk(t', segs', j)
    {
      assert SegOk(t, segs, j);
      assert j > 0 ==> Tail(t', segs'[j]);
    }
    forall i: nat, j: nat | i < j < |segs'|
      ensures SegsApart(segs', i, j)
    {
      assert SegsApart(segs, i, j);
    }
  }

  lemma ResizeClear(t: Tiles, segs: seq<Seg>, top: int, n: nat, s: nat, a: int, b: int)
    requires MayResize(t, segs, top, n, s) && a in t && b in t && a < b
    ensures Clear(t[top := Tile(s, false)], a, b)
  {
    assert Clear(t, a, b);
    if a == top {
      var i := SegOf(t, segs, top, b);
      if i == 0 { TopLast(t, segs, top, b); }
    }
  }

  lemma ResizeTop(m: Mem, t: Tiles, segs: seq<Seg>, top: int, n: nat, s: nat)
    requires Physical(m, t, segs, top) && MayResize(t, segs, top, n, s)
    ensures Physical(InitTop(m, top, s), t[top := Tile(s, false)], ResizedSegs(segs, n), top)
  {
    var t', segs', m' := t[top := Tile(s, false)], ResizedSegs(segs, n), InitTop(m, top, s);
    ResizeGeometry(t, segs, top, n, s);
    ResizeEnd(t, segs, top, n, s);
    var i := FreeNeighbours(m, t, segs, top, top);
    forall a | a in t'
      ensures Tagged(m', t', a)
    {
      assert Tagged(m, t, a);
    }
    forall x | x in segs'
      ensures x.base in m'.head && m'.head[x.base].pinuse
    {
      ResizeBase(m, t, segs, n, x);
      assert x.base in t;
    }
  }

  lemma ResizeBase(m: Mem, t: Tiles, segs: seq<Seg>, n: nat, x: Seg)
    requires Segments(t, segs) && Tags(m, t, segs) && x in ResizedSegs(segs, n)
    ensures x.base in t && x.base in m.head && m.head[x.base].pinuse
  {
    var j: nat :| j < |segs| && ResizedSegs(segs, n)[j] == x;
    assert SegOk(t, segs, j) && segs[j] in segs;
  }

  // ---------------------------------------------------------------- a segment grows downwards

  ghost function LoweredSegs(segs: seq<Seg>, i: nat, n: nat): seq<Seg>
    requires i < |segs|
  {
    segs[i := Seg(segs[i].base - n, segs[i].size + n, segs[i].rec)]
  }

  /** `n` fresh bytes lie right before segment `i`. */
  ghost predicate MayLower(t: Tiles, segs: seq<Seg>, top: int, i: nat, n: nat) {
    && Geometry(t, segs, top) && i < |segs| && n >= MIN_CHUNK_SIZE && Granular(n) && segs[i].base - n > 0
    && forall j | 0 <= j < |segs| :: Disjoint(segs[i].base - n, n, segs[j].base, segs[j].size)
  }

  lemma LowerPlaced(t: Tiles, segs: seq<Seg>, top: int, i: nat, n: nat, a: int)
    requires MayLower(t, segs, top, i, n) && a in t
    ensures var x := segs[i].base - n; var t' := t[x := Tile(n, true)];
      x !in t && Placed(t', LoweredSegs(segs, i, n), top, a) && FreeOk(t', top, a) && (a < x ==> Next(t, a) <= x) && (x < a ==> x + n <= a)
  {
    var x := segs[i].base - n;
    var t', segs' := t[x := Tile(n, true)], LoweredSegs(segs, i, n);
    if x in t { var k := SegOf(t, segs, top, x); }
    var j := SegOf(t, segs, top, a);
    assert FreeOk(t, top, a) && Disjoint(x, n, segs[j].base, segs[j].size);
    assert InSeg(t', segs', top, a, j);
  }

  lemma LowerSegs(t: Tiles, segs: seq<Seg>, top: int, i: nat, n: nat, j: nat)
    requires MayLower(t, segs, top, i, n) && j < |segs|
    ensures SegOk(t[segs[i].base - n := Tile(n, true)], LoweredSegs(segs, i, n), j)
  {
    hide OnPage, Granular;
    assert SegOk(t, segs, j) && SegOk(t, segs, i);
    GranularSums(segs[i].base, segs[i].size, n);
    assert Disjoint(segs[i].base - n, n, segs[j].base, segs[j].size);
  }

  /** The fresh bytes as one chunk in use, before what is left of them goes to the old
      first chunk. */
  lemma LowerBase(m: Mem, t: Tiles, segs: seq<Seg>, top: int, i: nat, n: nat)
    requires Physical(m, t, segs, top) && MayLower(t, segs, top, i, n)
    ensures var x := segs[i].base - n;
      Physical(SetHead(m, x, Head(n, true, true)), t[x := Tile(n, true)], LoweredSegs(segs, i, n), top)
  {
    var x := segs[i].base - n;
    var t', segs', m' := t[x := Tile(n, true)], LoweredSegs(segs, i, n), SetHead(m, x, Head(n, true, true));
    assert SegOk(t, segs, i) && segs[i] in segs;
    LowerGeometry(t, segs, top, i, n);
    forall a | a in t'
      ensures Tagged(m', t', a)
    {
      if a != x {
        LowerPlaced(t, segs, top, i, n, a);
        assert Tagged(m, t, a);
      } else {
        assert Tagged(m, t, segs[i].base);
      }
    }
    forall s | s in segs'
      ensures s.base in m'.head && m'.head[s.base].pinuse
    {
      var j: nat :| j < |segs'| && segs'[j] == s;
      assert segs[j] in segs;
    }
  }

  lemma LowerGeometry(t: Tiles, segs: seq<Seg>, top: int, i: nat, n: nat)
    requires MayLower(t, segs, top, i, n)
    ensures Geometry(t[segs[i].base - n := Tile(n, true)], LoweredSegs(segs, i, n), top)
  {
    var x := segs[i].base - n;
    var t', segs' := t[x := Tile(n, true)], LoweredSegs(segs, i, n);
    LowerNew(t, segs, top, i, n);
    hide SegOk, Placed, FreeOk, Clear, SegsApart;
    forall a | a in t'
      ensures Placed(t', segs', top, a) && FreeOk(t', top, a)
    {
      if a != x { LowerPlaced(t, segs, top, i, n, a); }
    }
    forall a, b | a in t' && b in t' && a < b
      ensures Clear(t', a, b)
    {
      LowerClear(t, segs, top, i, n, a, b);
    }
    forall j: nat | j < |segs'|
      ensures SegOk(t', segs', j)
    {
      LowerSegs(t, segs, top, i, n, j);
    }
    forall j: nat, k: nat | j < k < |segs'|
      ensures SegsApart(segs', j, k)
    {
      LowerApart(t, segs, top, i, n, j, k);
    }
  }

  lemma PlacedIn(t: Tiles, segs: seq<Seg>, top: int, a: int, i: nat)
    requires a in t && i < |segs| && InSeg(t, segs, top, a, i)
    ensures Placed(t, segs, top, a)
  {}

  lemma LowerFirst(t: Tiles, segs: seq<Seg>, top: int, i: nat, n: nat)
    requires MayLower(t, segs, top, i, n)
    ensures var x := segs[i].base - n; InSeg(t[x := Tile(n, true)], LoweredSegs(segs, i, n), top, x, i)
  {
    hide OnPage, Granular;
    assert SegOk(t, segs, i);
    PageAligned(segs[i].base);
    GranularAligned(n);
  }

  lemma LowerTop(t: Tiles, segs: seq<Seg>, top: int, i: nat, n: nat)
    requires MayLower(t, segs, top, i, n)
    ensures TopOk(t[segs[i].base - n := Tile(n, true)], LoweredSegs(segs, i, n), top)
  {
    hide OnPage, Granular;
    LowerPlaced(t, segs, top, i, n, top);
  }

  lemma LowerNew(t: Tiles, segs: seq<Seg>, top: int, i: nat, n: nat)
    requires MayLower(t, segs, top, i, n)
    ensures var x := segs[i].base - n; var t', segs' := t[x := Tile(n, true)], LoweredSegs(segs, i, n);
      Placed(t', segs', top, x) && FreeOk(t', top, x) && TopOk(t', segs', top)
  {
    hide OnPage, Granular, Segments, SegsApart, Tail, Clear, Placed;
    var x := segs[i].base - n;
    var t', segs' := t[x := Tile(n, true)], LoweredSegs(segs, i, n);
    LowerFirst(t, segs, top, i, n);
    LowerTop(t, segs, top, i, n);
    PlacedIn(t', segs', top, x, i);
  }

  lemma LowerClear(t: Tiles, segs: seq<Seg>, top: int, i: nat, n: nat, a: int, b: int)
    requires MayLower(t, segs, top, i, n)
    requires var t' := t[segs[i].base - n := Tile(n, true)]; a in t' && b in t' && a < b
    ensures Clear(t[segs[i].base - n := Tile(n, true)], a, b)
  {
    var x := segs[i].base - n;
    if a == x {
      LowerPlaced(t, segs, top, i, n, b);
    } else if b == x {
      LowerPlaced(t, segs, top, i, n, a);
    } else {
      assert Clear(t, a, b);
    }
  }

  lemma LowerApart(t: Tiles, segs: seq<Seg>, top: int, i: nat, n: nat, j: nat, k: nat)
    requires MayLower(t, segs, top, i, n) && j < k < |segs|
    ensures SegsApart(LoweredSegs(segs, i, n), j, k)
  {
    assert SegsApart(segs, j, k) && SegOk(t, segs, j) && SegOk(t, segs, k);
    var x := segs[i].base - n;
    assert Disjoint(x, n, segs[j].base, segs[j].size) && Disjoint(x, n, segs[k].base, segs[k].size);
  }

  // ---------------------------------------------------------------- a segment goes

  ghost function WithoutSeg(segs: seq<Seg>, k: nat): seq<Seg>
    requires k < |segs|
  {
    segs[..k] + segs[k + 1..]
  }

  lemma WithoutAt(segs: seq<Seg>, k: nat, j: nat)
    requires k < |segs| && j < |segs| - 1
    ensures WithoutSeg(segs, k)[j] == segs[if j < k then j else j + 1]
  {}

  lemma DropPlaced(t: Tiles, segs: seq<Seg>, top: int, k: nat, a: int)
    requires Geometry(t, segs, top) && 0 < k < |segs| && a in t && !(segs[k].base <= a < segs[k].base + segs[k].size)
    ensures var t' := Drop(t, segs[k].base, segs[k].base + segs[k].size);
      Placed(t', WithoutSeg(segs, k), top, a) && FreeOk(t', top, a) && (Next(t, a) in t' <==> Next(t, a) in t)
  {
    var t' := Drop(t, segs[k].base, segs[k].base + segs[k].size);
    var i := SegOf(t, segs, top, a);
    assert FreeOk(t, top, a);
    assert i < k ==> SegsApart(segs, i, k);
    assert k < i ==> SegsApart(segs, k, i);
    var j := if i < k then i else i - 1;
    WithoutAt(segs, k, j);
    assert InSeg(t', WithoutSeg(segs, k), top, a, j);
  }

  lemma DropSegOk(t: Tiles, segs: seq<Seg>, top: int, k: nat, i: nat)
    requires Geometry(t, segs, top) && 0 < k < |segs| && i < |segs| && i != k
    ensures SegOk(Drop(t, segs[k].base, segs[k].base + segs[k].size), segs, i)
  {
    assert SegOk(t, segs, i) && SegOk(t, segs, k);
    assert i < k ==> SegsApart(segs, i, k);
    assert k < i ==> SegsApart(segs, k, i);
  }

  lemma DropGeometry(t: Tiles, segs: seq<Seg>, top: int, k: nat)
    requires Geometry(t, segs, top) && 0 < k < |segs|
    ensures Geometry(Drop(t, segs[k].base, segs[k].base + segs[k].size), WithoutSeg(segs, k), top)
  {
    var t', segs' := Drop(t, segs[k].base, segs[k].base + segs[k].size), WithoutSeg(segs, k);
    forall a | a in t'
      ensures Placed(t', segs', top, a) && FreeOk(t', top, a)
    {
      DropPlaced(t, segs, top, k, a);
    }
    forall a, b | a in t' && b in t' && a < b
      ensures Clear(t', a, b)
    {
      assert Clear(t, a, b);
    }
    forall j: nat | j < |segs'|
      ensures SegOk(t', segs', j)
    {
      WithoutAt(segs, k, j);
      DropSegOk(t, segs, top, k, if j < k then j else j + 1);
    }
    forall i: nat, j: nat | i < j < |segs'|
      ensures SegsApart(segs', i, j)
    {
      WithoutAt(segs, k, i);
      WithoutAt(segs, k, j);
      assert SegsApart(segs, if i < k then i else i + 1, if j < k then j else j + 1);
    }
    WithoutAt(segs, k, 0);
    assert SegOk(t, segs, 0) && SegsApart(segs, 0, k);
  }

  lemma DropSegment(m: Mem, t: Tiles, segs: seq<Seg>, top: int, k: nat)
    requires Physical(m, t, segs, top) && 0 < k < |segs|
    ensures Physical(m, Drop(t, segs[k].base, segs[k].base + segs[k].size), WithoutSeg(segs, k), top)
  {
    var t', segs' := Drop(t, segs[k].base, segs[k].base + segs[k].size), WithoutSeg(segs, k);
    DropGeometry(t, segs, top, k);
    forall a | a in t'
      ensures Tagged(m, t', a)
    {
      DropPlaced(t, segs, top, k, a);
      assert Tagged(m, t, a);
    }
    forall s | s in segs'
      ensures s.base in m.head && m.head[s.base].pinuse
    {
      assert s in segs;
    }
  }

  /** A segment whose first chunk is free and reaches its record holds nothing else: the
      record and the fenceposts are the only other tiles. */
  lemma WholeSegment(t: Tiles, segs: seq<Seg>, top: int, k: nat, a: int)
    requires Geometry(t, segs, top) && 0 < k < |segs| && segs[k].base in t && !t[segs[k].base].used
    requires Next(t, segs[k].base) >= segs[k].base + segs[k].size - TOP_FOOT_SIZE
    requires a in t && segs[k].base <= a < segs[k].base + segs[k].size
    ensures a == segs[k].base || a == segs[k].rec || t[a] == FENCEPOST
  {
    assert SegOk(t, segs, k);
    var p := segs[k].base;
    assert p < segs[k].rec ==> Clear(t, p, segs[k].rec);
    assert p < a ==> Clear(t, p, a);
  }

  // ---------------------------------------------------------------- a new segment

  /** The fenceposts from `lo` up to `hi`. */
  ghost function Fences(lo: int, hi: int): Tiles { map a | lo <= a < hi && a % 8 == 0 :: FENCEPOST }

  /** Where the record of the old first segment goes: behind what is left of the old top,
      or over it when less than a chunk is left. */
  function RecordAt(top: int, topsize: nat): int { if topsize < MIN_CHUNK_SIZE then top else top + topsize }

  ghost function AddedTiles(t: Tiles, segs: seq<Seg>, top: int, tbase: int, tsize: nat): Tiles
    requires segs != [] && top in t && tsize >= TOP_FOOT_SIZE
  {
    var csp := RecordAt(top, t[top].size);
    (t[csp := Tile(32, true)] + Fences(csp + 32, segs[0].base + segs[0].size - 8))[tbase := Tile(tsize - TOP_FOOT_SIZE, false)]
  }

  ghost function AddedSegs(segs: seq<Seg>, csp: int, tbase: int, tsize: nat): seq<Seg>
    requires segs != []
  {
    [Seg(tbase, tsize, 0), Seg(segs[0].base, segs[0].size, csp)] + segs[1..]
  }

  ghost predicate MayAdd(t: Tiles, segs: seq<Seg>, top: int, tbase: int, tsize: nat) {
    && Geometry(t, segs, top) && tbase > 0 && OnPage(tbase) && tsize >= GRANULARITY && Granular(tsize)
    && tbase + tsize <= ADDRESS_LIMIT
    && forall j | 0 <= j < |segs| :: Disjoint(tbase, tsize, segs[j].base, segs[j].size)
  }

  /** The tile at `a` stays when a segment is added. */
  ghost predicate AddKept(t: Tiles, top: int, a: int) { a in t && (a != top || (top in t && t[top].size >= MIN_CHUNK_SIZE)) }

  /** Where the old tiles lie relative to the new ones. */
  lemma AddOld(t: Tiles, segs: seq<Seg>, top: int, tbase: int, tsize: nat, a: int) returns (i: nat)
    requires MayAdd(t, segs, top, tbase, tsize) && a in t
    ensures i < |segs| && InSeg(t, segs, top, a, i) && Disjoint(tbase, tsize, a, t[a].size) && (a < tbase || a >= tbase + tsize)
    ensures a < top ==> Next(t, a) <= top
    ensures a > top ==> a >= segs[0].base + segs[0].size
    ensures i == 0 ==> a <= top
    ensures i > 0 ==> Disjoint(segs[0].base, segs[0].size, a, t[a].size)
    ensures a != top ==> Next(t, a) in t || t[a] == FENCEPOST
    ensures FreeOk(t, top, a)
  {
    i := SegOf(t, segs, top, a);
    assert FreeOk(t, top, a);
    assert SegOk(t, segs, 0) && SegOk(t, segs, i);
    if i == 0 { TopLast(t, segs, top, a); } else { assert SegsApart(segs, 0, i); }
    assert a < top ==> Clear(t, a, top);
  }

  lemma AddTop(t: Tiles, segs: seq<Seg>, top: int, tbase: int, tsize: nat)
    requires MayAdd(t, segs, top, tbase, tsize)
    ensures segs != [] && top in t && top % 8 == 0 && 0 < t[top].size && t[top].size % 8 == 0 && Next(t, top) == End(segs, 0) && Next(t, top) !in t
    ensures segs[0].base % 8 == 0 && segs[0].size % 8 == 0 && segs[0].base <= top && tbase % 8 == 0 && tsize % 8 == 0 && tsize >= TOP_FOOT_SIZE
  {
    var i := SegOf(t, segs, top, top);
    TopStretch(t, segs, top, i, top);
    assert SegOk(t, segs, 0);
    PageAligned(segs[0].base);
    GranularAligned(segs[0].size);
    PageAligned(tbase);
    GranularAligned(tsize);
  }

  lemma AddPlaced(t: Tiles, segs: seq<Seg>, top: int, tbase: int, tsize: nat, a: int)
    requires MayAdd(t, segs, top, tbase, tsize) && AddKept(t, top, a)
    ensures var t' := AddedTiles(t, segs, top, tbase, tsize);
      a in t' && t'[a] == t[a] && FreeOk(t', tbase, a)
      && Placed(t', AddedSegs(segs, RecordAt(top, t[top].size), tbase, tsize), tbase, a)
  {
    var csp := RecordAt(top, t[top].size);
    var t', segs' := AddedTiles(t, segs, top, tbase, tsize), AddedSegs(segs, csp, tbase, tsize);
    AddTop(t, segs, top, tbase, tsize);
    var i := AddOld(t, segs, top, tbase, tsize, a);
    if Next(t, a) in t { var j := AddOld(t, segs, top, tbase, tsize, Next(t, a)); }
    assert segs'[i + 1].base == segs[i].base && segs'[i + 1].size == segs[i].size;
    assert InSeg(t', segs', tbase, a, i + 1);
  }

  lemma AddNewTop(t: Tiles, segs: seq<Seg>, top: int, tbase: int, tsize: nat)
    requires MayAdd(t, segs, top, tbase, tsize)
    ensures var t' := AddedTiles(t, segs, top, tbase, tsize);
      Next(t', tbase) !in t' && FreeOk(t', tbase, tbase) && tbase !in t
      && InSeg(t', AddedSegs(segs, RecordAt(top, t[top].size), tbase, tsize), tbase, tbase, 0)
  {
    hide MayAdd, AddedTiles;
    AddTop(t, segs, top, tbase, tsize);
    Minus8(tsize, TOP_FOOT_SIZE);
    BehindNewTop(t, segs, top, tbase, tsize);
  }

  lemma BehindNewTop(t: Tiles, segs: seq<Seg>, top: int, tbase: int, tsize: nat)
    requires MayAdd(t, segs, top, tbase, tsize)
    ensures var t' := AddedTiles(t, segs, top, tbase, tsize);
      tbase !in t && tbase in t' && t'[tbase] == Tile(tsize - TOP_FOOT_SIZE, false) && tbase + tsize - TOP_FOOT_SIZE !in t'
    ensures tsize > TOP_FOOT_SIZE
  {
    hide OnPage, Granular, Segments, Placed, FreeOk, Clear, InSeg;
    var y := tbase + tsize - TOP_FOOT_SIZE;
    AddTop(t, segs, top, tbase, tsize);
    assert Disjoint(tbase, tsize, segs[0].base, segs[0].size);
    if y in t { var j := AddOld(t, segs, top, tbase, tsize, y); }
    if tbase in t { var j := AddOld(t, segs, top, tbase, tsize, tbase); }
  }

  lemma AddNewTail(t: Tiles, segs: seq<Seg>, top: int, tbase: int, tsize: nat, a: int)
    requires MayAdd(t, segs, top, tbase, tsize) && a != tbase
    requires a in AddedTiles(t, segs, top, tbase, tsize) && !AddKept(t, top, a)
    ensures var t' := AddedTiles(t, segs, top, tbase, tsize);
      t'[a].used && InSeg(t', AddedSegs(segs, RecordAt(top, t[top].size), tbase, tsize), tbase, a, 1)
  {
    hide MayAdd, AddedTiles;
    AddTop(t, segs, top, tbase, tsize);
    var csp, hi := RecordAt(top, t[top].size), segs[0].base + segs[0].size;
    Sum8(top, t[top].size);
    Sum8(segs[0].base, segs[0].size);
    AddTailTile(t, segs, top, tbase, tsize, a);
    if a == csp {
      Sum8(csp, 32);
      FenceIn(t, segs, top, tbase, tsize, csp + 32);
    } else {
      NextFence(a, hi - 8);
      if a + 8 < hi - 8 { FenceIn(t, segs, top, tbase, tsize, a + 8); }
    }
  }

  lemma Sum8(a: int, b: int)
    requires a % 8 == 0 && b % 8 == 0
    ensures (a + b) % 8 == 0
  {
    assert a + b == 8 * (a / 8 + b / 8);
  }

  lemma Minus8(a: int, b: int)
    requires a % 8 == 0 && b % 8 == 0
    ensures (a - b) % 8 == 0
  {
    assert a - b == 8 * (a / 8 - b / 8);
  }

  lemma FenceIn(t: Tiles, segs: seq<Seg>, top: int, tbase: int, tsize: nat, x: int)
    requires segs != [] && top in t && tsize >= TOP_FOOT_SIZE
    requires RecordAt(top, t[top].size) + 32 <= x < segs[0].base + segs[0].size - 8 && x % 8 == 0
    ensures x in AddedTiles(t, segs, top, tbase, tsize)
  {}

  /** What is at `a` if it is not a tile of before. */
  lemma AddTailTile(t: Tiles, segs: seq<Seg>, top: int, tbase: int, tsize: nat, a: int)
    requires segs != [] && top in t && tsize >= TOP_FOOT_SIZE && a != tbase
    requires a in AddedTiles(t, segs, top, tbase, tsize) && !AddKept(t, top, a)
    ensures var t', csp := AddedTiles(t, segs, top, tbase, tsize), RecordAt(top, t[top].size);
      if a == csp then t'[a] == Tile(32, true)
      else csp + 32 <= a < segs[0].base + segs[0].size - 8 && a % 8 == 0 && t'[a] == FENCEPOST
  {}

  lemma NextFence(a: int, hi: int)
    requires a % 8 == 0 && hi % 8 == 0 && a < hi
    ensures a + 8 <= hi && (a + 8) % 8 == 0
  {
    assert a == 8 * (a / 8) && hi == 8 * (hi / 8);
  }

  lemma AddClear(t: Tiles, segs: seq<Seg>, top: int, tbase: int, tsize: nat, a: int, b: int)
    requires MayAdd(t, segs, top, tbase, tsize)
    requires var t' := AddedTiles(t, segs, top, tbase, tsize); a in t' && b in t' && a < b
    ensures Clear(AddedTiles(t, segs, top, tbase, tsize), a, b)
  {
    hide OnPage, Granular, InSeg, Segments, AddedTiles;
    if a == tbase || b == tbase {
      AddClearTop(t, segs, top, tbase, tsize, a, b);
    } else if AddKept(t, top, a) {
      AddClearKept(t, segs, top, tbase, tsize, a, b);
    } else {
      AddClearTail(t, segs, top, tbase, tsize, a, b);
    }
  }

  lemma AddClearTop(t: Tiles, segs: seq<Seg>, top: int, tbase: int, tsize: nat, a: int, b: int)
    requires MayAdd(t, segs, top, tbase, tsize) && (a == tbase || b == tbase)
    requires var t' := AddedTiles(t, segs, top, tbase, tsize); a in t' && b in t' && a < b
    ensures Clear(AddedTiles(t, segs, top, tbase, tsize), a, b)
  {
    hide OnPage, Granular, InSeg, Segments;
    AddTop(t, segs, top, tbase, tsize);
    assert Disjoint(tbase, tsize, segs[0].base, segs[0].size);
    var c := if a == tbase then b else a;
    if c in t { var i := AddOld(t, segs, top, tbase, tsize, c); }
  }

  lemma AddClearKept(t: Tiles, segs: seq<Seg>, top: int, tbase: int, tsize: nat, a: int, b: int)
    requires MayAdd(t, segs, top, tbase, tsize) && a != tbase && b != tbase && AddKept(t, top, a)
    requires var t' := AddedTiles(t, segs, top, tbase, tsize); a in t' && b in t' && a < b
    ensures Clear(AddedTiles(t, segs, top, tbase, tsize), a, b)
  {
    hide OnPage, Granular, InSeg, Segments;
    AddTop(t, segs, top, tbase, tsize);
    assert b in t ==> Clear(t, a, b);
    var i := AddOld(t, segs, top, tbase, tsize, a);
  }

  lemma AddClearTail(t: Tiles, segs: seq<Seg>, top: int, tbase: int, tsize: nat, a: int, b: int)
    requires MayAdd(t, segs, top, tbase, tsize) && a != tbase && b != tbase && !AddKept(t, top, a)
    requires var t' := AddedTiles(t, segs, top, tbase, tsize); a in t' && b in t' && a < b
    ensures Clear(AddedTiles(t, segs, top, tbase, tsize), a, b)
  {
    hide OnPage, Granular, InSeg, Segments;
    AddTop(t, segs, top, tbase, tsize);
    if b in t { var j := AddOld(t, segs, top, tbase, tsize, b); }
  }

  lemma AddSegOk(t: Tiles, segs: seq<Seg>, top: int, tbase: int, tsize: nat, j: nat)
    requires MayAdd(t, segs, top, tbase, tsize) && j < |segs| + 1
    ensures SegOk(AddedTiles(t, segs, top, tbase, tsize), AddedSegs(segs, RecordAt(top, t[top].size), tbase, tsize), j)
  {
    var csp := RecordAt(top, t[top].size);
    var t', segs' := AddedTiles(t, segs, top, tbase, tsize), AddedSegs(segs, csp, tbase, tsize);
    AddTop(t, segs, top, tbase, tsize);
    if j > 0 {
      assert SegOk(t, segs, j - 1) && SegOk(t, segs, 0);
      assert segs'[j].base == segs[j - 1].base && segs'[j].size == segs[j - 1].size;
      assert j > 1 ==> segs'[j] == segs[j - 1] && SegsApart(segs, 0, j - 1);
      assert Disjoint(tbase, tsize, segs[j - 1].base, segs[j - 1].size) && Disjoint(tbase, tsize, segs[0].base, segs[0].size);
      if j == 1 {
        forall a | a in t' && csp < a < segs'[1].base + segs'[1].size
          ensures t'[a] == FENCEPOST
        {
          if a in t { var i := AddOld(t, segs, top, tbase, tsize, a); }
        }
      }
    }
  }

  lemma AddGeometry(t: Tiles, segs: seq<Seg>, top: int, tbase: int, tsize: nat)
    requires MayAdd(t, segs, top, tbase, tsize)
    ensures Geometry(AddedTiles(t, segs, top, tbase, tsize), AddedSegs(segs, RecordAt(top, t[top].size), tbase, tsize), tbase)
  {
    hide Placed, FreeOk, Clear, SegOk, SegsApart, Fences;
    var t', segs' := AddedTiles(t, segs, top, tbase, tsize), AddedSegs(segs, RecordAt(top, t[top].size), tbase, tsize);
    forall a | a in t'
      ensures Placed(t', segs', tbase, a) && FreeOk(t', tbase, a)
    {
      AddTileOk(t, segs, top, tbase, tsize, a);
    }
    forall a, b | a in t' && b in t' && a < b
      ensures Clear(t', a, b)
    {
      AddClear(t, segs, top, tbase, tsize, a, b);
    }
    forall j: nat | j < |segs'|
      ensures SegOk(t', segs', j)
    {
      AddSegOk(t, segs, top, tbase, tsize, j);
    }
    forall i: nat, j: nat | i < j < |segs'|
      ensures SegsApart(segs', i, j)
    {
      AddApart(t, segs, top, tbase, tsize, i, j);
    }
  }

  lemma AddTileOk(t: Tiles, segs: seq<Seg>, top: int, tbase: int, tsize: nat, a: int)
    requires MayAdd(t, segs, top, tbase, tsize) && a in AddedTiles(t, segs, top, tbase, tsize)
    ensures var t' := AddedTiles(t, segs, top, tbase, tsize);
      Placed(t', AddedSegs(segs, RecordAt(top, t[top].size), tbase, tsize), tbase, a) && FreeOk(t', tbase, a)
  {
    hide AddedTiles, InSeg;
    if a == tbase {
      AddNewTop(t, segs, top, tbase, tsize);
    } else if AddKept(t, top, a) {
      AddPlaced(t, segs, top, tbase, tsize, a);
    } else {
      AddNewTail(t, segs, top, tbase, tsize, a);
    }
  }

  lemma AddApart(t: Tiles, segs: seq<Seg>, top: int, tbase: int, tsize: nat, i: nat, j: nat)
    requires MayAdd(t, segs, top, tbase, tsize) && i < j < |segs| + 1
    ensures SegsApart(AddedSegs(segs, RecordAt(top, t[top].size), tbase, tsize), i, j)
  {
    hide AddedTiles;
    assert i > 0 ==> SegsApart(segs, i - 1, j - 1);
    assert Disjoint(tbase, tsize, segs[j - 1].base, segs[j - 1].size);
  }

  /** The heads and the footer add_segment writes. */
  ghost predicate AddWrites(m: Mem, m': Mem, t: Tiles, segs: seq<Seg>, top: int, tbase: int, tsize: nat)
    requires segs != [] && top in t && tsize >= TOP_FOOT_SIZE
  {
    var csp := RecordAt(top, t[top].size);
    && (forall a <- t :: a != top && a in m.head ==> a in m'.head && m'.head[a] == m.head[a])
    && (forall a <- t :: a in m.foot ==> a in m'.foot && m'.foot[a] == m.foot[a])
    && tbase in m'.head && m'.head[tbase] == Head(tsize - TOP_FOOT_SIZE, true, false)
    && csp in m'.head && m'.head[csp] == Head(32, csp == top, true)
    && (forall a <- Fences(csp + 32, segs[0].base + segs[0].size - 8) :: a in m'.head && m'.head[a] == Head(8, true, true))
    && (csp != top ==> top in m'.head && m'.head[top] == Head(t[top].size, true, false) && csp in m'.foot && m'.foot[csp] == t[top].size)
  }

  lemma AddTaggedNew(m: Mem, m': Mem, t: Tiles, segs: seq<Seg>, top: int, tbase: int, tsize: nat, a: int)
    requires Physical(m, t, segs, top) && MayAdd(t, segs, top, tbase, tsize) && AddWrites(m, m', t, segs, top, tbase, tsize)
    requires a in AddedTiles(t, segs, top, tbase, tsize) && !AddKept(t, top, a)
    ensures Tagged(m', AddedTiles(t, segs, top, tbase, tsize), a)
  {
    hide OnPage, Granular;
    AddTop(t, segs, top, tbase, tsize);
    assert Disjoint(tbase, tsize, segs[0].base, segs[0].size);
    if a == tbase {
      AddNewTop(t, segs, top, tbase, tsize);
    } else {
      TailNotOld(t, segs, top, tbase, tsize, a);
    }
  }

  /** What the new tiles behind the old top are followed by. */
  lemma TailNotOld(t: Tiles, segs: seq<Seg>, top: int, tbase: int, tsize: nat, a: int)
    requires MayAdd(t, segs, top, tbase, tsize) && a != tbase
    requires a in AddedTiles(t, segs, top, tbase, tsize) && !AddKept(t, top, a)
    ensures var t' := AddedTiles(t, segs, top, tbase, tsize); var csp := RecordAt(top, t[top].size); var f := Fences(csp + 32, segs[0].base + segs[0].size - 8);
      (a == csp || a in f) && (Next(t', a) in t' ==> Next(t', a) in f && Next(t', a) != tbase)
  {
    hide OnPage, Granular;
    var t' := AddedTiles(t, segs, top, tbase, tsize);
    AddTop(t, segs, top, tbase, tsize);
    assert Disjoint(tbase, tsize, segs[0].base, segs[0].size);
    if Next(t', a) in t { var j := AddOld(t, segs, top, tbase, tsize, Next(t', a)); }
  }

  lemma AddTaggedOld(m: Mem, m': Mem, t: Tiles, segs: seq<Seg>, top: int, tbase: int, tsize: nat, a: int)
    requires Physical(m, t, segs, top) && MayAdd(t, segs, top, tbase, tsize) && AddWrites(m, m', t, segs, top, tbase, tsize)
    requires AddKept(t, top, a)
    ensures a in AddedTiles(t, segs, top, tbase, tsize) && Tagged(m', AddedTiles(t, segs, top, tbase, tsize), a)
  {
    AddTop(t, segs, top, tbase, tsize);
    AddPlaced(t, segs, top, tbase, tsize, a);
    assert Tagged(m, t, a);
    var i := AddOld(t, segs, top, tbase, tsize, a);
    if a != top && Next(t, a) !in t {
      FenceLast(t, segs, top, tbase, tsize, a);
    } else if a != top {
      var j := AddOld(t, segs, top, tbase, tsize, Next(t, a));
      if Next(t, a) == top { var k := FreeNeighbours(m, t, segs, top, top); }
    }
  }

  /** Behind the last fencepost of an old segment there is still no tile. */
  lemma FenceLast(t: Tiles, segs: seq<Seg>, top: int, tbase: int, tsize: nat, a: int)
    requires MayAdd(t, segs, top, tbase, tsize) && a in t && a != top && Next(t, a) !in t
    ensures Next(t, a) !in AddedTiles(t, segs, top, tbase, tsize)
  {
    AddTop(t, segs, top, tbase, tsize);
    var i := AddOld(t, segs, top, tbase, tsize, a);
    assert SegOk(t, segs, i) && i > 0 && SegsApart(segs, 0, i);
    assert Disjoint(tbase, tsize, segs[i].base, segs[i].size);
  }

  lemma AddSegment(m: Mem, m': Mem, t: Tiles, segs: seq<Seg>, top: int, tbase: int, tsize: nat)
    requires Physical(m, t, segs, top) && MayAdd(t, segs, top, tbase, tsize) && AddWrites(m, m', t, segs, top, tbase, tsize)
    ensures Physical(m', AddedTiles(t, segs, top, tbase, tsize), AddedSegs(segs, RecordAt(top, t[top].size), tbase, tsize), tbase)
  {
    var csp := RecordAt(top, t[top].size);
    var t', segs' := AddedTiles(t, segs, top, tbase, tsize), AddedSegs(segs, csp, tbase, tsize);
    AddGeometry(t, segs, top, tbase, tsize);
    forall a | a in t'
      ensures Tagged(m', t', a)
    {
      if a in t && (a != top || csp != top) {
        AddTaggedOld(m, m', t, segs, top, tbase, tsize, a);
      } else {
        AddTaggedNew(m, m', t, segs, top, tbase, tsize, a);
      }
    }
    forall s | s in segs'
      ensures s.base in m'.head && m'.head[s.base].pinuse
    {
      var j: nat :| j < |segs'| && segs'[j] == s;
      if j > 0 {
        assert SegOk(t, segs, j - 1) && segs[j - 1] in segs;
        assert s.base == segs[j - 1].base;
      }
    }
  }
}
