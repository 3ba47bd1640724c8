/** What malloc_state knows about the tiles: top, the designated victim, and which free
    chunks are in bins. */
module AllocBooks {
  import opened AllocTiles
  import opened AllocMoves
  import opened AllocSegments

  /** `content` are the words that clients have stored in their blocks, by address. */
  datatype Book = Book(m: Mem, t: Tiles, segs: seq<Seg>, top: int, topsize: nat, dv: int, dvsize: nat, content: map<int, nat>)

  ghost function FreeTiles(t: Tiles): set<int> { set a | a in t && !t[a].used }

  ghost function Recs(segs: seq<Seg>): set<int> { set j | 0 < j < |segs| :: segs[j].rec }

  /** The chunks that are in use for a client: neither segment records nor fenceposts. */
  ghost function Live(t: Tiles, segs: seq<Seg>): set<int> {
    set a | a in t && t[a].used && t[a] != FENCEPOST && a !in Recs(segs)
  }

  ghost predicate UsedOk(t: Tiles) {
    forall a <- t :: t[a].used && t[a] != FENCEPOST ==> t[a].size >= MIN_CHUNK_SIZE
  }

  /** Every free chunk is top, the designated victim, in a bin, or on its way (`held`). */
  ghost predicate Accounted(b: Book, bins: set<int>, held: set<int>) {
    && bins == FreeTiles(b.t) - held - {b.top, b.dv} && held <= FreeTiles(b.t) && b.top !in held
    && (b.dv == 0 <==> b.dvsize == 0)
    && (b.dv != 0 ==> b.dv in b.t && !b.t[b.dv].used && b.dv != b.top && b.dv !in held && b.t[b.dv].size == b.dvsize)
  }

  ghost predicate Good(b: Book, bins: set<int>, held: set<int>) {
    && Physical(b.m, b.t, b.segs, b.top) && b.topsize == b.t[b.top].size && UsedOk(b.t)
    && Accounted(b, bins, held)
  }

  /** The sizes of the binned chunks are still the same. */
  ghost predicate SameSizes(m: Mem, m': Mem, bins: set<int>) {
    forall a <- bins :: a in m.head && a in m'.head && m'.head[a].size == m.head[a].size
  }

  /** Memory has changed at chunks only. */
  ghost predicate Kept(m: Mem, m': Mem, t: Tiles, t': Tiles) {
    && (forall a :: a !in t && a !in t' && a in m.head ==> a in m'.head && m'.head[a] == m.head[a])
    && (forall a :: a !in t && a !in t' && a in m.foot ==> a in m'.foot && m'.foot[a] == m.foot[a])
  }

  /** Memory still tells the sizes of the chunks whose tiles have not changed. */
  lemma Sizes(b: Book, b': Book, bins: set<int>, held: set<int>, held': set<int>)
    requires Good(b, bins, held) && Good(b', bins, held')
    requires forall a <- bins :: a in b.t && a in b'.t && b'.t[a] == b.t[a]
    ensures SameSizes(b.m, b'.m, bins)
  {
    forall a | a in bins
      ensures a in b.m.head && a in b'.m.head && b'.m.head[a].size == b.m.head[a].size
    {
      assert Tagged(b.m, b.t, a) && Tagged(b'.m, b'.t, a);
    }
  }

  lemma Positive(b: Book, bins: set<int>, held: set<int>, a: int)
    requires Good(b, bins, held) && a in b.t
    ensures a > 0 && a % 8 == 0 && a in b.m.head && b.m.head[a].size == b.t[a].size
    ensures 0 < b.t[a].size < ADDRESS_LIMIT && b.t[a].size % 8 == 0
  {
    var i := SegOf(b.t, b.segs, b.top, a);
    assert Tagged(b.m, b.t, a);
  }

  lemma LiveClient(b: Book, bins: set<int>, held: set<int>, p: int)
    requires Good(b, bins, held) && p in Live(b.t, b.segs)
    ensures Client(b.t, b.segs, p)
  {
    forall j | 0 < j < |b.segs|
      ensures b.segs[j].rec != p
    {
      assert b.segs[j].rec in Recs(b.segs);
    }
  }

  lemma RecIn(t: Tiles, segs: seq<Seg>, z: int)
    requires Segments(t, segs) && z in Recs(segs)
    ensures z in t && t[z] == Tile(32, true)
  {
    var j: nat :| 0 < j < |segs| && segs[j].rec == z;
    assert SegOk(t, segs, j);
  }

  lemma FreeNotRec(b: Book, bins: set<int>, held: set<int>, p: int)
    requires Good(b, bins, held) && p in b.t && !b.t[p].used
    ensures p !in Recs(b.segs)
  {
    if p in Recs(b.segs) { RecIn(b.t, b.segs, p); }
  }

  // ---------------------------------------------------------------- the designated victim

  lemma HoldDv(b: Book, bins: set<int>, held: set<int>)
    requires Good(b, bins, held) && b.dv != 0
    ensures Good(b.(dv := 0, dvsize := 0), bins, held + {b.dv})
  {
    if 0 in b.t { Positive(b, bins, held, 0); }
  }

  lemma SetDv(b: Book, bins: set<int>, r: int)
    requires Good(b, bins, {r}) && b.dv == 0
    ensures Good(b.(dv := r, dvsize := b.t[r].size), bins, {})
  {
    Positive(b, bins, {r}, r);
    if 0 in b.t { Positive(b, bins, {r}, 0); }
  }

  // ---------------------------------------------------------------- taking

  function TookWhole(b: Book, p: int): Book
    requires p in b.t
  {
    var s := b.t[p].size;
    b.(m := SetInuseAndPinuse(b.m, p, s), t := b.t[p := Tile(s, true)])
  }

  lemma TakeWhole(b: Book, bins: set<int>, p: int)
    requires Good(b, bins, {p})
    ensures var b' := TookWhole(b, p);
      Good(b', bins, {}) && Live(b'.t, b.segs) == Live(b.t, b.segs) + {p}
      && SameSizes(b.m, b'.m, bins) && Kept(b.m, b'.m, b.t, b'.t)
  {
    var b' := TookWhole(b, p);
    UseWhole(b.m, b.t, b.segs, b.top, p);
    var i := FreeNeighbours(b.m, b.t, b.segs, b.top, p);
    FreeNotRec(b, bins, {p}, p);
    Sizes(b, b', bins, {p}, {});
  }

  function TookFront(b: Book, p: int, nb: nat): Book
    requires p in b.t && nb <= b.t[p].size
  {
    var r := b.t[p].size - nb;
    b.(m := SetSizeAndPinuseOfFree(SetSizeAndPinuseOfInuse(b.m, p, nb), p + nb, r),
       t := b.t[p := Tile(nb, true)][p + nb := Tile(r, false)])
  }

  /** Nothing starts inside a chunk. */
  lemma Inside(b: Book, bins: set<int>, held: set<int>, p: int, z: int)
    requires Good(b, bins, held) && p in b.t && p < z < Next(b.t, p)
    ensures z !in b.t && z !in Recs(b.segs) && z !in bins
  {
    assert z in b.t ==> Clear(b.t, p, z);
    if z in Recs(b.segs) { RecIn(b.t, b.segs, z); }
  }

  lemma TakeFront(b: Book, bins: set<int>, p: int, nb: nat)
    requires Good(b, bins, {p}) && nb >= MIN_CHUNK_SIZE && nb % 8 == 0 && b.t[p].size >= nb + MIN_CHUNK_SIZE
    ensures var b' := TookFront(b, p, nb);
      Good(b', bins, {p + nb}) && Live(b'.t, b.segs) == Live(b.t, b.segs) + {p}
      && SameSizes(b.m, b'.m, bins) && Kept(b.m, b'.m, b.t, b'.t)
  {
    hide Tags, SameSizes, Recs;
    var b' := TookFront(b, p, nb);
    UseFront(b.m, b.t, b.segs, b.top, p, nb);
    var i := FreeNeighbours(b.m, b.t, b.segs, b.top, p);
    Inside(b, bins, {p}, p, p + nb);
    FreeNotRec(b, bins, {p}, p);
    Sizes(b, b', bins, {p}, {p + nb});
  }

  function TookTop(b: Book, nb: nat): Book
    requires b.top in b.t && nb <= b.t[b.top].size
  {
    var r := b.t[b.top].size - nb;
    b.(m := SetSizeAndPinuseOfInuse(SetHead(b.m, b.top + nb, Head(r, true, false)), b.top, nb),
       t := b.t[b.top := Tile(nb, true)][b.top + nb := Tile(r, false)], top := b.top + nb, topsize := r)
  }

  lemma TakeTop(b: Book, bins: set<int>, nb: nat)
    requires Good(b, bins, {}) && nb >= MIN_CHUNK_SIZE && nb % 8 == 0 && nb < b.topsize
    ensures var b' := TookTop(b, nb);
      Good(b', bins, {}) && Live(b'.t, b.segs) == Live(b.t, b.segs) + {b.top}
      && SameSizes(b.m, b'.m, bins) && Kept(b.m, b'.m, b.t, b'.t)
  {
    var b' := TookTop(b, nb);
    UseTop(b.m, b.t, b.segs, b.top, nb);
    Inside(b, bins, {}, b.top, b.top + nb);
    FreeNotRec(b, bins, {}, b.top);
    Sizes(b, b', bins, {}, {});
  }

  // ---------------------------------------------------------------- giving back

  ghost function GaveBack(b: Book, x: int, p: int): Book
    requires p in b.t && Next(b.t, p) in b.t && x <= p
  {
    var n := Next(b.t, p);
    var y := if b.t[n].used then n else Next(b.t, n);
    var b' := b.(m := MergedMem(b.m, x, y, n, b.t[n].used, b.top), t := MergedTiles(b.t, x, p));
    if n == b.top then b'.(top := x, topsize := y - x) else b'
  }

  lemma GiveBack(b: Book, bins: set<int>, held: set<int>, x: int, p: int, y: int)
    requires Good(b, bins, held) && Merging(b.m, b.t, b.segs, b.top, x, p, y) && x <= p && p in Live(b.t, b.segs)
    requires var n := Next(b.t, p);
      held == (if x == p then {} else {x}) + (if b.t[n].used || n == b.top then {} else {n})
    ensures var b' := GaveBack(b, x, p);
      Good(b', bins, if Next(b.t, p) == b.top then {} else {x}) && Live(b'.t, b.segs) == Live(b.t, b.segs) - {p}
      && SameSizes(b.m, b'.m, bins) && Kept(b.m, b'.m, b.t, b'.t)
  {
    hide Tags, SameSizes, Kept, MergedMem;
    var n := Next(b.t, p);
    var b', held' := GaveBack(b, x, p), if n == b.top then {} else {x};
    FreeMerge(b.m, b.t, b.segs, b.top, x, p, y);
    GiveBackKept(b, x, p, y);
    if x != p { FreeNotRec(b, bins, held, x); }
    if !b.t[n].used { FreeNotRec(b, bins, held, n); }
    Sizes(b, b', bins, held, held');
  }

  lemma GiveBackKept(b: Book, x: int, p: int, y: int)
    requires Merging(b.m, b.t, b.segs, b.top, x, p, y) && x <= p
    ensures var b' := GaveBack(b, x, p); Kept(b.m, b'.m, b.t, b'.t)
  {
    var i := MergeStretch(b.m, b.t, b.segs, b.top, x, p, y);
  }

  // ---------------------------------------------------------------- lj_alloc_realloc in place

  function Shrunk(b: Book, p: int, nb: nat): Book
    requires p in b.t && nb <= b.t[p].size
  {
    var r := b.t[p].size - nb;
    b.(m := SetInuse(SetInuse(b.m, p, nb), p + nb, r), t := b.t[p := Tile(nb, true)][p + nb := Tile(r, true)])
  }

  lemma Shrink(b: Book, bins: set<int>, p: int, nb: nat)
    requires Good(b, bins, {}) && p in Live(b.t, b.segs) && nb >= MIN_CHUNK_SIZE && nb % 8 == 0 && b.t[p].size >= nb + MIN_CHUNK_SIZE
    ensures var b' := Shrunk(b, p, nb);
      Good(b', bins, {}) && Live(b'.t, b.segs) == Live(b.t, b.segs) + {p + nb}
      && SameSizes(b.m, b'.m, bins) && Kept(b.m, b'.m, b.t, b'.t) && p + nb !in b.t
  {
    hide Tags, SameSizes, Kept, Recs;
    var b' := Shrunk(b, p, nb);
    LiveClient(b, bins, {}, p);
    var i := ClientNext(b.m, b.t, b.segs, b.top, p);
    SplitInuse(b.m, b.t, b.segs, b.top, p, nb);
    Inside(b, bins, {}, p, p + nb);
    Sizes(b, b', bins, {}, {});
    ShrunkKept(b, p, nb);
  }

  lemma ShrunkKept(b: Book, p: int, nb: nat)
    requires p in b.t && nb <= b.t[p].size && Next(b.t, p) in b.t
    ensures var b' := Shrunk(b, p, nb); Kept(b.m, b'.m, b.t, b'.t)
  {}

  function Expanded(b: Book, p: int, nb: nat): Book
    requires p in b.t && b.top in b.t && nb <= b.t[p].size + b.t[b.top].size
  {
    var r := b.t[p].size + b.t[b.top].size - nb;
    b.(m := SetHead(SetInuse(b.m, p, nb), p + nb, Head(r, true, false)),
       t := (b.t - {b.top})[p := Tile(nb, true)][p + nb := Tile(r, false)], top := p + nb, topsize := r)
  }

  lemma Expand(b: Book, bins: set<int>, p: int, nb: nat)
    requires Good(b, bins, {}) && p in Live(b.t, b.segs) && nb >= MIN_CHUNK_SIZE && nb % 8 == 0
    requires Next(b.t, p) == b.top && nb < b.t[p].size + b.topsize
    ensures var b' := Expanded(b, p, nb);
      Good(b', bins, {}) && Live(b'.t, b.segs) == Live(b.t, b.segs)
      && SameSizes(b.m, b'.m, bins) && Kept(b.m, b'.m, b.t, b'.t)
  {
    hide Client;
    var b' := Expanded(b, p, nb);
    LiveClient(b, bins, {}, p);
    TakeFromTop(b.m, b.t, b.segs, b.top, p, nb);
    FreeNotRec(b, bins, {}, b.top);
    var z := p + nb;
    if z < b.top { Inside(b, bins, {}, p, z); }
    if b.top < z { Inside(b, bins, {}, b.top, z); }
    Sizes(b, b', bins, {}, {});
  }

  // ---------------------------------------------------------------- the system

  ghost function Resized(b: Book, n: nat, s: nat): Book
    requires b.segs != []
  {
    b.(m := InitTop(b.m, b.top, s), t := b.t[b.top := Tile(s, false)], segs := ResizedSegs(b.segs, n), topsize := s)
  }

  lemma Resize(b: Book, bins: set<int>, n: nat, s: nat)
    requires Good(b, bins, {}) && MayResize(b.t, b.segs, b.top, n, s)
    ensures var b' := Resized(b, n, s);
      Good(b', bins, {}) && Live(b'.t, b'.segs) == Live(b.t, b.segs) && SameSizes(b.m, b'.m, bins)
  {
    var b' := Resized(b, n, s);
    ResizeTop(b.m, b.t, b.segs, b.top, n, s);
    assert Recs(b'.segs) == Recs(b.segs) by {
      assert forall j | 0 < j < |b.segs| :: b'.segs[j].rec == b.segs[j].rec;
      forall r | r in Recs(b.segs)
        ensures r in Recs(b'.segs)
      {
        var j :| 0 < j < |b.segs| && b.segs[j].rec == r;
        assert b'.segs[j].rec == r;
      }
    }
    Sizes(b, b', bins, {}, {});
  }

  ghost function Added(b: Book, m': Mem, tbase: int, tsize: nat): Book
    requires b.segs != [] && b.top in b.t && tsize >= TOP_FOOT_SIZE
  {
    b.(m := m', t := AddedTiles(b.t, b.segs, b.top, tbase, tsize),
       segs := AddedSegs(b.segs, RecordAt(b.top, b.t[b.top].size), tbase, tsize), top := tbase, topsize := tsize - TOP_FOOT_SIZE)
  }

  lemma AddRecs(segs: seq<Seg>, csp: int, tbase: int, tsize: nat)
    requires segs != []
    ensures Recs(AddedSegs(segs, csp, tbase, tsize)) == Recs(segs) + {csp}
  {
    var segs' := AddedSegs(segs, csp, tbase, tsize);
    assert segs'[1].rec == csp;
    forall r | r in Recs(segs)
      ensures r in Recs(segs')
    {
      var j :| 0 < j < |segs| && segs[j].rec == r;
      assert segs'[j + 1].rec == r;
    }
  }

  lemma Add(b: Book, bins: set<int>, m': Mem, tbase: int, tsize: nat)
    requires Good(b, bins, {}) && MayAdd(b.t, b.segs, b.top, tbase, tsize) && AddWrites(b.m, m', b.t, b.segs, b.top, tbase, tsize)
    ensures var b' := Added(b, m', tbase, tsize);
      Good(b', bins, if b.topsize < MIN_CHUNK_SIZE then {} else {b.top})
      && Live(b'.t, b'.segs) == Live(b.t, b.segs) && SameSizes(b.m, b'.m, bins)
  {
    hide AddWrites, Tags, Segments, Fences;
    var b', held' := Added(b, m', tbase, tsize), if b.topsize < MIN_CHUNK_SIZE then {} else {b.top};
    AddSegment(b.m, m', b.t, b.segs, b.top, tbase, tsize);
    AddLive(b, bins, m', tbase, tsize);
    AddOldTiles(b, bins, m', tbase, tsize);
    AddTop(b.t, b.segs, b.top, tbase, tsize);
    AddFree(b, bins, m', tbase, tsize);
    Sizes(b, b', bins, {}, held');
  }

  lemma AddFree(b: Book, bins: set<int>, m': Mem, tbase: int, tsize: nat)
    requires Good(b, bins, {}) && MayAdd(b.t, b.segs, b.top, tbase, tsize)
    ensures FreeTiles(Added(b, m', tbase, tsize).t) == FreeTiles(b.t) - {b.top} + (if b.topsize < MIN_CHUNK_SIZE then {} else {b.top}) + {tbase}
  {
    hide Tags, Segments, Fences, Accounted;
    var t' := Added(b, m', tbase, tsize).t;
    AddOldTiles(b, bins, m', tbase, tsize);
    hide AddedTiles;
    forall a
      ensures a in FreeTiles(t') <==> (a in FreeTiles(b.t) && (a != b.top || b.topsize >= MIN_CHUNK_SIZE)) || a == tbase
    {}
  }

  lemma AddLive(b: Book, bins: set<int>, m': Mem, tbase: int, tsize: nat)
    requires Good(b, bins, {}) && MayAdd(b.t, b.segs, b.top, tbase, tsize)
    ensures var b' := Added(b, m', tbase, tsize); Live(b'.t, b'.segs) == Live(b.t, b.segs) && UsedOk(b'.t)
  {
    var b', csp := Added(b, m', tbase, tsize), RecordAt(b.top, b.t[b.top].size);
    AddRecs(b.segs, csp, tbase, tsize);
    AddTop(b.t, b.segs, b.top, tbase, tsize);
    AddOldTiles(b, bins, m', tbase, tsize);
  }

  /** Which of the new tiles are free, and which are in use. */
  lemma AddOldTiles(b: Book, bins: set<int>, m': Mem, tbase: int, tsize: nat)
    requires Good(b, bins, {}) && MayAdd(b.t, b.segs, b.top, tbase, tsize)
    ensures var t' := Added(b, m', tbase, tsize).t; var csp := RecordAt(b.top, b.topsize);
      (forall a <- b.t :: a != b.top || csp != b.top ==> a in t' && t'[a] == b.t[a])
      && (forall a <- t' :: (a in b.t && (a != b.top || csp != b.top)) || (a == tbase && !t'[a].used) || (a == csp && t'[a] == Tile(32, true)) || t'[a] == FENCEPOST)
      && tbase in t' && tbase !in b.t && !t'[tbase].used && t'[tbase].size == tsize - TOP_FOOT_SIZE && csp in t' && t'[csp].used
  {
    var t' := Added(b, m', tbase, tsize).t;
    AddTop(b.t, b.segs, b.top, tbase, tsize);
    AddNewTop(b.t, b.segs, b.top, tbase, tsize);
    assert Disjoint(tbase, tsize, b.segs[0].base, b.segs[0].size);
    forall a | a in b.t && (a != b.top || RecordAt(b.top, b.topsize) != b.top)
      ensures a in t' && t'[a] == b.t[a]
    {
      AddPlaced(b.t, b.segs, b.top, tbase, tsize, a);
    }
  }

  ghost function Dropped(b: Book, k: nat): Book
    requires k < |b.segs|
  {
    b.(t := Drop(b.t, b.segs[k].base, b.segs[k].base + b.segs[k].size), segs := WithoutSeg(b.segs, k))
  }

  /** Unmapping a segment whose first chunk is free and reaches its record loses nothing. */
  lemma Forget(b: Book, bins: set<int>, k: nat)
    requires 0 < k < |b.segs| && Good(b, bins, {b.segs[k].base})
    requires Next(b.t, b.segs[k].base) >= b.segs[k].base + b.segs[k].size - TOP_FOOT_SIZE
    ensures var b' := Dropped(b, k); Good(b', bins, {}) && Live(b'.t, b'.segs) == Live(b.t, b.segs)
  {
    var b', p := Dropped(b, k), b.segs[k].base;
    DropSegment(b.m, b.t, b.segs, b.top, k);
    forall a | a in b.t && a !in b'.t
      ensures a == p || (b.t[a].used && a !in Live(b.t, b.segs))
    {
      WholeSegment(b.t, b.segs, b.top, k, a);
      if a in Recs(b.segs) { RecIn(b.t, b.segs, a); }
      if a == b.segs[k].rec { assert a in Recs(b.segs); }
    }
    assert SegOk(b.t, b.segs, k);
    assert FreeTiles(b'.t) == FreeTiles(b.t) - {p};
    ForgetRecs(b, bins, k);
    DvOutside(b, bins, k);
  }

  lemma ForgetRecs(b: Book, bins: set<int>, k: nat)
    requires 0 < k < |b.segs| && Good(b, bins, {b.segs[k].base})
    ensures var b' := Dropped(b, k); forall r <- b'.t :: r in Recs(b'.segs) <==> r in Recs(b.segs)
  {
    var b' := Dropped(b, k);
    assert SegOk(b.t, b.segs, k);
    forall r | r in Recs(b.segs) && r in b'.t
      ensures r in Recs(b'.segs)
    {
      var j :| 0 < j < |b.segs| && b.segs[j].rec == r;
      var j' := if j < k then j else j - 1;
      if j != k {
        WithoutAt(b.segs, k, j');
        assert b'.segs[j'].rec == r;
      }
    }
    forall r | r in Recs(b'.segs)
      ensures r in Recs(b.segs)
    {
      var j :| 0 < j < |b'.segs| && b'.segs[j].rec == r;
      WithoutAt(b.segs, k, j);
      assert b.segs[if j < k then j else j + 1].rec == r;
    }
  }

  lemma DvOutside(b: Book, bins: set<int>, k: nat)
    requires 0 < k < |b.segs| && Good(b, bins, {b.segs[k].base})
    requires Next(b.t, b.segs[k].base) >= b.segs[k].base + b.segs[k].size - TOP_FOOT_SIZE
    ensures b.dv != 0 ==> b.dv in Dropped(b, k).t
    ensures b.top in Dropped(b, k).t
  {
    assert SegOk(b.t, b.segs, k);
    var p := b.segs[k].base;
    if b.dv != 0 && p <= b.dv < p + b.segs[k].size {
      WholeSegment(b.t, b.segs, b.top, k, b.dv);
    }
    if p <= b.top < p + b.segs[k].size {
      WholeSegment(b.t, b.segs, b.top, k, b.top);
    }
  }

  // ---------------------------------------------------------------- prepend_alloc

  ghost function Lowered(b: Book, i: nat, n: nat): Book
    requires i < |b.segs|
  {
    var x := b.segs[i].base - n;
    b.(m := SetHead(b.m, x, Head(n, true, true)), t := b.t[x := Tile(n, true)], segs := LoweredSegs(b.segs, i, n))
  }

  lemma Lower(b: Book, bins: set<int>, held: set<int>, i: nat, n: nat)
    requires Good(b, bins, held) && MayLower(b.t, b.segs, b.top, i, n)
    ensures var b', x := Lowered(b, i, n), b.segs[i].base - n;
      Good(b', bins, held) && Live(b'.t, b'.segs) == Live(b.t, b.segs) + {x} && x !in b.t
      && Next(b'.t, x) == b.segs[i].base && b.segs[i].base in b.t
  {
    var b', x := Lowered(b, i, n), b.segs[i].base - n;
    LowerBase(b.m, b.t, b.segs, b.top, i, n);
    LowerPlaced(b.t, b.segs, b.top, i, n, b.top);
    assert SegOk(b.t, b.segs, i);
    LowerRecs(b.segs, i, n);
    if x in Recs(b.segs) { RecIn(b.t, b.segs, x); }
  }

  lemma LowerRecs(segs: seq<Seg>, i: nat, n: nat)
    requires i < |segs|
    ensures Recs(LoweredSegs(segs, i, n)) == Recs(segs)
  {
    var segs' := LoweredSegs(segs, i, n);
    assert forall j | 0 < j < |segs| :: segs'[j].rec == segs[j].rec;
    forall r | r in Recs(segs)
      ensures r in Recs(segs')
    {
      var j :| 0 < j < |segs| && segs[j].rec == r;
      assert segs'[j].rec == r;
    }
  }

  function Carved(b: Book, p: int, nb: nat): Book
    requires p in b.t && nb <= b.t[p].size
  {
    var r := b.t[p].size - nb;
    b.(m := SetFreeWithPinuse(SetSizeAndPinuseOfInuse(b.m, p, nb), p + nb, r, p + b.t[p].size),
       t := b.t[p := Tile(nb, true)][p + nb := Tile(r, false)])
  }

  lemma Carve(b: Book, bins: set<int>, p: int, nb: nat)
    requires Good(b, bins, {}) && p in Live(b.t, b.segs) && p in b.m.head && b.m.head[p].pinuse && Next(b.t, p) in b.t && b.t[Next(b.t, p)].used
    requires nb >= MIN_CHUNK_SIZE && nb % 8 == 0 && nb + MIN_CHUNK_SIZE <= b.t[p].size
    ensures var b' := Carved(b, p, nb);
      Good(b', bins, {p + nb}) && Live(b'.t, b.segs) == Live(b.t, b.segs)
      && SameSizes(b.m, b'.m, bins) && Kept(b.m, b'.m, b.t, b'.t)
  {
    var b' := Carved(b, p, nb);
    LiveClient(b, bins, {}, p);
    GiveTail(b.m, b.t, b.segs, b.top, p, nb);
    Inside(b, bins, {}, p, p + nb);
    Sizes(b, b', bins, {}, {p + nb});
  }

  function CarvedMerged(b: Book, p: int, nb: nat): Book
    requires p in b.t && p + b.t[p].size in b.t && nb <= b.t[p].size
  {
    var n := p + b.t[p].size;
    var r := b.t[p].size + b.t[n].size - nb;
    b.(m := SetSizeAndPinuseOfFree(SetSizeAndPinuseOfInuse(b.m, p, nb), p + nb, r),
       t := (b.t - {n})[p := Tile(nb, true)][p + nb := Tile(r, false)])
  }

  lemma CarveMerged(b: Book, bins: set<int>, p: int, nb: nat)
    requires p in b.t && Next(b.t, p) in b.t && Good(b, bins, {Next(b.t, p)}) && p in Live(b.t, b.segs) && p in b.m.head && b.m.head[p].pinuse
    requires nb >= MIN_CHUNK_SIZE && nb % 8 == 0 && nb + MIN_CHUNK_SIZE <= b.t[p].size
    ensures var b' := CarvedMerged(b, p, nb);
      Good(b', bins, {p + nb}) && Live(b'.t, b.segs) == Live(b.t, b.segs)
      && SameSizes(b.m, b'.m, bins) && Kept(b.m, b'.m, b.t, b'.t)
  {
    hide Client, Tags, SameSizes;
    var b', n := CarvedMerged(b, p, nb), Next(b.t, p);
    LiveClient(b, bins, {n}, p);
    GiveTailMerged(b.m, b.t, b.segs, b.top, p, nb);
    FreeNotRec(b, bins, {n}, n);
    var i := FreeNeighbours(b.m, b.t, b.segs, b.top, n);
    Inside(b, bins, {n}, p, p + nb);
    Sizes(b, b', bins, {n}, {p + nb});
  }

  /** prepend_alloc as one step: `nb` bytes of the `n` fresh ones are handed out at `x`. */
  ghost predicate Prepended(b: Book, b': Book, bins: set<int>, held: set<int>, i: nat, n: nat, nb: nat)
    requires i < |b.segs|
  {
    var x := b.segs[i].base - n;
    && Good(b', bins, held) && b'.segs == LoweredSegs(b.segs, i, n) && Live(b'.t, b'.segs) == Live(b.t, b.segs) + {x}
    && x !in b.t && x in b'.t && b'.t[x].size == nb && (forall a <- Live(b.t, b.segs) :: a in b'.t && b'.t[a] == b.t[a])
    && SameSizes(b.m, b'.m, bins) && Kept(b.m, b'.m, b.t, b'.t)
  }

  ghost predicate PrependSizes(n: nat, nb: nat) { nb >= MIN_CHUNK_SIZE && nb % 8 == 0 && nb + MIN_CHUNK_SIZE <= n }

  /** What does not depend on the tags: the two steps, Lowered and the division of the fresh
      bytes, taken together. */
  lemma PrependTwo(b: Book, b1: Book, b': Book, bins: set<int>, held': set<int>, i: nat, n: nat, nb: nat)
    requires i < |b.segs| && b1 == Lowered(b, i, n) && Good(b', bins, held') && b'.segs == b1.segs
    requires Live(b1.t, b1.segs) == Live(b.t, b.segs) + {b.segs[i].base - n} && b.segs[i].base - n !in b.t
    requires Live(b'.t, b1.segs) == Live(b1.t, b1.segs) && SameSizes(b.m, b1.m, bins)
    requires SameSizes(b1.m, b'.m, bins) && Kept(b1.m, b'.m, b1.t, b'.t)
    requires var x := b.segs[i].base - n; x in b'.t && b'.t[x].size == nb && forall a <- Live(b.t, b.segs) :: a in b'.t && b'.t[a] == b.t[a]
    ensures Prepended(b, b', bins, held', i, n, nb)
  {
    hide Geometry, Tags;
    var x := b.segs[i].base - n;
    KeptTwo(b.m, b1.m, b'.m, b.t, b1.t, b'.t, x, Head(n, true, true));
  }

  lemma KeptTwo(m: Mem, m1: Mem, m': Mem, t: Tiles, t1: Tiles, t': Tiles, x: int, h: Head)
    requires m1 == SetHead(m, x, h) && t1.Keys == t.Keys + {x} && x in t' && Kept(m1, m', t1, t')
    ensures Kept(m, m', t, t')
  {
    forall a | a !in t && a !in t'
      ensures a in m.head ==> a in m'.head && m'.head[a] == m.head[a]
      ensures a in m.foot ==> a in m'.foot && m'.foot[a] == m.foot[a]
    {
      assert a !in t1;
      assert a in m.head ==> a in m1.head;
      assert a in m.foot ==> a in m1.foot;
    }
  }

  /** The lowered segment, with all that the next step needs. */
  lemma LowerFacts(b: Book, bins: set<int>, held: set<int>, i: nat, n: nat)
    requires Good(b, bins, held) && MayLower(b.t, b.segs, b.top, i, n)
    ensures var b1, x := Lowered(b, i, n), b.segs[i].base - n;
      Good(b1, bins, held) && Live(b1.t, b1.segs) == Live(b.t, b.segs) + {x} && x !in b.t && SameSizes(b.m, b1.m, bins)
      && x in Live(b1.t, b1.segs) && x in b1.m.head && b1.m.head[x].pinuse && x in b1.t && b1.t[x] == Tile(n, true)
      && b.segs[i].base == Next(b1.t, x) && b.segs[i].base in b1.t && b1.t[b.segs[i].base] == b.t[b.segs[i].base]
      && forall a <- Live(b.t, b.segs) :: a in b.t && a != x && b1.t[a] == b.t[a]
  {
    Lower(b, bins, held, i, n);
    Sizes(b, Lowered(b, i, n), bins, held, held);
  }

  lemma PrependTop(b: Book, bins: set<int>, i: nat, n: nat, nb: nat)
    requires Good(b, bins, {}) && MayLower(b.t, b.segs, b.top, i, n) && PrependSizes(n, nb) && b.segs[i].base == b.top
    ensures Prepended(b, Expanded(Lowered(b, i, n), b.segs[i].base - n, nb), bins, {}, i, n, nb)
  {
    hide Good;
    var b1, x := Lowered(b, i, n), b.segs[i].base - n;
    LowerFacts(b, bins, {}, i, n);
    Expand(b1, bins, x, nb);
    PrependTwo(b, b1, Expanded(b1, x, nb), bins, {}, i, n, nb);
  }

  lemma PrependUsed(b: Book, bins: set<int>, i: nat, n: nat, nb: nat)
    requires Good(b, bins, {}) && MayLower(b.t, b.segs, b.top, i, n) && PrependSizes(n, nb)
    requires b.segs[i].base in b.t && b.t[b.segs[i].base].used
    ensures var x := b.segs[i].base - n; Prepended(b, Carved(Lowered(b, i, n), x, nb), bins, {x + nb}, i, n, nb)
  {
    hide Good, Recs, Accounted, Lowered;
    var b1, x := Lowered(b, i, n), b.segs[i].base - n;
    LowerFacts(b, bins, {}, i, n);
    Carve(b1, bins, x, nb);
    PrependTwo(b, b1, Carved(b1, x, nb), bins, {x + nb}, i, n, nb);
  }

  /** The first chunk of the segment is free, and on hold: it was the designated victim or
      has been unlinked. */
  lemma PrependHeld(b: Book, bins: set<int>, i: nat, n: nat, nb: nat)
    requires i < |b.segs| && Good(b, bins, {b.segs[i].base}) && MayLower(b.t, b.segs, b.top, i, n) && PrependSizes(n, nb)
    ensures var x := b.segs[i].base - n;
      Prepended(b, CarvedMerged(Lowered(b, i, n), x, nb), bins, {x + nb}, i, n, nb)
  {
    hide Good, Prepended, Geometry, SameSizes, Recs;
    var b1, x, p := Lowered(b, i, n), b.segs[i].base - n, b.segs[i].base;
    LowerFacts(b, bins, {p}, i, n);
    CarveMerged(b1, bins, x, nb);
    PrependTwo(b, b1, CarvedMerged(b1, x, nb), bins, {x + nb}, i, n, nb);
  }
}
