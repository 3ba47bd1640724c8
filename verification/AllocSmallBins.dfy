/** The smallbins of lj_alloc.c: one doubly linked ring for each chunk size below 256,
    closed by a header inside the malloc_state. A bin that is emptied only loses its bit
    in the map: the links of its header are left stale. */
module AllocSmallBins {
  import opened AllocTrie
  import BitWords
  import BinMaps

  const NSMALLBINS := 32

  function SmallIndex(s: nat): nat { s / 8 }

  /** smallbin_at: the address of the header of bin `i`. */
  function Header(i: nat): int { -1 - i }

  type Link = map<int, int>

  ghost function RingOf(i: nat, list: seq<int>): seq<int> { [Header(i)] + list }

  ghost predicate NodeAt(fd: Link, bk: Link, r: seq<int>, j: nat)
    requires j < |r|
  {
    && r[j] in fd && fd[r[j]] == r[if j + 1 == |r| then 0 else j + 1]
    && r[j] in bk && bk[r[j]] == r[if j == 0 then |r| - 1 else j - 1]
  }

  ghost predicate Ring(fd: Link, bk: Link, r: seq<int>) {
    forall j: nat {:trigger NodeAt(fd, bk, r, j)} | j < |r| :: NodeAt(fd, bk, r, j)
  }

  /** One bin: marked exactly when it holds chunks, all of its one size, linked in a ring. */
  ghost predicate BinOk(fd: Link, bk: Link, marks: set<nat>, list: seq<int>, sz: Sizes, i: nat) {
    && (i in marks <==> list != [])
    && NoDuplicates(list) && (forall a <- list :: a > 0 && a in sz && sz[a] == 8 * i)
    && (list != [] ==> Ring(fd, bk, RingOf(i, list)))
  }

  ghost predicate BinsOk(fd: Link, bk: Link, marks: set<nat>, lists: seq<seq<int>>, sz: Sizes) {
    forall i: nat {:trigger BinOk(fd, bk, marks, lists[i], sz, i)} | i < |lists| :: BinOk(fd, bk, marks, lists[i], sz, i)
  }

  lemma RingDistinct(i: nat, list: seq<int>)
    requires NoDuplicates(list) && forall a <- list :: a > 0
    ensures NoDuplicates(RingOf(i, list))
  {
    var r := RingOf(i, list);
    forall m, n | 0 <= m < n < |r|
      ensures r[m] != r[n]
    {
      assert r[n] == list[n - 1] && list[n - 1] in list;
    }
  }

  function Without(list: seq<int>, j: nat): seq<int>
    requires j < |list|
  {
    list[..j] + list[j + 1..]
  }

  lemma WithoutElements(list: seq<int>, j: nat)
    requires j < |list| && NoDuplicates(list)
    ensures NoDuplicates(Without(list, j))
    ensures forall a :: a in Without(list, j) <==> a in list && a != list[j]
  {
    forall a | a in list && a != list[j]
      ensures a in Without(list, j)
    {
      var m :| 0 <= m < |list| && list[m] == a;
      assert Without(list, j)[if m < j then m else m - 1] == a;
    }
  }

  /** insert_small_chunk on the ring of its own bin. */
  lemma InsertRing(fd: Link, bk: Link, list: seq<int>, i: nat, p: int, f: int)
    requires NoDuplicates(list) && (forall a <- list :: a > 0) && p > 0 && p !in list
    requires list != [] ==> Ring(fd, bk, RingOf(i, list))
    requires f == if list == [] then Header(i) else list[0]
    ensures var b := Header(i); Ring(fd[b := p][p := f], bk[f := p][p := b], RingOf(i, [p] + list))
  {
    var b, r, r' := Header(i), RingOf(i, list), RingOf(i, [p] + list);
    var fd', bk' := fd[b := p][p := f], bk[f := p][p := b];
    RingDistinct(i, list);
    forall j: nat | j < |r'|
      ensures NodeAt(fd', bk', r', j)
    {
      if j >= 2 {
        assert NodeAt(fd, bk, r, j - 1) && r'[j] == r[j - 1];
        assert r'[j] in list;
      } else if list != [] {
        assert NodeAt(fd, bk, r, 0);
      }
    }
  }

  lemma InsertBin(fd: Link, bk: Link, marks: set<nat>, list: seq<int>, sz: Sizes, i: nat, p: int, f: int)
    requires BinOk(fd, bk, marks, list, sz, i) && p > 0 && p !in list && p in sz && sz[p] == 8 * i
    requires f == if list == [] then Header(i) else list[0]
    ensures var b := Header(i); BinOk(fd[b := p][p := f], bk[f := p][p := b], marks + {i}, [p] + list, sz, i)
    ensures i in marks ==> marks + {i} == marks
    ensures var b := Header(i); forall a :: InBin(a, i, sz) || Same(fd, bk, fd[b := p][p := f], bk[f := p][p := b], a)
  {
    InsertRing(fd, bk, list, i, p, f);
    assert list != [] ==> list[0] in list;
  }

  /** unlink_small_chunk, when the chunk is not alone. */
  lemma UnlinkRing(fd: Link, bk: Link, list: seq<int>, i: nat, j: nat)
    requires NoDuplicates(list) && (forall a <- list :: a > 0) && j < |list| && |list| > 1
    requires Ring(fd, bk, RingOf(i, list))
    ensures list[j] in fd && list[j] in bk
    ensures var p := list[j]; var f, b := fd[p], bk[p];
      f != b && Ring(fd[b := f], bk[f := b], RingOf(i, Without(list, j)))
  {
    var r, r' := RingOf(i, list), RingOf(i, Without(list, j));
    var p := list[j];
    RingDistinct(i, list);
    assert NodeAt(fd, bk, r, j + 1);
    var f, b := fd[p], bk[p];
    var fd', bk' := fd[b := f], bk[f := b];
    forall m: nat | m < |r'|
      ensures NodeAt(fd', bk', r', m)
    {
      UnlinkNode(fd, bk, list, i, j, m);
    }
  }

  lemma UnlinkNode(fd: Link, bk: Link, list: seq<int>, i: nat, j: nat, m: nat)
    requires NoDuplicates(list) && (forall a <- list :: a > 0) && j < |list| && |list| > 1 && m < |list|
    requires Ring(fd, bk, RingOf(i, list)) && list[j] in fd && list[j] in bk
    ensures var f, b := fd[list[j]], bk[list[j]]; NodeAt(fd[b := f], bk[f := b], RingOf(i, Without(list, j)), m)
  {
    var r, r' := RingOf(i, list), RingOf(i, Without(list, j));
    var at := if m <= j then m else m + 1;
    RingDistinct(i, list);
    assert r[j + 1] == list[j] && r'[m] == r[at];
    assert r'[if m + 1 == |r'| then 0 else m + 1] == r[if m == j then (if j + 2 == |r| then 0 else j + 2) else if at + 1 == |r| then 0 else at + 1];
    assert r'[if m == 0 then |r'| - 1 else m - 1] == r[if m == 0 then (if j + 2 == |r| then |r| - 2 else |r| - 1) else if m == j + 1 then j else at - 1];
    assert NodeAt(fd, bk, r, at) && NodeAt(fd, bk, r, j + 1);
  }

  lemma AloneRing(fd: Link, bk: Link, list: seq<int>, i: nat)
    requires |list| == 1 && Ring(fd, bk, RingOf(i, list))
    ensures var p := list[0]; p in fd && p in bk && fd[p] == bk[p] == Header(i)
  {
    assert NodeAt(fd, bk, RingOf(i, list), 1);
  }

  ghost predicate Same(fd: Link, bk: Link, fd': Link, bk': Link, a: int) {
    (a in fd ==> a in fd' && fd'[a] == fd[a]) && (a in bk ==> a in bk' && bk'[a] == bk[a])
  }

  ghost predicate InBin(a: int, i: nat, sz: Sizes) {
    a == Header(i) || (a in sz && sz[a] == 8 * i && a > 0)
  }

  /** Writes to other chunks and headers leave a ring alone. */
  lemma OtherRing(fd: Link, bk: Link, fd': Link, bk': Link, r: seq<int>)
    requires Ring(fd, bk, r)
    requires forall a <- r :: Same(fd, bk, fd', bk', a)
    ensures Ring(fd', bk', r)
  {
    forall j: nat | j < |r|
      ensures NodeAt(fd', bk', r, j)
    {
      assert NodeAt(fd, bk, r, j) && Same(fd, bk, fd', bk', r[j]);
    }
  }

  ghost function AllOf(lists: seq<seq<int>>): set<int> {
    set i, a | 0 <= i < |lists| && a in lists[i] :: a
  }

  class SmallBins {
    var fd: Link
    var bk: Link
    var smallmap: bv32
    ghost var lists: seq<seq<int>>

    /** The bins that smallmap marks. */
    ghost function Marks(): set<nat>
      reads `smallmap
    {
      BinMaps.Bins(smallmap)
    }

    ghost predicate Valid(sz: Sizes)
      reads this
    {
      && |lists| == NSMALLBINS && (forall i <- Marks() :: i < NSMALLBINS)
      && BinsOk(fd, bk, Marks(), lists, sz)
    }

    ghost function Chunks(): set<int>
      reads this
    {
      AllOf(lists)
    }

    /** init_bins */
    constructor ()
      ensures Chunks() == {} && forall sz :: Valid(sz)
    {
      fd := map i | 0 <= i < NSMALLBINS :: Header(i) := Header(i);
      bk := map i | 0 <= i < NSMALLBINS :: Header(i) := Header(i);
      smallmap := 0;
      lists := seq(NSMALLBINS, _ => []);
      BinMaps.EmptySpec(0);
    }

    /** Bins other than `i` keep their rings when only chunks and the header of bin `i`
        are written. */
    lemma OtherBin(fd': Link, bk': Link, marks: set<nat>, sz: Sizes, i: nat, m: nat)
      requires Valid(sz) && i < NSMALLBINS && m < NSMALLBINS && m != i && (m in marks <==> m in Marks())
      requires forall a :: InBin(a, i, sz) || Same(fd, bk, fd', bk', a)
      ensures BinOk(fd', bk', marks, lists[m], sz, m)
    {
      assert BinOk(fd, bk, Marks(), lists[m], sz, m);
      if lists[m] != [] {
        forall a | a in RingOf(m, lists[m])
          ensures Same(fd, bk, fd', bk', a)
        {
          if a != Header(m) { assert a in lists[m]; }
        }
        OtherRing(fd, bk, fd', bk', RingOf(m, lists[m]));
      }
    }

    /** One bin has changed; the others have not. */
    lemma Update(fd': Link, bk': Link, marks: set<nat>, list': seq<int>, sz: Sizes, i: nat)
      requires Valid(sz) && i < NSMALLBINS && BinOk(fd', bk', marks, list', sz, i)
      requires forall m :: m != i ==> (m in marks <==> m in Marks())
      requires forall a :: InBin(a, i, sz) || Same(fd, bk, fd', bk', a)
      ensures BinsOk(fd', bk', marks, lists[i := list'], sz)
      ensures forall m <- marks :: m < NSMALLBINS
    {
      var lists' := lists[i := list'];
      forall m: nat | m < NSMALLBINS
        ensures BinOk(fd', bk', marks, lists'[m], sz, m)
      {
        if m != i { OtherBin(fd', bk', marks, sz, i, m); }
      }
    }

    lemma UpdateChunks(list': seq<int>, sz: Sizes, i: nat, removed: set<int>, added: set<int>)
      requires Valid(sz) && i < NSMALLBINS
      requires forall a :: a in list' <==> (a in lists[i] && a !in removed) || a in added
      requires forall a <- removed :: a in lists[i]
      ensures AllOf(lists[i := list']) == Chunks() - removed + added
    {
      var lists' := lists[i := list'];
      assert BinOk(fd, bk, Marks(), lists[i], sz, i);
      forall a | a in Chunks() - removed + added
        ensures a in AllOf(lists')
      {
        if a in added || a in lists[i] {
          assert a in lists'[i];
        } else {
          var m :| 0 <= m < |lists| && a in lists[m];
          assert a in lists'[m];
        }
      }
      forall a | a in AllOf(lists')
        ensures a in Chunks() - removed + added
      {
        var m :| 0 <= m < |lists'| && a in lists'[m];
        assert BinOk(fd, bk, Marks(), lists[m], sz, m);
      }
    }

    method Insert(p: int, s: nat, ghost sz: Sizes)
      requires Valid(sz) && p > 0 && p !in Chunks() && p in sz && sz[p] == s && s % 8 == 0 && s < 256
      modifies this
      ensures Valid(sz) && Chunks() == old(Chunks()) + {p}
    {
      var i := SmallIndex(s);
      var b := Header(i);
      var f := b;
      var marks := smallmap;
      BinMaps.MarkSpec(smallmap, i);
      assert BinOk(fd, bk, Marks(), lists[i], sz, i);
      if !BinMaps.Marked(smallmap, i) {
        marks := BitWords.Mark(marks, BinMaps.Idx2Bit(i));
      } else {
        assert NodeAt(fd, bk, RingOf(i, lists[i]), 0);
        f := fd[b];
      }
      ghost var fd', bk', list' := fd[b := p][p := f], bk[f := p][p := b], [p] + lists[i];
      InsertBin(fd, bk, Marks(), lists[i], sz, i, p, f);
      Update(fd', bk', BinMaps.Bins(marks), list', sz, i);
      UpdateChunks(list', sz, i, {}, {p});
      smallmap := marks;
      fd := fd[b := p];
      bk := bk[f := p];
      fd := fd[p := f];
      bk := bk[p := b];
      lists := lists[i := list'];
    }

    /** unlink_small_chunk */
    method Unlink(p: int, s: nat, ghost sz: Sizes)
      requires Valid(sz) && p in Chunks() && p in sz && sz[p] == s
      modifies this
      ensures Valid(sz) && Chunks() == old(Chunks()) - {p}
    {
      ghost var m :| 0 <= m < |lists| && p in lists[m];
      assert BinOk(fd, bk, Marks(), lists[m], sz, m);
      ghost var j: nat :| j < |lists[m]| && lists[m][j] == p;
      var i := SmallIndex(s);
      ghost var list := lists[i];
      assert NodeAt(fd, bk, RingOf(i, list), j + 1);
      var f, b := fd[p], bk[p];
      if |list| > 1 { UnlinkRing(fd, bk, list, i, j); } else { AloneRing(fd, bk, list, i); }
      WithoutElements(list, j);
      UpdateChunks(Without(list, j), sz, i, {p}, {});
      if f == b {
        BinMaps.MarkSpec(smallmap, i);
        Update(fd, bk, Marks() - {i}, Without(list, j), sz, i);
        smallmap := BitWords.Clear(smallmap, BinMaps.Idx2Bit(i));
      } else {
        NeighboursInBin(i, j, sz);
        Update(fd[b := f], bk[f := b], Marks(), Without(list, j), sz, i);
        bk := bk[f := b];
        fd := fd[b := f];
      }
      lists := lists[i := Without(list, j)];
    }

    lemma NeighboursInBin(i: nat, j: nat, sz: Sizes)
      requires Valid(sz) && i < NSMALLBINS && j < |lists[i]|
      ensures var p := lists[i][j]; p in fd && p in bk && InBin(fd[p], i, sz) && InBin(bk[p], i, sz)
    {
      var r := RingOf(i, lists[i]);
      assert BinOk(fd, bk, Marks(), lists[i], sz, i);
      assert NodeAt(fd, bk, r, j + 1);
      forall m | 0 <= m < |r|
        ensures InBin(r[m], i, sz)
      {
        if m > 0 { assert r[m] in lists[i]; }
      }
    }

    /** The first chunk of a marked bin, taken off with unlink_first_small_chunk. */
    method TakeFirst(i: nat, ghost sz: Sizes) returns (p: int)
      requires Valid(sz) && i in Marks()
      modifies this
      ensures Valid(sz) && p in old(Chunks()) && Chunks() == old(Chunks()) - {p}
      ensures p in sz && sz[p] == 8 * i && p > 0
    {
      var b := Header(i);
      ghost var list := lists[i];
      assert BinOk(fd, bk, Marks(), list, sz, i);
      assert NodeAt(fd, bk, RingOf(i, list), 0) && NodeAt(fd, bk, RingOf(i, list), 1);
      p := fd[b];
      assert p == list[0];
      var f := fd[p];
      if |list| > 1 { UnlinkRing(fd, bk, list, i, 0); } else { AloneRing(fd, bk, list, i); }
      WithoutElements(list, 0);
      UpdateChunks(Without(list, 0), sz, i, {p}, {});
      if b == f {
        BinMaps.MarkSpec(smallmap, i);
        Update(fd, bk, Marks() - {i}, Without(list, 0), sz, i);
        smallmap := BitWords.Clear(smallmap, BinMaps.Idx2Bit(i));
      } else {
        NeighboursInBin(i, 0, sz);
        Update(fd[b := f], bk[f := b], Marks(), Without(list, 0), sz, i);
        fd := fd[b := f];
        bk := bk[f := b];
      }
      lists := lists[i := Without(list, 0)];
    }

    lemma MemberSmall(p: int, sz: Sizes)
      requires Valid(sz) && p in Chunks()
      ensures p in sz && sz[p] < 256 && SmallIndex(sz[p]) in Marks()
    {
      var m :| 0 <= m < |lists| && p in lists[m];
      assert BinOk(fd, bk, Marks(), lists[m], sz, m);
    }

    /** The map tells exactly which sizes are available. */
    lemma MapExact(i: nat, sz: Sizes)
      requires Valid(sz) && i < NSMALLBINS
      ensures i in Marks() <==> exists p <- Chunks() :: p in sz && sz[p] == 8 * i
    {
      assert BinOk(fd, bk, Marks(), lists[i], sz, i);
      if i in Marks() {
        var p := lists[i][0];
        assert p in lists[i];
        assert p in Chunks();
      }
      if p :| p in Chunks() && p in sz && sz[p] == 8 * i {
        var m :| 0 <= m < |lists| && p in lists[m];
        assert BinOk(fd, bk, Marks(), lists[m], sz, m);
      }
    }
  }
}
