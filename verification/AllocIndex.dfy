/** Which treebin a chunk size belongs to, and which bits of the size steer the walk
    through that bin's trie (lj_alloc.c, "Indexing Bins"). Sizes are 64-bit. */
module AllocIndex {
  import opened Shifts

  const NTREEBINS := 32
  const SIZE_T_LIMIT := 0x1_0000_0000_0000_0000
  const SIGN_BIT := 0x8000_0000_0000_0000
  /** Below this size the cast to unsigned int in compute_tree_index loses nothing. */
  const CHUNK_LIMIT := 0x100_0000_0000
  const MIN_LARGE_SIZE := 256

  /** A size a treebin may hold. */
  predicate LargeSize(s: nat) { MIN_LARGE_SIZE <= s < CHUNK_LIMIT }

  /** lj_fls: the position of the highest set bit. */
  function Fls(x: nat): (k: nat)
    requires x > 0
    ensures Shr(x, k) == 1
  {
    if x == 1 then 0 else Fls(x / 2) + 1
  }

  /** compute_tree_index */
  function TreeIndex(s: nat): nat {
    var x := (s / 256) % 0x1_0000_0000;
    if x == 0 then 0
    else if x > 0xFFFF then NTREEBINS - 1
    else var k := Fls(x); 2 * k + Shr(s, k + 7) % 2
  }

  /** How many low bits of a size the trie of bin `i` looks at. */
  function KeyBits(i: nat): (n: nat)
    ensures i < NTREEBINS ==> 7 <= n <= 64
  {
    if i == NTREEBINS - 1 then 64 else i / 2 + 7
  }

  /** leftshift_for_tree_index: moves the highest of those bits to the sign bit. */
  function LeftShift(i: nat): (n: nat)
    requires i < NTREEBINS
    ensures n == 64 - KeyBits(i)
  {
    if i == NTREEBINS - 1 then 0 else 63 - (i / 2 + 6)
  }

  /** What all sizes of one bin share: the bits above the ones its trie looks at. */
  function RootPrefix(i: nat): nat {
    if i == NTREEBINS - 1 then 0 else 2 + i % 2
  }

  lemma {:induction false} FlsBound(x: nat, n: nat)
    requires x > 0 && Shr(x, n + 1) == 0
    ensures Fls(x) <= n
  {
    if x > 1 && n > 0 { FlsBound(x / 2, n - 1); }
  }

  lemma IndexShape(s: nat) returns (k: nat)
    requires LargeSize(s) && s / 256 <= 0xFFFF
    ensures k <= 15 && TreeIndex(s) == 2 * k + Shr(s, k + 7) % 2 && Shr(s / 256, k) == 1
  {
    var x := s / 256;
    assert 0 < x && x % 0x1_0000_0000 == x;
    Shr24(x);
    FlsBound(x, 15);
    k := Fls(x);
  }

  /** The leading bits of a size determine its bin. */
  lemma IndexPrefix(s: nat)
    requires LargeSize(s) && s / 256 <= 0xFFFF
    ensures TreeIndex(s) < NTREEBINS
    ensures Shr(s, TreeIndex(s) / 2 + 8) == 1 && Shr(s, TreeIndex(s) / 2 + 7) == 2 + TreeIndex(s) % 2
  {
    var k := IndexShape(s);
    ShrEight(s);
    ShrAdd(s, 8, k);
    ShrStep(s, k + 7);
  }

  lemma IndexBound(s: nat)
    requires LargeSize(s)
    ensures TreeIndex(s) < NTREEBINS
  {
    if s / 256 <= 0xFFFF { IndexPrefix(s); }
  }

  lemma RootCovers(s: nat)
    requires LargeSize(s)
    ensures var i := TreeIndex(s); Shr(s, KeyBits(i)) == RootPrefix(i)
  {
    if TreeIndex(s) < NTREEBINS - 1 {
      IndexPrefix(s);
    } else {
      IndexBound(s);
      Shr63(s);
    }
  }

  /** A size from a later pair of bins has a higher leading bit. */
  lemma HighIndex(s: nat, k: nat)
    requires LargeSize(s) && k <= 15
    requires s / 256 > 0xFFFF || TreeIndex(s) / 2 > k
    ensures Shr(s, k + 8) >= 2
  {
    var k' := 16;
    if s / 256 > 0xFFFF {
      Shr24(s);
    } else {
      IndexPrefix(s);
      k' := TreeIndex(s) / 2;
    }
    assert Shr(s, k' + 8) >= 1;
    ShrAdd(s, k + 8, k' - k);
    ShrAtLeast(Shr(s, k + 8), k' - k);
  }

  /** A larger bin number means a larger size. */
  lemma IndexOrder(s: nat, s': nat)
    requires LargeSize(s) && LargeSize(s') && TreeIndex(s) < TreeIndex(s')
    ensures s < s'
  {
    hide Shr, Fls;
    IndexBound(s');
    IndexPrefix(s);
    var k := TreeIndex(s) / 2;
    if s' / 256 <= 0xFFFF && TreeIndex(s') / 2 == k {
      IndexPrefix(s');
      ShrLess(s, s', k + 7);
    } else {
      HighIndex(s', k);
      ShrLess(s, s', k + 8);
    }
  }

  // ---------------------------------------------------------------- the shifting key register

  /** The register `K`, or `sizebits`, after `m` shifts of the size `s`. */
  function Register(s: nat, m: nat): nat {
    if m == 0 then s % SIZE_T_LIMIT else (2 * Register(s, m - 1)) % SIZE_T_LIMIT
  }

  /** A shift moves every bit up by one. */
  lemma BitMoves(y: nat, j: nat)
    requires j <= 62
    ensures Shr((2 * y) % SIZE_T_LIMIT, j + 1) % 2 == Shr(y, j) % 2
  {
    var a := y % SIGN_BIT;
    assert (2 * y) % SIZE_T_LIMIT == 2 * a;
    Shl63(y / SIGN_BIT);
    LowBits(a, y / SIGN_BIT, 63, j);
  }

  lemma {:induction false} RegisterBits(s: nat, m: nat, j: nat)
    requires m + j <= 63 && s < SIZE_T_LIMIT
    ensures Shr(Register(s, m), j + m) % 2 == Shr(s, j) % 2
    decreases m
  {
    if m > 0 {
      RegisterBits(s, m - 1, j);
      BitMoves(Register(s, m - 1), j + m - 1);
    }
  }

  /** The sign bit of the register is bit 63 - m of the size. */
  lemma SignBit(s: nat, m: nat)
    requires m <= 63 && s < SIZE_T_LIMIT
    ensures Register(s, m) / SIGN_BIT == Shr(s, 63 - m) % 2
  {
    hide Shr;
    RegisterBits(s, m, 63 - m);
    Shr63(Register(s, m));
    assert Register(s, m) < SIZE_T_LIMIT;
  }
}
