/** How a compressor writes bits: numbers in either order, and bytes, the lowest bit of each byte first. */
module BitWriter {
  import opened Shifts
  import opened InflateBits

  /** A number of `w` bits, the lowest one first. */
  function BitsOf(c: nat, w: nat): (b: seq<nat>)
    ensures |b| == w && forall i | 0 <= i < w :: b[i] < 2
    decreases w
  {
    if w == 0 then [] else [c % 2] + BitsOf(c / 2, w - 1)
  }

  ghost predicate AreBits(b: seq<nat>) { forall i | 0 <= i < |b| :: b[i] < 2 }

  /** The same, the highest one first: so codewords are packed. */
  function HighFirst(c: nat, n: nat): (b: seq<nat>)
    ensures |b| == n && AreBits(b)
  {
    if n == 0 then [] else HighFirst(c / 2, n - 1) + [c % 2]
  }

  function BitOr0(b: seq<nat>, i: nat): nat { if i < |b| then b[i] % 2 else 0 }

  /** Eight bits, the first one lowest. */
  function ByteOf(b: seq<nat>, i: nat, n: nat): nat
    decreases n
  {
    if n == 0 then 0 else BitOr0(b, i) + 2 * ByteOf(b, i + 1, n - 1)
  }

  /** The bits in bytes, filled up with zeros. */
  function Bytewise(b: seq<nat>): Bytes {
    seq<nat>((|b| + 7) / 8, v requires 0 <= v < (|b| + 7) / 8 => ByteOf(b, 8 * v, 8))
  }

  lemma {:induction false} ByteOfBit(b: seq<nat>, i: nat, n: nat, j: nat)
    requires j < n
    ensures Shr(ByteOf(b, i, n), j) % 2 == BitOr0(b, i + j)
    decreases n
  {
    if j > 0 { ByteOfBit(b, i + 1, n - 1, j - 1); }
  }

  lemma {:induction false} ByteOfBound(b: seq<nat>, i: nat, n: nat)
    ensures ByteOf(b, i, n) < Shl(1, n)
    decreases n
  {
    if n > 0 { ByteOfBound(b, i + 1, n - 1); }
  }

  lemma BytewiseBit(b: seq<nat>, k: nat)
    requires k < |b|
    ensures StreamBit(Bytewise(b), k) == b[k] % 2
  {
    var v, j := k / 8, k % 8;
    ByteOfBit(b, 8 * v, 8, j);
    assert v < (|b| + 7) / 8;
  }

  /** A code that was written is read. */
  lemma {:induction false} ReadsCode(d: Bytes, p: nat, c: nat, w: nat)
    requires c < Shl(1, w) && forall i | p <= i < p + w :: StreamBit(d, i) == BitsOf(c, w)[i - p]
    ensures ReadBits(d, p, w) == c
    decreases w
  {
    hide StreamBit;
    if w > 0 {
      assert StreamBit(d, p) == c % 2;
      forall i | p + 1 <= i < p + w
        ensures StreamBit(d, i) == BitsOf(c / 2, w - 1)[i - p - 1]
      {}
      ReadsCode(d, p + 1, c / 2, w - 1);
    }
  }

  lemma BytewiseBytes(b: seq<nat>)
    ensures AllBytes(Bytewise(b))
  {
    ShlSeven(1);
    assert Shl(1, 8) == 256;
    forall v | 0 <= v < |Bytewise(b)|
      ensures Bytewise(b)[v] < 256
    {
      ByteOfBound(b, 8 * v, 8);
    }
  }
}
