/** The reconstruction of PNG rows in stb_image.h. */
module Png {
  import opened InflateBits
  import opened PngFilter

  /** The filters as the code numbers them; 5 and 6 are average and Paeth without a row above. */
  function FirstRowFilter(f: nat): nat
    requires f <= 4
  {
    match f
    case 2 => 0
    case 3 => 5
    case 4 => 6
    case _ => f
  }

  /** What the code adds to a byte. */
  function Added(g: nat, left: nat, up: nat, corner: nat): nat {
    match g
    case 1 => left
    case 2 => up
    case 3 => (up + left) / 2
    case 4 => Paeth(left, up, corner)
    case 5 => left / 2
    case 6 => Paeth(left, 0, 0)
    case _ => 0
  }

  /** The same in the first pixel of a row. */
  function AddedFirst(g: nat, up: nat): nat {
    match g
    case 2 => up
    case 3 => up / 2
    case 4 => Paeth(0, up, 0)
    case _ => 0
  }

  lemma AddedIsPredicted(f: nat, left: nat, up: nat, corner: nat)
    requires f <= 4
    ensures Added(f, left, up, corner) == Predict(f, left, up, corner)
    ensures Added(FirstRowFilter(f), left, up, corner) == Predict(f, left, 0, 0)
    ensures AddedFirst(f, up) == Predict(f, 0, up, 0) && AddedFirst(FirstRowFilter(f), up) == Predict(f, 0, 0, 0)
  {}

  // ---------------------------------------------------------------- pixels in a row

  /** i * k */
  function Mul(i: nat, k: nat): nat { i * k }

  lemma MulStep(i: nat, k: nat)
    ensures Mul(i + 1, k) == Mul(i, k) + k && Mul(0, k) == 0
  {}

  lemma {:induction false} MulOrder(i: nat, j: nat, k: nat)
    requires i < j
    ensures Mul(i, k) + k <= Mul(j, k)
    decreases j
  {
    MulStep(j - 1, k);
    if i < j - 1 { MulOrder(i, j - 1, k); }
  }

  /** Every byte of a row is a component of a pixel. */
  lemma {:induction false} InPixel(t: nat, n: nat, x: nat) returns (q: nat, k: nat)
    requires n > 0 && t < Mul(x, n)
    ensures q < x && k < n && t == Mul(q, n) + k
    decreases x
  {
    MulStep(x - 1, n);
    if t >= Mul(x - 1, n) {
      q, k := x - 1, t - Mul(x - 1, n);
    } else {
      q, k := InPixel(t, n, x - 1);
    }
  }

  /** The components of `x` pixels of `m` bytes, `n` of each. */
  function Packed(s: Bytes, n: nat, m: nat, x: nat): (r: Bytes)
    requires n <= m && Mul(x, m) <= |s|
    ensures |r| == Mul(x, n)
    decreases x
  {
    if x == 0 then []
    else
      MulStep(x - 1, m);
      MulStep(x - 1, n);
      Packed(s, n, m, x - 1) + s[Mul(x - 1, m)..Mul(x - 1, m) + n]
  }

  lemma {:induction false} PackedAt(s: Bytes, n: nat, m: nat, x: nat, q: nat, k: nat)
    requires n <= m && Mul(x, m) <= |s| && q < x && k < n
    ensures Mul(q, n) + k < Mul(x, n) && Mul(q, m) + k < |s| && Packed(s, n, m, x)[Mul(q, n) + k] == s[Mul(q, m) + k]
    decreases x
  {
    hide Mul;
    MulOrder(q, x, n);
    MulOrder(q, x, m);
    MulStep(x - 1, n);
    MulStep(x - 1, m);
    if q < x - 1 { PackedAt(s, n, m, x - 1, q, k); }
  }

  ghost predicate SameComponent(s: Bytes, n: nat, m: nat, r: Bytes, q: nat, k: nat) {
    Mul(q, n) + k < |r| && Mul(q, m) + k < |s| && r[Mul(q, n) + k] == s[Mul(q, m) + k]
  }

  lemma PackedIs(s: Bytes, n: nat, m: nat, x: nat, r: Bytes)
    requires 0 < n <= m && Mul(x, m) <= |s| && |r| == Mul(x, n)
    requires forall q: nat, k: nat | q < x && k < n :: SameComponent(s, n, m, r, q, k)
    ensures Packed(s, n, m, x) == r
  {
    hide Mul, Packed;
    forall t | 0 <= t < |r|
      ensures Packed(s, n, m, x)[t] == r[t]
    {
      var q, k := InPixel(t, n, x);
      assert SameComponent(s, n, m, r, q, k);
      PackedAt(s, n, m, x, q, k);
    }
  }

  // ---------------------------------------------------------------- one row

  /** The row above as the code sees it. */
  ghost function Seen(out: Bytes, first: bool, prior: int, width: nat): (r: Bytes)
    requires !first ==> 0 <= prior && prior + width <= |out|
    ensures |r| == width
  {
    if first then Zeros(width) else out[prior..prior + width]
  }

  /** Byte `t` of a row: what is added to the raw byte. */
  lemma ReconByte(f: nat, first: bool, row: Bytes, above: Bytes, n: nat, t: nat)
    requires f <= 4 && n > 0 && t < |row| == |above| && (first ==> above == Zeros(|row|))
    ensures var r := Recon(f, row, above, n, |row|); var g := if first then FirstRowFilter(f) else f;
      && (t < n ==> r[t] == (row[t] + AddedFirst(g, if UsesPrior(g) then above[t] else 0)) % 256)
      && (t >= n ==> r[t] == (row[t] + if UsesPrior(g) then Added(g, r[t - n], above[t], above[t - n]) else Added(g, r[t - n], 0, 0)) % 256)
  {
    ReconAt(f, row, above, n, t);
    var r := Recon(f, row, above, n, |row|);
    hide Predict, Added, AddedFirst, Recon;
    var left := LeftOf(r, n, t);
    AddedIsPredicted(f, left, above[t], LeftOf(above, n, t));
    AddedWithout(f, left, above[t], LeftOf(above, n, t));
    AddedWithout(if first then FirstRowFilter(f) else f, left, above[t], LeftOf(above, n, t));
  }

  predicate UsesPrior(g: nat) { 2 <= g <= 4 }

  lemma AddedWithout(g: nat, left: nat, up: nat, corner: nat)
    ensures !UsesPrior(g) ==> Added(g, left, up, corner) == Added(g, left, 0, 0) && AddedFirst(g, up) == AddedFirst(g, 0)
  {}

  class PngRaw {
    const raw: Bytes
    const out: array<nat>

    constructor (raw: Bytes, out: array<nat>)
      ensures this.raw == raw && this.out == out
    {
      this.raw, this.out := raw, out;
    }

    /** A row whose bytes follow each other in the output. */
    method FlatRow(f: nat, first: bool, p: nat, cur: nat, prior: int, width: nat, n: nat)
      requires f <= 4 && 0 < n <= width && p + width <= |raw| && cur + width <= out.Length
      requires !first ==> 0 <= prior && prior + width <= cur
      modifies out
      ensures out[cur..cur + width] == Recon(f, raw[p..p + width], Seen(old(out[..]), first, prior, width), n, width)
      ensures forall i | 0 <= i < out.Length && !(cur <= i < cur + width) :: out[i] == old(out[i])
    {
      hide Recon, Added, AddedFirst, FirstRowFilter;
      ghost var row, above := raw[p..p + width], Seen(out[..], first, prior, width);
      ghost var r := Recon(f, row, above, n, width);
      var g := if first then FirstRowFilter(f) else f;
      for k := 0 to n
        invariant forall t | 0 <= t < k :: out[cur + t] == r[t]
        invariant forall i | 0 <= i < out.Length && !(cur <= i < cur + width) :: out[i] == old(out[i])
      {
        FirstUsesNone(f, first);
        ReconByte(f, first, row, above, n, k);
        out[cur + k] := (raw[p + k] + AddedFirst(g, if UsesPrior(g) then out[prior + k] else 0)) % 256;
      }
      for k := n to width
        invariant forall t | 0 <= t < k :: out[cur + t] == r[t]
        invariant forall i | 0 <= i < out.Length && !(cur <= i < cur + width) :: out[i] == old(out[i])
      {
        FirstUsesNone(f, first);
        ReconByte(f, first, row, above, n, k);
        out[cur + k] := (raw[p + k] + if UsesPrior(g) then Added(g, out[cur + k - n], out[prior + k], out[prior + k - n]) else Added(g, out[cur + k - n], 0, 0)) % 256;
      }
    }

    lemma FirstUsesNone(f: nat, first: bool)
      requires f <= 4
      ensures UsesPrior(if first then FirstRowFilter(f) else f) ==> !first
    {}

    // ---------------------------------------------------------------- with an opaque alpha

    /** A row of `x` pixels that get an alpha byte: where it is read, where it goes, and the row
        above. */
    ghost predicate AlphaRoom(j: AlphaJob) {
      && j.f <= 4 && j.x > 0 && j.n > 0 && j.p + Mul(j.x, j.n) <= |raw| && j.cur + Mul(j.x, j.n + 1) <= out.Length
      && (!j.first ==> 0 <= j.prior && j.prior + Mul(j.x, j.n + 1) <= j.cur)
    }

    ghost function AlphaAbove(j: AlphaJob, were: Bytes): (r: Bytes)
      requires AlphaRoom(j) && |were| == out.Length
      ensures |r| == Mul(j.x, j.n)
    {
      if j.first then Zeros(Mul(j.x, j.n)) else Packed(were[j.prior..j.prior + Mul(j.x, j.n + 1)], j.n, j.n + 1, j.x)
    }

    ghost function AlphaRecon(j: AlphaJob, were: Bytes): (r: Bytes)
      requires AlphaRoom(j) && |were| == out.Length
      ensures |r| == Mul(j.x, j.n)
    {
      Recon(j.f, raw[j.p..j.p + Mul(j.x, j.n)], AlphaAbove(j, were), j.n, Mul(j.x, j.n))
    }

    /** Pixel `q` is in the output. */
    ghost predicate PixelDone(j: AlphaJob, r: Bytes, q: nat, o: Bytes) {
      && j.cur + Mul(q, j.n + 1) + j.n < |o| && o[j.cur + Mul(q, j.n + 1) + j.n] == 255
      && Mul(q, j.n) + j.n <= |r|
      && o[j.cur + Mul(q, j.n + 1)..j.cur + Mul(q, j.n + 1) + j.n] == r[Mul(q, j.n)..Mul(q, j.n) + j.n]
    }

    /** What byte `k` of pixel `q` needs. */
    lemma AlphaByte(j: AlphaJob, were: Bytes, q: nat, k: nat)
      requires AlphaRoom(j) && |were| == out.Length && q < j.x && k < j.n
      ensures Mul(q, j.n) + k < Mul(j.x, j.n) && Mul(q, j.n + 1) + j.n < Mul(j.x, j.n + 1)
      ensures var r := AlphaRecon(j, were); var t := Mul(q, j.n) + k; var g := if j.first then FirstRowFilter(j.f) else j.f;
        var row, o := raw[j.p + t], j.prior + Mul(q, j.n + 1) + k;
        && (q == 0 ==> t == k && r[t] == (row + AddedFirst(g, if UsesPrior(g) then were[o] else 0)) % 256)
        && (q > 0 ==> t >= j.n && t - j.n == Mul(q - 1, j.n) + k && o - (j.n + 1) == j.prior + Mul(q - 1, j.n + 1) + k)
        && (q > 0 ==>
              r[t] == (row + if UsesPrior(g) then Added(g, r[t - j.n], were[o], were[o - (j.n + 1)]) else Added(g, r[t - j.n], 0, 0)) % 256)
    {
      hide Mul, Recon, Packed, Added, AddedFirst, FirstRowFilter;
      var above := AlphaAbove(j, were);
      MulOrder(q, j.x, j.n);
      MulOrder(q, j.x, j.n + 1);
      MulStep(0, j.n);
      MulStep(0, j.n + 1);
      FirstUsesNone(j.f, j.first);
      ReconByte(j.f, j.first, raw[j.p..j.p + Mul(j.x, j.n)], above, j.n, Mul(q, j.n) + k);
      if q > 0 {
        MulStep(q - 1, j.n);
        MulStep(q - 1, j.n + 1);
      }
      if !j.first {
        PackedAt(were[j.prior..j.prior + Mul(j.x, j.n + 1)], j.n, j.n + 1, j.x, q, k);
        if q > 0 { PackedAt(were[j.prior..j.prior + Mul(j.x, j.n + 1)], j.n, j.n + 1, j.x, q - 1, k); }
      }
    }

    /** The component to the left. */
    lemma LeftPixel(j: AlphaJob, r: Bytes, q: nat, k: nat, o: Bytes)
      requires q > 0 && k < j.n && |o| == out.Length
      requires PixelDone(j, r, q - 1, o)
      ensures j.cur + Mul(q - 1, j.n + 1) + k < |o| && Mul(q - 1, j.n) + k < |r|
      ensures o[j.cur + Mul(q - 1, j.n + 1) + k] == r[Mul(q - 1, j.n) + k]
    {
      hide Mul;
      assert o[j.cur + Mul(q - 1, j.n + 1)..j.cur + Mul(q - 1, j.n + 1) + j.n][k] == r[Mul(q - 1, j.n)..Mul(q - 1, j.n) + j.n][k];
    }

    /** The places of pixel `q`. */
    ghost predicate AtPixel(j: AlphaJob, q: nat, g: nat, n: nat, p: nat, cur: nat, prior: int) {
      && AlphaRoom(j) && q < j.x && n == j.n && g == (if j.first then FirstRowFilter(j.f) else j.f)
      && p == j.p + Mul(q, n) && cur == j.cur + Mul(q, n + 1) && prior == j.prior + Mul(q, n + 1)
      && cur + n < out.Length && j.cur <= cur
    }

    /** Byte `k` of pixel `q`. */
    method AlphaComponent(ghost j: AlphaJob, ghost were: Bytes, ghost o: Bytes, q: nat, k: nat, g: nat, n: nat, p: nat, cur: nat, prior: int)
      requires AtPixel(j, q, g, n, p, cur, prior) && |were| == out.Length && k < n && (forall i | 0 <= i < j.cur :: out[i] == were[i])
      requires |o| == out.Length && (forall i | 0 <= i < cur :: out[i] == o[i]) && (q > 0 ==> PixelDone(j, AlphaRecon(j, were), q - 1, o))
      modifies out
      ensures cur + k < out.Length && Mul(q, n) + k < |AlphaRecon(j, were)| && out[cur + k] == AlphaRecon(j, were)[Mul(q, n) + k]
      ensures forall i | 0 <= i < out.Length && i != cur + k :: out[i] == old(out[i])
    {
      hide Mul, Recon, Packed, Added, AddedFirst, FirstRowFilter, AlphaAbove, AlphaRecon, PixelDone;
      FirstUsesNone(j.f, j.first);
      AlphaByte(j, were, q, k);
      if q == 0 {
        out[cur + k] := (raw[p + k] + AddedFirst(g, if UsesPrior(g) then out[prior + k] else 0)) % 256;
      } else {
        LeftPixel(j, AlphaRecon(j, were), q, k, o);
        MulStep(q - 1, n + 1);
        var left := out[cur + k - (n + 1)];
        out[cur + k] := (raw[p + k] + if UsesPrior(g) then Added(g, left, out[prior + k], out[prior + k - (n + 1)]) else Added(g, left, 0, 0)) % 256;
      }
    }

    lemma AlphaSet(j: AlphaJob, r: Bytes, q: nat, cur: nat, o: Bytes, o': Bytes)
      requires cur == j.cur + Mul(q, j.n + 1) && |o| == |o'| && cur + j.n < |o| && Mul(q, j.n) + j.n <= |r| && o' == o[cur + j.n := 255]
      requires o[cur..cur + j.n] == r[Mul(q, j.n)..Mul(q, j.n) + j.n]
      ensures PixelDone(j, r, q, o')
    {
      hide Mul;
      assert o'[cur..cur + j.n] == o[cur..cur + j.n];
    }

    /** One pixel of the row, behind `q` others. */
    method AlphaPixel(ghost j: AlphaJob, ghost were: Bytes, q: nat, g: nat, n: nat, p: nat, cur: nat, prior: int)
      requires AtPixel(j, q, g, n, p, cur, prior) && |were| == out.Length && (forall i | 0 <= i < j.cur :: out[i] == were[i])
      requires q > 0 ==> PixelDone(j, AlphaRecon(j, were), q - 1, out[..])
      modifies out
      ensures PixelDone(j, AlphaRecon(j, were), q, out[..])
      ensures forall i | 0 <= i < out.Length && !(cur <= i < cur + n + 1) :: out[i] == old(out[i])
    {
      hide Mul, FirstRowFilter, AlphaRecon, PixelDone, UsesPrior, Added, AddedFirst;
      ghost var r, b, o := AlphaRecon(j, were), Mul(q, n), out[..];
      AlphaByte(j, were, q, 0);
      MulOrder(q, j.x, n);
      for k := 0 to n
        invariant out[cur..cur + k] == r[b..b + k]
        invariant forall i | 0 <= i < out.Length && !(cur <= i < cur + n) :: out[i] == old(out[i])
      {
        ghost var before := out[..];
        AlphaComponent(j, were, o, q, k, g, n, p, cur, prior);
        OneMore(before, out[..], cur, r, b, k);
      }
      ghost var before := out[..];
      out[cur + n] := 255;
      AlphaSet(j, r, q, cur, before, out[..]);
    }

    lemma PixelKept(j: AlphaJob, r: Bytes, t: nat, q: nat, o: Bytes, o': Bytes)
      requires t < q && |o| == |o'| && PixelDone(j, r, t, o) && forall i | 0 <= i < |o| && i < j.cur + Mul(q, j.n + 1) :: o'[i] == o[i]
      ensures PixelDone(j, r, t, o')
    {
      hide Mul;
      MulOrder(t, q, j.n + 1);
      var a := j.cur + Mul(t, j.n + 1);
      assert o'[a..a + j.n] == o[a..a + j.n];
    }

    lemma RowDone(j: AlphaJob, r: Bytes, o: Bytes)
      requires AlphaRoom(j) && |o| == out.Length && |r| == Mul(j.x, j.n) && forall t: nat {:trigger PixelDone(j, r, t, o)} | t < j.x :: PixelDone(j, r, t, o)
      ensures Packed(o[j.cur..j.cur + Mul(j.x, j.n + 1)], j.n, j.n + 1, j.x) == r && Opaque(o, j.cur, j.n, j.x)
    {
      hide Mul, Packed;
      var s, n, m := o[j.cur..j.cur + Mul(j.x, j.n + 1)], j.n, j.n + 1;
      forall q: nat, k: nat | q < j.x && k < j.n
        ensures SameComponent(s, n, m, r, q, k)
      {
        assert PixelDone(j, r, q, o);
        MulOrder(q, j.x, j.n);
        MulOrder(q, j.x, j.n + 1);
        var a := j.cur + Mul(q, j.n + 1);
        assert o[a..a + j.n][k] == r[Mul(q, j.n)..Mul(q, j.n) + j.n][k];
        assert s[Mul(q, m) + k] == o[a + k];
      }
      PackedIs(s, j.n, j.n + 1, j.x, r);
      forall q: nat | q < j.x
        ensures AlphaAt(o, j.cur, j.n, q)
      {
        assert PixelDone(j, r, q, o);
      }
    }

    /** A row of pixels that get an opaque alpha. */
    method AlphaRow(f: nat, first: bool, p0: nat, cur0: nat, prior0: int, x: nat, n: nat)
      requires AlphaRoom(AlphaJob(f, first, p0, cur0, prior0, x, n))
      modifies out
      ensures var j := AlphaJob(f, first, p0, cur0, prior0, x, n);
        Packed(out[cur0..cur0 + Mul(x, n + 1)], n, n + 1, x) == AlphaRecon(j, old(out[..])) && Opaque(out[..], cur0, n, x)
      ensures forall i | 0 <= i < out.Length && !(cur0 <= i < cur0 + Mul(x, n + 1)) :: out[i] == old(out[i])
    {
      hide Mul, FirstRowFilter, AlphaRecon, PixelDone, Packed;
      ghost var j, were := AlphaJob(f, first, p0, cur0, prior0, x, n), out[..];
      ghost var r := AlphaRecon(j, were);
      var g := if first then FirstRowFilter(f) else f;
      var p, cur, prior := p0, cur0, prior0;
      MulStep(0, n);
      MulStep(0, n + 1);
      for q := 0 to x
        invariant p == p0 + Mul(q, n) && cur == cur0 + Mul(q, n + 1) && prior == prior0 + Mul(q, n + 1)
        invariant forall t: nat | t < q :: PixelDone(j, r, t, out[..])
        invariant forall i | 0 <= i < out.Length && !(cur0 <= i < cur0 + Mul(x, n + 1)) :: out[i] == were[i]
      {
        ghost var o := out[..];
        MulOrder(q, x, n);
        MulOrder(q, x, n + 1);
        MulStep(q, n);
        MulStep(q, n + 1);
        AlphaPixel(j, were, q, g, n, p, cur, prior);
        forall t: nat | t < q
          ensures PixelDone(j, r, t, out[..])
        {
          PixelKept(j, r, t, q, o, out[..]);
        }
        p, cur, prior := p + n, cur + (n + 1), prior + (n + 1);
      }
      RowDone(j, r, out[..]);
    }
  }

  /** Every pixel of a row has the alpha 255. */
  ghost predicate Opaque(o: Bytes, cur: nat, n: nat, x: nat) { forall q: nat | q < x :: AlphaAt(o, cur, n, q) }

  ghost predicate AlphaAt(o: Bytes, cur: nat, n: nat, q: nat) { cur + Mul(q, n + 1) + n < |o| && o[cur + Mul(q, n + 1) + n] == 255 }

  lemma OneMore(a: Bytes, a': Bytes, c: nat, r: Bytes, b: nat, k: nat)
    requires |a| == |a'| && c + k < |a| && b + k < |r| && a[c..c + k] == r[b..b + k] && a'[c + k] == r[b + k]
    requires forall i | c <= i < c + k :: a'[i] == a[i]
    ensures a'[c..c + k + 1] == r[b..b + k + 1]
  {
    assert a'[c..c + k] == a[c..c + k];
    assert a'[c..c + k + 1] == a'[c..c + k] + [a'[c + k]];
    assert r[b..b + k + 1] == r[b..b + k] + [r[b + k]];
  }

  datatype AlphaJob = AlphaJob(f: nat, first: bool, p: nat, cur: nat, prior: int, x: nat, n: nat)
}
