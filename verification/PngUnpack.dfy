/** Samples of less than eight bits are unpacked in place, from the end of an output row to its
    start. */
module PngUnpack {
  import opened Shifts
  import opened InflateBits
  import opened Png
  import opened PngImage

  predicate IsDepth(depth: nat) { depth == 1 || depth == 2 || depth == 4 }

  /** Samples in a byte. */
  function Per(depth: nat): nat
    requires IsDepth(depth)
  {
    if depth == 1 then 8 else if depth == 2 then 4 else 2
  }

  /** Sample `s` of a byte, the first one in its high bits. */
  function Sample(b: nat, depth: nat, s: nat): nat
    requires IsDepth(depth) && s < Per(depth)
  {
    Low(Shr(b, 8 - depth * (s + 1)), depth)
  }

  /** stbi__depth_scale_table */
  function Scale(depth: nat, grey: bool): nat
    requires IsDepth(depth)
  {
    if !grey then 1 else if depth == 1 then 0xff else if depth == 2 then 0x55 else 0x11
  }

  /** The largest sample becomes 255. */
  lemma ScaleIsFull(depth: nat, b: nat, s: nat)
    requires IsDepth(depth) && s < Per(depth)
    ensures Scale(depth, true) * (Shl(1, depth) - 1) == 255 && Scale(depth, true) * Sample(b, depth, s) <= 255
  {
    LowBelow(Shr(b, 8 - depth * (s + 1)), depth);
  }

  /** The first `n` samples of a byte. */
  function ByteSamples(b: nat, depth: nat, scale: nat, n: nat): (r: Bytes)
    requires IsDepth(depth) && n <= Per(depth)
    ensures |r| == n && forall s | 0 <= s < n :: r[s] == scale * Sample(b, depth, s)
  {
    seq<nat>(n, s requires 0 <= s < n => scale * Sample(b, depth, s))
  }

  /** How many bytes hold `k` samples. */
  function BytesFor(k: nat, depth: nat): nat
    requires IsDepth(depth)
  {
    (k * depth + 7) / 8
  }

  /** The first `k` samples of a row. */
  function Unpacked(packed: Bytes, depth: nat, scale: nat, k: nat): (r: Bytes)
    requires IsDepth(depth) && BytesFor(k, depth) <= |packed|
    ensures |r| == k
  {
    if k == 0 then []
    else if k < Per(depth) then ByteSamples(packed[0], depth, scale, k)
    else ByteSamples(packed[0], depth, scale, Per(depth)) + Unpacked(packed[1..], depth, scale, k - Per(depth))
  }

  lemma {:induction false} UnpackedAt(packed: Bytes, depth: nat, scale: nat, k: nat, i: nat)
    requires IsDepth(depth) && BytesFor(k, depth) <= |packed| && i < k
    ensures i / Per(depth) < |packed| && Unpacked(packed, depth, scale, k)[i] == scale * Sample(packed[i / Per(depth)], depth, i % Per(depth))
    decreases k
  {
    hide Sample, Unpacked;
    var per := Per(depth);
    UnpackedOne(packed, depth, scale, k, i);
    if i >= per {
      UnpackedAt(packed[1..], depth, scale, k - per, i - per);
      Step(i, per);
    }
  }

  lemma UnpackedOne(packed: Bytes, depth: nat, scale: nat, k: nat, i: nat)
    requires IsDepth(depth) && BytesFor(k, depth) <= |packed| && i < k
    ensures packed != [] && (i < Per(depth) ==> Unpacked(packed, depth, scale, k)[i] == scale * Sample(packed[0], depth, i))
    ensures i >= Per(depth) ==> BytesFor(k - Per(depth), depth) <= |packed[1..]|
    ensures i >= Per(depth) ==> Unpacked(packed, depth, scale, k)[i] == Unpacked(packed[1..], depth, scale, k - Per(depth))[i - Per(depth)]
  {
    hide Sample;
  }

  lemma Step(i: nat, per: nat)
    requires i >= per && (per == 2 || per == 4 || per == 8)
    ensures i / per == (i - per) / per + 1 && i % per == (i - per) % per
  {}

  /** Writing never gets ahead of reading: with `k` samples left, `s` of them written, the next
      place is not behind the byte they come from. */
  lemma NotAhead(k: nat, depth: nat, s: nat)
    requires IsDepth(depth) && s < k && s < Per(depth)
    ensures s + BytesFor(k, depth) <= k
    ensures k >= Per(depth) ==> BytesFor(k, depth) == BytesFor(k - Per(depth), depth) + 1
    ensures k < Per(depth) ==> BytesFor(k, depth) == 1
  {}

  /** The samples of one byte. */
  method UnpackByte(out: array<nat>, c: nat, inp: nat, depth: nat, scale: nat, n: nat)
    requires IsDepth(depth) && n <= Per(depth) && c + n <= out.Length && inp < out.Length && (n > 0 ==> c + n - 1 <= inp)
    modifies out
    ensures out[c..c + n] == ByteSamples(old(out[inp]), depth, scale, n)
    ensures forall i | 0 <= i < out.Length && !(c <= i < c + n) :: out[i] == old(out[i])
  {
    hide Sample;
    for s := 0 to n
      invariant forall t | 0 <= t < s :: out[c + t] == ByteSamples(old(out[inp]), depth, scale, n)[t]
      invariant forall i | 0 <= i < out.Length && !(c <= i < c + s) :: out[i] == old(out[i])
    {
      out[c + s] := scale * Sample(out[inp], depth, s);
    }
  }

  /** A row of `x` samples that are stored at the end of its `stride` bytes. */
  method UnpackRow(out: array<nat>, cur: nat, x: nat, stride: nat, depth: nat, scale: nat)
    requires IsDepth(depth) && x <= stride && cur + stride <= out.Length && BytesFor(x, depth) <= stride
    modifies out
    ensures out[cur..cur + x] == Unpacked(old(out[cur + stride - BytesFor(x, depth)..cur + stride]), depth, scale, x)
    ensures Samples(out[..], cur, old(out[cur + stride - BytesFor(x, depth)..cur + stride]), x, depth, scale)
    ensures forall i | 0 <= i < out.Length && !(cur <= i < cur + x) :: out[i] == old(out[i])
  {
    hide Sample, Unpacked, BytesFor, ByteSamples, Halfway;
    ghost var packed := out[cur + stride - BytesFor(x, depth)..cur + stride];
    ghost var whole := Unpacked(packed, depth, scale, x);
    var k, c, inp := x, cur, cur + stride - BytesFor(x, depth);
    var per := Per(depth);
    ghost var rest := packed;
    HalfwayStart(out[..], cur, cur + stride, depth, scale, whole, rest, k);
    while k >= per
      invariant 0 <= k <= x && c == cur + x - k && BytesFor(k, depth) <= stride && inp == cur + stride - BytesFor(k, depth)
      invariant Halfway(out[..], cur, c, inp, cur + stride, depth, scale, whole, rest, k)
      invariant forall i | 0 <= i < out.Length && !(cur <= i < c) :: out[i] == old(out[i])
    {
      NotAhead(k, depth, per - 1);
      ghost var o := out[..];
      UnpackByte(out, c, inp, depth, scale, per);
      HalfwayOn(o, out[..], cur, c, inp, cur + stride, depth, scale, whole, rest, k);
      k, c, inp := k - per, c + per, inp + 1;
      rest := rest[1..];
    }
    HalfwayEnd(out[..], cur, c, inp, cur + stride, depth, scale, whole, rest, k);
    if k > 0 {
      NotAhead(k, depth, k - 1);
      ghost var o := out[..];
      UnpackByte(out, c, inp, depth, scale, k);
      LastSamples(o, out[..], cur, c, k);
    }
    SamplesAre(out[..], cur, packed, x, depth, scale);
  }

  /** Sample number `i` comes from byte number `i` / Per, the first one of a byte from its high bits. */
  ghost predicate Samples(o: Bytes, cur: nat, packed: Bytes, x: nat, depth: nat, scale: nat)
    requires IsDepth(depth)
  {
    forall i: nat {:trigger o[cur + i]} | i < x ::
      cur + i < |o| && i / Per(depth) < |packed| && o[cur + i] == scale * Sample(packed[i / Per(depth)], depth, i % Per(depth))
  }

  lemma SamplesAre(o: Bytes, cur: nat, packed: Bytes, x: nat, depth: nat, scale: nat)
    requires IsDepth(depth) && BytesFor(x, depth) <= |packed| && cur + x <= |o| && o[cur..cur + x] == Unpacked(packed, depth, scale, x)
    ensures Samples(o, cur, packed, x, depth, scale)
  {
    hide Sample, Unpacked, BytesFor;
    forall i: nat | i < x
      ensures i / Per(depth) < |packed| && o[cur + i] == scale * Sample(packed[i / Per(depth)], depth, i % Per(depth))
    {
      UnpackedAt(packed, depth, scale, x, i);
      assert o[cur..cur + x][i] == o[cur + i];
    }
  }

  /** The first samples have been written, `k` are still packed in `rest`. */
  ghost predicate Halfway(o: Bytes, cur: nat, c: nat, inp: nat, end: nat, depth: nat, scale: nat, whole: Bytes, rest: Bytes, k: nat)
    requires IsDepth(depth)
  {
    && cur <= c <= |o| && inp <= end <= |o| && BytesFor(k, depth) == |rest| && o[inp..end] == rest
    && o[cur..c] + Unpacked(rest, depth, scale, k) == whole
  }

  lemma HalfwayStart(o: Bytes, cur: nat, end: nat, depth: nat, scale: nat, whole: Bytes, rest: Bytes, k: nat)
    requires IsDepth(depth) && cur <= end <= |o| && BytesFor(k, depth) == |rest| <= end && o[end - |rest|..end] == rest
    requires whole == Unpacked(rest, depth, scale, k)
    ensures Halfway(o, cur, cur, end - |rest|, end, depth, scale, whole, rest, k)
  {
    assert o[cur..cur] + whole == whole;
  }

  lemma HalfwayOn(o: Bytes, o': Bytes, cur: nat, c: nat, inp: nat, end: nat, depth: nat, scale: nat, whole: Bytes, rest: Bytes, k: nat)
    requires IsDepth(depth) && Halfway(o, cur, c, inp, end, depth, scale, whole, rest, k) && k >= Per(depth)
    requires |o'| == |o| && c + Per(depth) <= |o| && inp < end && c + Per(depth) - 1 <= inp
    requires o'[c..c + Per(depth)] == ByteSamples(o[inp], depth, scale, Per(depth))
    requires forall i | 0 <= i < |o| && !(c <= i < c + Per(depth)) :: o'[i] == o[i]
    ensures rest != [] && Halfway(o', cur, c + Per(depth), inp + 1, end, depth, scale, whole, rest[1..], k - Per(depth))
  {
    hide Sample, Unpacked, BytesFor, ByteSamples;
    UnpackedGroup(rest, depth, scale, k);
    RowGrows(o, o', cur, c, Per(depth), inp, end, rest);
    Reassociated(o[cur..c], o'[c..c + Per(depth)], Unpacked(rest[1..], depth, scale, k - Per(depth)));
  }

  lemma Reassociated(a: Bytes, b: Bytes, c: Bytes)
    ensures a + (b + c) == (a + b) + c
  {}

  lemma HalfwayEnd(o: Bytes, cur: nat, c: nat, inp: nat, end: nat, depth: nat, scale: nat, whole: Bytes, rest: Bytes, k: nat)
    requires IsDepth(depth) && Halfway(o, cur, c, inp, end, depth, scale, whole, rest, k) && k < Per(depth)
    ensures k == 0 ==> o[cur..c] == whole
    ensures k > 0 ==> inp < end && o[cur..c] + ByteSamples(o[inp], depth, scale, k) == whole
  {
    hide Sample, Unpacked, BytesFor, ByteSamples;
    UnpackedRest(rest, depth, scale, k);
    assert o[cur..c] + [] == o[cur..c];
  }

  lemma UnpackedGroup(rest: Bytes, depth: nat, scale: nat, k: nat)
    requires IsDepth(depth) && k >= Per(depth) && BytesFor(k, depth) == |rest|
    ensures BytesFor(k - Per(depth), depth) == |rest| - 1
    ensures Unpacked(rest, depth, scale, k) == ByteSamples(rest[0], depth, scale, Per(depth)) + Unpacked(rest[1..], depth, scale, k - Per(depth))
  {
    hide Sample;
  }

  lemma UnpackedRest(rest: Bytes, depth: nat, scale: nat, k: nat)
    requires IsDepth(depth) && k < Per(depth) && BytesFor(k, depth) == |rest|
    ensures k == 0 ==> Unpacked(rest, depth, scale, k) == []
    ensures k > 0 ==> |rest| == 1 && Unpacked(rest, depth, scale, k) == ByteSamples(rest[0], depth, scale, k)
  {
    hide Sample;
  }

  lemma RowGrows(o: Bytes, o': Bytes, cur: nat, c: nat, n: nat, inp: nat, end: nat, rest: Bytes)
    requires |o| == |o'| && cur <= c && c + n <= |o| && inp < end <= |o| && n > 0 && c + n - 1 <= inp && o[inp..end] == rest
    requires forall i | 0 <= i < |o| && !(c <= i < c + n) :: o'[i] == o[i]
    ensures o'[cur..c + n] == o[cur..c] + o'[c..c + n] && rest != [] && o[inp] == rest[0] && o'[inp + 1..end] == rest[1..]
  {
    assert o'[cur..c] == o[cur..c];
    assert o[inp..end][1..] == o[inp + 1..end];
  }

  lemma LastSamples(o: Bytes, o': Bytes, cur: nat, c: nat, n: nat)
    requires |o| == |o'| && cur <= c && c + n <= |o| && forall i | 0 <= i < |o| && !(c <= i < c + n) :: o'[i] == o[i]
    ensures o'[cur..c + n] == o[cur..c] + o'[c..c + n]
  {
    assert o'[cur..c] == o[cur..c];
  }

  /** Alpha bytes are inserted from the right. */
  method InsertAlpha(out: array<nat>, cur: nat, x: nat)
    requires cur + 2 * x <= out.Length
    modifies out
    ensures forall q | 0 <= q < x :: out[cur + 2 * q] == old(out[cur + q]) && out[cur + 2 * q + 1] == 255
    ensures forall i | 0 <= i < out.Length && !(cur <= i < cur + 2 * x) :: out[i] == old(out[i])
  {
    var q := x - 1;
    while q >= 0
      invariant -1 <= q < x
      invariant forall t | q < t < x :: out[cur + 2 * t] == old(out[cur + t]) && out[cur + 2 * t + 1] == 255
      invariant forall i | 0 <= i < out.Length && !(cur + 2 * (q + 1) <= i < cur + 2 * x) :: out[i] == old(out[i])
    {
      out[cur + 2 * q + 1] := 255;
      out[cur + 2 * q] := out[cur + q];
      q := q - 1;
    }
  }

  // ---------------------------------------------------------------- all rows

  /** Pixels of one sample, or of a sample and the alpha 255. */
  ghost predicate Pixels(o: Bytes, start: nat, m: nat, vals: Bytes) {
    if m == 1 then start + |vals| <= |o| && o[start..start + |vals|] == vals
    else m == 2 && start + 2 * |vals| <= |o| && forall q | 0 <= q < |vals| :: o[start + 2 * q] == vals[q] && o[start + 2 * q + 1] == 255
  }

  lemma PixelsStay(o: Bytes, o': Bytes, start: nat, m: nat, vals: Bytes)
    requires Pixels(o, start, m, vals) && |o| == |o'| && forall i | start <= i < start + (if m == 1 then |vals| else 2 * |vals|) :: o'[i] == o[i]
    ensures Pixels(o', start, m, vals)
  {
    if m == 1 {
      assert o'[start..start + |vals|] == o[start..start + |vals|];
    }
  }

  /** One row: its samples, and its alpha if it gets one. */
  method ExpandRow(out: array<nat>, d: Dims, start: nat, scale: nat)
    requires DimsOk(d) && d.depth < 8 && start + Stride(d) <= out.Length
    modifies out
    ensures start + Shift(d) + Width(d) <= out.Length && BytesFor(d.x, d.depth) == Width(d)
    ensures Pixels(out[..], start, d.m, Unpacked(old(out[start + Shift(d)..start + Shift(d) + Width(d)]), d.depth, scale, d.x))
    ensures forall i | 0 <= i < out.Length && !(start <= i < start + Stride(d)) :: out[i] == old(out[i])
  {
    hide Unpacked, BytesFor, Mul, Width, Stride, Shift, Pixels;
    RowSizes(d);
    UnpackRow(out, start, d.x, Stride(d), d.depth, scale);
    ghost var o := out[..];
    if d.m == 2 {
      InsertAlpha(out, start, d.x);
    }
    PixelsAre(o, out[..], start, d.m, o[start..start + d.x]);
  }

  lemma PixelsAre(o: Bytes, o': Bytes, start: nat, m: nat, vals: Bytes)
    requires (m == 1 || m == 2) && |o| == |o'| && start + (if m == 1 then |vals| else 2 * |vals|) <= |o| && o[start..start + |vals|] == vals
    requires m == 1 ==> o' == o
    requires m == 2 ==> forall q | 0 <= q < |vals| :: o'[start + 2 * q] == o[start + q] && o'[start + 2 * q + 1] == 255
    ensures Pixels(o', start, m, vals)
  {
    forall q | 0 <= q < |vals|
      ensures o[start + q] == vals[q]
    {
      assert o[start..start + |vals|][q] == vals[q];
    }
  }

  lemma RowSizes(d: Dims)
    requires DimsOk(d) && d.depth < 8
    ensures BytesFor(d.x, d.depth) == Width(d) && Stride(d) == (if d.m == 1 then d.x else 2 * d.x) && (d.m == 1 || d.m == 2) && d.x <= Stride(d)
    ensures Shift(d) + Width(d) == Stride(d)
  {
    WidthFits(d);
    assert Mul(d.x, 1) == d.x;
  }

  /** The second pass of stbi__create_png_image_raw for packed samples. */
  method ExpandRows(out: array<nat>, d: Dims, grey: bool)
    requires DimsOk(d) && d.depth < 8 && out.Length == Mul(d.y, Stride(d))
    modifies out
    ensures forall j: nat | j < d.y :: RowExpanded(d, old(out[..]), out[..], j, Scale(d.depth, grey))
  {
    hide Mul, Unpacked, Stride, Pixels;
    ghost var mem := out[..];
    var start := 0;
    var scale := Scale(d.depth, grey);
    MulStep(0, Stride(d));
    for j := 0 to d.y
      invariant start == Mul(j, Stride(d))
      invariant forall t: nat | t < j :: RowExpanded(d, mem, out[..], t, scale)
      invariant forall i | start <= i < out.Length :: out[i] == mem[i]
    {
      MulOrder(j, d.y, Stride(d));
      MulStep(j, Stride(d));
      ghost var o := out[..];
      SameContent(d, mem, o, start);
      ExpandRow(out, d, start, scale);
      forall t: nat | t < j
        ensures RowExpanded(d, mem, out[..], t, scale)
      {
        ExpandedStays(d, mem, o, out[..], t, j, scale);
      }
      start := start + Stride(d);
    }
  }

  /** Row `j` shows the samples that were packed at its end. */
  ghost predicate RowExpanded(d: Dims, mem: Bytes, o: Bytes, j: nat, scale: nat)
    requires DimsOk(d) && d.depth < 8
  {
    var s := Mul(j, Stride(d));
    && s + Stride(d) <= |mem| && s + Shift(d) + Width(d) <= |mem| && BytesFor(d.x, d.depth) <= Width(d)
    && Pixels(o, s, d.m, Unpacked(mem[s + Shift(d)..s + Shift(d) + Width(d)], d.depth, scale, d.x))
  }

  lemma SameContent(d: Dims, mem: Bytes, o: Bytes, start: nat)
    requires DimsOk(d) && d.depth < 8 && |mem| == |o| && start + Stride(d) <= |o| && forall i | start <= i < |o| :: o[i] == mem[i]
    ensures start + Shift(d) + Width(d) <= |o|
    ensures o[start + Shift(d)..start + Shift(d) + Width(d)] == mem[start + Shift(d)..start + Shift(d) + Width(d)]
  {
    RowSizes(d);
  }

  lemma ExpandedStays(d: Dims, mem: Bytes, o: Bytes, o': Bytes, t: nat, j: nat, scale: nat)
    requires DimsOk(d) && d.depth < 8 && |mem| == |o| == |o'| && t < j && RowExpanded(d, mem, o, t, scale)
    requires forall i | 0 <= i < |o| && i < Mul(j, Stride(d)) :: o'[i] == o[i]
    ensures RowExpanded(d, mem, o', t, scale)
  {
    hide Mul, Unpacked, Stride, Pixels, Width, Shift, BytesFor;
    RowSizes(d);
    MulOrder(t, j, Stride(d));
    PixelsStay(o, o', Mul(t, Stride(d)), d.m, Unpacked(mem[Mul(t, Stride(d)) + Shift(d)..Mul(t, Stride(d)) + Shift(d) + Width(d)], d.depth, scale, d.x));
  }
}
