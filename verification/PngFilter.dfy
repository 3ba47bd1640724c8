/** The filters of section 6 of RFC 2083. */
module PngFilter {
  import opened InflateBits

  function Abs(x: int): nat { if x < 0 then -x else x }

  /** stbi__paeth: of left, above and upper left the one next to left + above - upper left. */
  function Paeth(a: nat, b: nat, c: nat): (r: nat)
    ensures r == a || r == b || r == c
    ensures var p := a + b - c; Abs(p - r) <= Abs(p - a) && Abs(p - r) <= Abs(p - b) && Abs(p - r) <= Abs(p - c)
  {
    var p := a + b - c;
    var pa, pb, pc := Abs(p - a), Abs(p - b), Abs(p - c);
    if pa <= pb && pa <= pc then a else if pb <= pc then b else c
  }

  /** What a filter predicts from the bytes to the left, above, and above to the left. */
  function Predict(f: nat, left: nat, up: nat, corner: nat): nat {
    match f
    case 1 => left
    case 2 => up
    case 3 => (left + up) / 2
    case 4 => Paeth(left, up, corner)
    case _ => 0
  }

  /** Averages are rounded down. Paeth takes the neighbour that is nearest to left + above - corner,
      and in a tie the left one, then the one above; the three distances are those between the others. */
  lemma PredictIs(left: nat, up: nat, corner: nat)
    ensures Predict(0, left, up, corner) == 0 && Predict(1, left, up, corner) == left && Predict(2, left, up, corner) == up
    ensures 2 * Predict(3, left, up, corner) <= left + up <= 2 * Predict(3, left, up, corner) + 1
    ensures var l, a, c := Abs(up - corner), Abs(left - corner), Abs(left + up - 2 * corner);
      && (l <= a && l <= c ==> Predict(4, left, up, corner) == left)
      && (a < l && a <= c ==> Predict(4, left, up, corner) == up)
      && (c < l && c < a ==> Predict(4, left, up, corner) == corner)
  {}

  /** The byte one pixel to the left. */
  function LeftOf(row: Bytes, n: nat, i: nat): nat
    requires i < |row|
  {
    if i < n || n == 0 then 0 else row[i - n]
  }

  /** A row as a filter writes it; `n` bytes are a pixel. */
  function Filtered(f: nat, row: Bytes, prior: Bytes, n: nat): (r: Bytes)
    requires |prior| == |row|
    ensures |r| == |row|
  {
    seq<nat>(|row|, i requires 0 <= i < |row| => (row[i] - Predict(f, LeftOf(row, n, i), prior[i], LeftOf(prior, n, i))) % 256)
  }

  /** The first `k` bytes of a row from its filtered form. */
  function Recon(f: nat, raw: Bytes, prior: Bytes, n: nat, k: nat): (r: Bytes)
    requires n > 0 && k <= |raw| && |prior| == |raw|
    ensures |r| == k
  {
    if k == 0 then []
    else
      var r := Recon(f, raw, prior, n, k - 1);
      r + [(raw[k - 1] + Predict(f, if k - 1 < n then 0 else r[k - 1 - n], prior[k - 1], LeftOf(prior, n, k - 1))) % 256]
  }

  /** Reconstruction undoes the filter. */
  lemma {:induction false} ReconUndoes(f: nat, row: Bytes, prior: Bytes, n: nat, k: nat)
    requires n > 0 && k <= |row| && |prior| == |row| && AllBytes(row)
    ensures Recon(f, Filtered(f, row, prior, n), prior, n, k) == row[..k]
    decreases k
  {
    if k > 0 {
      ReconUndoes(f, row, prior, n, k - 1);
      ReconStep(f, row, prior, n, k);
    }
  }

  lemma ReconStep(f: nat, row: Bytes, prior: Bytes, n: nat, k: nat)
    requires n > 0 && 0 < k <= |row| && |prior| == |row| && AllBytes(row)
    requires Recon(f, Filtered(f, row, prior, n), prior, n, k - 1) == row[..k - 1]
    ensures Recon(f, Filtered(f, row, prior, n), prior, n, k) == row[..k]
  {
    hide Predict, LeftOf, Filtered, AllBytes;
    LeftInPrefix(row, n, k);
    var q := FilteredAt(f, row, prior, n, k - 1);
    Undone(row[k - 1], q);
    assert row[..k] == row[..k - 1] + [row[k - 1]];
  }

  lemma LeftInPrefix(row: Bytes, n: nat, k: nat)
    requires n > 0 && 0 < k <= |row|
    ensures LeftOf(row, n, k - 1) == if k - 1 < n then 0 else row[..k - 1][k - 1 - n]
  {}

  lemma FilteredAt(f: nat, row: Bytes, prior: Bytes, n: nat, i: nat) returns (q: nat)
    requires i < |row| && |prior| == |row| && AllBytes(row)
    ensures row[i] < 256 && q == Predict(f, LeftOf(row, n, i), prior[i], LeftOf(prior, n, i))
    ensures Filtered(f, row, prior, n)[i] == (row[i] - q) % 256
  {
    hide Predict;
    q := Predict(f, LeftOf(row, n, i), prior[i], LeftOf(prior, n, i));
  }

  lemma Undone(x: nat, q: nat)
    requires x < 256
    ensures ((x - q) % 256 + q) % 256 == x
  {}

  lemma {:induction false} ReconPrefix(f: nat, raw: Bytes, prior: Bytes, n: nat, j: nat, k: nat)
    requires n > 0 && j <= k <= |raw| && |prior| == |raw|
    ensures Recon(f, raw, prior, n, k)[..j] == Recon(f, raw, prior, n, j)
    decreases k
  {
    if j < k {
      ReconPrefix(f, raw, prior, n, j, k - 1);
    }
  }

  /** Byte `t` of the reconstructed row. */
  lemma ReconAt(f: nat, raw: Bytes, prior: Bytes, n: nat, t: nat)
    requires n > 0 && t < |raw| && |prior| == |raw|
    ensures var r := Recon(f, raw, prior, n, |raw|);
      r[t] == (raw[t] + Predict(f, LeftOf(r, n, t), prior[t], LeftOf(prior, n, t))) % 256
  {
    var r := Recon(f, raw, prior, n, |raw|);
    ReconPrefix(f, raw, prior, n, t + 1, |raw|);
    ReconPrefix(f, raw, prior, n, t, |raw|);
    assert r[..t + 1][t] == r[t];
    assert t >= n ==> r[..t][t - n] == r[t - n];
  }

  // ---------------------------------------------------------------- images

  function Zeros(n: nat): (r: Bytes)
    ensures |r| == n && forall i | 0 <= i < n :: r[i] == 0
  {
    seq<nat>(n, _ => 0)
  }

  /** The row above row `j`. */
  function Above(rows: seq<Bytes>, j: nat, width: nat): Bytes
    requires j <= |rows|
  {
    if j == 0 then Zeros(width) else rows[j - 1]
  }

  ghost predicate Rect(rows: seq<Bytes>, width: nat) { forall j | 0 <= j < |rows| :: |rows[j]| == width && AllBytes(rows[j]) }

  /** The data of an image with a filter of its own for each row. */
  ghost function Encoded(rows: seq<Bytes>, filters: seq<nat>, n: nat, width: nat, j: nat): Bytes
    requires j <= |rows| == |filters| && Rect(rows, width)
    decreases |rows| - j
  {
    if j == |rows| then [] else [filters[j]] + Filtered(filters[j], rows[j], Above(rows, j, width), n) + Encoded(rows, filters, n, width, j + 1)
  }
}
