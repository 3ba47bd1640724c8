/** Whole PNG images: rows that are filtered one by one. */
module PngImage {
  import opened InflateBits
  import opened PngFilter
  import opened Png

  /** Width, height, components in the data and in the output, and bits per component. */
  datatype Dims = Dims(x: nat, y: nat, n: nat, m: nat, depth: nat)

  /** Eight bits, or fewer with a single component. */
  ghost predicate DimsOk(d: Dims) {
    d.x > 0 && d.n > 0 && (d.m == d.n || d.m == d.n + 1) && (d.depth == 8 || ((d.depth == 1 || d.depth == 2 || d.depth == 4) && d.n == 1))
  }

  /** img_width_bytes */
  function Width(d: Dims): nat { if d.depth == 8 then Mul(d.x, d.n) else (Mul(d.x, d.n) * d.depth + 7) / 8 }

  /** filter_bytes */
  function Unit(d: Dims): nat { if d.depth < 8 then 1 else d.n }

  function Stride(d: Dims): nat { Mul(d.x, d.m) }

  /** How far from the start of its output row a row of packed samples is stored. */
  function Shift(d: Dims): nat { if d.depth < 8 && Stride(d) > Width(d) then Stride(d) - Width(d) else 0 }

  lemma WidthFits(d: Dims)
    requires DimsOk(d)
    ensures 0 < Unit(d) <= Width(d) && (d.depth < 8 || d.n == d.m ==> Shift(d) + Width(d) == Stride(d))
  {
    if d.depth == 8 {
      MulStep(0, d.n);
      if d.x > 1 { MulOrder(0, d.x, d.n); }
    } else {
      assert Mul(d.x, 1) == d.x && Mul(d.x, 2) == 2 * d.x;
    }
  }

  predicate IsFlat(d: Dims) { d.depth < 8 || d.n == d.m }

  /** What row `j` of the output holds. */
  ghost function Content(d: Dims, o: Bytes, j: nat): (r: Bytes)
    requires DimsOk(d) && |o| >= Mul(j, Stride(d)) + Stride(d)
    ensures |r| == Width(d)
  {
    WidthFits(d);
    var s := Mul(j, Stride(d));
    if IsFlat(d) then o[s + Shift(d)..s + Shift(d) + Width(d)] else Packed(o[s..s + Stride(d)], d.n, d.m, d.x)
  }

  // ---------------------------------------------------------------- what the code computes

  ghost predicate Sizes(d: Dims, raw: Bytes, mem: Bytes) {
    DimsOk(d) && |raw| >= Mul(d.y, Width(d) + 1) && |mem| == Mul(d.y, Stride(d))
  }

  /** The bytes the code takes for the row above row |rows|: it looks for them at the start of
      the output row, where packed samples are not. `mem` is what was in the output before. */
  ghost function AboveSeen(d: Dims, mem: Bytes, rows: seq<Bytes>): (r: Bytes)
    requires DimsOk(d) && |rows| < d.y && |mem| == Mul(d.y, Stride(d)) && forall j | 0 <= j < |rows| :: |rows[j]| == Width(d)
    ensures |r| == Width(d)
  {
    if rows == [] then Zeros(Width(d))
    else
      var s := Mul(|rows| - 1, Stride(d));
      MulOrder(|rows| - 1, d.y, Stride(d));
      (mem[s..s + Shift(d)] + rows[|rows| - 1])[..Width(d)]
  }

  ghost function DecodedRow(d: Dims, raw: Bytes, mem: Bytes, rows: seq<Bytes>): (r: Bytes)
    requires Sizes(d, raw, mem) && |rows| < d.y && forall j | 0 <= j < |rows| :: |rows[j]| == Width(d)
    ensures |r| == Width(d)
  {
    WidthFits(d);
    MulOrder(|rows|, d.y, Width(d) + 1);
    var s := Mul(|rows|, Width(d) + 1);
    Recon(raw[s], raw[s + 1..s + 1 + Width(d)], AboveSeen(d, mem, rows), Unit(d), Width(d))
  }

  ghost function Decoded(d: Dims, raw: Bytes, mem: Bytes, j: nat): (r: seq<Bytes>)
    requires Sizes(d, raw, mem) && j <= d.y
    ensures |r| == j && forall t | 0 <= t < j :: |r[t]| == Width(d)
  {
    if j == 0 then []
    else var rows := Decoded(d, raw, mem, j - 1); rows + [DecodedRow(d, raw, mem, rows)]
  }

  lemma {:induction false} DecodedPrefix(d: Dims, raw: Bytes, mem: Bytes, t: nat, j: nat)
    requires Sizes(d, raw, mem) && t < j <= d.y
    ensures Decoded(d, raw, mem, j)[t] == Decoded(d, raw, mem, t + 1)[t]
    decreases j
  {
    hide DecodedRow, Mul;
    if t < j - 1 { DecodedPrefix(d, raw, mem, t, j - 1); }
  }

  // ---------------------------------------------------------------- when that is right

  /** The data of an image, row by row. */
  lemma {:induction false} EncodedAt(rows: seq<Bytes>, filters: seq<nat>, n: nat, width: nat, i: nat, j: nat)
    requires i <= j < |rows| == |filters| && Rect(rows, width)
    ensures var e := Encoded(rows, filters, n, width, i); var s := Mul(j - i, width + 1);
      && s + 1 + width <= |e| && e[s] == filters[j] && e[s + 1..s + 1 + width] == Filtered(filters[j], rows[j], Above(rows, j, width), n)
    decreases j - i
  {
    hide Mul, Filtered, Above, Encoded;
    AboveLength(rows, i, width);
    EncodedFirst(rows, filters, n, width, i);
    var row := Filtered(filters[i], rows[i], Above(rows, i, width), n);
    var rest := Encoded(rows, filters, n, width, i + 1);
    if i == j {
      MulStep(0, width + 1);
      FirstPart(filters[i], row, rest);
    } else {
      EncodedAt(rows, filters, n, width, i + 1, j);
      MulStep(j - i - 1, width + 1);
      LaterPart([filters[i]] + row, rest, Mul(j - i - 1, width + 1), width);
    }
  }

  lemma EncodedFirst(rows: seq<Bytes>, filters: seq<nat>, n: nat, width: nat, i: nat)
    requires i < |rows| == |filters| && Rect(rows, width)
    ensures Encoded(rows, filters, n, width, i)
      == [filters[i]] + Filtered(filters[i], rows[i], Above(rows, i, width), n) + Encoded(rows, filters, n, width, i + 1)
  {}

  lemma AboveLength(rows: seq<Bytes>, j: nat, width: nat)
    requires j <= |rows| && Rect(rows, width)
    ensures |Above(rows, j, width)| == width
  {}

  lemma FirstPart(f: nat, row: Bytes, rest: Bytes)
    ensures ([f] + row + rest)[0] == f && ([f] + row + rest)[1..1 + |row|] == row
  {}

  lemma LaterPart(first: Bytes, rest: Bytes, s: nat, width: nat)
    requires s + 1 + width <= |rest|
    ensures (first + rest)[s + |first|] == rest[s]
    ensures (first + rest)[s + |first| + 1..s + |first| + 1 + width] == rest[s + 1..s + 1 + width]
  {}

  lemma {:induction false} EncodedLength(rows: seq<Bytes>, filters: seq<nat>, n: nat, width: nat, i: nat)
    requires i <= |rows| == |filters| && Rect(rows, width)
    ensures |Encoded(rows, filters, n, width, i)| == Mul(|rows| - i, width + 1)
    decreases |rows| - i
  {
    if i < |rows| {
      EncodedLength(rows, filters, n, width, i + 1);
      MulStep(|rows| - i - 1, width + 1);
    } else {
      MulStep(0, width + 1);
    }
  }

  /** Without a row above the filters none and sub do the same. */
  lemma {:induction false} ReconAnyPrior(f: nat, raw: Bytes, a: Bytes, b: Bytes, n: nat, k: nat)
    requires f <= 1 && n > 0 && k <= |raw| == |a| == |b|
    ensures Recon(f, raw, a, n, k) == Recon(f, raw, b, n, k)
    decreases k
  {
    if k > 0 { ReconAnyPrior(f, raw, a, b, n, k - 1); }
  }

  /** An image to be encoded, with one filter for each row. */
  ghost predicate Encodable(d: Dims, rows: seq<Bytes>, filters: seq<nat>) {
    DimsOk(d) && |rows| == |filters| == d.y && Rect(rows, Width(d)) && forall j | 0 <= j < d.y :: filters[j] <= 4
  }

  ghost function DataOf(d: Dims, rows: seq<Bytes>, filters: seq<nat>): (e: Bytes)
    requires Encodable(d, rows, filters)
    ensures |e| == Mul(d.y, Width(d) + 1)
  {
    EncodedLength(rows, filters, Unit(d), Width(d), 0);
    Encoded(rows, filters, Unit(d), Width(d), 0)
  }

  /** The row above is where the code looks for it, or row `j` does not need it. */
  ghost predicate RowFine(d: Dims, filters: seq<nat>, j: nat)
    requires j < |filters|
  {
    j == 0 || Shift(d) == 0 || filters[j] <= 1
  }

  /** One more row is decoded as it was encoded. */
  lemma DecodesRow(d: Dims, rows: seq<Bytes>, filters: seq<nat>, mem: Bytes, j: nat)
    requires Encodable(d, rows, filters) && |mem| == Mul(d.y, Stride(d)) && j < d.y && RowFine(d, filters, j)
    ensures DecodedRow(d, DataOf(d, rows, filters), mem, rows[..j]) == rows[j]
  {
    hide Mul, Recon, Encoded, Predict, AllBytes;
    var e := DataOf(d, rows, filters);
    EncodedAt(rows, filters, Unit(d), Width(d), 0, j);
    WidthFits(d);
    MulOrder(j, d.y, Width(d) + 1);
    var above, raw := Above(rows, j, Width(d)), Filtered(filters[j], rows[j], Above(rows, j, Width(d)), Unit(d));
    var seen := AboveSeen(d, mem, rows[..j]);
    if j > 0 && Shift(d) > 0 {
      ReconAnyPrior(filters[j], raw, seen, above, Unit(d), Width(d));
    } else {
      if j > 0 { MulOrder(j - 1, d.y, Stride(d)); }
      assert seen == above;
    }
    ReconUndoes(filters[j], rows[j], above, Unit(d), Width(d));
    assert rows[j][..Width(d)] == rows[j];
  }

  lemma {:induction false} DecodesRows(d: Dims, rows: seq<Bytes>, filters: seq<nat>, mem: Bytes, j: nat)
    requires Encodable(d, rows, filters) && |mem| == Mul(d.y, Stride(d)) && j <= d.y
    requires forall t: nat {:trigger RowFine(d, filters, t)} | t < j :: RowFine(d, filters, t)
    ensures Decoded(d, DataOf(d, rows, filters), mem, j) == rows[..j]
    decreases j
  {
    hide DecodedRow, RowFine, DataOf, Mul;
    if j > 0 {
      DecodesRows(d, rows, filters, mem, j - 1);
      assert RowFine(d, filters, j - 1);
      DecodesRow(d, rows, filters, mem, j - 1);
      assert rows[..j] == rows[..j - 1] + [rows[j - 1]];
    }
  }

  // ---------------------------------------------------------------- when it is wrong

  /** Two rows above that differ in their first byte by two show in the first byte of the row. */
  lemma FirstByteShows(f: nat, row: Bytes, above: Bytes, seen: Bytes, n: nat)
    requires 2 <= f <= 4 && n > 0 && |above| == |seen| == |row| > 0 && row[0] < 256 && above[0] < 256 && seen[0] == (above[0] + 2) % 256
    ensures Recon(f, Filtered(f, row, above, n), seen, n, 1)[0] != row[0]
  {
    var raw := Filtered(f, row, above, n);
    assert raw[0] == (row[0] - Predict(f, 0, above[0], 0)) % 256;
    assert Recon(f, raw, seen, n, 0) == [];
    assert Recon(f, raw, seen, n, 1)[0] == (raw[0] + Predict(f, 0, seen[0], 0)) % 256;
    var p, q := Predict(f, 0, above[0], 0), Predict(f, 0, seen[0], 0);
    PredictionsDiffer(f, above[0]);
    DifferModulo(row[0], p, q);
  }

  lemma PredictionsDiffer(f: nat, b: nat)
    requires 2 <= f <= 4 && b < 256
    ensures var p, q := Predict(f, 0, b, 0), Predict(f, 0, (b + 2) % 256, 0); p != q && p < 256 && q < 256
  {}

  lemma DifferModulo(x: nat, p: nat, q: nat)
    requires x < 256 && p < 256 && q < 256 && p != q
    ensures ((x - p) % 256 + q) % 256 != x
  {}

  /** The first row that is decoded from the wrong bytes. */
  lemma WrongRow(d: Dims, rows: seq<Bytes>, filters: seq<nat>, j: nat) returns (mem: Bytes)
    requires Encodable(d, rows, filters) && j < d.y && !RowFine(d, filters, j) && forall t: nat | t < j :: RowFine(d, filters, t)
    ensures |mem| == Mul(d.y, Stride(d)) && Decoded(d, DataOf(d, rows, filters), mem, d.y) != rows
  {
    hide Mul, Recon, Encoded, Predict, RowFine, DataOf, Filtered;
    WidthFits(d);
    assert 2 <= filters[j] && j > 0 && Shift(d) > 0 by { NotFine(d, filters, j); }
    var g := (rows[j - 1][0] + 2) % 256;
    mem := seq<nat>(Mul(d.y, Stride(d)), _ => g);
    var e := DataOf(d, rows, filters);
    DecodesRows(d, rows, filters, mem, j);
    WrongByte(d, rows, filters, mem, j, g);
    DecodedPrefix(d, e, mem, j, d.y);
    assert Decoded(d, e, mem, j + 1)[j] == DecodedRow(d, e, mem, rows[..j]);
  }

  lemma NotFine(d: Dims, filters: seq<nat>, j: nat)
    requires j < |filters| && !RowFine(d, filters, j)
    ensures filters[j] >= 2 && j > 0 && Shift(d) > 0
  {}

  lemma WrongByte(d: Dims, rows: seq<Bytes>, filters: seq<nat>, mem: Bytes, j: nat, g: nat)
    requires Encodable(d, rows, filters) && 0 < j < d.y && Shift(d) > 0 && filters[j] >= 2
    requires g == (rows[j - 1][0] + 2) % 256 && |mem| == Mul(d.y, Stride(d)) && forall i | 0 <= i < |mem| :: mem[i] == g
    ensures DecodedRow(d, DataOf(d, rows, filters), mem, rows[..j]) != rows[j]
  {
    hide Mul, Recon, Encoded, Predict, Filtered;
    WidthFits(d);
    EncodedAt(rows, filters, Unit(d), Width(d), 0, j);
    MulOrder(j, d.y, Width(d) + 1);
    MulOrder(j - 1, d.y, Stride(d));
    var above, seen := Above(rows, j, Width(d)), AboveSeen(d, mem, rows[..j]);
    var raw := Filtered(filters[j], rows[j], above, Unit(d));
    assert seen[0] == g;
    FirstByteShows(filters[j], rows[j], above, seen, Unit(d));
    ReconPrefix(filters[j], raw, seen, Unit(d), 1, Width(d));
    var r := Recon(filters[j], raw, seen, Unit(d), Width(d));
    assert r[..1][0] == r[0];
  }

  /** The code decodes every image exactly if no row after the first one uses a filter that
      looks at the row above, or that row is where it looks. For eight bits it always is. */
  lemma ExactlyWhen(d: Dims, rows: seq<Bytes>, filters: seq<nat>)
    requires Encodable(d, rows, filters)
    ensures (forall mem: Bytes | |mem| == Mul(d.y, Stride(d)) :: Decoded(d, DataOf(d, rows, filters), mem, d.y) == rows)
      <==> (forall j: nat | j < d.y :: RowFine(d, filters, j))
    ensures d.depth == 8 ==> forall j: nat | j < d.y :: RowFine(d, filters, j)
  {
    hide Mul, Decoded, DataOf;
    if j: nat :| j < d.y && !RowFine(d, filters, j) {
      var k := FirstWrong(d, filters, j);
      var mem := WrongRow(d, rows, filters, k);
    } else {
      forall mem: Bytes | |mem| == Mul(d.y, Stride(d))
        ensures Decoded(d, DataOf(d, rows, filters), mem, d.y) == rows
      {
        DecodesRows(d, rows, filters, mem, d.y);
        assert rows[..d.y] == rows;
      }
    }
  }

  lemma {:induction false} FirstWrong(d: Dims, filters: seq<nat>, j: nat) returns (k: nat)
    requires j < |filters| && !RowFine(d, filters, j)
    ensures k <= j && !RowFine(d, filters, k) && forall t: nat | t < k :: RowFine(d, filters, t)
    decreases j
  {
    if t: nat :| t < j && !RowFine(d, filters, t) {
      k := FirstWrong(d, filters, t);
    } else {
      k := j;
    }
  }

  // ---------------------------------------------------------------- the loop over the rows

  /** Row `t` is in the output, and nothing in front of it has been touched. */
  ghost predicate RowIn(d: Dims, raw: Bytes, mem: Bytes, o: Bytes, t: nat)
    requires Sizes(d, raw, mem) && |o| == |mem|
  {
    t < d.y ==>
      var s := Mul(t, Stride(d));
      && s + Stride(d) <= |o| && Content(d, o, t) == Decoded(d, raw, mem, t + 1)[t]
      && (IsFlat(d) ==> s + Shift(d) <= |o| && o[s..s + Shift(d)] == mem[s..s + Shift(d)])
      && (!IsFlat(d) ==> Opaque(o, s, d.n, d.x))
  }

  /** Rows in front of `s` do not change when only what is behind it does. */
  lemma RowStays(d: Dims, raw: Bytes, mem: Bytes, o: Bytes, o': Bytes, t: nat, j: nat)
    requires Sizes(d, raw, mem) && |o| == |o'| == |mem| && t < j < d.y && RowIn(d, raw, mem, o, t)
    requires forall i | 0 <= i < |o| && i < Mul(j, Stride(d)) :: o'[i] == o[i]
    ensures RowIn(d, raw, mem, o', t)
  {
    hide Mul, Packed, Decoded;
    MulOrder(t, j, Stride(d));
    WidthFits(d);
    var s := Mul(t, Stride(d));
    assert o'[s..s + Stride(d)] == o[s..s + Stride(d)];
    if IsFlat(d) {
      assert o'[s + Shift(d)..s + Shift(d) + Width(d)] == o[s + Shift(d)..s + Shift(d) + Width(d)];
      assert o'[s..s + Shift(d)] == o[s..s + Shift(d)];
    } else {
      OpaqueStays(o, o', s, d.n, d.x);
    }
  }

  lemma OpaqueStays(o: Bytes, o': Bytes, s: nat, n: nat, x: nat)
    requires Opaque(o, s, n, x) && |o| == |o'| && s + Mul(x, n + 1) <= |o| && o'[s..s + Mul(x, n + 1)] == o[s..s + Mul(x, n + 1)]
    ensures Opaque(o', s, n, x)
  {
    hide Mul;
    forall q: nat | q < x
      ensures AlphaAt(o', s, n, q)
    {
      assert AlphaAt(o, s, n, q);
      MulOrder(q, x, n + 1);
      assert o'[s..s + Mul(x, n + 1)][Mul(q, n + 1) + n] == o[s..s + Mul(x, n + 1)][Mul(q, n + 1) + n];
    }
  }

  /** Row `j` of the data and of the output. */
  ghost predicate Places(d: Dims, raw: Bytes, mem: Bytes, j: nat, p: nat, start: nat) {
    && Sizes(d, raw, mem) && j < d.y && p == Mul(j, Width(d) + 1) && start == Mul(j, Stride(d))
    && p + 1 + Width(d) <= |raw| && start + Stride(d) <= |mem| && (j > 0 ==> start >= Stride(d) && start - Stride(d) == Mul(j - 1, Stride(d)))
    && 0 < Unit(d) <= Width(d) && (IsFlat(d) ==> Shift(d) + Width(d) == Stride(d)) && (!IsFlat(d) ==> Shift(d) == 0)
  }

  lemma PlacesOf(d: Dims, raw: Bytes, mem: Bytes, j: nat)
    requires Sizes(d, raw, mem) && j < d.y
    ensures Places(d, raw, mem, j, Mul(j, Width(d) + 1), Mul(j, Stride(d)))
  {
    hide Mul;
    WidthFits(d);
    MulOrder(j, d.y, Stride(d));
    MulOrder(j, d.y, Width(d) + 1);
    if j > 0 { MulStep(j - 1, Stride(d)); }
  }

  /** The bytes a flat row takes from the row above. */
  lemma FlatSeen(d: Dims, raw: Bytes, mem: Bytes, o: Bytes, j: nat, p: nat, start: nat)
    requires Places(d, raw, mem, j, p, start) && |o| == |mem| && IsFlat(d) && (j > 0 ==> RowIn(d, raw, mem, o, j - 1))
    ensures Seen(o, j == 0, start - Stride(d), Width(d)) == AboveSeen(d, mem, Decoded(d, raw, mem, j))
  {
    hide Mul, Decoded, Packed, Width, Stride, Shift, DimsOk, RowIn, Content;
    if j > 0 {
      LastRow(d, raw, mem, o, j, p, start);
      TwoParts(o, Mul(j - 1, Stride(d)), Shift(d), Width(d));
    }
  }

  lemma LastRow(d: Dims, raw: Bytes, mem: Bytes, o: Bytes, j: nat, p: nat, start: nat)
    requires Places(d, raw, mem, j, p, start) && |o| == |mem| && IsFlat(d) && j > 0 && RowIn(d, raw, mem, o, j - 1)
    ensures var s := start - Stride(d);
      o[s..s + Shift(d)] == mem[s..s + Shift(d)] && o[s + Shift(d)..s + Shift(d) + Width(d)] == Decoded(d, raw, mem, j)[j - 1]
  {
    hide Mul, Decoded, Packed, Width, Stride, Shift, DimsOk;
  }

  lemma TwoParts(o: Bytes, s: nat, a: nat, w: nat)
    requires s + a + w <= |o|
    ensures (o[s..s + a] + o[s + a..s + a + w])[..w] == o[s..s + w]
  {}

  /** A row without alpha. */
  method FlatImageRow(img: PngRaw, d: Dims, ghost mem: Bytes, ghost j: nat, first: bool, f: nat, p: nat, start: nat)
    requires Places(d, img.raw, mem, j, p, start) && img.out.Length == |mem| && IsFlat(d) && first == (j == 0) && f == img.raw[p] <= 4
    requires j > 0 ==> RowIn(d, img.raw, mem, img.out[..], j - 1)
    requires forall i | 0 <= i < |mem| && start <= i :: img.out[i] == mem[i]
    modifies img.out
    ensures RowIn(d, img.raw, mem, img.out[..], j)
    ensures forall i | 0 <= i < |mem| && !(start <= i < start + Stride(d)) :: img.out[i] == old(img.out[i])
  {
    hide Mul, Recon, Packed, Decoded, Width, Stride, Shift, RowIn, Seen, AboveSeen;
    FlatSeen(d, img.raw, mem, img.out[..], j, p, start);
    DecodedLast(d, img.raw, mem, j);
    img.FlatRow(f, first, p + 1, start + Shift(d), start - Stride(d), Width(d), Unit(d));
    FlatIsIn(d, img.raw, mem, img.out[..], j, p, start);
  }

  lemma FlatIsIn(d: Dims, raw: Bytes, mem: Bytes, o: Bytes, j: nat, p: nat, start: nat)
    requires Places(d, raw, mem, j, p, start) && |o| == |mem| && IsFlat(d)
    requires o[start + Shift(d)..start + Shift(d) + Width(d)] == Decoded(d, raw, mem, j + 1)[j]
    requires forall i | start <= i < start + Shift(d) :: o[i] == mem[i]
    ensures RowIn(d, raw, mem, o, j)
  {
    hide Mul, Recon, Packed, Decoded, Width, Stride, Shift;
  }

  lemma DecodedLast(d: Dims, raw: Bytes, mem: Bytes, j: nat)
    requires Sizes(d, raw, mem) && j < d.y
    ensures Decoded(d, raw, mem, j + 1)[j] == DecodedRow(d, raw, mem, Decoded(d, raw, mem, j))
  {}

  /** A row that gets an alpha. */
  method AlphaImageRow(img: PngRaw, d: Dims, ghost mem: Bytes, ghost j: nat, first: bool, f: nat, p: nat, start: nat)
    requires Places(d, img.raw, mem, j, p, start) && img.out.Length == |mem| && !IsFlat(d) && first == (j == 0) && f == img.raw[p] <= 4
    requires j > 0 ==> RowIn(d, img.raw, mem, img.out[..], j - 1)
    modifies img.out
    ensures RowIn(d, img.raw, mem, img.out[..], j)
    ensures forall i | 0 <= i < |mem| && !(start <= i < start + Stride(d)) :: img.out[i] == old(img.out[i])
  {
    hide Mul, Recon, Packed, Decoded, Width, Stride, Shift, RowIn, PngRaw.AlphaRecon, PngRaw.AlphaAbove, Opaque, PngRaw.AlphaRoom, AboveSeen, DecodedRow;
    ghost var job := AlphaJob(f, first, p + 1, start, start - Stride(d), d.x, d.n);
    AlphaSizes(d);
    AlphaSeen(d, img, mem, img.out[..], j, p, start, job);
    DecodedLast(d, img.raw, mem, j);
    img.AlphaRow(f, first, p + 1, start, start - Stride(d), d.x, d.n);
    AlphaIsIn(d, img.raw, mem, img.out[..], j, p, start);
  }

  lemma AlphaIsIn(d: Dims, raw: Bytes, mem: Bytes, o: Bytes, j: nat, p: nat, start: nat)
    requires Places(d, raw, mem, j, p, start) && |o| == |mem| && !IsFlat(d) && d.m == d.n + 1 && Stride(d) == Mul(d.x, d.n + 1)
    requires Packed(o[start..start + Stride(d)], d.n, d.m, d.x) == Decoded(d, raw, mem, j + 1)[j] && Opaque(o, start, d.n, d.x)
    ensures RowIn(d, raw, mem, o, j)
  {
    hide Mul, Recon, Packed, Decoded, Width, Stride, Shift;
  }

  lemma AlphaSizes(d: Dims)
    requires DimsOk(d) && !IsFlat(d)
    ensures d.depth == 8 && d.m == d.n + 1 && Stride(d) == Mul(d.x, d.n + 1) && Width(d) == Mul(d.x, d.n) && Unit(d) == d.n
  {}

  lemma AlphaSeen(d: Dims, img: PngRaw, mem: Bytes, o: Bytes, j: nat, p: nat, start: nat, job: AlphaJob)
    requires Places(d, img.raw, mem, j, p, start) && img.out.Length == |mem| == |o| && !IsFlat(d) && img.raw[p] <= 4
    requires job == AlphaJob(img.raw[p], j == 0, p + 1, start, start - Stride(d), d.x, d.n)
    requires j > 0 ==> RowIn(d, img.raw, mem, o, j - 1)
    ensures img.AlphaRoom(job) && img.AlphaRecon(job, o) == DecodedRow(d, img.raw, mem, Decoded(d, img.raw, mem, j))
  {
    hide Mul, Recon, Packed, Decoded, Width, Stride, Shift;
    AlphaSizes(d);
    var rows := Decoded(d, img.raw, mem, j);
    AlphaAboveIs(d, img, mem, o, j, p, start, job, rows);
  }

  lemma AlphaAboveIs(d: Dims, img: PngRaw, mem: Bytes, o: Bytes, j: nat, p: nat, start: nat, job: AlphaJob, rows: seq<Bytes>)
    requires Places(d, img.raw, mem, j, p, start) && img.out.Length == |mem| == |o| && !IsFlat(d) && img.raw[p] <= 4
    requires job == AlphaJob(img.raw[p], j == 0, p + 1, start, start - Stride(d), d.x, d.n) && rows == Decoded(d, img.raw, mem, j)
    requires j > 0 ==> RowIn(d, img.raw, mem, o, j - 1)
    ensures img.AlphaRoom(job) && img.AlphaAbove(job, o) == AboveSeen(d, mem, rows)
  {
    hide Mul, Recon, Packed, Decoded, Width, Stride, Shift;
    AlphaSizes(d);
    if j > 0 {
      var s := Mul(j - 1, Stride(d));
      assert mem[s..s + 0] + rows[j - 1] == rows[j - 1] && rows[j - 1][..Width(d)] == rows[j - 1];
    }
  }

  /** stbi__create_png_image_raw up to the unpacking of samples: it fails exactly for data of
      the wrong length and for unknown filters. */
  method CreateRows(img: PngRaw, d: Dims, whole: bool) returns (ok: bool)
    requires DimsOk(d) && img.out.Length == Mul(d.y, Stride(d))
    modifies img.out
    ensures var len := Mul(d.y, Width(d) + 1);
      ok <==> (if whole then |img.raw| == len else |img.raw| >= len) && forall j: nat | j < d.y :: FilterOk(d, img.raw, j)
    ensures ok ==> Sizes(d, img.raw, old(img.out[..])) && forall j: nat | j < d.y :: RowIn(d, img.raw, old(img.out[..]), img.out[..], j)
  {
    hide Mul, RowIn;
    ghost var mem := img.out[..];
    var len := Mul(d.y, Width(d) + 1);
    if (whole && |img.raw| != len) || |img.raw| < len { return false; }
    var p, start := 0, 0;
    MulStep(0, Width(d) + 1);
    MulStep(0, Stride(d));
    for j := 0 to d.y
      invariant p == Mul(j, Width(d) + 1) && start == Mul(j, Stride(d))
      invariant forall t: nat | t < j :: FilterOk(d, img.raw, t) && RowIn(d, img.raw, mem, img.out[..], t)
      invariant forall i | 0 <= i < |mem| && start <= i :: img.out[i] == mem[i]
    {
      PlacesOf(d, img.raw, mem, j);
      MulStep(j, Width(d) + 1);
      MulStep(j, Stride(d));
      ghost var o := img.out[..];
      var f := img.raw[p];
      if f > 4 {
        assert !FilterOk(d, img.raw, j);
        return false;
      }
      if IsFlat(d) {
        FlatImageRow(img, d, mem, j, j == 0, f, p, start);
      } else {
        AlphaImageRow(img, d, mem, j, j == 0, f, p, start);
      }
      forall t: nat | t < j
        ensures RowIn(d, img.raw, mem, img.out[..], t)
      {
        RowStays(d, img.raw, mem, o, img.out[..], t, j);
      }
      p, start := p + (Width(d) + 1), start + Stride(d);
    }
    ok := true;
  }

  ghost predicate FilterOk(d: Dims, raw: Bytes, j: nat) { Mul(j, Width(d) + 1) < |raw| && raw[Mul(j, Width(d) + 1)] <= 4 }
}
