/** stbi__create_png_image_raw as a whole: from the data of an image to its pixels. */
module PngDecode {
  import opened InflateBits
  import opened PngFilter
  import opened Png
  import opened PngImage
  import opened PngUnpack

  /** Row `j` of the output shows the bytes `row`: with the alpha 255 behind each pixel if one
      has been asked for, and unpacked if there are several samples in a byte. */
  ghost predicate Shows(d: Dims, o: Bytes, j: nat, row: Bytes, grey: bool) {
    var s := Mul(j, Stride(d));
    && DimsOk(d) && |row| == Width(d) && s + Stride(d) <= |o|
    && if d.depth == 8 then Content(d, o, j) == row && (!IsFlat(d) ==> Opaque(o, s, d.n, d.x))
       else BytesFor(d.x, d.depth) <= |row| && Pixels(o, s, d.m, Unpacked(row, d.depth, Scale(d.depth, grey), d.x))
  }

  /** It shows what has been computed for the row. */
  ghost predicate ShowsDecoded(d: Dims, raw: Bytes, mem: Bytes, o: Bytes, j: nat, grey: bool)
    requires Sizes(d, raw, mem)
  {
    j < d.y && Shows(d, o, j, Decoded(d, raw, mem, j + 1)[j], grey)
  }

  /** Both passes. */
  method CreateImage(img: PngRaw, d: Dims, whole: bool, grey: bool) returns (ok: bool)
    requires DimsOk(d) && img.out.Length == Mul(d.y, Stride(d))
    modifies img.out
    ensures ok <==> (if whole then |img.raw| == Mul(d.y, Width(d) + 1) else |img.raw| >= Mul(d.y, Width(d) + 1)) && forall j: nat | j < d.y :: FilterOk(d, img.raw, j)
    ensures ok ==> Sizes(d, img.raw, old(img.out[..])) && forall j: nat | j < d.y :: ShowsDecoded(d, img.raw, old(img.out[..]), img.out[..], j, grey)
  {
    hide Mul, RowIn, Shows, RowExpanded, FilterOk, Decoded;
    ghost var mem := img.out[..];
    ok := CreateRows(img, d, whole);
    ghost var packed := img.out[..];
    if ok && d.depth < 8 {
      ExpandRows(img.out, d, grey);
    }
    if ok {
      forall j: nat | j < d.y
        ensures ShowsDecoded(d, img.raw, mem, img.out[..], j, grey)
      {
        RowShows(d, img.raw, mem, packed, img.out[..], j, grey);
      }
    }
  }

  lemma RowShows(d: Dims, raw: Bytes, mem: Bytes, packed: Bytes, o: Bytes, j: nat, grey: bool)
    requires Sizes(d, raw, mem) && |packed| == |mem| == |o| && j < d.y && RowIn(d, raw, mem, packed, j)
    requires d.depth == 8 ==> o == packed
    requires d.depth < 8 ==> RowExpanded(d, packed, o, j, Scale(d.depth, grey))
    ensures Shows(d, o, j, Decoded(d, raw, mem, j + 1)[j], grey)
  {
    hide Mul, Decoded, Packed, Pixels, Unpacked, Opaque;
  }

  /** Every row can be decoded: the row above is where the code looks for it, or not needed. */
  ghost predicate AllFine(d: Dims, filters: seq<nat>) { forall j: nat | j < |filters| :: RowFine(d, filters, j) }

  /** Images come back as they were encoded, whatever the size and whatever filter each row uses,
      with or without an alpha; below eight bits, if no row needs a row above that is not found. */
  method DecodeEncoded(img: PngRaw, d: Dims, grey: bool, ghost rows: seq<Bytes>, ghost filters: seq<nat>) returns (ok: bool)
    requires Encodable(d, rows, filters) && img.raw == DataOf(d, rows, filters) && img.out.Length == Mul(d.y, Stride(d))
    modifies img.out
    ensures ok && (d.depth == 8 || AllFine(d, filters) ==> forall j: nat | j < d.y :: Shows(d, img.out[..], j, rows[j], grey))
  {
    hide Mul, Shows, RowFine, DataOf, Decoded, FilterOk;
    ghost var mem := img.out[..];
    FiltersOk(d, rows, filters);
    ok := CreateImage(img, d, true, grey);
    if d.depth == 8 { EightBitsFine(d, filters); }
    if AllFine(d, filters) {
      forall j: nat | j < d.y
        ensures Shows(d, img.out[..], j, rows[j], grey)
      {
        assert ShowsDecoded(d, img.raw, mem, img.out[..], j, grey);
        DecodesRows(d, rows, filters, mem, j + 1);
        assert rows[..j + 1][j] == rows[j];
      }
    }
  }

  lemma FiltersOk(d: Dims, rows: seq<Bytes>, filters: seq<nat>)
    requires Encodable(d, rows, filters)
    ensures |DataOf(d, rows, filters)| == Mul(d.y, Width(d) + 1)
    ensures forall j: nat | j < d.y :: FilterOk(d, DataOf(d, rows, filters), j)
  {
    hide Mul, Encoded, Filtered, Above;
    forall j: nat | j < d.y
      ensures FilterOk(d, DataOf(d, rows, filters), j)
    {
      EncodedAt(rows, filters, Unit(d), Width(d), 0, j);
    }
  }

  /** With eight bits every row is fine. */
  lemma EightBitsFine(d: Dims, filters: seq<nat>)
    requires d.depth == 8
    ensures AllFine(d, filters)
  {}
}
