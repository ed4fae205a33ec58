/** Decoding a reported offset of a flattened image canary into columns, rows and slices past the end. */
module ImageDecode {
  import opened Arithmetic
  import opened ImageGeometry

  /** What a canary pixel should be reported as. */
  function LocationOf(m: Dims, px: Pixel): Location
  {
    if px.z >= m.kDat then Location(-1, -1, px.z - m.kDat)
    else if px.y >= m.jDat then Location(-1, px.y - m.jDat, px.z)
    else Location(px.x - m.iDat, px.y, px.z)
  }

  /** The limits the decoder works with: it reads width, height and depth, never the array size. */
  function DecoderDims(p: Pad, e: Desc): Dims
    requires (e.height == 1 || e.height >= p.h) && (e.depth == 1 || e.depth >= p.d) && e.width >= p.w
  {
    Dims(e.width, e.height, e.depth, e.width - p.w,
         if e.height == 1 then 1 else e.height - p.h,
         if e.depth == 1 then 1 else e.depth - p.d)
  }

  lemma DecoderDimsAre(p: Pad, d: Desc)
    requires ValidPad(p) && UserDesc(d)
    ensures var e := Expand(p, d);
      && (e.height == 1 || e.height >= p.h) && (e.depth == 1 || e.depth >= p.d) && e.width >= p.w
      && (DecoderDims(p, e) == DimsOf(p, e) <==> !IsArray(d.kind))
  {
    ExpandedDims(p, d);
  }

  ghost predicate Decodable(p: Pad, m: Dims) {
    ValidPad(p) && m.iLim > 0 && m.jLim > 0 && m.jDat > 0 && m.kDat > 0
  }

  /** Canary positions the decoder attributes to one slice. */
  function DecoderStride(p: Pad, m: Dims): nat { m.jDat * p.w + p.h * m.iLim }

  /** The decoder's answer for a pixel position, without its loops. */
  function DecodeAt(p: Pad, m: Dims, q: nat): Location
    requires Decodable(p, m) && DecoderStride(p, m) > 0 && m.iLim * m.jLim > 0
  {
    var S := DecoderStride(p, m);
    if q >= m.kDat * S then Location(-1, -1, Quot(q - m.kDat * S, m.iLim * m.jLim))
    else DecodeInSlice(p, m, Quot(q, S), Rem(q, S))
  }

  function DecodeInSlice(p: Pad, m: Dims, k: nat, r: nat): Location
    requires Decodable(p, m)
  {
    if r < m.jDat * p.w then Location(Rem(r, p.w), Quot(r, p.w), k)
    else Location(-1, Quot(r - m.jDat * p.w, m.iLim), k)
  }

  /** The inner loop: walks the rows of slice k; accume counts the canary pixels passed. */
  method DecodeRows(p: Pad, m: Dims, dataIndex: nat, k: nat, accume0: nat)
    returns (found: bool, loc: Location, accume: nat)
    requires Decodable(p, m) && accume0 <= dataIndex
    ensures found <==> dataIndex < accume0 + m.jDat * p.w
    ensures found ==> loc == DecodeInSlice(p, m, k, dataIndex - accume0)
    ensures !found ==> accume == accume0 + m.jDat * p.w
  {
    loc := Location(-1, -1, -1);
    accume := accume0;
    found := false;
    var j := 0;
    while j < m.jDat
      invariant 0 <= j <= m.jDat && accume == accume0 + j * p.w <= dataIndex
    {
      NextBlock(j, m.jDat, p.w);
      accume := accume + p.w;
      if dataIndex < accume {
        loc := Location(dataIndex - (accume - p.w), j, k);
        found := true;
        DivOf(j, p.w, dataIndex - accume0 - j * p.w);
        return;
      }
      assert (j + 1) * p.w == j * p.w + p.w;
      j := j + 1;
    }
  }

  lemma SliceOf(p: Pad, m: Dims, k: nat, q: nat)
    requires Decodable(p, m) && k < m.kDat && DecoderStride(p, m) > 0 && m.iLim * m.jLim > 0
    requires k * DecoderStride(p, m) <= q < k * DecoderStride(p, m) + DecoderStride(p, m)
    ensures DecodeAt(p, m, q) == DecodeInSlice(p, m, k, q - k * DecoderStride(p, m))
  {
    NextBlock(k, m.kDat, DecoderStride(p, m));
    DivOf(k, DecoderStride(p, m), q - k * DecoderStride(p, m));
  }

  /** getImageCanaryXYZ on the limits m; a pixel size of 0 is an unknown format. */
  method GetImageCanaryXYZ(p: Pad, m: Dims, dataSize: nat, badByte: nat) returns (loc: Location)
    requires Decodable(p, m)
    ensures dataSize == 0 ==> loc == Location(-1, -1, -1)
    ensures dataSize > 0 ==> DecoderStride(p, m) > 0 && m.iLim * m.jLim > 0 && loc == DecodeAt(p, m, Quot(badByte, dataSize))
  {
    loc := Location(-1, -1, -1);
    if dataSize == 0 { return; }
    var dataIndex := Quot(badByte, dataSize);
    MulMono(1, m.jDat, p.w);
    MulMono(1, m.jLim, m.iLim);
    var accume := 0;
    var k := 0;
    while k < m.kDat
      invariant 0 <= k <= m.kDat && accume == k * DecoderStride(p, m) <= dataIndex
    {
      ghost var start := accume;
      var found, l, a := DecodeRows(p, m, dataIndex, k, accume);
      assert (k + 1) * DecoderStride(p, m) == k * DecoderStride(p, m) + DecoderStride(p, m);
      if found {
        SliceOf(p, m, k, dataIndex);
        return l;
      }
      accume := a + p.h * m.iLim;
      if dataIndex < accume {
        SliceOf(p, m, k, dataIndex);
        return Location(-1, Quot(dataIndex - (accume - p.h * m.iLim), m.iLim), k);
      }
      k := k + 1;
    }
    loc := Location(-1, -1, Quot(dataIndex - accume, m.iLim * m.jLim));
  }

  // ----- decoding inverts flattening -----

  lemma QuotQuot(i: nat, a: nat, b: nat)
    requires a > 0 && b > 0
    ensures a * b > 0 && Quot(i, a * b) == Quot(Quot(i, a), b)
  {
    MulMono(1, a, b);
    var x, dx := i / a, i % a;
    var y, dy := x / b, x % b;
    assert i == x * a + dx && x == y * b + dy;
    QuotOfParts(i, a, b, y, dy, dx);
  }

  lemma QuotOfParts(i: nat, a: nat, b: nat, y: nat, dy: nat, dx: nat)
    requires dy < b && dx < a && i == (y * b + dy) * a + dx
    ensures a * b > 0 && Quot(i, a * b) == y
  {
    MulMono(1, a, b);
    Distribute(y, b, dy, a);
    NextBlock(dy, b, a);
    DivOf(y, b * a, dy * a + dx);
  }

  lemma QuotBelow(i: nat, a: nat, b: nat)
    requires a > 0 && i < b * a
    ensures Quot(i, a) < b
  {
    Split(a, i, b);
  }

  lemma SmallQuot(x: nat, b: nat)
    requires x < b
    ensures Quot(x, b) == 0 && Rem(x, b) == x
  {
    DivOf(0, b, x);
  }

  lemma DecodeOneRow(p: Pad, m: Dims, q: nat)
    requires ValidDims(p, m) && m.jLim == 1 && q < p.w && Stride(p, m) > 0 && DecoderStride(p, m) > 0
      && m.iLim * m.jLim > 0
    ensures DecodeAt(p, m, q) == Location(q, 0, 0) && PixelAt(p, m, q) == Pixel(m.iDat + q, 0, 0)
  {
    SmallQuot(q, Stride(p, m));
    SmallQuot(q, DecoderStride(p, m));
    SmallQuot(q, p.w);
  }

  lemma DecodeDepth(p: Pad, m: Dims, q: nat)
    requires ValidDims(p, m) && m.jLim > 1 && Stride(p, m) > 0 && DecoderStride(p, m) > 0 && m.iLim * m.jLim > 0
    requires q >= m.kDat * Stride(p, m)
    ensures DecodeAt(p, m, q) == LocationOf(m, PixelAt(p, m, q))
  {
    QuotQuot(q - m.kDat * Stride(p, m), m.iLim, m.jLim);
  }

  lemma DecodeSlice(p: Pad, m: Dims, q: nat)
    requires ValidDims(p, m) && m.jLim > 1 && Stride(p, m) > 0 && DecoderStride(p, m) > 0 && m.iLim * m.jLim > 0
    requires q < m.kDat * Stride(p, m)
    ensures DecodeAt(p, m, q) == LocationOf(m, PixelAt(p, m, q))
  {
    Split(Stride(p, m), q, m.kDat);
    DecodeSlicePixel(p, m, q / Stride(p, m), q % Stride(p, m));
  }

  /** With the image's own limits the decoder names the canary pixel at every flat position. */
  lemma DecodeInvertsFlatten(p: Pad, m: Dims, q: nat)
    requires ValidDims(p, m) && Stride(p, m) > 0 && q < FlatSize(p, m)
    ensures DecoderStride(p, m) > 0 && m.iLim * m.jLim > 0
    ensures DecodeAt(p, m, q) == LocationOf(m, PixelAt(p, m, q))
  {
    MulMono(1, m.jDat, p.w);
    MulMono(1, m.jLim, m.iLim);
    hide DecodeAt, PixelAt;
    if m.jLim == 1 {
      DecodeOneRow(p, m, q);
    } else if q >= m.kDat * Stride(p, m) {
      DecodeDepth(p, m, q);
    } else {
      DecodeSlice(p, m, q);
    }
  }

  lemma DecodeSlicePixel(p: Pad, m: Dims, k: nat, r: nat)
    requires ValidDims(p, m) && m.jLim > 1 && k < m.kDat && r < Stride(p, m)
    ensures DecodeInSlice(p, m, k, r) == LocationOf(m, SlicePixel(p, m, k, r))
  {
    if r < m.jDat * p.w {
      QuotBelow(r, p.w, m.jDat);
    } else {
      var i := r - m.jDat * p.w;
      QuotBelow(i, m.iLim, p.h);
      SmallQuot(Quot(i, m.iLim), p.h);
    }
  }

  /** The decoder is right about every position of every canary the copiers can produce. */
  ghost predicate DecodesAll(p: Pad, d: Desc)
    requires ValidPad(p) && UserDesc(d)
  {
    ExpandedDims(p, d);
    DecoderDimsAre(p, d);
    var m, n := DimsOf(p, Expand(p, d)), DecoderDims(p, Expand(p, d));
    && Decodable(p, n) && DecoderStride(p, n) > 0 && n.iLim * n.jLim > 0 && Stride(p, m) > 0
    && forall q: nat | q < FlatSize(p, m) :: DecodeAt(p, n, q) == LocationOf(m, PixelAt(p, m, q))
  }

  /** Decoding inverts flattening for every non-array image. */
  lemma DecodesNonArrays(p: Pad, d: Desc)
    requires ValidPad(p) && UserDesc(d) && !IsArray(d.kind)
    ensures DecodesAll(p, d)
  {
    ExpandedDims(p, d);
    DecoderDimsAre(p, d);
    var m := DimsOf(p, Expand(p, d));
    StridePositive(p, m);
    MulMono(1, m.jDat, p.w);
    MulMono(1, m.jLim, m.iLim);
    forall q: nat | q < FlatSize(p, m) ensures DecodeAt(p, m, q) == LocationOf(m, PixelAt(p, m, q)) {
      DecodeInvertsFlatten(p, m, q);
    }
  }

  /** q is a canary position the decoder gets wrong. */
  ghost predicate WrongAt(p: Pad, d: Desc, q: nat)
    requires ValidPad(p) && UserDesc(d)
  {
    ExpandedDims(p, d);
    DecoderDimsAre(p, d);
    var m, n := DimsOf(p, Expand(p, d)), DecoderDims(p, Expand(p, d));
    && Decodable(p, n) && DecoderStride(p, n) > 0 && n.iLim * n.jLim > 0 && Stride(p, m) > 0
    && q < FlatSize(p, m) && DecodeAt(p, n, q) != LocationOf(m, PixelAt(p, m, q))
  }

  /** The first pad pixel of the second image of a 1D array is taken for the first pad row. */
  lemma OneDArrayFails(p: Pad, d: Desc)
    requires ValidPad(p) && UserDesc(d) && d.kind.Image1DArray? && d.arraySize > 1
    ensures WrongAt(p, d, p.w)
  {
    ExpandedDims(p, d);
    DecoderDimsAre(p, d);
    var m, n := DimsOf(p, Expand(p, d)), DecoderDims(p, Expand(p, d));
    StridePositive(p, m);
    RowSegment(p, m, 0, 1, 0);
    assert RowStart(p, m, 0, 1) == p.w;
    SmallQuot(p.w, DecoderStride(p, n));
    SmallQuot(0, n.iLim);
    assert DecodeAt(p, n, p.w) == Location(-1, 0, 0);
  }

  /** The first pad pixel of the second image of a 2D array is taken for the first pad slice. */
  lemma TwoDArrayFails(p: Pad, d: Desc) returns (q: nat)
    requires ValidPad(p) && UserDesc(d) && d.kind.Image2DArray? && d.arraySize > 1
    ensures WrongAt(p, d, q)
  {
    ExpandedDims(p, d);
    DecoderDimsAre(p, d);
    var m, n := DimsOf(p, Expand(p, d)), DecoderDims(p, Expand(p, d));
    StridePositive(p, m);
    q := RowStart(p, m, 1, 0);
    RowSegment(p, m, 1, 0, 0);
    Starts(p, m, 1, 0);
    MulMono(1, n.jLim, n.iLim);
    DecodePastSlice(p, n, q);
  }

  lemma DecodePastSlice(p: Pad, n: Dims, q: nat)
    requires Decodable(p, n) && n.kDat == 1 && DecoderStride(p, n) > 0 && n.iLim * n.jLim > 0
      && q == DecoderStride(p, n)
    ensures DecodeAt(p, n, q) == Location(-1, -1, 0)
  {
    SmallQuot(0, n.iLim * n.jLim);
  }

  /** An array of one image is laid out as its single image's pad suggests. */
  lemma DecodesSingletonArrays(p: Pad, d: Desc)
    requires ValidPad(p) && UserDesc(d) && IsArray(d.kind) && d.arraySize == 1
    ensures DecodesAll(p, d)
  {
    ExpandedDims(p, d);
    DecoderDimsAre(p, d);
    var m, n := DimsOf(p, Expand(p, d)), DecoderDims(p, Expand(p, d));
    StridePositive(p, m);
    MulMono(1, n.jDat, p.w);
    MulMono(1, n.jLim, n.iLim);
    forall q: nat | q < FlatSize(p, m) ensures DecodeAt(p, n, q) == LocationOf(m, PixelAt(p, m, q)) {
      DecodeInvertsFlatten(p, m, q);
      SingletonDecodesAlike(p, m, n, q);
    }
  }

  /** Dropping the array dimension of a one-image array does not change what the decoder says. */
  lemma SingletonDecodesAlike(p: Pad, m: Dims, n: Dims, q: nat)
    requires ValidDims(p, m) && m.kDat == 1 && Decodable(p, n) && q < FlatSize(p, m)
    requires n.iLim == m.iLim && n.iDat == m.iDat && n.jDat == m.jDat && n.kDat == 1
    requires m.jLim > 1 && (n.jLim == m.jLim || m.kLim == 1)
    ensures DecoderStride(p, n) > 0 && n.iLim * n.jLim > 0 && m.iLim * m.jLim > 0
    ensures DecodeAt(p, n, q) == DecodeAt(p, m, q)
  {
    MulMono(1, n.jDat, p.w);
    MulMono(1, n.jLim, n.iLim);
    MulMono(1, m.jLim, m.iLim);
  }

  lemma WrongMeansNotAll(p: Pad, d: Desc, q: nat)
    requires ValidPad(p) && UserDesc(d) && WrongAt(p, d, q)
    ensures !DecodesAll(p, d)
  {
  }

  /** Exactly which images the decoder serves: non-arrays, and arrays of a single image. */
  lemma DecoderExact(p: Pad, d: Desc)
    requires ValidPad(p) && UserDesc(d)
    ensures DecodesAll(p, d) <==> !IsArray(d.kind) || d.arraySize == 1
  {
    if !IsArray(d.kind) {
      DecodesNonArrays(p, d);
    } else if d.arraySize == 1 {
      DecodesSingletonArrays(p, d);
    } else {
      var q := p.w;
      if d.kind.Image1DArray? { OneDArrayFails(p, d); } else { q := TwoDArrayFails(p, d); }
      WrongMeansNotAll(p, d, q);
    }
  }
}
