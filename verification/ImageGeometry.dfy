/** Image canaries: how a description is expanded, which pixels are canary, and the order in which
    they are numbered when flattened. Pad widths are symbolic; IMAGE_PAD holds the tool's values. */
module ImageGeometry {
  import opened Arithmetic

  datatype Pad = Pad(w: nat, h: nat, d: nat)

  const IMAGE_PAD := Pad(16, 16, 16)

  ghost predicate ValidPad(p: Pad) { p.w > 0 && p.h > 0 && p.d > 0 }

  datatype ImageType = Image1D | Image1DBuffer | Image1DArray | Image2D | Image2DArray | Image3D

  datatype Desc = Desc(kind: ImageType, width: nat, height: nat, depth: nat, arraySize: nat)

  /** The fields a description does not use are set to 1 on creation. */
  function Normalize(d: Desc): Desc {
    match d.kind
    case Image1D => d.(height := 1, depth := 1, arraySize := 1)
    case Image1DBuffer => d.(height := 1, depth := 1, arraySize := 1)
    case Image1DArray => d.(height := 1, depth := 1)
    case Image2D => d.(depth := 1, arraySize := 1)
    case Image2DArray => d.(depth := 1)
    case Image3D => d.(arraySize := 1)
  }

  /** expandLastDimForFill. */
  function Expand(p: Pad, d: Desc): Desc {
    match d.kind
    case Image1D => d.(width := d.width + p.w)
    case Image1DBuffer => d.(width := d.width + p.w)
    case Image1DArray => d.(width := d.width + p.w, arraySize := d.arraySize + p.h)
    case Image2D => d.(width := d.width + p.w, height := d.height + p.h)
    case Image2DArray => d.(width := d.width + p.w, height := d.height + p.h, arraySize := d.arraySize + p.d)
    case Image3D => d.(width := d.width + p.w, height := d.height + p.h, depth := d.depth + p.d)
  }

  /** Pixels of an image, as clCreateImage multiplies them. */
  function Pixels(d: Desc): nat { d.width * d.height * d.depth * d.arraySize }

  /** Limits of the image on the device (iLim, jLim, kLim) and of the user's data (iDat, jDat, kDat). */
  datatype Dims = Dims(iLim: nat, jLim: nat, kLim: nat, iDat: nat, jDat: nat, kDat: nat)

  function JLim(d: Desc): nat { if d.kind.Image1DArray? then d.arraySize else d.height }

  function KLim(d: Desc): nat { if d.kind.Image2DArray? then d.arraySize else d.depth }

  /** get_image_dimensions. */
  function DimsOf(p: Pad, d: Desc): Dims
    requires Padded(p, d)
  {
    Dims(d.width, JLim(d), KLim(d),
         if d.width == 1 then 1 else d.width - p.w,
         if JLim(d) == 1 then 1 else JLim(d) - p.h,
         if KLim(d) == 1 then 1 else KLim(d) - p.d)
  }

  /** Each limit is 1 or leaves room for its pad. */
  predicate Padded(p: Pad, d: Desc) {
    (d.width == 1 || d.width >= p.w) && (JLim(d) == 1 || JLim(d) >= p.h) && (KLim(d) == 1 || KLim(d) >= p.d)
  }

  predicate HasRows(k: ImageType) { !k.Image1D? && !k.Image1DBuffer? }

  predicate HasSlices(k: ImageType) { k.Image2DArray? || k.Image3D? }

  predicate IsArray(k: ImageType) { k.Image1DArray? || k.Image2DArray? }

  /** What a report prints; -1 marks a dimension it does not use. */
  datatype Location = Location(x: int, y: int, z: int)

  /** A description the user may create: every dimension its type uses is at least 1. */
  predicate UserDesc(d: Desc) {
    d == Normalize(d) && d.width > 0 && d.height > 0 && d.depth > 0 && d.arraySize > 0
  }

  /** After expansion the dimension rules recover exactly the user's extent, and a dimension is
      padded exactly when the image type has it. */
  lemma ExpandedDims(p: Pad, d: Desc)
    requires ValidPad(p) && UserDesc(d)
    ensures Padded(p, Expand(p, d))
    ensures var m := DimsOf(p, Expand(p, d));
      && ValidDims(p, m)
      && m.iDat == d.width && m.jDat == JLim(d) && m.kDat == KLim(d)
      && m.iLim == d.width + p.w
      && m.jLim == (if HasRows(d.kind) then JLim(d) + p.h else 1)
      && m.kLim == (if HasSlices(d.kind) then KLim(d) + p.d else 1)
      && Pixels(d) == m.iDat * m.jDat * m.kDat
      && Pixels(Expand(p, d)) == m.iLim * m.jLim * m.kLim
  {
  }

  /** The contraction written out in clReleaseMemObject and clGetMemObjectInfo. */
  function Contract(p: Pad, d: Desc): (int, int, int, int) {
    (if d.width > 1 then d.width - p.w else d.width,
     if d.height > 1 then d.height - p.h else d.height,
     if d.depth > 1 then d.depth - p.d else d.depth,
     if d.arraySize > 1 then (if d.height > 1 then d.arraySize - p.d else d.arraySize - p.h) else d.arraySize)
  }

  /** Contracting undoes expansion for all six image types. */
  lemma ContractExpand(p: Pad, d: Desc)
    requires ValidPad(p) && UserDesc(d)
    ensures Contract(p, Expand(p, d)) == (d.width, d.height, d.depth, d.arraySize)
  {
  }

  /** What expansion guarantees about the limits. */
  ghost predicate ValidDims(p: Pad, m: Dims) {
    && ValidPad(p)
    && m.iDat > 0 && m.iLim == m.iDat + p.w
    && m.jDat > 0 && (m.jLim == m.jDat + p.h || m.jLim == m.jDat == 1)
    && m.kDat > 0 && (m.kLim == m.kDat + p.d || m.kLim == m.kDat == 1)
    && (m.kLim > 1 ==> m.jLim > 1)
  }

  // ----- canary pixels and their flat positions -----

  datatype Pixel = Pixel(x: nat, y: nat, z: nat)

  predicate InImage(m: Dims, px: Pixel) { px.x < m.iLim && px.y < m.jLim && px.z < m.kLim }

  predicate InUser(m: Dims, px: Pixel) { px.x < m.iDat && px.y < m.jDat && px.z < m.kDat }

  predicate IsCanary(m: Dims, px: Pixel) { InImage(m, px) && !InUser(m, px) }

  /** get_image_canary_size, in pixels. */
  function CanarySize(p: Pad, kind: ImageType, iLim: nat, jLim: nat, jDat: nat, kDat: nat): nat {
    kDat * jDat * p.w
    + (if HasSlices(kind) then p.d * jLim * iLim else 0)
    + (if HasRows(kind) then kDat * p.h * iLim else 0)
  }

  /** Where the end of row j of slice k, the end of slice k and the trailing slices are stored. */
  function RowStart(p: Pad, m: Dims, k: nat, j: nat): nat {
    k * (m.jDat * p.w + p.h * m.iLim) + j * p.w
  }

  function SliceStart(p: Pad, m: Dims, k: nat): nat {
    k * p.h * m.iLim + (k + 1) * (m.jDat * p.w)
  }

  function DepthStart(p: Pad, m: Dims): nat {
    m.kDat * p.h * m.iLim + m.kDat * m.jDat * p.w
  }

  /** Canary pixels contributed by each slice of user data. */
  function Stride(p: Pad, m: Dims): nat {
    m.jDat * p.w + if m.jLim > 1 then p.h * m.iLim else 0
  }

  function FlatSize(p: Pad, m: Dims): nat {
    m.kDat * Stride(p, m) + if m.kLim > 1 then p.d * (m.jLim * m.iLim) else 0
  }

  lemma Assoc(a: nat, b: nat, c: nat)
    ensures a * b * c == a * (b * c)
  {
  }

  lemma Add(a: nat, b: nat, c: nat)
    ensures a * (b + c) == a * b + a * c
  {
  }

  /** The length the detector allocates is the number of canary pixels numbered below. */
  lemma CanarySizeIsFlatSize(p: Pad, d: Desc)
    requires ValidPad(p) && UserDesc(d)
    ensures var e := Expand(p, d); var m := DimsOf(p, e);
      CanarySize(p, e.kind, m.iLim, m.jLim, m.jDat, m.kDat) == FlatSize(p, m)
  {
    var m := DimsOf(p, Expand(p, d));
    ExpandedDims(p, d);
    Assoc(m.kDat, m.jDat, p.w);
    Assoc(m.kDat, p.h, m.iLim);
    Assoc(p.d, m.jLim, m.iLim);
    Add(m.kDat, m.jDat * p.w, if m.jLim > 1 then p.h * m.iLim else 0);
  }

  /** The three start formulas in terms of the stride. */
  lemma Starts(p: Pad, m: Dims, k: nat, j: nat)
    requires ValidDims(p, m) && k <= m.kDat && (m.jLim > 1 || k == 0)
    ensures RowStart(p, m, k, j) == k * Stride(p, m) + j * p.w
    ensures m.jLim > 1 ==> SliceStart(p, m, k) == k * Stride(p, m) + m.jDat * p.w
    ensures m.jLim > 1 ==> DepthStart(p, m) == m.kDat * Stride(p, m)
  {
    var r, h := m.jDat * p.w, p.h * m.iLim;
    Add(k, r, h);
    Assoc(k, p.h, m.iLim);
    Add(m.kDat, r, h);
    Assoc(m.kDat, p.h, m.iLim);
    Assoc(m.kDat, m.jDat, p.w);
    assert (k + 1) * r == k * r + r;
  }

  function InBox(dx: nat, dy: nat, dz: nat, r0: nat, r1: nat): nat { (dz * r1 + dy) * r0 + dx }

  /** The flat position of a canary pixel, in the copiers' formulas. */
  function PosOf(p: Pad, m: Dims, px: Pixel): nat
    requires IsCanary(m, px)
  {
    if px.z >= m.kDat then DepthStart(p, m) + InBox(px.x, px.y, px.z - m.kDat, m.iLim, m.jLim)
    else if px.y >= m.jDat then SliceStart(p, m, px.z) + InBox(px.x, px.y - m.jDat, 0, m.iLim, p.h)
    else RowStart(p, m, px.z, px.y) + (px.x - m.iDat)
  }

  function Quot(a: nat, b: nat): nat
    requires b > 0
  {
    a / b
  }

  function Rem(a: nat, b: nat): (r: nat)
    requires b > 0
    ensures r < b
  {
    a % b
  }

  /** Pixel number i of the box at origin (x, y, z) with r0 columns and r1 rows, in transfer order. */
  function BoxPixel(x: nat, y: nat, z: nat, r0: nat, r1: nat, i: nat): Pixel
    requires r0 > 0 && r1 > 0
  {
    var line := Quot(i, r0);
    Pixel(x + Rem(i, r0), y + Rem(line, r1), z + Quot(line, r1))
  }

  /** Position r within the part contributed by slice z. */
  function SlicePixel(p: Pad, m: Dims, z: nat, r: nat): Pixel
    requires p.w > 0 && p.h > 0 && m.iLim > 0
  {
    if r < m.jDat * p.w then Pixel(m.iDat + Rem(r, p.w), Quot(r, p.w), z)
    else BoxPixel(0, m.jDat, z, m.iLim, p.h, r - m.jDat * p.w)
  }

  /** The pixel stored at a flat position. */
  function PixelAt(p: Pad, m: Dims, q: nat): Pixel
    requires ValidDims(p, m) && Stride(p, m) > 0
  {
    var S := Stride(p, m);
    if q >= m.kDat * S then BoxPixel(0, 0, m.kDat, m.iLim, m.jLim, q - m.kDat * S)
    else SlicePixel(p, m, Quot(q, S), Rem(q, S))
  }

  lemma StridePositive(p: Pad, m: Dims)
    requires ValidDims(p, m)
    ensures 0 < m.jDat * p.w <= Stride(p, m)
  {
    MulMono(1, m.jDat, p.w);
  }

  // ----- each copied segment is a run of consecutive flat positions -----

  /** Position r of the part contributed by slice k. */
  lemma InSlice(p: Pad, m: Dims, k: nat, r: nat)
    requires ValidDims(p, m) && k < m.kDat && r < Stride(p, m)
    ensures k * Stride(p, m) + r < m.kDat * Stride(p, m)
    ensures PixelAt(p, m, k * Stride(p, m) + r) == SlicePixel(p, m, k, r)
  {
    hide Stride, SlicePixel;
    NextBlock(k, m.kDat, Stride(p, m));
    DivOf(k, Stride(p, m), r);
  }

  lemma InRow(p: Pad, m: Dims, k: nat, j: nat, i: nat)
    requires ValidDims(p, m) && j < m.jDat && i < p.w
    ensures j * p.w + i < m.jDat * p.w
    ensures SlicePixel(p, m, k, j * p.w + i) == Pixel(m.iDat + i, j, k)
  {
    NextBlock(j, m.jDat, p.w);
    DivOf(j, p.w, i);
  }

  lemma RowSegment(p: Pad, m: Dims, k: nat, j: nat, i: nat)
    requires ValidDims(p, m) && Stride(p, m) > 0 && k < m.kDat && j < m.jDat && i < p.w
    ensures RowStart(p, m, k, j) + i < m.kDat * Stride(p, m)
    ensures PixelAt(p, m, RowStart(p, m, k, j) + i) == Pixel(m.iDat + i, j, k)
  {
    InRow(p, m, k, j, i);
    RowStartIs(p, m, k, j);
    StridePositive(p, m);
    hide Stride, RowStart, SlicePixel, PixelAt;
    InSlice(p, m, k, j * p.w + i);
  }

  lemma RowStartIs(p: Pad, m: Dims, k: nat, j: nat)
    requires ValidDims(p, m) && k < m.kDat
    ensures RowStart(p, m, k, j) == k * Stride(p, m) + j * p.w
  {
    Starts(p, m, k, j);
  }

  lemma SliceSegment(p: Pad, m: Dims, k: nat, i: nat)
    requires ValidDims(p, m) && Stride(p, m) > 0 && m.jLim > 1 && k < m.kDat && i < p.h * m.iLim
    ensures SliceStart(p, m, k) + i < m.kDat * Stride(p, m)
    ensures PixelAt(p, m, SliceStart(p, m, k) + i) == BoxPixel(0, m.jDat, k, m.iLim, p.h, i)
  {
    Starts(p, m, k, 0);
    assert m.jDat * p.w + i < Stride(p, m);
    assert SlicePixel(p, m, k, m.jDat * p.w + i) == BoxPixel(0, m.jDat, k, m.iLim, p.h, i);
    hide Stride, SliceStart, SlicePixel, PixelAt, BoxPixel;
    InSlice(p, m, k, m.jDat * p.w + i);
  }

  lemma DepthSegment(p: Pad, m: Dims, i: nat)
    requires ValidDims(p, m) && Stride(p, m) > 0 && m.kLim > 1
    ensures PixelAt(p, m, DepthStart(p, m) + i) == BoxPixel(0, 0, m.kDat, m.iLim, m.jLim, i)
  {
    Starts(p, m, 0, 0);
  }

  /** A box in transfer order: pixel (dx, dy, dz) is number (dz * r1 + dy) * r0 + dx. */
  lemma BoxIndex(x: nat, y: nat, z: nat, r0: nat, r1: nat, dx: nat, dy: nat, dz: nat)
    requires dx < r0 && dy < r1
    ensures BoxPixel(x, y, z, r0, r1, InBox(dx, dy, dz, r0, r1)) == Pixel(x + dx, y + dy, z + dz)
  {
    DivOf(dz * r1 + dy, r0, dx);
    DivOf(dz, r1, dy);
  }

  lemma BoxRange(r0: nat, r1: nat, r2: nat, dx: nat, dy: nat, dz: nat)
    requires dx < r0 && dy < r1 && dz < r2
    ensures InBox(dx, dy, dz, r0, r1) < r2 * (r1 * r0)
  {
    NextBlock(dz, r2, r1);
    NextBlock(dz * r1 + dy, r2 * r1, r0);
    Assoc(r2, r1, r0);
  }

  lemma BoxSplit(r0: nat, r1: nat, r2: nat, i: nat)
    requires r0 > 0 && r1 > 0 && i < r2 * (r1 * r0)
    ensures var b := BoxPixel(0, 0, 0, r0, r1, i);
      b.x < r0 && b.y < r1 && b.z < r2 && InBox(b.x, b.y, b.z, r0, r1) == i
  {
    Assoc(r2, r1, r0);
    Split(r0, i, r2 * r1);
    Split(r1, i / r0, r2);
  }

  // ----- the bijection -----

  lemma DepthPixelPos(p: Pad, m: Dims, px: Pixel)
    requires ValidDims(p, m) && Stride(p, m) > 0 && IsCanary(m, px) && px.z >= m.kDat
    ensures PosOf(p, m, px) < FlatSize(p, m) && PixelAt(p, m, PosOf(p, m, px)) == px
  {
    var dz := px.z - m.kDat;
    BoxRange(m.iLim, m.jLim, p.d, px.x, px.y, dz);
    BoxIndex(0, 0, m.kDat, m.iLim, m.jLim, px.x, px.y, dz);
    Starts(p, m, 0, 0);
    DepthSegment(p, m, InBox(px.x, px.y, dz, m.iLim, m.jLim));
  }

  lemma RowsPixelPos(p: Pad, m: Dims, px: Pixel)
    requires ValidDims(p, m) && Stride(p, m) > 0 && IsCanary(m, px) && px.z < m.kDat && px.y >= m.jDat
    ensures PosOf(p, m, px) < m.kDat * Stride(p, m) && PixelAt(p, m, PosOf(p, m, px)) == px
  {
    var i := InBox(px.x, px.y - m.jDat, 0, m.iLim, p.h);
    assert i < p.h * m.iLim by { BoxRange(m.iLim, p.h, 1, px.x, px.y - m.jDat, 0); }
    BoxIndex(0, m.jDat, px.z, m.iLim, p.h, px.x, px.y - m.jDat, 0);
    SliceSegment(p, m, px.z, i);
  }

  lemma RowPixelPos(p: Pad, m: Dims, px: Pixel)
    requires ValidDims(p, m) && Stride(p, m) > 0 && IsCanary(m, px) && px.z < m.kDat && px.y < m.jDat
    ensures PosOf(p, m, px) < m.kDat * Stride(p, m) && PixelAt(p, m, PosOf(p, m, px)) == px
  {
    RowSegment(p, m, px.z, px.y, px.x - m.iDat);
  }

  /** Flattening a canary pixel lands inside the canary array, and looking that position up
      returns the pixel: no two canary pixels share a position. */
  lemma PixelOfPos(p: Pad, m: Dims, px: Pixel)
    requires ValidDims(p, m) && Stride(p, m) > 0 && IsCanary(m, px)
    ensures PosOf(p, m, px) < FlatSize(p, m) && PixelAt(p, m, PosOf(p, m, px)) == px
  {
    hide PosOf, PixelAt, Stride;
    if px.z >= m.kDat {
      DepthPixelPos(p, m, px);
    } else if px.y >= m.jDat {
      RowsPixelPos(p, m, px);
    } else {
      RowPixelPos(p, m, px);
    }
  }

  lemma PosOfDepthPixel(p: Pad, m: Dims, q: nat)
    requires ValidDims(p, m) && Stride(p, m) > 0 && m.kDat * Stride(p, m) <= q < FlatSize(p, m)
    ensures IsCanary(m, PixelAt(p, m, q)) && PosOf(p, m, PixelAt(p, m, q)) == q
  {
    BoxSplit(m.iLim, m.jLim, p.d, q - m.kDat * Stride(p, m));
    Starts(p, m, 0, 0);
  }

  lemma PosOfSlicePixel(p: Pad, m: Dims, z: nat, r: nat)
    requires ValidDims(p, m) && Stride(p, m) > 0 && z < m.kDat && r < Stride(p, m)
    ensures IsCanary(m, SlicePixel(p, m, z, r))
    ensures PosOf(p, m, SlicePixel(p, m, z, r)) == z * Stride(p, m) + r
  {
    if r < m.jDat * p.w {
      Split(p.w, r, m.jDat);
      Starts(p, m, z, r / p.w);
    } else {
      Starts(p, m, z, 0);
      assert 1 * (p.h * m.iLim) == p.h * m.iLim;
      BoxSplit(m.iLim, p.h, 1, r - m.jDat * p.w);
    }
  }

  /** Every position of the canary array holds a canary pixel, whose position it is: the segments
      leave no gap. */
  lemma PosOfPixel(p: Pad, m: Dims, q: nat)
    requires ValidDims(p, m) && Stride(p, m) > 0 && q < FlatSize(p, m)
    ensures IsCanary(m, PixelAt(p, m, q)) && PosOf(p, m, PixelAt(p, m, q)) == q
  {
    if q >= m.kDat * Stride(p, m) {
      PosOfDepthPixel(p, m, q);
    } else {
      Split(Stride(p, m), q, m.kDat);
      PosOfSlicePixel(p, m, q / Stride(p, m), q % Stride(p, m));
    }
  }
}
