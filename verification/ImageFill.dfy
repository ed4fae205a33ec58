/** The first contents of a canaried image: a flat array with the host's rows and the canary fill,
    then its transfer to the device. */
module ImageFill {
  import opened Arithmetic
  import opened Canary
  import opened ImageGeometry
  import opened ImageCopy
  import opened ImagePoison

  /** Pitches as the caller gave them; 0 means "tight". */
  datatype Pitch = Pitch(row: nat, slice: nat)

  /** The row and slice steps the copy loop uses on host memory. */
  function IHostPitch(m: Dims, pitch: Pitch): nat { if pitch.row != 0 then pitch.row else m.iDat }

  function JHostPitch(m: Dims, pitch: Pitch): nat { if pitch.slice != 0 then pitch.slice else m.jDat }

  /** Where the copy loop reads row j of slice k. */
  function HostOffset(m: Dims, pitch: Pitch, j: nat, k: nat): nat {
    k * (JHostPitch(m, pitch) * IHostPitch(m, pitch)) + j * IHostPitch(m, pitch)
  }

  ghost predicate HostReadable(m: Dims, ds: nat, host: seq<byte>, pitch: Pitch) {
    forall j: nat, k: nat | j < m.jDat && k < m.kDat :: HostOffset(m, pitch, j, k) + m.iDat * ds <= |host|
  }

  /** What to do with the user's pixels: copy host rows, or leave zeros. */
  datatype Source = Zeros | HostRows(host: seq<byte>, pitch: Pitch)

  ghost predicate SourceOk(m: Dims, ds: nat, src: Source) {
    src.HostRows? ==> HostReadable(m, ds, src.host, src.pitch)
  }

  /** Bytes of one row of the expanded image. */
  function LineBytes(m: Dims, ds: nat): nat { m.iLim * ds }

  predicate UserLine(m: Dims, line: nat)
    requires m.jLim > 0
  {
    Quot(line, m.jLim) < m.kDat && Rem(line, m.jLim) < m.jDat
  }

  /** Byte off of the host's row for row j of slice k. */
  function HostByte(m: Dims, ds: nat, host: seq<byte>, pitch: Pitch, j: nat, k: nat, off: nat): byte
    requires HostReadable(m, ds, host, pitch) && j < m.jDat && k < m.kDat && off < m.iDat * ds
  {
    host[HostOffset(m, pitch, j, k) + off]
  }

  /** The byte the array must hold at offset off of row number line. */
  function LineByte(m: Dims, ds: nat, src: Source, line: nat, off: nat): byte
    requires m.jLim > 0 && SourceOk(m, ds, src)
  {
    if UserLine(m, line) && off < m.iDat * ds then
      match src
      case Zeros => 0
      case HostRows(host, pitch) => HostByte(m, ds, host, pitch, Rem(line, m.jLim), Quot(line, m.jLim), off)
    else FILL
  }

  /** The first t rows are in place and the rest is still zero. */
  ghost predicate LinesDone(m: Dims, ds: nat, src: Source, copy: seq<byte>, t: nat)
    requires m.jLim > 0 && SourceOk(m, ds, src) && LineBytes(m, ds) > 0
  {
    var W := LineBytes(m, ds);
    && (forall n | 0 <= n < t * W && n < |copy| :: copy[n] == LineByte(m, ds, src, Quot(n, W), Rem(n, W)))
    && (forall n | t * W <= n < |copy| :: copy[n] == 0)
  }

  method Memset(copy: array<byte>, start: nat, len: nat)
    requires start + len <= copy.Length
    modifies copy
    ensures forall n | 0 <= n < copy.Length :: copy[n] == if start <= n < start + len then FILL else old(copy[n])
  {
    forall n | start <= n < start + len { copy[n] := FILL; }
  }

  method Memcpy(copy: array<byte>, start: nat, host: seq<byte>, from: nat, len: nat)
    requires start + len <= copy.Length && from + len <= |host|
    modifies copy
    ensures forall n | 0 <= n < copy.Length ::
              copy[n] == if start <= n < start + len then host[from + (n - start)] else old(copy[n])
  {
    forall n | start <= n < start + len { copy[n] := host[from + (n - start)]; }
  }

  lemma InLine(W: nat, t: nat, n: nat)
    requires t * W <= n < t * W + W
    ensures Quot(n, W) == t && Rem(n, W) == n - t * W
  {
    DivOf(t, W, n - t * W);
  }

  /** A finished row extends the finished part by one. */
  lemma OneMoreLine(m: Dims, ds: nat, src: Source, before: seq<byte>, copy: seq<byte>, t: nat)
    requires m.jLim > 0 && SourceOk(m, ds, src) && LineBytes(m, ds) > 0 && |copy| == |before|
    requires LinesDone(m, ds, src, before, t)
    requires var s := t * LineBytes(m, ds);
      && (forall n | 0 <= n < |copy| && !(s <= n < s + LineBytes(m, ds)) :: copy[n] == before[n])
      && (forall n | s <= n < s + LineBytes(m, ds) && n < |copy| :: copy[n] == LineByte(m, ds, src, t, n - s))
    ensures LinesDone(m, ds, src, copy, t + 1)
  {
    var W := LineBytes(m, ds);
    assert (t + 1) * W == t * W + W;
    forall n | 0 <= n < (t + 1) * W && n < |copy| ensures copy[n] == LineByte(m, ds, src, Quot(n, W), Rem(n, W)) {
      if n >= t * W { InLine(W, t, n); }
    }
  }

  /** Filling whole rows that hold no user data. */
  lemma MoreFillLines(m: Dims, ds: nat, src: Source, before: seq<byte>, copy: seq<byte>, t: nat, c: nat)
    requires m.jLim > 0 && SourceOk(m, ds, src) && LineBytes(m, ds) > 0 && |copy| == |before|
    requires LinesDone(m, ds, src, before, t)
    requires forall line | t <= line < t + c :: !UserLine(m, line)
    requires var s, len := t * LineBytes(m, ds), c * LineBytes(m, ds);
      forall n | 0 <= n < |copy| :: copy[n] == if s <= n < s + len then FILL else before[n]
    ensures LinesDone(m, ds, src, copy, t + c)
  {
    var W := LineBytes(m, ds);
    assert (t + c) * W == t * W + c * W;
    forall n | 0 <= n < (t + c) * W && n < |copy| ensures copy[n] == LineByte(m, ds, src, Quot(n, W), Rem(n, W)) {
      if n >= t * W {
        Split(W, n, t + c);
        if Quot(n, W) < t { NextBlock(Quot(n, W), t, W); }
      }
    }
  }

  /** Row number of row j of slice k. */
  function Line(m: Dims, k: nat, j: nat): nat { k * m.jLim + j }

  lemma LineIs(m: Dims, k: nat, j: nat)
    requires j < m.jLim
    ensures Quot(Line(m, k, j), m.jLim) == k && Rem(Line(m, k, j), m.jLim) == j
  {
    DivOf(k, m.jLim, j);
  }

  /** The writes of one row at data: the user's bytes if asked for, then the canary at its end. */
  method WriteRow(m: Dims, ds: nat, src: Source, copy: array<byte>, k: nat, j: nat, data: nat, user: nat, pad: nat)
    requires SourceOk(m, ds, src) && k < m.kDat && j < m.jDat && user == m.iDat * ds && data + user + pad <= copy.Length
    modifies copy
    ensures forall n | 0 <= n < copy.Length ::
              copy[n] == if data <= n < data + user && src.HostRows? then HostByte(m, ds, src.host, src.pitch, j, k, n - data)
                         else if data + user <= n < data + user + pad then FILL else old(copy[n])
  {
    match src {
      case HostRows(host, pitch) =>
        assert HostOffset(m, pitch, j, k) + user <= |host|;
        Memcpy(copy, data, host, HostOffset(m, pitch, j, k), user);
      case Zeros =>
    }
    Memset(copy, data + user, pad);
    hide HostOffset, HostReadable;
  }

  /** One row in its place. */
  method FillRow(p: Pad, m: Dims, ds: nat, src: Source, copy: array<byte>, k: nat, j: nat)
    requires ValidDims(p, m) && ds > 0 && SourceOk(m, ds, src) && k < m.kDat && j < m.jDat
    requires LineBytes(m, ds) > 0 && Line(m, k, j) * LineBytes(m, ds) + LineBytes(m, ds) <= copy.Length
    requires LinesDone(m, ds, src, copy[..], Line(m, k, j))
    modifies copy
    ensures LinesDone(m, ds, src, copy[..], Line(m, k, j + 1))
  {
    ghost var before := copy[..];
    var data := Line(m, k, j) * LineBytes(m, ds);
    var user := m.iDat * ds;
    assert LineBytes(m, ds) == user + p.w * ds;
    assert forall n | data <= n < |before| :: before[n] == 0;
    LineIs(m, k, j);
    WriteRow(m, ds, src, copy, k, j, data, user, p.w * ds);
    hide HostByte, SourceOk, LinesDone, LineByte;
    RowBytes(p, m, ds, src, before, copy[..], k, j, data);
    OneMoreLine(m, ds, src, before, copy[..], Line(m, k, j));
  }

  lemma RowBytes(p: Pad, m: Dims, ds: nat, src: Source, before: seq<byte>, copy: seq<byte>, k: nat, j: nat, data: nat)
    requires ValidDims(p, m) && ds > 0 && SourceOk(m, ds, src) && k < m.kDat && j < m.jDat && |copy| == |before|
    requires LineBytes(m, ds) > 0 && data == Line(m, k, j) * LineBytes(m, ds) && data + LineBytes(m, ds) <= |copy|
    requires Quot(Line(m, k, j), m.jLim) == k && Rem(Line(m, k, j), m.jLim) == j
    requires forall n | data <= n < |before| :: before[n] == 0
    requires forall n | data <= n < data + m.iDat * ds ::
               copy[n] == if src.HostRows? then HostByte(m, ds, src.host, src.pitch, j, k, n - data) else before[n]
    requires forall n | data + m.iDat * ds <= n < data + LineBytes(m, ds) :: copy[n] == FILL
    ensures forall n | data <= n < data + LineBytes(m, ds) :: copy[n] == LineByte(m, ds, src, Line(m, k, j), n - data)
  {
  }

  /** Rows in the pad below slice k, or at and beyond slice kDat, hold no user data. */
  lemma PadLines(m: Dims, k: nat, line: nat)
    requires m.jLim > 0 && Line(m, k, m.jDat) <= line < Line(m, k + 1, 0)
    ensures !UserLine(m, line)
  {
    assert (k + 1) * m.jLim == k * m.jLim + m.jLim;
    InLine(m.jLim, k, line);
  }

  lemma DepthLines(m: Dims, line: nat)
    requires m.jLim > 0 && line >= Line(m, m.kDat, 0)
    ensures !UserLine(m, line)
  {
    var q := line / m.jLim;
    assert line == q * m.jLim + line % m.jLim;
    if q < m.kDat { NextBlock(q, m.kDat, m.jLim); }
  }

  /** Fills c whole rows from row t on. */
  method FillLines(m: Dims, ds: nat, ghost src: Source, copy: array<byte>, t: nat, c: nat)
    requires m.jLim > 0 && SourceOk(m, ds, src) && LineBytes(m, ds) > 0
    requires LinesDone(m, ds, src, copy[..], t) && t * LineBytes(m, ds) + c * LineBytes(m, ds) <= copy.Length
    requires forall line | t <= line < t + c :: !UserLine(m, line)
    modifies copy
    ensures LinesDone(m, ds, src, copy[..], t + c)
  {
    ghost var before := copy[..];
    Memset(copy, t * LineBytes(m, ds), c * LineBytes(m, ds));
    MoreFillLines(m, ds, src, before, copy[..], t, c);
  }

  lemma LineRoom(m: Dims, t: nat, c: nat, W: nat, total: nat)
    requires t + c <= total
    ensures t * W + c * W <= total * W
  {
    MulMono(t + c, total, W);
    assert (t + c) * W == t * W + c * W;
  }

  lemma LineBelow(m: Dims, k: nat, j: nat)
    requires k < m.kLim && j < m.jLim
    ensures Line(m, k, j) + 1 <= m.kLim * m.jLim && Line(m, k + 1, 0) == Line(m, k, m.jLim) <= m.kLim * m.jLim
  {
    NextBlock(k, m.kLim, m.jLim);
    assert (k + 1) * m.jLim == k * m.jLim + m.jLim;
  }

  /** All rows of one slice of user data, and the rows padding it. */
  method FillSlice(p: Pad, m: Dims, ds: nat, src: Source, copy: array<byte>, k: nat)
    requires ValidDims(p, m) && ds > 0 && SourceOk(m, ds, src) && k < m.kDat && LineBytes(m, ds) > 0
    requires copy.Length == (m.kLim * m.jLim) * LineBytes(m, ds)
    requires LinesDone(m, ds, src, copy[..], Line(m, k, 0))
    modifies copy
    ensures LinesDone(m, ds, src, copy[..], Line(m, k + 1, 0))
  {
    LineBelow(m, k, 0);
    var j := 0;
    while j < m.jDat
      invariant 0 <= j <= m.jDat && LinesDone(m, ds, src, copy[..], Line(m, k, j))
    {
      LineBelow(m, k, j);
      LineRoom(m, Line(m, k, j), 1, LineBytes(m, ds), m.kLim * m.jLim);
      FillRow(p, m, ds, src, copy, k, j);
      j := j + 1;
    }
    if m.jLim > 1 {
      LineRoom(m, Line(m, k, m.jDat), p.h, LineBytes(m, ds), m.kLim * m.jLim);
      forall line | Line(m, k, m.jDat) <= line < Line(m, k, m.jDat) + p.h ensures !UserLine(m, line) {
        PadLines(m, k, line);
      }
      FillLines(m, ds, src, copy, Line(m, k, m.jDat), p.h);
    }
  }

  /** allocFlatImageCopy: every byte of the flat array is the host's byte, zero, or fill, as LineByte says. */
  method AllocFlatImageCopy(p: Pad, m: Dims, ds: nat, src: Source) returns (copy: array<byte>)
    requires ValidDims(p, m) && ds > 0 && SourceOk(m, ds, src)
    ensures fresh(copy) && LineBytes(m, ds) > 0 && copy.Length == (m.kLim * m.jLim) * LineBytes(m, ds)
    ensures forall n | 0 <= n < copy.Length ::
              copy[n] == LineByte(m, ds, src, Quot(n, LineBytes(m, ds)), Rem(n, LineBytes(m, ds)))
  {
    MulMono(1, m.iLim, ds);
    copy := new byte[(m.kLim * m.jLim) * LineBytes(m, ds)](_ => 0);
    assert LinesDone(m, ds, src, copy[..], Line(m, 0, 0));
    for k := 0 to m.kDat
      invariant LinesDone(m, ds, src, copy[..], Line(m, k, 0))
    {
      FillSlice(p, m, ds, src, copy, k);
    }
    FillDepth(p, m, ds, src, copy);
  }

  /** The slices after the data, if the image has slices. */
  method FillDepth(p: Pad, m: Dims, ds: nat, src: Source, copy: array<byte>)
    requires ValidDims(p, m) && ds > 0 && SourceOk(m, ds, src) && LineBytes(m, ds) > 0
    requires copy.Length == (m.kLim * m.jLim) * LineBytes(m, ds)
    requires LinesDone(m, ds, src, copy[..], Line(m, m.kDat, 0))
    modifies copy
    ensures LinesDone(m, ds, src, copy[..], m.kLim * m.jLim)
  {
    if m.kLim > 1 {
      var t := Line(m, m.kDat, 0);
      assert m.kLim * m.jLim == m.kDat * m.jLim + p.d * m.jLim;
      LineRoom(m, t, p.d * m.jLim, LineBytes(m, ds), m.kLim * m.jLim);
      forall line | t <= line < t + p.d * m.jLim ensures !UserLine(m, line) {
        DepthLines(m, line);
      }
      FillLines(m, ds, src, copy, t, p.d * m.jLim);
    }
  }

  // ----- what the array means pixel by pixel -----

  /** Byte b of pixel px in the flat array. */
  function PixelByte(m: Dims, ds: nat, px: Pixel, b: nat): nat {
    InBox(px.x, px.y, px.z, m.iLim, m.jLim) * ds + b
  }

  lemma PixelByteLine(m: Dims, ds: nat, px: Pixel, b: nat)
    requires InImage(m, px) && b < ds && LineBytes(m, ds) > 0
    ensures PixelByte(m, ds, px, b) < (m.kLim * m.jLim) * LineBytes(m, ds)
    ensures Quot(PixelByte(m, ds, px, b), LineBytes(m, ds)) == Line(m, px.z, px.y)
    ensures Rem(PixelByte(m, ds, px, b), LineBytes(m, ds)) == px.x * ds + b
  {
    Distribute(Line(m, px.z, px.y), m.iLim, px.x, ds);
    NextBlock(px.x, m.iLim, ds);
    InLine(LineBytes(m, ds), Line(m, px.z, px.y), PixelByte(m, ds, px, b));
    LineBelow(m, px.z, px.y);
    LineRoom(m, Line(m, px.z, px.y), 1, LineBytes(m, ds), m.kLim * m.jLim);
  }

  /** Pixel px is inside the user's columns exactly when its bytes are. */
  lemma ColumnBytes(m: Dims, ds: nat, x: nat, b: nat)
    requires b < ds
    ensures x < m.iDat <==> x * ds + b < m.iDat * ds
  {
    if x < m.iDat { NextBlock(x, m.iDat, ds); } else { MulMono(m.iDat, x, ds); }
  }

  /** What the fill must leave in byte b of pixel px. */
  function PixelContent(m: Dims, ds: nat, src: Source, px: Pixel, b: nat): byte
    requires SourceOk(m, ds, src) && InImage(m, px) && b < ds
  {
    if IsCanary(m, px) then FILL
    else
      match src
      case Zeros => 0
      case HostRows(host, pitch) =>
        ColumnBytes(m, ds, px.x, b);
        HostByte(m, ds, host, pitch, px.y, px.z, px.x * ds + b)
  }

  /** The fill partitions the expanded image: a canary pixel is all fill; a user pixel holds the
      host's bytes (or zeros), and no fill write reaches it. */
  lemma FlatFillPartitions(m: Dims, ds: nat, src: Source, px: Pixel, b: nat)
    requires SourceOk(m, ds, src) && InImage(m, px) && b < ds && LineBytes(m, ds) > 0
    ensures LineByte(m, ds, src, Line(m, px.z, px.y), px.x * ds + b) == PixelContent(m, ds, src, px, b)
  {
    LineIs(m, px.z, px.y);
    ColumnBytes(m, ds, px.x, b);
  }

  /** ... read off the array itself. */
  lemma FlatCopyPixel(m: Dims, ds: nat, src: Source, copy: seq<byte>, px: Pixel, b: nat)
    requires SourceOk(m, ds, src) && InImage(m, px) && b < ds && LineBytes(m, ds) > 0
    requires |copy| == (m.kLim * m.jLim) * LineBytes(m, ds)
    requires forall n | 0 <= n < |copy| ::
               copy[n] == LineByte(m, ds, src, Quot(n, LineBytes(m, ds)), Rem(n, LineBytes(m, ds)))
    ensures PixelByte(m, ds, px, b) < |copy| && copy[PixelByte(m, ds, px, b)] == PixelContent(m, ds, src, px, b)
  {
    PixelByteLine(m, ds, px, b);
    FlatFillPartitions(m, ds, src, px, b);
  }

  // ----- transfer to the device -----

  /** The region clCreateImage uploads: width, height and depth of the expanded description. */
  predicate InRegion(e: Desc, px: Pixel) { px.x < e.width && px.y < e.height && px.z < e.depth }

  /** Where the upload reads byte b of pixel px: the region's own tight pitches. */
  function UploadByte(e: Desc, ds: nat, px: Pixel, b: nat): nat {
    InBox(px.x, px.y, px.z, e.width, e.height) * ds + b
  }

  /** The blocking write of the flat array to the new image. */
  method UploadFlatCopy(e: Desc, m: Dims, ds: nat, copy: array<byte>, pix: array3<seq<byte>>)
    requires ImageOk(m, ds, pix) && e.width <= m.iLim && e.height <= m.jLim && e.depth <= m.kLim
    requires forall px: Pixel | InRegion(e, px) :: UploadByte(e, ds, px, 0) + ds <= copy.Length
    modifies pix
    ensures ImageOk(m, ds, pix)
    ensures forall x, y, z | 0 <= x < m.iLim && 0 <= y < m.jLim && 0 <= z < m.kLim ::
              pix[x, y, z] == if InRegion(e, Pixel(x, y, z))
                              then copy[UploadByte(e, ds, Pixel(x, y, z), 0)..UploadByte(e, ds, Pixel(x, y, z), 0) + ds]
                              else old(pix[x, y, z])
  {
    forall x, y, z | 0 <= x < e.width && 0 <= y < e.height && 0 <= z < e.depth {
      pix[x, y, z] := copy[UploadByte(e, ds, Pixel(x, y, z), 0)..UploadByte(e, ds, Pixel(x, y, z), 0) + ds];
    }
  }

  /** In the uploaded region the upload reads a pixel where the flat array has it. */
  lemma UploadReadsPixel(p: Pad, d: Desc, ds: nat, px: Pixel, b: nat)
    requires ValidPad(p) && UserDesc(d) && InRegion(Expand(p, d), px)
    ensures var m := DimsOf(p, Expand(p, d));
      InImage(m, px) && UploadByte(Expand(p, d), ds, px, b) == PixelByte(m, ds, px, b)
  {
    ExpandedDims(p, d);
  }

  /** The upload reaches every canary pixel exactly for the non-array types. */
  lemma UploadCoversCanary(p: Pad, d: Desc)
    requires ValidPad(p) && UserDesc(d)
    ensures (forall px: Pixel | IsCanary(DimsOf(p, Expand(p, d)), px) ::
              InRegion(Expand(p, d), px)) <==> !IsArray(d.kind)
  {
    ExpandedDims(p, d);
    var e, m := Expand(p, d), DimsOf(p, Expand(p, d));
    if d.kind.Image1DArray? {
      assert IsCanary(m, Pixel(0, m.jLim - 1, 0)) && !InRegion(e, Pixel(0, m.jLim - 1, 0));
    } else if d.kind.Image2DArray? {
      assert IsCanary(m, Pixel(0, 0, m.kLim - 1)) && !InRegion(e, Pixel(0, 0, m.kLim - 1));
    }
  }

  /** A device pixel holds what the fill put there. */
  ghost predicate PixelFilled(m: Dims, ds: nat, src: Source, px: Pixel, v: seq<byte>) {
    && SourceOk(m, ds, src) && InImage(m, px) && |v| == ds
    && forall b: nat | b < ds :: v[b] == PixelContent(m, ds, src, px, b)
  }

  /** clCreateImage for an image with a canary, on device memory holding anything. What the upload
      does not reach stays as it was: for array images that includes canary pixels. */
  method CreateCanariedImage(p: Pad, d: Desc, ds: nat, src: Source, pix: array3<seq<byte>>)
    requires ValidPad(p) && UserDesc(d) && ds > 0
    requires ImageOk(DimsOf(p, Expand(p, d)), ds, pix) && SourceOk(DimsOf(p, Expand(p, d)), ds, src)
    modifies pix
    ensures var m := DimsOf(p, Expand(p, d));
      ImageOk(m, ds, pix)
      && forall x, y, z | 0 <= x < m.iLim && 0 <= y < m.jLim && 0 <= z < m.kLim ::
           if InRegion(Expand(p, d), Pixel(x, y, z)) then PixelFilled(m, ds, src, Pixel(x, y, z), pix[x, y, z])
           else pix[x, y, z] == old(pix[x, y, z])
    ensures !IsArray(d.kind) ==> CanaryPixelsClean(DimsOf(p, Expand(p, d)), ds, pix)
  {
    var e := Expand(p, d);
    var m := DimsOf(p, e);
    ExpandedDims(p, d);
    hide SourceOk, PixelContent, UploadByte, PixelFilled, LineByte, Quot, Rem;
    var copy := AllocFlatImageCopy(p, m, ds, src);
    forall px: Pixel | InRegion(e, px) ensures UploadByte(e, ds, px, 0) + ds <= copy.Length {
      UploadedPixel(p, d, ds, src, copy[..], px);
    }
    UploadFlatCopy(e, m, ds, copy, pix);
    forall x: nat, y: nat, z: nat | InRegion(e, Pixel(x, y, z))
      ensures PixelFilled(m, ds, src, Pixel(x, y, z), pix[x, y, z])
    {
      UploadedPixel(p, d, ds, src, copy[..], Pixel(x, y, z));
    }
    if !IsArray(d.kind) {
      UploadCoversCanary(p, d);
      CoveredIsClean(e, m, ds, src, pix);
    }
  }

  /** If the upload covers the canary, the canary is all fill. */
  lemma CoveredIsClean(e: Desc, m: Dims, ds: nat, src: Source, pix: array3<seq<byte>>)
    requires ImageOk(m, ds, pix) && forall px: Pixel | IsCanary(m, px) :: InRegion(e, px)
    requires forall x, y, z | 0 <= x < m.iLim && 0 <= y < m.jLim && 0 <= z < m.kLim && InRegion(e, Pixel(x, y, z)) ::
               PixelFilled(m, ds, src, Pixel(x, y, z), pix[x, y, z])
    ensures CanaryPixelsClean(m, ds, pix)
  {
    hide SourceOk, HostByte;
    forall x: nat, y: nat, z: nat | IsCanary(m, Pixel(x, y, z)) ensures pix[x, y, z] == FillPixel(ds) {
      assert PixelFilled(m, ds, src, Pixel(x, y, z), pix[x, y, z]);
    }
  }

  lemma UploadedPixel(p: Pad, d: Desc, ds: nat, src: Source, copy: seq<byte>, px: Pixel)
    requires ValidPad(p) && UserDesc(d) && ds > 0 && InRegion(Expand(p, d), px)
    requires SourceOk(DimsOf(p, Expand(p, d)), ds, src)
    requires
      var m := DimsOf(p, Expand(p, d));
      LineBytes(m, ds) > 0 && |copy| == (m.kLim * m.jLim) * LineBytes(m, ds)
      && forall n | 0 <= n < |copy| ::
            copy[n] == LineByte(m, ds, src, Quot(n, LineBytes(m, ds)), Rem(n, LineBytes(m, ds)))
    ensures var at := UploadByte(Expand(p, d), ds, px, 0);
      at + ds <= |copy| && PixelFilled(DimsOf(p, Expand(p, d)), ds, src, px, copy[at..at + ds])
  {
    UploadedByte(p, d, ds, src, copy, px, ds - 1);
    forall b: nat | b < ds
      ensures InImage(DimsOf(p, Expand(p, d)), px) && UploadByte(Expand(p, d), ds, px, 0) + b < |copy|
      ensures copy[UploadByte(Expand(p, d), ds, px, 0) + b] == PixelContent(DimsOf(p, Expand(p, d)), ds, src, px, b)
    {
      UploadedByte(p, d, ds, src, copy, px, b);
    }
    hide UploadByte, PixelContent, Expand, DimsOf, SourceOk, LineByte, LineBytes;
  }

  /** Byte b of an uploaded pixel is what the fill put there. */
  lemma UploadedByte(p: Pad, d: Desc, ds: nat, src: Source, copy: seq<byte>, px: Pixel, b: nat)
    requires ValidPad(p) && UserDesc(d) && ds > 0 && InRegion(Expand(p, d), px) && b < ds
    requires SourceOk(DimsOf(p, Expand(p, d)), ds, src)
    requires
      var m := DimsOf(p, Expand(p, d));
      LineBytes(m, ds) > 0 && |copy| == (m.kLim * m.jLim) * LineBytes(m, ds)
      && forall n | 0 <= n < |copy| ::
            copy[n] == LineByte(m, ds, src, Quot(n, LineBytes(m, ds)), Rem(n, LineBytes(m, ds)))
    ensures var m := DimsOf(p, Expand(p, d));
      InImage(m, px) && UploadByte(Expand(p, d), ds, px, 0) + b < |copy|
      && copy[UploadByte(Expand(p, d), ds, px, 0) + b] == PixelContent(m, ds, src, px, b)
  {
    UploadReadsPixel(p, d, ds, px, b);
    FlatCopyPixel(DimsOf(p, Expand(p, d)), ds, src, copy, px, b);
  }
}
