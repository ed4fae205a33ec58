/** Rewriting the canary of an image on the device. */
module ImagePoison {
  import Arithmetic
  import opened Canary
  import opened ImageGeometry
  import opened ImageCopy

  function FillPixel(ds: nat): (s: seq<byte>)
    ensures |s| == ds && forall b | 0 <= b < ds :: s[b] == FILL
  {
    seq(ds, b => FILL)
  }

  predicate InThe(b: Box, x: int, y: int, z: int) {
    b.x <= x < b.x + b.r0 && b.y <= y < b.y + b.r1 && b.z <= z < b.z + b.r2
  }

  /** clEnqueueWriteImage with fill data. */
  method WriteFill(m: Dims, ds: nat, pix: array3<seq<byte>>, b: Box)
    requires ImageOk(m, ds, pix) && BoxOk(m, b)
    modifies pix
    ensures ImageOk(m, ds, pix)
    ensures forall x, y, z | 0 <= x < m.iLim && 0 <= y < m.jLim && 0 <= z < m.kLim ::
              pix[x, y, z] == if InThe(b, x, y, z) then FillPixel(ds) else old(pix[x, y, z])
  {
    forall x, y, z | b.x <= x < b.x + b.r0 && b.y <= y < b.y + b.r1 && b.z <= z < b.z + b.r2 {
      pix[x, y, z] := FillPixel(ds);
    }
  }

  /** One slice of user data: its row ends, then its full rows. */
  method PoisonSlice(p: Pad, m: Dims, ds: nat, pix: array3<seq<byte>>, k: nat)
    requires ValidDims(p, m) && ImageOk(m, ds, pix) && k < m.kDat
    modifies pix
    ensures ImageOk(m, ds, pix)
    ensures forall x, y, z | 0 <= x < m.iLim && 0 <= y < m.jLim && 0 <= z < m.kLim ::
              pix[x, y, z] == if z == k && IsCanary(m, Pixel(x, y, z)) then FillPixel(ds) else old(pix[x, y, z])
  {
    if m.iLim > 1 {
      for j := 0 to m.jDat
        invariant ImageOk(m, ds, pix)
        invariant forall x, y, z | 0 <= x < m.iLim && 0 <= y < m.jLim && 0 <= z < m.kLim ::
                    pix[x, y, z] == if z == k && y < j && x >= m.iDat then FillPixel(ds) else old(pix[x, y, z])
      {
        WriteFill(m, ds, pix, RowBox(p, m, k, j));
      }
    }
    if m.jLim > 1 && m.iLim > 0 {
      WriteFill(m, ds, pix, SliceBox(p, m, k));
    }
  }

  /** poisonFillImageCanaries writes exactly the complement of the user extent. */
  method PoisonFillImageCanaries(p: Pad, m: Dims, ds: nat, pix: array3<seq<byte>>)
    requires ValidDims(p, m) && ImageOk(m, ds, pix)
    modifies pix
    ensures ImageOk(m, ds, pix)
    ensures forall x, y, z | 0 <= x < m.iLim && 0 <= y < m.jLim && 0 <= z < m.kLim ::
              pix[x, y, z] == if IsCanary(m, Pixel(x, y, z)) then FillPixel(ds) else old(pix[x, y, z])
  {
    for k := 0 to m.kDat
      invariant ImageOk(m, ds, pix)
      invariant forall x, y, z | 0 <= x < m.iLim && 0 <= y < m.jLim && 0 <= z < m.kLim ::
                  pix[x, y, z] == if z < k && IsCanary(m, Pixel(x, y, z)) then FillPixel(ds) else old(pix[x, y, z])
    {
      PoisonSlice(p, m, ds, pix, k);
    }
    if m.kLim > 1 && m.jLim > 0 && m.iLim > 0 {
      WriteFill(m, ds, pix, DepthBox(p, m));
    }
  }

  /** The flattened canary of an image. */
  ghost function FlatCanary(p: Pad, m: Dims, ds: nat, pix: array3<seq<byte>>): (s: seq<byte>)
    requires ValidDims(p, m) && ImageOk(m, ds, pix)
    reads pix
    ensures |s| == Span(p, m, ds)
    ensures forall n | 0 <= n < |s| :: s[n] == FlatByte(p, m, ds, pix, n)
  {
    seq(Span(p, m, ds), n requires 0 <= n < Span(p, m, ds) && ValidDims(p, m) && ImageOk(m, ds, pix) reads pix => FlatByte(p, m, ds, pix, n))
  }

  ghost predicate CanaryPixelsClean(m: Dims, ds: nat, pix: array3<seq<byte>>)
    requires ImageOk(m, ds, pix)
    reads pix
  {
    forall x, y, z | 0 <= x < m.iLim && 0 <= y < m.jLim && 0 <= z < m.kLim && IsCanary(m, Pixel(x, y, z)) ::
      pix[x, y, z] == FillPixel(ds)
  }

  /** The flat array stands for the canary pixels: it is all fill exactly when every canary pixel is. */
  lemma FlatCleanIffPixelsClean(p: Pad, m: Dims, ds: nat, pix: array3<seq<byte>>)
    requires ValidDims(p, m) && ImageOk(m, ds, pix)
    ensures Intact(FlatCanary(p, m, ds, pix)) <==> CanaryPixelsClean(m, ds, pix)
  {
    StridePositive(p, m);
    var s := FlatCanary(p, m, ds, pix);
    if CanaryPixelsClean(m, ds, pix) {
      forall n | 0 <= n < |s| ensures s[n] == FILL {
        QuotRange(n, ds, FlatSize(p, m));
        PosOfPixel(p, m, Quot(n, ds));
      }
    }
    if Intact(s) {
      forall x, y, z | 0 <= x < m.iLim && 0 <= y < m.jLim && 0 <= z < m.kLim && IsCanary(m, Pixel(x, y, z))
        ensures pix[x, y, z] == FillPixel(ds)
      {
        CleanPixel(p, m, ds, pix, Pixel(x, y, z));
      }
    }
  }

  lemma CleanPixel(p: Pad, m: Dims, ds: nat, pix: array3<seq<byte>>, px: Pixel)
    requires ValidDims(p, m) && ImageOk(m, ds, pix) && IsCanary(m, px) && Intact(FlatCanary(p, m, ds, pix))
    ensures pix[px.x, px.y, px.z] == FillPixel(ds)
  {
    hide PosOf, FlatSize, Span, ValidDims;
    forall b | 0 <= b < ds ensures pix[px.x, px.y, px.z][b] == FILL {
      var n := PixelByteIsFlat(p, m, ds, pix, px, b);
    }
  }

  /** Byte b of a canary pixel is byte PosOf * ds + b of the flat array. */
  lemma PixelByteIsFlat(p: Pad, m: Dims, ds: nat, pix: array3<seq<byte>>, px: Pixel, b: nat) returns (n: nat)
    requires ValidDims(p, m) && ImageOk(m, ds, pix) && IsCanary(m, px) && b < ds
    ensures n == PosOf(p, m, px) * ds + b
    ensures n < Span(p, m, ds) && FlatCanary(p, m, ds, pix)[n] == pix[px.x, px.y, px.z][b]
  {
    StridePositive(p, m);
    PixelOfPos(p, m, px);
    BytePosition(PosOf(p, m, px), FlatSize(p, m), ds, b);
    n := PosOf(p, m, px) * ds + b;
  }

  lemma BytePosition(q: nat, size: nat, ds: nat, b: nat)
    requires q < size && b < ds
    ensures q * ds + b < size * ds && Quot(q * ds + b, ds) == q && Rem(q * ds + b, ds) == b
  {
    Arithmetic.NextBlock(q, size, ds);
    Arithmetic.DivOf(q, ds, b);
  }
}
