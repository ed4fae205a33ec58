/** Device images by their pixels: creation, and writes through the guarded API. */
module DeviceImages {
  import opened Canary
  import opened ImageGeometry
  import opened ApiGuards
  import opened RunModel
  import opened ImageCopy
  import ImageFill

  /** The content of a device image. */
  function Rows(m: Dims, pix: array3<seq<byte>>): (px: Pixels3)
    requires pix.Length0 == m.iLim && pix.Length1 == m.jLim && pix.Length2 == m.kLim
    reads pix
    ensures |px| == m.kLim && (forall z {:trigger px[z]} | 0 <= z < m.kLim :: |px[z]| == m.jLim)
    ensures forall z, y {:trigger px[z][y]} | 0 <= z < m.kLim && 0 <= y < m.jLim :: |px[z][y]| == m.iLim
    ensures forall z, y, x {:trigger px[z][y][x]} | 0 <= z < m.kLim && 0 <= y < m.jLim && 0 <= x < m.iLim ::
              px[z][y][x] == pix[x, y, z]
  {
    seq(m.kLim, z requires 0 <= z < m.kLim && pix.Length0 == m.iLim && pix.Length1 == m.jLim && pix.Length2 == m.kLim reads pix =>
      seq(m.jLim, y requires 0 <= y < m.jLim && pix.Length0 == m.iLim && pix.Length1 == m.jLim reads pix =>
        seq(m.iLim, x requires 0 <= x < m.iLim && pix.Length0 == m.iLim reads pix => pix[x, y, z])))
  }

  /** Device storage holding the given pixels. */
  method Storage(m: Dims, ds: nat, px: Pixels3) returns (pix: array3<seq<byte>>)
    requires Shaped(px, m, ds) && ds > 0
    ensures fresh(pix) && ImageOk(m, ds, pix)
    ensures forall x, y, z | 0 <= x < m.iLim && 0 <= y < m.jLim && 0 <= z < m.kLim :: pix[x, y, z] == px[z][y][x]
  {
    pix := new seq<byte>[m.iLim, m.jLim, m.kLim]((x, y, z) => seq(ds, b => 0));
    forall x, y, z | 0 <= x < m.iLim && 0 <= y < m.jLim && 0 <= z < m.kLim { pix[x, y, z] := px[z][y][x]; }
  }

  /** A new device image and the upload into it. */
  method MakeImage(d: Desc, ds: nat, src: ImageFill.Source) returns (pic: Picture)
    requires Sized(IMAGE_PAD, d) && ds > 0
    requires Span(IMAGE_PAD, PicDims(d), ds) <= INT_MAX && ImageFill.SourceOk(PicDims(d), ds, src)
    ensures pic.desc == d && pic.ds == ds && !pic.checked && PicOk(pic)
    ensures forall p: Pixel, b: nat | InImage(PicDims(d), p) && ImageFill.InRegion(Expand(IMAGE_PAD, d), p) && b < ds ::
              At(pic.px, PicDims(d), ds, p)[b] == ImageFill.PixelContent(PicDims(d), ds, src, p, b)
  {
    var m := PicDims(d);
    var pix := new seq<byte>[m.iLim, m.jLim, m.kLim]((x, y, z) => seq(ds, b => 0));
    hide Span, ImageFill.PixelContent, Sized;
    ImageFill.CreateCanariedImage(IMAGE_PAD, d, ds, src, pix);
    pic := Picture(d, ds, Rows(m, pix), false);
  }

  /** The driver's transfer of a box into an image. */
  method TransferBox(m: Dims, ds: nat, px: Pixels3, b: ImageBox, data: Pixels3) returns (after: Pixels3)
    requires Shaped(px, m, ds) && ds > 0 && Shaped(data, Dims(b.r0, b.r1, b.r2, b.r0, b.r1, b.r2), ds)
    requires b.o0 + b.r0 <= m.iLim && b.o1 + b.r1 <= m.jLim && b.o2 + b.r2 <= m.kLim
    ensures Shaped(after, m, ds)
    ensures forall p: Pixel | InImage(m, p) ::
              At(after, m, ds, p) == if BoxHolds(b, p) then data[p.z - b.o2][p.y - b.o1][p.x - b.o0] else At(px, m, ds, p)
  {
    var pix := Storage(m, ds, px);
    WriteInto(m, ds, pix, b, data);
    after := Rows(m, pix);
  }

  method WriteInto(m: Dims, ds: nat, pix: array3<seq<byte>>, b: ImageBox, data: Pixels3)
    requires ImageOk(m, ds, pix) && Shaped(data, Dims(b.r0, b.r1, b.r2, b.r0, b.r1, b.r2), ds)
    requires b.o0 + b.r0 <= m.iLim && b.o1 + b.r1 <= m.jLim && b.o2 + b.r2 <= m.kLim
    modifies pix
    ensures ImageOk(m, ds, pix)
    ensures forall x: nat, y: nat, z: nat | x < m.iLim && y < m.jLim && z < m.kLim ::
              pix[x, y, z] == if BoxHolds(b, Pixel(x, y, z)) then data[z - b.o2][y - b.o1][x - b.o0] else old(pix[x, y, z])
  {
    forall x, y, z | b.o0 <= x < b.o0 + b.r0 && b.o1 <= y < b.o1 + b.r1 && b.o2 <= z < b.o2 + b.r2 {
      pix[x, y, z] := data[z - b.o2][y - b.o1][x - b.o0];
    }
  }

  /** An image write: it happens if guard and driver let it through. */
  method WriteBox(pic: Picture, b: ImageBox, data: Pixels3) returns (after: Picture)
    requires PicOk(pic) && Shaped(data, Dims(b.r0, b.r1, b.r2, b.r0, b.r1, b.r2), pic.ds)
    ensures PicOk(after) && after == pic.(px := after.px)
    ensures forall p: Pixel | InImage(PicDims(pic.desc), p) ::
              At(after.px, PicDims(pic.desc), pic.ds, p)
              == if ImageWriteAccepted(pic, b) && BoxHolds(b, p) then data[p.z - b.o2][p.y - b.o1][p.x - b.o0]
                 else At(pic.px, PicDims(pic.desc), pic.ds, p)
  {
    var e := Expand(IMAGE_PAD, pic.desc);
    if ImageGuard(e, IMAGE_PAD, b).Inside? && b.o0 + b.r0 <= e.width && b.o1 + b.r1 <= JLim(e) && b.o2 + b.r2 <= KLim(e) {
      var px := TransferBox(PicDims(pic.desc), pic.ds, pic.px, b, data);
      after := pic.(px := px);
    } else {
      after := pic;
    }
    hide Span, Sized, ImageGuard, Shaped, At, Expand;
  }
}
