/** From the result of an image check to the line printed for it. */
module ImageReports {
  import opened Canary
  import opened ImageGeometry
  import opened ImageDecode
  import opened ApiGuards
  import opened RunModel
  import Arithmetic
  import ImageCopy
  import ImagePoison

  /** What is printed: how far past the end of the first, second or third dimension, and where. */
  datatype Message =
    | FirstDimension(row: int, depth: int, columns: int)
    | SecondDimension(depth: int, rows: int)
    | ThirdDimension(slices: int)

  /** The three formats of overflowError. */
  function MessageOf(l: Location): Message {
    if l.x >= 0 then FirstDimension(l.y, l.z, l.x + 1)
    else if l.y >= 0 then SecondDimension(l.z, l.y + 1)
    else ThirdDimension(l.z + 1)
  }

  /** The pixels a message points at. */
  predicate PointsAt(m: Dims, message: Message, px: Pixel) {
    match message
    case FirstDimension(row, depth, columns) => px.x == m.iDat + columns - 1 && px.y == row && px.z == depth
    case SecondDimension(depth, rows) => px.y == m.jDat + rows - 1 && px.z == depth
    case ThirdDimension(slices) => px.z == m.kDat + slices - 1
  }

  /** The first corrupted canary pixel in flat order. */
  ghost predicate FirstCorrupted(pic: Picture, px: Pixel)
    requires PicOk(pic)
  {
    var m := PicDims(pic.desc);
    && IsCanary(m, px) && At(pic.px, m, pic.ds, px) != ImagePoison.FillPixel(pic.ds)
    && forall p: Pixel | IsCanary(m, p) && PosOf(IMAGE_PAD, m, p) < PosOf(IMAGE_PAD, m, px) ::
         At(pic.px, m, pic.ds, p) == ImagePoison.FillPixel(pic.ds)
  }

  /** The pixel that holds the reported byte. */
  lemma ReportedPixel(pic: Picture, badByte: nat) returns (px: Pixel)
    requires PicOk(pic) && badByte == FirstBad(FlatOf(pic)) && badByte != INT_MAX
    ensures Quot(badByte, pic.ds) < FlatSize(IMAGE_PAD, PicDims(pic.desc))
    ensures Stride(IMAGE_PAD, PicDims(pic.desc)) > 0
      && px == PixelAt(IMAGE_PAD, PicDims(pic.desc), Quot(badByte, pic.ds))
    ensures IsCanary(PicDims(pic.desc), px) && PosOf(IMAGE_PAD, PicDims(pic.desc), px) == Quot(badByte, pic.ds)
    ensures At(pic.px, PicDims(pic.desc), pic.ds, px) != ImagePoison.FillPixel(pic.ds)
  {
    var m := PicDims(pic.desc);
    ExpandedDims(IMAGE_PAD, pic.desc);
    StridePositive(IMAGE_PAD, m);
    ImageCopy.QuotRange(badByte, pic.ds, FlatSize(IMAGE_PAD, m));
    PosOfPixel(IMAGE_PAD, m, Quot(badByte, pic.ds));
    px := PixelAt(IMAGE_PAD, m, Quot(badByte, pic.ds));
    assert FlatOf(pic)[badByte] == FlatByteOf(pic, badByte);
    hide PosOf, PixelAt, FlatSize, Stride, Shaped;
  }

  /** A canary pixel before the reported byte is clean. */
  lemma EarlierPixelClean(pic: Picture, badByte: nat, p: Pixel)
    requires PicOk(pic) && badByte == FirstBad(FlatOf(pic)) && badByte != INT_MAX && IsCanary(PicDims(pic.desc), p)
    requires PosOf(IMAGE_PAD, PicDims(pic.desc), p) < Quot(badByte, pic.ds)
    ensures At(pic.px, PicDims(pic.desc), pic.ds, p) == ImagePoison.FillPixel(pic.ds)
  {
    forall b: nat | b < pic.ds ensures At(pic.px, PicDims(pic.desc), pic.ds, p)[b] == FILL {
      var i := FlatPosition(pic, p, b);
      assert FlatOf(pic)[i] == FlatByteOf(pic, i);
      assert i < badByte by { PositionOrder(PosOf(IMAGE_PAD, PicDims(pic.desc), p), badByte, pic.ds, b); }
    }
  }

  lemma PositionOrder(q: nat, n: nat, ds: nat, b: nat)
    requires ds > 0 && b < ds && q < Quot(n, ds)
    ensures q * ds + b < n
  {
    QuotTimes(n, ds);
    Arithmetic.NextBlock(q, Quot(n, ds), ds);
    hide Quot;
  }

  lemma QuotTimes(n: nat, ds: nat)
    requires ds > 0
    ensures Quot(n, ds) * ds <= n
  {
    assert n == (n / ds) * ds + n % ds;
  }

  lemma FirstInFlatOrder(pic: Picture, badByte: nat) returns (px: Pixel)
    requires PicOk(pic) && badByte == FirstBad(FlatOf(pic)) && badByte != INT_MAX
    ensures Quot(badByte, pic.ds) < FlatSize(IMAGE_PAD, PicDims(pic.desc))
    ensures Stride(IMAGE_PAD, PicDims(pic.desc)) > 0
      && px == PixelAt(IMAGE_PAD, PicDims(pic.desc), Quot(badByte, pic.ds))
    ensures FirstCorrupted(pic, px)
  {
    px := ReportedPixel(pic, badByte);
    hide Stride, FlatSize, PixelAt, PosOf, FirstBad, FlatOf;
    forall p: Pixel | IsCanary(PicDims(pic.desc), p)
    && PosOf(IMAGE_PAD, PicDims(pic.desc), p) < PosOf(IMAGE_PAD, PicDims(pic.desc), px)
      ensures At(pic.px, PicDims(pic.desc), pic.ds, p) == ImagePoison.FillPixel(pic.ds)
    {
      EarlierPixelClean(pic, badByte, p);
    }
  }

  lemma LocationPoints(m: Dims, px: Pixel)
    requires IsCanary(m, px)
    ensures PointsAt(m, MessageOf(LocationOf(m, px)), px)
  {
  }

  /** The image part of overflowError: decode, then print in the format of the dimension. */
  method OverflowErrorImage(desc: Desc, ds: nat, badByte: nat) returns (message: Message)
    requires UserDesc(desc) && ds > 0
    ensures DecodesAll(IMAGE_PAD, desc) ==>
              var m := PicDims(desc);
              Quot(badByte, ds) < FlatSize(IMAGE_PAD, m) ==>
                message == MessageOf(LocationOf(m, PixelAt(IMAGE_PAD, m, Quot(badByte, ds))))
  {
    ExpandedDims(IMAGE_PAD, desc);
    DecoderDimsAre(IMAGE_PAD, desc);
    var loc := GetImageCanaryXYZ(IMAGE_PAD, DecoderDims(IMAGE_PAD, Expand(IMAGE_PAD, desc)), ds, badByte);
    message := MessageOf(loc);
  }

  /** From check result to printed line. An image is reported if and only if its canary is dirty; when
      it is one the decoder serves, the line printed points at its first corrupted canary pixel. */
  method ReportImage(pic: Picture, badByte: nat) returns (reported: bool, message: Message)
    requires PicOk(pic) && badByte == FirstBad(FlatOf(pic))
    ensures reported <==> !PicClean(pic)
    ensures reported && (!IsArray(pic.desc.kind) || pic.desc.arraySize == 1) ==>
              exists px: Pixel :: FirstCorrupted(pic, px) && PointsAt(PicDims(pic.desc), message, px)
  {
    FlatOfClean(pic);
    reported := badByte < INT_MAX;
    message := ThirdDimension(0);
    if reported {
      message := OverflowErrorImage(pic.desc, pic.ds, badByte);
      ghost var px := FirstInFlatOrder(pic, badByte);
      LocationPoints(PicDims(pic.desc), px);
      DecoderExact(IMAGE_PAD, pic.desc);
      hide FirstCorrupted, PointsAt, DecodesAll, PicClean, FlatOf, FirstBad, FlatSize, PixelAt, Stride;
      if !IsArray(pic.desc.kind) || pic.desc.arraySize == 1 {
        assert FirstCorrupted(pic, px) && PointsAt(PicDims(pic.desc), message, px);
      }
    }
  }

  // ----- what the API guard reports -----

  /** The pixels of a transfer past the user's extent, by dimension. */
  predicate PastThird(d: Desc, b: ImageBox, q: Pixel) { BoxHolds(b, q) && HasSlices(d.kind) && q.z >= KLim(d) }

  predicate PastSecond(d: Desc, b: ImageBox, q: Pixel) { BoxHolds(b, q) && HasRows(d.kind) && q.y >= JLim(d) }

  predicate PastFirst(d: Desc, b: ImageBox, q: Pixel) { BoxHolds(b, q) && q.x >= d.width }

  predicate NoLater(p: Pixel, q: Pixel) { p.x <= q.x && p.y <= q.y && p.z <= q.z }

  /** The message points at px, the first pixel of the transfer past the user's extent in the highest
      dimension that it leaves. */
  ghost predicate Announces(d: Desc, b: ImageBox, message: Message, px: Pixel) {
    && PointsAt(UserDims(d), message, px)
    && match message
       case ThirdDimension(_) => PastThird(d, b, px) && forall q: Pixel | PastThird(d, b, q) :: NoLater(px, q)
       case SecondDimension(_, _) =>
         && (forall q: Pixel :: !PastThird(d, b, q))
         && PastSecond(d, b, px) && forall q: Pixel | PastSecond(d, b, q) :: NoLater(px, q)
       case FirstDimension(_, _, _) =>
         && (forall q: Pixel :: !PastThird(d, b, q)) && (forall q: Pixel :: !PastSecond(d, b, q))
         && PastFirst(d, b, px) && forall q: Pixel | PastFirst(d, b, q) :: NoLater(px, q)
  }

  /** No sum wraps: neither an end nor, in a dimension the image does not have, the limit. */
  predicate SumsExact(p: Pad, d: Desc, b: ImageBox) {
    b.o0 + b.r0 < TWO64 && b.o1 + b.r1 < TWO64 && b.o2 + b.r2 < TWO64 && !SomeAlarm(p, d, b)
  }

  /** The numbers of the message are ints. */
  predicate Printable(d: Desc, b: ImageBox) {
    if HasSlices(d.kind) && b.o2 + b.r2 > KLim(d) then b.o2 < KLim(d) + TWO32 / 2
    else if HasRows(d.kind) && b.o1 + b.r1 > JLim(d) then b.o1 < JLim(d) + TWO32 / 2 && b.o2 < TWO32 / 2
    else b.o0 < d.width + TWO32 / 2 && b.o1 < TWO32 / 2 && b.o2 < TWO32 / 2
  }

  lemma LimitIs(limit: nat, pad: nat, expanded: bool)
    requires (expanded && limit + pad < TWO64) || (!expanded && limit == 1 && 1 < pad < TWO64)
    ensures SubU(if expanded then limit + pad else limit, pad) == if expanded then limit else TWO64 + 1 - pad
  {
    if expanded { SmallMod(limit); } else { assert (1 - pad) % TWO64 == TWO64 + 1 - pad; }
  }

  function Max(a: nat, b: nat): nat { if a > b then a else b }

  /** The first pixel past the extent in the highest dimension left. */
  function FirstPastUser(d: Desc, b: ImageBox): Pixel {
    if HasSlices(d.kind) && b.o2 + b.r2 > KLim(d) then Pixel(b.o0, b.o1, Max(b.o2, KLim(d)))
    else if HasRows(d.kind) && b.o1 + b.r1 > JLim(d) then Pixel(b.o0, Max(b.o1, JLim(d)), b.o2)
    else Pixel(Max(b.o0, d.width), b.o1, b.o2)
  }

  /** The guard's verdict in terms of the user's extent. */
  lemma VerdictIs(p: Pad, d: Desc, b: ImageBox)
    requires Sized(p, d) && SumsExact(p, d, b)
    ensures ImageGuard(Expand(p, d), p, b)
         == if HasSlices(d.kind) && b.o2 + b.r2 > KLim(d) then Outside(Location(-1, -1, AsInt(PastEnd(b.o2, KLim(d)))))
            else if HasRows(d.kind) && b.o1 + b.r1 > JLim(d)
            then Outside(Location(-1, AsInt(PastEnd(b.o1, JLim(d))), AsInt(b.o2)))
            else if b.o0 + b.r0 > d.width
            then Outside(Location(AsInt(PastEnd(b.o0, d.width)), AsInt(b.o1), AsInt(b.o2)))
            else Inside
  {
    ExpandedDims(p, d);
    hide AddU, SubU, AsInt, PastEnd;
    LimitIs(d.width, p.w, true);
    LimitIs(JLim(d), p.h, HasRows(d.kind));
    LimitIs(KLim(d), p.d, HasSlices(d.kind));
    WrappedEndIs(b.o0, b.r0);
    WrappedEndIs(b.o1, b.r1);
    WrappedEndIs(b.o2, b.r2);
  }

  lemma FirstPastIsFirst(d: Desc, b: ImageBox)
    requires UserDesc(d) && b.r0 > 0 && b.r1 > 0 && b.r2 > 0 && Leaves(d, b)
    ensures var px := FirstPastUser(d, b);
      if HasSlices(d.kind) && b.o2 + b.r2 > KLim(d)
      then PastThird(d, b, px) && forall q: Pixel | PastThird(d, b, q) :: NoLater(px, q)
      else
        (forall q: Pixel :: !PastThird(d, b, q))
        && if HasRows(d.kind) && b.o1 + b.r1 > JLim(d)
           then PastSecond(d, b, px) && forall q: Pixel | PastSecond(d, b, q) :: NoLater(px, q)
           else (forall q: Pixel :: !PastSecond(d, b, q))
                && PastFirst(d, b, px) && forall q: Pixel | PastFirst(d, b, q) :: NoLater(px, q)
  {
  }

  /** For every transfer of some pixels that leaves the user's extent, and whose sums do not wrap: the
      message printed points at its first pixel past the extent in the highest dimension it leaves, if
      and only if the numbers are ints. */
  lemma ImageGuardReports(p: Pad, d: Desc, b: ImageBox)
    requires Sized(p, d) && SumsExact(p, d, b) && b.r0 > 0 && b.r1 > 0 && b.r2 > 0 && Leaves(d, b)
    ensures ImageGuard(Expand(p, d), p, b).Outside?
    ensures (exists px: Pixel :: Announces(d, b, MessageOf(ImageGuard(Expand(p, d), p, b).at), px)) <==> Printable(d, b)
  {
    VerdictIs(p, d, b);
    FirstPastIsFirst(d, b);
    hide ImageGuard, Sized, SumsExact, PastThird, PastSecond, PastFirst;
    var px := FirstPastUser(d, b);
    var message := MessageOf(ImageGuard(Expand(p, d), p, b).at);
    if Printable(d, b) {
      assert Announces(d, b, message, px);
    }
    forall q: Pixel | Announces(d, b, message, q) ensures Printable(d, b) {
      assert q == px;
    }
  }
}
