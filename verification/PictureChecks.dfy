/** Running the image checkers on device images given by their pixels. */
module PictureChecks {
  import opened Canary
  import Schedules
  import opened ImageGeometry
  import opened ApiGuards
  import opened RunModel
  import opened ImageCopy
  import opened ImagePoison
  import ImageKernel
  import ImageChecks
  import DeviceImages

  /** How images are checked: on the host, or by the batched kernel on copies at B in memSize bytes. */
  datatype ImageStrategy = OnHost | Batched(memSize: nat, B: nat, schedule: seq<Schedules.Event>)

  ghost predicate AllPicsOk(pics: seq<Picture>) {
    forall i | 0 <= i < |pics| :: PicOk(pics[i])
  }

  /** The lengths of the flattened canaries. */
  ghost function PicLens(pics: seq<Picture>): (l: seq<nat>)
    requires AllPicsOk(pics)
    ensures |l| == |pics| && forall i | 0 <= i < |l| :: l[i] == Span(IMAGE_PAD, PicDims(pics[i].desc), pics[i].ds)
  {
    seq(|pics|, i requires 0 <= i < |pics| && AllPicsOk(pics) => Span(IMAGE_PAD, PicDims(pics[i].desc), pics[i].ds))
  }

  /** The copies have room and the device can run the schedule. */
  ghost predicate ImagesApplicable(how: ImageStrategy, lens: seq<nat>) {
    match how
    case OnHost => true
    case Batched(memSize, B, schedule) =>
      && B + ImageKernel.SumTo(lens, |lens|) <= memSize && ImageKernel.SumTo(lens, |lens|) < INT_MAX
      && Schedules.CompleteSchedule(ImageKernel.ImageLaunch(lens, B), memSize, |lens|, schedule)
  }

  /** Device storage img holds the pixels of pic. */
  ghost predicate Holds(img: ImageChecks.Image, pic: Picture)
    reads img.pix
  {
    && PicOk(pic) && ImageChecks.Ok(img) && img.m == PicDims(pic.desc) && img.ds == pic.ds
    && forall p: Pixel | InImage(img.m, p) :: img.pix[p.x, p.y, p.z] == At(pic.px, img.m, img.ds, p)
  }

  /** Both descriptions of the image flatten to the same canary array. */
  lemma FlatIsFlatOf(img: ImageChecks.Image, pic: Picture)
    requires Holds(img, pic)
    ensures ImageChecks.Flat(img) == FlatOf(pic)
  {
    var m := img.m;
    StridePositive(IMAGE_PAD, m);
    forall i | 0 <= i < Span(IMAGE_PAD, m, pic.ds)
      ensures FlatByte(IMAGE_PAD, m, pic.ds, img.pix, i) == FlatByteOf(pic, i)
    {
      QuotRange(i, pic.ds, FlatSize(IMAGE_PAD, m));
      PosOfPixel(IMAGE_PAD, m, Quot(i, pic.ds));
      hide PosOf, FlatSize, Stride, PixelAt;
    }
  }

  method Store(pic: Picture) returns (img: ImageChecks.Image)
    requires PicOk(pic)
    ensures fresh(img.pix) && Holds(img, pic)
  {
    var m := PicDims(pic.desc);
    ExpandedDims(IMAGE_PAD, pic.desc);
    var pix := DeviceImages.Storage(m, pic.ds, pic.px);
    img := ImageChecks.Image(m, pic.ds, pix);
    hide Span, Sized, Shaped;
  }

  /** Storage that held pic and has been mended. */
  ghost predicate HoldsMended(img: ImageChecks.Image, pic: Picture)
    requires PicOk(pic)
    reads img.pix
  {
    && ImageChecks.Ok(img) && img.m == PicDims(pic.desc) && img.ds == pic.ds
    && forall p: Pixel | InImage(img.m, p) ::
         img.pix[p.x, p.y, p.z] == if IsCanary(img.m, p) then FillPixel(img.ds) else At(pic.px, img.m, img.ds, p)
  }

  method StoreAll(pics: seq<Picture>) returns (imgs: seq<ImageChecks.Image>)
    requires AllPicsOk(pics)
    ensures |imgs| == |pics| && forall i | 0 <= i < |pics| :: fresh(imgs[i].pix) && Holds(imgs[i], pics[i])
    ensures forall i, j | 0 <= i < j < |pics| :: imgs[i].pix != imgs[j].pix
  {
    imgs := [];
    hide Holds, PicOk;
    for i := 0 to |pics|
      invariant |imgs| == i && forall j | 0 <= j < i :: fresh(imgs[j].pix) && Holds(imgs[j], pics[j])
      invariant forall j, k | 0 <= j < k < i :: imgs[j].pix != imgs[k].pix
    {
      var img := Store(pics[i]);
      imgs := imgs + [img];
    }
  }

  /** The pixels a checked image is left with. */
  method ReadBack(img: ImageChecks.Image, pic: Picture) returns (after: Picture)
    requires PicOk(pic) && HoldsMended(img, pic)
    ensures PicOk(after) && Mended3(pic, after)
  {
    after := pic.(px := DeviceImages.Rows(img.m, img.pix), checked := true);
    hide Span, Sized;
  }

  ghost predicate Stored(imgs: seq<ImageChecks.Image>, pics: seq<Picture>)
    reads ImageChecks.Arrays(imgs)
  {
    && |imgs| == |pics| && ImageChecks.AllOk(imgs)
    && forall i | 0 <= i < |imgs| :: imgs[i].pix in ImageChecks.Arrays(imgs) && Holds(imgs[i], pics[i])
  }

  lemma StoredLens(imgs: seq<ImageChecks.Image>, pics: seq<Picture>)
    requires Stored(imgs, pics)
    ensures AllPicsOk(pics) && ImageChecks.Lens(imgs) == PicLens(pics)
    ensures forall i | 0 <= i < |imgs| :: ImageChecks.Flats(imgs)[i] == FlatOf(pics[i])
  {
    forall i | 0 <= i < |imgs| ensures ImageChecks.Flats(imgs)[i] == FlatOf(pics[i]) {
      FlatIsFlatOf(imgs[i], pics[i]);
    }
  }

  /** Either way of checking refines the same specification. */
  method CheckStored(imgs: seq<ImageChecks.Image>, how: ImageStrategy, ghost lens: seq<nat>) returns (reports: seq<nat>)
    requires ImageChecks.AllOk(imgs) && lens == ImageChecks.Lens(imgs) && ImagesApplicable(how, lens)
    modifies ImageChecks.Arrays(imgs)
    ensures ImageChecks.Checked(imgs, reports)
  {
    hide ImageChecks.Checked;
    match how {
      case OnHost => reports := ImageChecks.VerifyImages(imgs);
      case Batched(memSize, B, schedule) => reports := ImageChecks.VerifyClImagesCopy(imgs, memSize, B, schedule);
    }
  }

  method CheckAndMend(imgs: seq<ImageChecks.Image>, ghost pics: seq<Picture>, how: ImageStrategy)
    returns (reports: seq<nat>)
    requires Stored(imgs, pics) && AllPicsOk(pics) && ImagesApplicable(how, PicLens(pics))
    modifies ImageChecks.Arrays(imgs)
    ensures |reports| == |pics|
    ensures forall i | 0 <= i < |pics| :: reports[i] == FirstBad(FlatOf(pics[i])) && HoldsMended(imgs[i], pics[i])
  {
    hide ImagesApplicable, PicLens, PicOk, ImageChecks.Ok, FirstBad, FlatOf;
    StoredLens(imgs, pics);
    ghost var flats := ImageChecks.Flats(imgs);
    reports := CheckStored(imgs, how, PicLens(pics));
    forall i | 0 <= i < |pics| ensures reports[i] == FirstBad(FlatOf(pics[i])) && HoldsMended(imgs[i], pics[i]) {
      assert reports[i] == FirstBad(flats[i]) && flats[i] == FlatOf(pics[i]);
      assert old(Holds(imgs[i], pics[i])) && ImageChecks.Remade(imgs[i]);
    }
  }

  method StoreAndCheck(pics: seq<Picture>, how: ImageStrategy) returns (imgs: seq<ImageChecks.Image>, reports: seq<nat>)
    requires AllPicsOk(pics) && ImagesApplicable(how, PicLens(pics))
    ensures |imgs| == |reports| == |pics|
    ensures forall i | 0 <= i < |pics| :: reports[i] == FirstBad(FlatOf(pics[i])) && HoldsMended(imgs[i], pics[i])
  {
    hide ImagesApplicable, PicLens, PicOk, HoldsMended, FirstBad;
    imgs := StoreAll(pics);
    assert Stored(imgs, pics);
    hide Stored, Holds;
    reports := CheckAndMend(imgs, pics, how);
  }

  method ReadAllBack(imgs: seq<ImageChecks.Image>, pics: seq<Picture>) returns (after: seq<Picture>)
    requires |imgs| == |pics| && AllPicsOk(pics) && forall i | 0 <= i < |pics| :: HoldsMended(imgs[i], pics[i])
    ensures |after| == |pics| && forall i | 0 <= i < |pics| :: PicOk(after[i]) && Mended3(pics[i], after[i])
  {
    after := [];
    hide PicOk;
    for i := 0 to |pics|
      invariant |after| == i && forall j | 0 <= j < |pics| :: unchanged(imgs[j].pix) && HoldsMended(imgs[j], pics[j])
      invariant forall j | 0 <= j < i :: PicOk(after[j]) && Mended3(pics[j], after[j])
    {
      var pic := ReadBack(imgs[i], pics[i]);
      after := after + [pic];
    }
  }

  /** Every image is reported by its least corrupted canary offset and left mended. */
  method CheckPictures(pics: seq<Picture>, how: ImageStrategy) returns (reports: seq<nat>, after: seq<Picture>)
    requires AllPicsOk(pics) && ImagesApplicable(how, PicLens(pics))
    ensures |reports| == |after| == |pics|
    ensures forall i | 0 <= i < |pics| :: ImageChecked(pics[i], after[i], reports[i])
  {
    var imgs;
    hide PicOk, Mended3, ImagesApplicable, PicLens, FirstBad, FlatOf;
    imgs, reports := StoreAndCheck(pics, how);
    after := ReadAllBack(imgs, pics);
  }
}
