/** Checking images on the host and with the batched kernel: both report the least corrupted offset
    of the flattened canary and leave every canary pixel clean. */
module ImageChecks {
  import opened Canary
  import opened Schedules
  import opened Kernels
  import opened ImageGeometry
  import opened ImageCopy
  import opened ImagePoison
  import opened ImageKernel
  import opened CpuCheck
  import GpuCheck
  import opened KernelLayouts

  /** An image on the device. */
  datatype Image = Image(m: Dims, ds: nat, pix: array3<seq<byte>>)

  ghost predicate Ok(img: Image)
    reads img.pix
  {
    ValidDims(IMAGE_PAD, img.m) && ImageOk(img.m, img.ds, img.pix) && Span(IMAGE_PAD, img.m, img.ds) <= INT_MAX
  }

  ghost function Flat(img: Image): seq<byte>
    requires Ok(img)
    reads img.pix
  {
    FlatCanary(IMAGE_PAD, img.m, img.ds, img.pix)
  }

  /** After a check: canary pixels are fill, user pixels are as before. */
  twostate predicate Remade(img: Image)
    reads img.pix
  {
    && img.pix.Length0 == img.m.iLim && img.pix.Length1 == img.m.jLim && img.pix.Length2 == img.m.kLim
    && forall x, y, z | 0 <= x < img.m.iLim && 0 <= y < img.m.jLim && 0 <= z < img.m.kLim ::
         img.pix[x, y, z] == if IsCanary(img.m, Pixel(x, y, z)) then FillPixel(img.ds) else old(img.pix[x, y, z])
  }

  /** With 16-wide pads every canary array is a whole number of words. */
  lemma WholeWords(m: Dims, ds: nat)
    ensures Span(IMAGE_PAD, m, ds) % 4 == 0 && 4 * DivideCeiling(Span(IMAGE_PAD, m, ds), 4) == Span(IMAGE_PAD, m, ds)
  {
    var p := IMAGE_PAD;
    var c := m.kDat * (m.jDat + if m.jLim > 1 then m.iLim else 0) + if m.kLim > 1 then m.jLim * m.iLim else 0;
    Assoc(16, m.kDat, m.jDat + if m.jLim > 1 then m.iLim else 0);
    assert Stride(p, m) == 16 * (m.jDat + if m.jLim > 1 then m.iLim else 0);
    Sixteen(m.kDat, m.jDat + if m.jLim > 1 then m.iLim else 0);
    assert FlatSize(p, m) == 16 * c;
    Assoc(16, c, ds);
    assert Span(p, m, ds) == 4 * (4 * (c * ds));
  }

  lemma Sixteen(a: nat, b: nat)
    ensures a * (16 * b) == 16 * (a * b)
  {
  }

  /** Scan a canary that has been read from an image; mend the image if it is corrupted. */
  method ParseImageCanary(img: Image, canary: array<byte>, ghost flat: seq<byte>) returns (badByte: nat)
    requires Ok(img) && canary[..] == flat == Flat(img)
    modifies img.pix
    ensures |flat| <= INT_MAX && badByte == FirstBad(flat)
    ensures Ok(img) && Remade(img)
  {
    WholeWords(img.m, img.ds);
    assert canary[..Span(IMAGE_PAD, img.m, img.ds)] == flat;
    badByte := CpuParseCanary(Span(IMAGE_PAD, img.m, img.ds), canary);
    if badByte != INT_MAX {
      PoisonFillImageCanaries(IMAGE_PAD, img.m, img.ds, img.pix);
    } else {
      FlatCleanIffPixelsClean(IMAGE_PAD, img.m, img.ds, img.pix);
    }
  }

  /** A checked image is clean: checking it again reports nothing. */
  lemma CheckedImageIsClean(img: Image)
    requires Ok(img) && CanaryPixelsClean(img.m, img.ds, img.pix)
    ensures FirstBad(Flat(img)) == INT_MAX
  {
    FlatCleanIffPixelsClean(IMAGE_PAD, img.m, img.ds, img.pix);
    FirstBadUnique(Flat(img), INT_MAX);
  }

  // ----- the host -----

  function Arrays(imgs: seq<Image>): set<array3<seq<byte>>> {
    set i | 0 <= i < |imgs| :: imgs[i].pix
  }

  ghost predicate AllOk(imgs: seq<Image>)
    reads Arrays(imgs)
  {
    && (forall i, j | 0 <= i < j < |imgs| :: imgs[i].pix != imgs[j].pix)
    && forall i | 0 <= i < |imgs| :: imgs[i].pix in Arrays(imgs) && Ok(imgs[i])
  }

  ghost function Flats(imgs: seq<Image>): (f: seq<seq<byte>>)
    requires AllOk(imgs)
    reads Arrays(imgs)
    ensures |f| == |imgs| && forall i | 0 <= i < |imgs| :: f[i] == Flat(imgs[i]) && |f[i]| <= INT_MAX
  {
    seq(|imgs|, i requires 0 <= i < |imgs| && AllOk(imgs) reads Arrays(imgs) => Flat(imgs[i]))
  }

  /** What checking images must do: report every image's own least corrupted offset and leave every
      canary pixel clean and every user pixel as it was. */
  twostate predicate Checked(imgs: seq<Image>, reports: seq<nat>)
    requires old(AllOk(imgs))
    reads Arrays(imgs)
  {
    && |reports| == |imgs| && AllOk(imgs)
    && forall i | 0 <= i < |imgs| ::
          reports[i] == FirstBad(old(Flats(imgs))[i]) && imgs[i].pix in Arrays(imgs) && Remade(imgs[i])
  }

  /** verify_images: every canary is read, then each is scanned and its image mended if corrupted. */
  method VerifyImages(imgs: seq<Image>) returns (reports: seq<nat>)
    requires AllOk(imgs)
    modifies Arrays(imgs)
    ensures Checked(imgs, reports)
  {
    ghost var flats := Flats(imgs);
    hide Ok, Flat, Remade;
    var canaries := ReadAll(imgs, flats);
    reports := ParseAll(imgs, canaries, flats);
  }

  method ReadAll(imgs: seq<Image>, ghost flats: seq<seq<byte>>) returns (canaries: seq<array<byte>>)
    requires |flats| == |imgs| && forall i | 0 <= i < |imgs| :: Ok(imgs[i]) && flats[i] == Flat(imgs[i])
    ensures |canaries| == |imgs| && forall i | 0 <= i < |imgs| :: fresh(canaries[i]) && canaries[i][..] == flats[i]
  {
    canaries := [];
    hide Ok, Flat;
    for i := 0 to |imgs|
      invariant |canaries| == i && forall j | 0 <= j < |imgs| :: Ok(imgs[j]) && unchanged(imgs[j].pix)
      invariant forall j | 0 <= j < i :: fresh(canaries[j]) && canaries[j][..] == flats[j]
    {
      var canary := ReadCanary(imgs[i]);
      canaries := canaries + [canary];
    }
  }

  method ParseAll(imgs: seq<Image>, canaries: seq<array<byte>>, ghost flats: seq<seq<byte>>) returns (reports: seq<nat>)
    requires AllOk(imgs) && |canaries| == |flats| == |imgs|
    requires forall i | 0 <= i < |imgs| :: canaries[i][..] == flats[i] == Flat(imgs[i])
    modifies Arrays(imgs)
    ensures |reports| == |imgs|
      && forall i | 0 <= i < |imgs| :: |flats[i]| <= INT_MAX && reports[i] == FirstBad(flats[i])
    ensures AllOk(imgs) && forall i | 0 <= i < |imgs| :: Remade(imgs[i])
  {
    reports := [];
    hide Ok, Flat, FirstBad, Arrays;
    var i := 0;
    while i < |imgs|
      invariant 0 <= i == |reports| <= |imgs|
      invariant forall j | 0 <= j < i :: |flats[j]| <= INT_MAX && reports[j] == FirstBad(flats[j])
      invariant forall j | 0 <= j < |imgs| :: Ok(imgs[j])
      invariant forall j | 0 <= j < i :: Remade(imgs[j])
      invariant forall j | i <= j < |imgs| :: unchanged(imgs[j].pix)
      invariant forall j | 0 <= j < |imgs| :: canaries[j][..] == flats[j]
    {
      assert imgs[i].pix in Arrays(imgs);
      var badByte := ParseImageCanary(imgs[i], canaries[i], flats[i]);
      reports := reports + [badByte];
      i := i + 1;
    }
  }

  method ReadCanary(img: Image) returns (canary: array<byte>)
    requires Ok(img)
    ensures fresh(canary) && canary[..] == Flat(img)
  {
    var events;
    canary, events := ReadImageCanaries(IMAGE_PAD, img.m, img.ds, img.pix);
  }

  // ----- the batched kernel -----

  function Lens(imgs: seq<Image>): (l: seq<nat>)
    ensures |l| == |imgs| && forall i {:trigger l[i]} | 0 <= i < |l| :: l[i] == Span(IMAGE_PAD, imgs[i].m, imgs[i].ds)
  {
    seq(|imgs|, i requires 0 <= i < |imgs| => Span(IMAGE_PAD, imgs[i].m, imgs[i].ds))
  }

  /** The flattened canary of image i lies at its place among the copies. */
  ghost predicate Placed(flats: seq<seq<byte>>, lens: seq<nat>, mem: seq<byte>, B: nat, i: nat)
    requires |lens| == |flats| && i < |lens|
  {
    B + SumTo(lens, i) + lens[i] <= |mem| && mem[B + SumTo(lens, i)..B + SumTo(lens, i) + lens[i]] == flats[i]
  }

  lemma PlacedKept(flats: seq<seq<byte>>, lens: seq<nat>, before: seq<byte>, mem: seq<byte>, B: nat, j: nat, i: nat)
    requires |lens| == |flats| && j < i < |lens| && |mem| == |before| && Placed(flats, lens, before, B, j)
    requires forall a | 0 <= a < |mem| && a < B + SumTo(lens, i) :: mem[a] == before[a]
    ensures Placed(flats, lens, mem, B, j)
  {
    SumsGrow(lens, j + 1, i);
    assert SumTo(lens, j + 1) == SumTo(lens, j) + lens[j];
  }

  /** Copy one image's canary to its place, then mend the image. */
  method CopyAndMendImage(img: Image, mem: array<byte>, offset: nat)
    requires Ok(img) && offset + Span(IMAGE_PAD, img.m, img.ds) <= mem.Length
    modifies mem, img.pix
    ensures mem[offset..offset + Span(IMAGE_PAD, img.m, img.ds)] == old(Flat(img))
    ensures OutsideSame(old(mem[..]), mem[..], offset, Span(IMAGE_PAD, img.m, img.ds))
    ensures Ok(img) && Remade(img)
  {
    var events := CopyImageCanaries(IMAGE_PAD, img.m, img.ds, img.pix, mem, offset);
    assert mem[offset..offset + Span(IMAGE_PAD, img.m, img.ds)] == Flat(img);
    PoisonFillImageCanaries(IMAGE_PAD, img.m, img.ds, img.pix);
  }

  /** One turn of the copy loop over the images. */
  method CopyNextImage(imgs: seq<Image>, i: nat, mem: array<byte>, B: nat, ghost flats: seq<seq<byte>>, lens: seq<nat>)
    requires i < |imgs| == |flats| && lens == Lens(imgs) && Ok(imgs[i]) && flats[i] == Flat(imgs[i])
    requires B + SumTo(lens, |lens|) <= mem.Length
    requires forall j | 0 <= j < i :: Placed(flats, lens, mem[..], B, j)
    modifies mem, imgs[i].pix
    ensures forall j | 0 <= j < i + 1 :: Placed(flats, lens, mem[..], B, j)
    ensures Ok(imgs[i]) && Remade(imgs[i])
  {
    ghost var before := mem[..];
    SumsGrow(lens, i + 1, |lens|);
    assert SumTo(lens, i + 1) == SumTo(lens, i) + lens[i];
    CopyAndMendImage(imgs[i], mem, B + SumTo(lens, i));
    forall j | 0 <= j < i + 1 ensures Placed(flats, lens, mem[..], B, j) {
      if j < i { PlacedKept(flats, lens, before, mem[..], B, j, i); }
    }
  }

  /** The copy loop of verify_cl_images_copy. */
  method CopyAllImages(imgs: seq<Image>, memSize: nat, B: nat, ghost flats: seq<seq<byte>>, lens: seq<nat>)
    returns (copied: seq<byte>)
    requires AllOk(imgs) && |flats| == |imgs| && lens == Lens(imgs) && B + SumTo(lens, |lens|) <= memSize
    requires forall i | 0 <= i < |imgs| :: flats[i] == Flat(imgs[i])
    modifies Arrays(imgs)
    ensures |copied| == memSize && forall i | 0 <= i < |imgs| :: Placed(flats, lens, copied, B, i)
    ensures AllOk(imgs) && forall i | 0 <= i < |imgs| :: Remade(imgs[i])
  {
    hide Ok, Flat, Placed, SumTo, Lens;
    var mem := new byte[memSize];
    var i := 0;
    while i < |imgs|
      invariant 0 <= i <= |imgs|
      invariant forall j | 0 <= j < |imgs| :: Ok(imgs[j])
      invariant forall j | i <= j < |imgs| :: unchanged(imgs[j].pix)
      invariant forall j | 0 <= j < i :: Remade(imgs[j])
      invariant forall j | 0 <= j < i :: Placed(flats, lens, mem[..], B, j)
    {
      assert imgs[i].pix in Arrays(imgs);
      CopyNextImage(imgs, i, mem, B, flats, lens);
      i := i + 1;
    }
    copied := mem[..];
  }

  /** The launch over placed canaries: every image's own answer. */
  method CheckPlacedImages(lens: seq<nat>, copied: seq<byte>, B: nat, schedule: seq<Event>, ghost flats: seq<seq<byte>>)
    returns (reports: seq<nat>)
    requires |flats| == |lens|
    requires B + SumTo(lens, |lens|) <= |copied| && SumTo(lens, |lens|) < INT_MAX
    requires CompleteSchedule(ImageLaunch(lens, B), |copied|, |lens|, schedule)
    requires forall i | 0 <= i < |lens| :: |flats[i]| <= INT_MAX && Placed(flats, lens, copied, B, i)
    ensures |reports| == |lens| && forall i | 0 <= i < |lens| :: reports[i] == FirstBad(flats[i])
  {
    var mem := new byte[|copied|](i requires 0 <= i < |copied| => copied[i]);
    assert mem[..] == copied;
    var canaryEnds, total := FindCanaryEnds(lens);
    assert canaryEnds == Ends(lens);
    EndsAscend(lens);
    ImageLayout(lens, B, |copied|);
    var first := new nat[|lens|];
    GpuCheck.LaunchCheckKernel(FindImageCorruption(canaryEnds, B), 1, total, schedule, mem, first);
    reports := first[..];
    forall i | 0 <= i < |lens| ensures reports[i] == FirstBad(flats[i]) {
      assert Placed(flats, lens, copied, B, i);
      ReportIsFlat(ImageLaunch(lens, B), copied, mem[..], reports, lens, B, flats[i], i);
    }
  }

  lemma ReportIsFlat(l: Launch, mem0: seq<byte>, mem: seq<byte>, first: seq<nat>, lens: seq<nat>, B: nat,
      flat: seq<byte>, i: nat)
    requires i < |lens| == |first| && |flat| <= INT_MAX && B + SumTo(lens, i) + lens[i] <= |mem0|
    requires mem0[B + SumTo(lens, i)..B + SumTo(lens, i) + lens[i]] == flat
    requires Launchable(l, |mem0|, |first|) && Layout(l, ImageViews(lens, B)) && Finished(l, mem0, mem, first)
    ensures first[i] == FirstBad(flat)
  {
    hide *;
    var start := B + SumTo(lens, i);
    assert ImageViews(lens, B)[i] == Block(start, lens[i]);
    SlotReportsSlice(l, mem0, mem, first, ImageViews(lens, B), i, start, lens[i]);
  }

  /** verify_cl_images_copy: every image's own least corrupted offset, equal to what the host scan
      of that image reports, and every image clean afterwards. */
  method VerifyClImagesCopy(imgs: seq<Image>, memSize: nat, B: nat, schedule: seq<Event>) returns (reports: seq<nat>)
    requires AllOk(imgs)
    requires B + SumTo(Lens(imgs), |imgs|) <= memSize && SumTo(Lens(imgs), |imgs|) < INT_MAX
    requires CompleteSchedule(ImageLaunch(Lens(imgs), B), memSize, |imgs|, schedule)
    modifies Arrays(imgs)
    ensures Checked(imgs, reports)
  {
    ghost var flats := Flats(imgs);
    hide Ok, Flat, Remade, Lens, SumTo, CompleteSchedule, FirstBad, ImageLaunch;
    reports := CopyThenCheck(imgs, memSize, B, schedule, flats);
  }

  method CopyThenCheck(imgs: seq<Image>, memSize: nat, B: nat, schedule: seq<Event>, ghost flats: seq<seq<byte>>)
    returns (reports: seq<nat>)
    requires AllOk(imgs) && |flats| == |imgs|
    requires forall i | 0 <= i < |imgs| :: flats[i] == Flat(imgs[i]) && |flats[i]| <= INT_MAX
    requires B + SumTo(Lens(imgs), |imgs|) <= memSize && SumTo(Lens(imgs), |imgs|) < INT_MAX
    requires CompleteSchedule(ImageLaunch(Lens(imgs), B), memSize, |imgs|, schedule)
    modifies Arrays(imgs)
    ensures |reports| == |imgs| && forall i | 0 <= i < |imgs| :: reports[i] == FirstBad(flats[i])
    ensures AllOk(imgs) && forall i | 0 <= i < |imgs| :: Remade(imgs[i])
  {
    var lens := Lens(imgs);
    hide Placed, CompleteSchedule, SumTo, FirstBad, Flat, Ok, Lens, ImageLaunch;
    var copied := CopyAllImages(imgs, memSize, B, flats, lens);
    reports := CheckPlacedImages(lens, copied, B, schedule, flats);
  }
}
