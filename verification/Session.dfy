/** The detector's tables and device memory, changed in place by the intercepted calls. Every method
    is one step of a run, or a part of the launch step. */
module Session {
  import opened Canary
  import opened LinearBuffers
  import opened ImageGeometry
  import opened ApiGuards
  import opened KernelArgs
  import opened RunModel
  import opened Staging
  import opened KernelRuns
  import opened StagedRuns
  import opened CloneSteps
  import opened LaunchMeaning
  import Runs
  import ImageFill
  import ImageCopy
  import DeviceImages
  import PictureChecks
  import opened CheckLists
  import Strategies

  /** The staging copy of clCreateBuffer, canary, content, canary, and the driver's copy of it. */
  method PlaceBuffer(mem: array<byte>, buf: Buf, content: seq<byte>)
    requires InMemory(buf, mem.Length) && |content| == buf.size
    modifies mem
    ensures RunModel.Filled(old(mem[..]), mem[..], buf)
    ensures forall i | 0 <= i < buf.size :: mem[buf.base + POISON_FILL_LENGTH + i] == content[i]
  {
    var fillPtr := new byte[buf.size + CANARY_LENGTH];
    FillBuffer(fillPtr, 0, POISON_FILL_LENGTH);
    forall i | 0 <= i < buf.size { fillPtr[POISON_FILL_LENGTH + i] := content[i]; }
    FillBuffer(fillPtr, POISON_FILL_LENGTH + buf.size, POISON_FILL_LENGTH);
    forall i | 0 <= i < buf.size + CANARY_LENGTH { mem[buf.base + i] := fillPtr[i]; }
  }

  /** The strategies chosen fit the objects that launch arguments reach. */
  ghost predicate Fits(s: State, args: seq<Arg>, dupe: seq<nat>, how: Strategies.Strategy,
      imagesHow: PictureChecks.ImageStrategy, B: nat, scratch: nat, memSize: nat)
  {
    && |dupe| == |args| && scratch <= memSize
    && (forall k | k in Names(args, dupe, s.svms) :: k in s.lin)
    && (forall h | h in Unique(args, dupe, |args|, true) :: h in s.imgs)
    && Strategies.Applicable(how, memSize, BufsOf(s.lin, Names(args, dupe, s.svms)), |Unique(args, dupe, |args|, false)|, B, scratch, memSize)
    && PictureChecks.AllPicsOk(PicsOf(s.imgs, Unique(args, dupe, |args|, true)))
    && PictureChecks.ImagesApplicable(imagesHow, PictureChecks.PicLens(PicsOf(s.imgs, Unique(args, dupe, |args|, true))))
  }

  /** A write to an image without canary. */
  method WriteHostBox(pic: HostPicture, b: ImageBox, data: Pixels3) returns (after: HostPicture)
    requires HostPicOk(pic) && Shaped(data, Dims(b.r0, b.r1, b.r2, b.r0, b.r1, b.r2), pic.ds)
    ensures HostPicOk(after) && after == pic.(px := after.px)
    ensures forall p: Pixel | InImage(UserDims(pic.desc), p) ::
              At(after.px, UserDims(pic.desc), pic.ds, p)
              == if Runs.HostWriteAccepted(pic, b) && BoxHolds(b, p) then data[p.z - b.o2][p.y - b.o1][p.x - b.o0]
                 else At(pic.px, UserDims(pic.desc), pic.ds, p)
  {
    hide Shaped, At, BoxHolds;
    if Runs.HostWriteAccepted(pic, b) {
      var px := DeviceImages.TransferBox(UserDims(pic.desc), pic.ds, pic.px, b, data);
      after := pic.(px := px);
    } else {
      after := pic;
    }
  }

  /** What host memory holds has been copied into the user bytes of buf. */
  ghost predicate CopiedOver(mem: seq<byte>, after: seq<byte>, buf: Buf, over: HostBuffer) {
    && |after| == |mem| && InMemory(buf, |mem|) && over.size == buf.size && over.start + over.size <= |mem|
    && forall a {:trigger after[a]} | 0 <= a < |mem| ::
         after[a] == if InUserBytes(buf, a) then mem[over.start + (a - (buf.base + POISON_FILL_LENGTH))] else mem[a]
  }

  /** Copying into the user bytes of a new allocation makes them its content. */
  lemma CopiedInto(u0: State, u1: State, mem: seq<byte>, handle: nat, buf: Buf, content: seq<byte>, over: HostBuffer)
    requires CreatesBuffer(u0, handle, buf, content, u1) && CopiedOver(u1.mem, mem, buf, over) && HostApart(over, buf)
    ensures over.start + over.size <= |u0.mem| && CreatesBuffer(u0, handle, buf, HostBytes(u0.mem, over), u1.(mem := mem))
  {
    assert Filled(u0.mem, u1.mem, buf);
    forall i | 0 <= i < buf.size ensures mem[buf.base + POISON_FILL_LENGTH + i] == HostBytes(u0.mem, over)[i] {
      var a := buf.base + POISON_FILL_LENGTH + i;
      assert InUserBytes(buf, a) && !InCanary(buf, over.start + i) && !InUserBytes(buf, over.start + i);
    }
  }

  lemma PlacedIn(s: State, buf: Buf)
    requires Places(s, buf)
    ensures InMemory(buf, |s.mem|)
  {
  }

  lemma CreatedSize(u0: State, handle: nat, buf: Buf, content: seq<byte>, u1: State)
    requires CreatesBuffer(u0, handle, buf, content, u1)
    ensures |u1.mem| == |u0.mem|
  {
  }

  lemma MovedBack(before: seq<byte>, after: seq<byte>, from: Buf, to: HostBuffer)
    requires |after| == |before| && InMemory(from, |before|) && to.start + to.size <= |before| && to.size == from.size
    requires forall a {:trigger after[a]} | 0 <= a < |before| ::
               after[a] == if InHost(to, a) then before[from.base + POISON_FILL_LENGTH + (a - to.start)] else before[a]
    ensures HostBytes(after, to) == UserBytes(before, from)
  {
  }

  lemma SameLens(a: map<nat, Picture>, b: map<nat, Picture>, l: seq<nat>)
    requires (forall h | h in l :: h in a) && PictureChecks.AllPicsOk(PicsOf(a, l))
    requires PicsOk(b) && forall h | h in a :: h in b && b[h].desc == a[h].desc && b[h].ds == a[h].ds
    ensures PictureChecks.AllPicsOk(PicsOf(b, l))
      && PictureChecks.PicLens(PicsOf(b, l)) == PictureChecks.PicLens(PicsOf(a, l))
  {
    hide PicOk;
    forall i | 0 <= i < |l|
      ensures PicOk(PicsOf(b, l)[i]) && PicsOf(b, l)[i].desc == PicsOf(a, l)[i].desc
        && PicsOf(b, l)[i].ds == PicsOf(a, l)[i].ds
    {
      assert l[i] in l;
    }
  }

  lemma ValidPics(s: State)
    requires Valid(s)
    ensures PicsOk(s.imgs)
  {
    hide PicOk;
  }

  /** Fitting is a matter of the tables. */
  lemma StillFits(u: State, args: seq<Arg>, dupe: seq<nat>, how: Strategies.Strategy,
      imagesHow: PictureChecks.ImageStrategy,
      B: nat, scratch: nat, memSize: nat, ran: State)
    requires Fits(u, args, dupe, how, imagesHow, B, scratch, memSize) && Valid(ran) && ran.lin == u.lin
      && ran.svms == u.svms
    requires ran.imgs.Keys == u.imgs.Keys
      && forall h | h in u.imgs :: ran.imgs[h].desc == u.imgs[h].desc && ran.imgs[h].ds == u.imgs[h].ds
    ensures Fits(ran, args, dupe, how, imagesHow, B, scratch, memSize)
  {
    hide Valid, PicOk, Strategies.Applicable, PictureChecks.ImagesApplicable, PictureChecks.AllPicsOk,
         PictureChecks.PicLens, PicsOk, Names, Unique;
    ValidPics(ran);
    SameLens(u.imgs, ran.imgs, Unique(args, dupe, |args|, true));
  }

  /** Whatever the stage: the kernel stays inside, and the strategies fit what it reaches. */
  ghost predicate Prepared(k: Kernel, sched: seq<nat>, w: World, args: seq<Arg>, plan: Plan, how: Strategies.Strategy,
      imagesHow: PictureChecks.ImageStrategy, B: nat, scratch: nat, memSize: nat)
  {
    && (forall u | Stages(w, args, plan, u) :: StaysInside(k, u, NewArgs(w, plan, args), sched))
    && (forall u, d | Stages(w, args, plan, u) && IsDupe(args, d) ::
          Fits(u, NewArgs(w, plan, args), d, how, imagesHow, B, scratch, memSize))
  }

  /** Kernels change memory and pixels alone, and no pixels of an image hidden by one of the table. */
  ghost predicate OnlyPainted(s: State, t: State) {
    && t == s.(mem := t.mem, imgs := t.imgs, unseen := t.unseen)
    && t.imgs.Keys == s.imgs.Keys && t.unseen.Keys == s.unseen.Keys
    && (forall h | h in s.imgs :: t.imgs[h] == s.imgs[h].(px := t.imgs[h].px))
    && (forall h | h in s.unseen :: t.unseen[h] == s.unseen[h].(px := t.unseen[h].px))
    && (forall h | h in s.unseen && h in s.imgs :: t.unseen[h] == s.unseen[h])
  }

  lemma PaintedTable(s: State, h: nat, px: Pixels3)
    requires h in s.imgs
    ensures Rasters(s.imgs[h := s.imgs[h].(px := px)], s.unseen) == Rasters(s.imgs, s.unseen)[h := px]
    ensures OnlyPainted(s, s.(imgs := s.imgs[h := s.imgs[h].(px := px)]))
  {
  }

  lemma PaintedUnseen(s: State, h: nat, px: Pixels3)
    requires h !in s.imgs && h in s.unseen
    ensures Rasters(s.imgs, s.unseen[h := s.unseen[h].(px := px)]) == Rasters(s.imgs, s.unseen)[h := px]
    ensures OnlyPainted(s, s.(unseen := s.unseen[h := s.unseen[h].(px := px)]))
  {
  }

  lemma NothingPainted(s: State)
    ensures OnlyPainted(s, s)
  {
  }

  lemma PaintedThenPainted(s: State, t: State, u: State)
    requires OnlyPainted(s, t) && OnlyPainted(t, u)
    ensures OnlyPainted(s, u)
  {
  }

  lemma PaintedIsLeft(s: State, f: Flat, t: State)
    requires OnlyPainted(s, t) && t.mem == f.mem && Rasters(t.imgs, t.unseen) == f.rasters
    ensures t == Left(s, f)
  {
    hide Rasters, Left;
  }

  /** The values of a launch name live objects if and only if none matches the null record. */
  lemma LaunchableValues(w: World, values: seq<Value>)
    requires WorldInv(w)
    ensures Consistent(ArgsOf(w, values))
    ensures ImagesKnown(w, ArgsOf(w, values)) <==> !HitsNull(w, values)
    ensures ArgsLive(w, ArgsOf(w, values)) <==> !HitsNull(w, values)
  {
    hide Inv, HostPlaced;
    LiveUnlessNull(w, values);
    KnownUnlessNull(w, values);
  }

  lemma Finished(k: Kernel, sched: seq<nat>, w: World, args: seq<Arg>, plan: Plan, u: State, checked: State,
      t: World, r: Reports)
    requires WorldInv(w) && ArgsLive(w, args) && RoomFor(w, args, plan) && Stages(w, args, plan, u)
    requires var ran := KernelLeaves(k, u, NewArgs(w, plan, args), sched);
      KernelRan(u, NewArgs(w, plan, args), ran) && Verified(ran, NewArgs(w, plan, args), checked, r)
    requires PutsBack(w, args, plan, checked, t)
    ensures LaunchedKernel(k, sched, w, args, plan, u, checked, t, r) && WorldInv(t)
  {
    hide WorldInv, ArgsLive, RoomFor, Stages, KernelRan, Verified, PutsBack, KernelLeaves;
    LaunchesKeeps(w, args, plan, u, KernelLeaves(k, u, NewArgs(w, plan, args), sched), checked, t, r);
  }

  class Detector {
    /** Device memory; from scratch on it is the detector's own. */
    const mem: array<byte>
    const scratch: nat

    var lin: map<Name, Buf>
    var svms: seq<SvmObject>
    var imgs: map<nat, Picture>
    var host: map<nat, HostBuffer>

    /** Whether the table has a record under the null handle. */
    var nullRecord: bool

    /** The driver's images that no record names. */
    var unseen: map<nat, HostPicture>

    /** detector_internal_buffer: the clones of a launch. */
    var internalMem: set<nat>

    ghost predicate Ok() { scratch <= mem.Length }

    ghost function View(): (s: State)
      requires Ok()
      reads `lin, `svms, `imgs, `unseen, mem
    {
      State(mem[..scratch], lin, svms, imgs, unseen)
    }

    ghost function WorldView(): (w: World)
      requires Ok()
      reads this, mem
    {
      World(View(), host, nullRecord)
    }

    constructor (memSize: nat, start: nat)
      requires start <= memSize
      ensures Ok() && scratch == start && fresh(mem) && mem.Length == memSize && internalMem == {}
      ensures WorldView() == Runs.Start(View().mem)
    {
      mem := new byte[memSize];
      scratch := start;
      lin, svms, imgs := map[], [], map[];
      host, unseen, internalMem, nullRecord := map[], map[], {}, false;
    }

    /** clCreateBuffer without CL_MEM_USE_HOST_PTR. */
    method CreateBuffer(handle: nat, buf: Buf, content: seq<byte>)
      requires Ok() && Buffer(handle) !in lin && Places(View(), buf) && |content| == buf.size
      modifies `lin, mem
      ensures CreatesBuffer(old(View()), handle, buf, content, View())
      ensures HandleFree(old(WorldView()), handle) && Runs.OutsideHost(old(WorldView()), buf) ==>
                Runs.Step(old(WorldView()), Runs.CreateBuffer(handle, buf, content), WorldView(), NO_REPORTS)
    {
      PlaceBuffer(mem, buf, content);
      lin := lin[Buffer(handle) := buf];
      assert CreatesBuffer(old(View()), handle, buf, content, View());
      hide CreatesBuffer, Places, HandleFree, Runs.OutsideHost;
    }

    /** clCreateBuffer over host memory. */
    method CreateHostBuffer(handle: nat, over: HostBuffer)
      requires Ok() && HandleFree(WorldView(), handle) && over.start + over.size <= scratch
      requires forall n | n in lin :: HostApart(over, lin[n])
      requires forall k | k in host :: HostsApart(host[k], over)
      modifies `host
      ensures Runs.Step(old(WorldView()), Runs.CreateHostBuffer(handle, over), WorldView(), NO_REPORTS)
    {
      host := host[handle := over];
    }

    /** clSVMAlloc: both canary regions are filled on the device. */
    method AllocSvm(handle: nat, buf: Buf, detectorInternal: bool, position: nat)
      requires Ok() && Pointer(handle) !in lin && Places(View(), buf) && Runs.OutsideHost(WorldView(), buf)
        && position <= |svms|
      modifies `lin, `svms, mem
      ensures Runs.Step(old(WorldView()), Runs.AllocSvm(handle, buf, detectorInternal, position), WorldView(), NO_REPORTS)
    {
      FillBuffer(mem, buf.base, POISON_FILL_LENGTH);
      FillBuffer(mem, BackStart(buf), POISON_FILL_LENGTH);
      lin := lin[Pointer(handle) := buf];
      svms := svms[..position] + [SvmObject(handle, detectorInternal)] + svms[position..];
      assert AllocatesSvm(old(View()), handle, buf, detectorInternal, position, View());
      hide AllocatesSvm, Places;
    }

    /** clCreateImage for an image with a canary. */
    method CreateImage(handle: nat, d: Desc, ds: nat, src: ImageFill.Source)
      requires Ok() && HandleFree(WorldView(), handle) && Sized(IMAGE_PAD, d) && ds > 0
      requires ImageCopy.Span(IMAGE_PAD, PicDims(d), ds) <= INT_MAX && ImageFill.SourceOk(PicDims(d), ds, src)
      modifies `imgs
      ensures Runs.Step(old(WorldView()), Runs.CreateImage(handle, d, ds, src), WorldView(), NO_REPORTS)
    {
      var pic := DeviceImages.MakeImage(d, ds, src);
      imgs := imgs[handle := pic];
      hide PicOk, PicDims, ImageCopy.Span;
      assert CreatesImage(old(View()), handle, d, ds, src, View());
      hide CreatesImage;
    }

    /** clCreateImage over host memory: the record keeps the null handle it was allocated with. */
    method CreateHostImage(handle: nat, pic: HostPicture)
      requires Ok() && HandleFree(WorldView(), handle) && HostPicOk(pic)
      modifies `unseen, `nullRecord
      ensures Runs.Step(old(WorldView()), Runs.CreateHostImage(handle, pic), WorldView(), NO_REPORTS)
    {
      unseen, nullRecord := unseen[handle := pic], true;
      hide HostPicOk;
    }

    /** A write to the user's part of an allocation with canaries. */
    method WriteAllocation(handle: nat, offset: u64, data: seq<byte>)
      requires Ok() && Buffer(handle) in lin && InMemory(lin[Buffer(handle)], scratch) && |data| < TWO64
      requires lin[Buffer(handle)].size < TWO64
      modifies mem
      ensures WritesBuffer(old(View()), handle, offset, data, View())
    {
      var buf := lin[Buffer(handle)];
      if LinearGuard(buf.size, offset, |data|).Pass? && offset + |data| <= buf.size {
        var start := buf.base + POISON_FILL_LENGTH + offset;
        forall i | 0 <= i < |data| { mem[start + i] := data[i]; }
      }
    }

    /** ... to host memory. */
    method WriteHost(handle: nat, offset: u64, data: seq<byte>)
      requires Ok() && handle in host && host[handle].start + host[handle].size <= scratch && |data| < TWO64
      requires host[handle].size < TWO64
      modifies mem
      ensures Runs.WritesHostBuffer(old(WorldView()), handle, offset, data, WorldView())
    {
      var over := host[handle];
      if LinearGuard(over.size, offset, |data|).Pass? && offset + |data| <= over.size {
        var start := over.start + offset;
        forall i | 0 <= i < |data| { mem[start + i] := data[i]; }
      }
    }

    /** clEnqueueWriteBuffer. */
    method EnqueueWriteBuffer(handle: nat, offset: u64, data: seq<byte>)
      requires Ok() && WorldInv(WorldView()) && |data| < TWO64
      requires Buffer(handle) in lin || handle in host
      requires if Buffer(handle) in lin then lin[Buffer(handle)].size < TWO64 else host[handle].size < TWO64
      modifies mem
      ensures Runs.Step(old(WorldView()), Runs.WriteBuffer(handle, offset, data), WorldView(), NO_REPORTS)
    {
      if Buffer(handle) in lin {
        assert InMemory(lin[Buffer(handle)], scratch);
        hide WorldInv, WritesBuffer;
        WriteAllocation(handle, offset, data);
      } else {
        assert host[handle].start + host[handle].size <= scratch;
        hide WorldInv, WritesBuffer, Runs.WritesHostBuffer;
        WriteHost(handle, offset, data);
      }
    }

    method WritePicture(handle: nat, b: ImageBox, data: Pixels3)
      requires Ok() && handle in imgs && PicOk(imgs[handle])
      requires Shaped(data, Dims(b.r0, b.r1, b.r2, b.r0, b.r1, b.r2), imgs[handle].ds)
      modifies `imgs
      ensures WritesImage(old(View()), handle, b, data, View())
    {
      var pic := DeviceImages.WriteBox(imgs[handle], b, data);
      imgs := imgs[handle := pic];
      hide PicOk, PicDims, Shaped;
    }

    method WriteHostPicture(handle: nat, b: ImageBox, data: Pixels3)
      requires Ok() && handle in unseen && HostPicOk(unseen[handle])
      requires Shaped(data, Dims(b.r0, b.r1, b.r2, b.r0, b.r1, b.r2), unseen[handle].ds)
      modifies `unseen
      ensures Runs.WritesHostImage(old(WorldView()), handle, b, data, WorldView())
    {
      var pic := WriteHostBox(unseen[handle], b, data);
      unseen := unseen[handle := pic];
      hide HostPicOk, UserDims, Shaped;
    }

    /** clEnqueueWriteImage. */
    method EnqueueWriteImage(handle: nat, b: ImageBox, data: Pixels3)
      requires Ok()
        && (if handle in imgs then PicOk(imgs[handle]) else handle in unseen && HostPicOk(unseen[handle]))
      requires Shaped(data, Dims(b.r0, b.r1, b.r2, b.r0, b.r1, b.r2), if handle in imgs then imgs[handle].ds else unseen[handle].ds)
      modifies `imgs, `unseen
      ensures Runs.Step(old(WorldView()), Runs.WriteImage(handle, b, data), WorldView(), NO_REPORTS)
    {
      hide PicOk, PicDims, Shaped, HostPicOk, WritesImage, Runs.WritesHostImage;
      if handle in imgs { WritePicture(handle, b, data); } else { WriteHostPicture(handle, b, data); }
    }

    /** clReleaseMemObject dropping the last reference. */
    method ReleaseMemObject(handle: nat)
      requires Ok()
      modifies `lin, `imgs, `unseen, `host, `nullRecord
      ensures Runs.Step(old(WorldView()), Runs.Release(handle), WorldView(), NO_REPORTS)
    {
      lin, imgs, host := lin - {Buffer(handle)}, imgs - {handle}, host - {handle};
      if handle == 0 { nullRecord := false; }
      unseen := unseen - {handle};
    }

    /** Where the table has the handle. */
    method SvmFind(handle: nat) returns (i: nat)
      ensures i <= |svms| && (i < |svms| ==> svms[i].handle == handle)
      ensures forall j | 0 <= j < i :: svms[j].handle != handle
    {
      i := 0;
      while i < |svms| && svms[i].handle != handle
        invariant 0 <= i <= |svms| && forall j | 0 <= j < i :: svms[j].handle != handle
      {
        i := i + 1;
      }
    }

    /** clSVMFree. */
    method SvmFree(handle: nat)
      requires Ok()
      modifies `lin, `svms
      ensures Runs.Step(old(WorldView()), Runs.FreeSvm(handle), WorldView(), NO_REPORTS)
    {
      var i := SvmFind(handle);
      if i < |svms| {
        svms, lin := svms[..i] + svms[i + 1..], lin - {Pointer(handle)};
      }
      assert FreesSvm(old(View()), handle, View());
    }

    // ----- the check after a kernel -----

    /** Check and mend the listed linear objects, n of them buffers. */
    method CheckLinear(l: seq<Name>, n: nat, how: Strategies.Strategy, B: nat) returns (reports: seq<nat>)
      requires Ok() && Valid(View()) && n <= |l| && AllDifferent(l) && forall k | k in l :: k in lin
      requires Strategies.Applicable(how, mem.Length, BufsOf(lin, l), n, B, scratch, mem.Length)
      modifies mem
      ensures |reports| == |l| && LinearChecked(old(mem[..scratch]), lin, l, BufsOf(lin, l), mem[..scratch], reports)
    {
      ghost var mem0 := mem[..];
      BufsSeparate(View(), l);
      var bufs := BufsOf(lin, l);
      assert Separate(bufs, mem.Length) && ClearOf(bufs, scratch, mem.Length);
      forall i | 0 <= i < |l|
        ensures InMemory(lin[l[i]], scratch) && Expected(mem0[..scratch], lin[l[i]]) == Expected(mem0, bufs[i])
      {
        assert InMemory(bufs[i], scratch);
        ExpectedInPrefix(mem0, scratch, bufs[i]);
      }
      hide Valid, Separate, ClearOf, Expected, Strategies.Applicable;
      reports := Strategies.CheckBuffers(how, mem, bufs, n, B, scratch, mem.Length);
      assert mem0[..scratch] == old(mem[..scratch]);
    }

    /** Check and mend the listed images. */
    method CheckImages(l: seq<nat>, how: PictureChecks.ImageStrategy) returns (reports: seq<nat>)
      requires NoDuplicates(l) && (forall h | h in l :: h in imgs) && PictureChecks.AllPicsOk(PicsOf(imgs, l))
      requires PictureChecks.ImagesApplicable(how, PictureChecks.PicLens(PicsOf(imgs, l)))
      modifies `imgs
      ensures |reports| == |l| && ImagesChecked(old(imgs), l, imgs, reports)
    {
      var after;
      hide PictureChecks.ImagesApplicable, PictureChecks.PicLens, PictureChecks.AllPicsOk, ImageChecked,
           ImagesChecked, NoDuplicates;
      reports, after := PictureChecks.CheckPictures(PicsOf(imgs, l), how);
      ReplacedIsChecked(imgs, l, after, reports);
      imgs := Replaced(imgs, l, after);
    }

    method CheckBoth(l: seq<Name>, n: nat, images: seq<nat>, how: Strategies.Strategy,
        imagesHow: PictureChecks.ImageStrategy, B: nat)
      returns (linReports: seq<nat>, imgReports: seq<nat>, ghost bufs: seq<Buf>)
      requires Ok() && Valid(View()) && AllDifferent(l) && NoDuplicates(images) && n <= |l|
      requires (forall k | k in l :: k in lin) && (forall h | h in images :: h in imgs)
      requires PictureChecks.AllPicsOk(PicsOf(imgs, images))
      requires Strategies.Applicable(how, mem.Length, BufsOf(lin, l), n, B, scratch, mem.Length)
      requires PictureChecks.ImagesApplicable(imagesHow, PictureChecks.PicLens(PicsOf(imgs, images)))
      modifies mem, `imgs
      ensures |linReports| == |l| && |imgReports| == |images|
      ensures LinearChecked(old(mem[..scratch]), lin, l, bufs, mem[..scratch], linReports)
      ensures ImagesChecked(old(imgs), images, imgs, imgReports)
    {
      bufs := BufsOf(lin, l);
      hide Valid, AllDifferent, NoDuplicates, Strategies.Applicable, PictureChecks.ImagesApplicable,
           PictureChecks.PicLens,
           PictureChecks.AllPicsOk, ImagesChecked, LinearChecked;
      linReports := CheckLinear(l, n, how, B);
      imgReports := CheckImages(images, imagesHow);
    }

    /** verifyBufferInBounds after the kernel has run: every object the kernel could reach is checked,
        reported by its least corrupted canary offset and mended, whatever the strategy. */
    method VerifyBufferInBounds(args: seq<Arg>, dupe: seq<nat>, how: Strategies.Strategy,
        imagesHow: PictureChecks.ImageStrategy, B: nat)
      returns (r: Reports)
      requires Ok() && Valid(View()) && LaunchOk(View(), args) && IsDupe(args, dupe)
      requires Fits(View(), args, dupe, how, imagesHow, B, scratch, mem.Length)
      modifies mem, `imgs
      ensures Verified(old(View()), args, View(), r)
    {
      ghost var ran := View();
      assert Consistent(args);
      var l, n, images := CollectNames(args, dupe);
      NamesDiffer(args, dupe, svms);
      ImagesListed(args, dupe);
      assert n <= |l|;
      hide Valid, LaunchOk, IsDupe, Unique, Names, LinearChecked, ImagesChecked, AllDifferent, NoDuplicates, Filed,
           Verified,
           Strategies.Applicable, PictureChecks.ImagesApplicable, PictureChecks.PicLens, PictureChecks.AllPicsOk;
      var linReports, imgReports, bufs := CheckBoth(l, n, images, how, imagesHow, B);
      r := FileAll(l, linReports, images, imgReports);
      CheckedIsVerified(ran, args, dupe, l, bufs, images, View(), linReports, imgReports, r);
    }

    /** The two lists verifyBufferInBounds builds. */
    method CollectNames(args: seq<Arg>, dupe: seq<nat>) returns (l: seq<Name>, n: nat, images: seq<nat>)
      requires IsDupe(args, dupe)
      ensures l == Names(args, dupe, svms) && n == |Unique(args, dupe, |args|, false)|
        && images == Unique(args, dupe, |args|, true)
    {
      var bufferPtrs, imagePtrs, totalBuffs := CollectObjects(args, dupe, svms);
      l := BufferNames(bufferPtrs[..totalBuffs]) + PointerNames(bufferPtrs[totalBuffs..]);
      n, images := totalBuffs, imagePtrs[..];
      assert bufferPtrs[..totalBuffs] == Unique(args, dupe, |args|, false);
      assert bufferPtrs[totalBuffs..] == SvmPart(args, svms);
    }

    // ----- the launch -----

    /** clSetKernelArg and clSetKernelArgSVMPointer: what the table has under the value. */
    method SetKernelArg(v: Value) returns (a: Arg)
      requires Ok()
      ensures a == ArgOf(WorldView(), v)
    {
      a := Plain;
      match v {
        case Local(_) =>
        case Bytes(size, bits) =>
          if size == HANDLE_SIZE {
            if Buffer(bits) in lin || bits in host {
              a := Mem(bits, false);
            } else if bits in imgs || (bits == 0 && nullRecord) {
              a := Mem(bits, true);
            } else if bits in unseen {
              a := Unseen(bits);
            }
          }
        case SvmPtr(h, off) => if Pointer(h) in lin && off <= lin[Pointer(h)].size { a := Svm(h, off); }
      }
    }

    method SetKernelArgs(values: seq<Value>) returns (args: seq<Arg>)
      requires Ok()
      ensures args == ArgsOf(WorldView(), values)
    {
      args := [];
      hide ArgOf;
      for i := 0 to |values|
        invariant |args| == i && forall j | 0 <= j < i :: args[j] == ArgOf(WorldView(), values[j])
      {
        var a := SetKernelArg(values[i]);
        args := args + [a];
      }
    }

    /** Whether the record of the argument has no canary: a host buffer's, or the null record. */
    predicate NoCanary(a: Arg)
      reads `imgs, `host
    {
      a.Mem? && if a.isImage then a.handle !in imgs else a.handle in host
    }

    /** Whether any argument has none. */
    method NeedsInternalBuffer(args: seq<Arg>, ghost w: World) returns (need: bool)
      requires host == w.host && imgs == w.dev.imgs
      ensures if need then Duplicates(w, args) else AllKept(w, args) && ImagesKnown(w, args)
    {
      need := false;
      for i := 0 to |args|
        invariant !need && forall j | 0 <= j < i :: NothingNew(w, args, j) && !NoCanary(args[j])
      {
        if NoCanary(args[i]) {
          assert Mem(args[i].handle, args[i].isImage) in args;
          assert !args[i].isImage ==> Replaces(w, args, args[i].handle);
          return true;
        }
      }
    }

    method CopyOver(buf: Buf, over: HostBuffer)
      requires Ok() && InMemory(buf, scratch) && over.size == buf.size && over.start + over.size <= scratch
      modifies mem
      ensures CopiedOver(old(mem[..scratch]), mem[..scratch], buf, over)
    {
      CopyWithin(mem, over.start, buf.base + POISON_FILL_LENGTH, over.size);
    }

    /** A buffer of the same size with canaries, and the user's bytes copied into it. */
    method CloneBuffer(h: nat, plan: Plan)
      requires Ok() && h in host && h in plan.bufs && Buffer(plan.bufs[h].handle) !in lin
      requires Places(View(), CloneBuf(WorldView(), plan, h)) && host[h].start + host[h].size <= scratch
      requires HostApart(host[h], CloneBuf(WorldView(), plan, h))
      modifies `lin, `internalMem, mem
      ensures CreatesBuffer(old(View()), plan.bufs[h].handle, old(CloneBuf(WorldView(), plan, h)),
                            HostBytes(old(mem[..scratch]), host[h]), View())
      ensures internalMem == old(internalMem) + {plan.bufs[h].handle}
    {
      hide Places, CreatesBuffer, CopiedOver, Runs.Step, HandleFree, Runs.OutsideHost, HostBytes, HostApart;
      var over := host[h];
      var buf := Buf(plan.bufs[h].storage, over.size);
      PlacedIn(View(), buf);
      var zeros := seq(over.size, i => 0);
      ghost var u0 := View();
      CreateBuffer(plan.bufs[h].handle, buf, zeros);
      ghost var u1 := View();
      internalMem := internalMem + {plan.bufs[h].handle};
      CopyOver(buf, over);
      CreatedSize(u0, plan.bufs[h].handle, buf, zeros, u1);
      CopiedInto(u0, u1, mem[..scratch], plan.bufs[h].handle, buf, zeros, over);
    }

    /** What the cloning loop has done up to argument i. */
    ghost predicate ClonedTo(w: World, args: seq<Arg>, i: nat, plan: Plan)
      requires Ok() && i <= |args|
      reads this, mem
    {
      Stages(w, args[..i], plan, View()) && Marked(w, View(), internalMem) && host == w.host
    }

    method CloneBufferArg(args: seq<Arg>, i: nat, plan: Plan, ghost w: World)
      requires Ok() && i < |args| && WorldInv(w) && RoomFor(w, args, plan) && ClonedTo(w, args, i, plan)
      requires args[i].Mem? && !args[i].isImage && args[i].handle in host && args[i] !in args[..i]
      modifies `lin, `internalMem, mem
      ensures args[i].handle in plan.bufs && ClonedTo(w, args, i + 1, plan)
    {
      var h := args[i].handle;
      assert Replaces(w, args, h) && BufRoom(w, args, plan, h) && w.host[h].start + w.host[h].size <= |w.dev.mem|;
      ghost var u1 := View();
      RoomInStage(w, args, i, plan, u1, h);
      HostBytesUntouched(w, args, i, plan, u1, h);
      assert Marked(w, u1, internalMem) && HostApart(w.host[h], CloneBuf(w, plan, h))
        && CloneBuf(WorldView(), plan, h) == CloneBuf(w, plan, h);
      hide WorldInv, RoomFor, Stages, Places, BufRoom, CreatesBuffer, Marked, HostApart;
      CloneBuffer(h, plan);
      assert CreatesBuffer(u1, plan.bufs[h].handle, CloneBuf(w, plan, h), HostBytes(w.dev.mem, w.host[h]), View());
      OneMoreBuffer(w, args, i, plan, u1, View(), h);
      OutsideUntouched(u1, plan.bufs[h].handle, CloneBuf(w, plan, h), HostBytes(w.dev.mem, w.host[h]), View());
      RoomIsFree(w, args, plan, h);
      MarkedBuffer(w, u1, View(), old(internalMem), plan.bufs[h].handle, CloneBuf(w, plan, h));
    }

    /** A representative argument: it gets a clone, or stays as it is, but for the base in the place of a
        pointer into an SVM allocation. */
    method CloneArg(args: seq<Arg>, i: nat, plan: Plan, ghost w: World) returns (arg: Arg)
      requires Ok() && i < |args| && WorldInv(w) && RoomFor(w, args, plan) && ClonedTo(w, args, i, plan)
      requires (args[i].Mem? ==> args[i] !in args[..i]) && plan.duplicated
      modifies `lin, `internalMem, mem
      ensures arg == NewArg(w, plan, args[i]) && ClonedTo(w, args, i + 1, plan)
    {
      hide WorldInv, RoomFor, Stages, Marked;
      arg := args[i];
      if args[i].Mem? && !args[i].isImage && args[i].handle in host {
        CloneBufferArg(args, i, plan, w);
        arg := Mem(plan.bufs[args[i].handle].handle, false);
      } else {
        if args[i].Svm? { arg := Svm(args[i].handle, 0); }
        NothingToClone(w, args, i, plan, View());
      }
    }

    /** One turn of the loop. */
    method CloneNext(args: seq<Arg>, dupe: seq<nat>, i: nat, newArgs: seq<Arg>, plan: Plan, ghost w: World)
      returns (more: seq<Arg>)
      requires Ok() && i < |args| && WorldInv(w) && Consistent(args) && IsDupe(args, dupe) && RoomFor(w, args, plan)
      requires ClonedTo(w, args, i, plan) && |newArgs| == i && plan.duplicated
        && forall j | 0 <= j < i :: newArgs[j] == NewArg(w, plan, args[j])
      modifies `lin, `internalMem, mem
      ensures |more| == i + 1 && forall j | 0 <= j < i + 1 :: more[j] == NewArg(w, plan, args[j])
      ensures ClonedTo(w, args, i + 1, plan)
    {
      hide WorldInv, RoomFor, IsDupe, NewArg, Consistent, Stages, Marked;
      DupeLength(args, dupe);
      FirstUse(args, dupe, i);
      if dupe[i] == i {
        var arg := CloneArg(args, i, plan, w);
        more := newArgs + [arg];
      } else {
        NothingToClone(w, args, i, plan, View());
        more := newArgs + [newArgs[dupe[i]]];
      }
    }

    /** The loop over the arguments. The null record's image cannot be copied: the process exits. */
    method CloneArgs(args: seq<Arg>, dupe: seq<nat>, plan: Plan, ghost w: World)
      returns (exits: bool, newArgs: seq<Arg>)
      requires Ok() && WorldInv(w) && Consistent(args) && IsDupe(args, dupe) && RoomFor(w, args, plan)
        && ClonedTo(w, args, 0, plan) && imgs == w.dev.imgs && plan.duplicated
      modifies `lin, `internalMem, mem
      ensures exits <==> !ImagesKnown(w, args)
      ensures !exits ==>
                newArgs == NewArgs(w, plan, args) && Stages(w, args, plan, View()) && Marked(w, View(), internalMem)
    {
      newArgs := [];
      hide WorldInv, RoomFor, Consistent, IsDupe, NewArg, Stages, Marked;
      for i := 0 to |args|
        invariant |newArgs| == i && forall j | 0 <= j < i :: newArgs[j] == NewArg(w, plan, args[j])
        invariant ClonedTo(w, args, i, plan)
        invariant forall j | 0 <= j < i :: args[j].Mem? && args[j].isImage ==> args[j].handle in imgs
      {
        if args[i].Mem? && args[i].isImage && args[i].handle !in imgs {
          assert Mem(args[i].handle, true) in args;
          return true, [];
        }
        newArgs := CloneNext(args, dupe, i, newArgs, plan, w);
      }
      assert args[..|args|] == args;
      exits := false;
    }

    /** createPoisonedKernel: a poisoned clone for every distinct buffer over host memory; aliased
        arguments stay aliased. Without an argument that has no canary the kernel is left alone; an
        argument that matches the null record ends the process. */
    method CreatePoisonedKernel(args: seq<Arg>, dupe: seq<nat>, plan: Plan)
      returns (exits: bool, newArgs: seq<Arg>, cloned: bool)
      requires Ok() && WorldInv(WorldView()) && Consistent(args) && IsDupe(args, dupe)
        && RoomFor(WorldView(), args, plan)
      requires internalMem == {}
      modifies `lin, `internalMem, mem
      ensures exits <==> !ImagesKnown(old(WorldView()), args)
      ensures !exits ==>
                && newArgs == NewArgs(old(WorldView()), plan, args)
                && Stages(old(WorldView()), args, plan, View()) && Marked(old(WorldView()), View(), internalMem)
      ensures !exits && !cloned ==> View() == old(View()) && internalMem == {} && AllKept(old(WorldView()), args)
    {
      ghost var w := WorldView();
      cloned := NeedsInternalBuffer(args, w);
      assert Marked(w, w.dev, {}) && (cloned ==> plan.duplicated);
      hide WorldInv, RoomFor, Consistent, IsDupe, NewArg, Stages, AllKept, Marked, ImagesKnown;
      if cloned {
        NoneCloned(w, args, plan);
        exits, newArgs := CloneArgs(args, dupe, plan, w);
      } else {
        exits, newArgs := false, args;
        NoneReplaced(w, args, plan);
      }
    }

    /** The addresses and surfaces the driver binds. */
    method BindArgs(args: seq<Arg>) returns (binds: seq<Binding>)
      requires Ok()
      ensures binds == Bindings(View(), args)
    {
      binds := [];
      for i := 0 to |args|
        invariant |binds| == i && forall j | 0 <= j < i :: binds[j] == BindingOf(View(), args[j])
      {
        var b := Scalar;
        if IsLinear(args[i]) {
          if NameOf(args[i]) in lin {
            b := Address(lin[NameOf(args[i])].base + POISON_FILL_LENGTH + PointerOffset(args[i]));
          }
        } else if IsImage(args[i]) {
          b := Surface(args[i].handle);
        }
        binds := binds + [b];
      }
    }

    /** Device memory, rasters and answers while the kernel runs. */
    ghost function Now(hist: Answers): Flat
      requires Ok()
      reads `imgs, `unseen, mem
    {
      Flat(mem[..scratch], Rasters(imgs, unseen), hist)
    }

    method PaintPixel(h: nat, p: Pixel, v: seq<byte>)
      requires Ok() && (h in imgs || h in unseen)
      modifies `imgs, `unseen
      ensures Rasters(imgs, unseen) == old(Rasters(imgs, unseen)[h := Painted(Rasters(imgs, unseen)[h], p, v)])
      ensures OnlyPainted(old(View()), View())
    {
      hide Painted, Rasters, OnlyPainted;
      if h in imgs {
        PaintedTable(View(), h, Painted(imgs[h].px, p, v));
        imgs := imgs[h := imgs[h].(px := Painted(imgs[h].px, p, v))];
      } else {
        PaintedUnseen(View(), h, Painted(unseen[h].px, p, v));
        unseen := unseen[h := unseen[h].(px := Painted(unseen[h].px, p, v))];
      }
    }

    /** What a sampler returns. */
    method SamplePixel(b: Binding, p: Pixel) returns (v: seq<byte>)
      ensures v == if b.Surface? && b.raster in Rasters(imgs, unseen) && Covers(Rasters(imgs, unseen)[b.raster], p)
                   then PixelIn(Rasters(imgs, unseen)[b.raster], p) else []
    {
      v := [];
      if b.Surface? && (b.raster in imgs || b.raster in unseen) {
        var px := if b.raster in imgs then imgs[b.raster].px else unseen[b.raster].px;
        if Covers(px, p) { v := PixelIn(px, p); }
      }
    }

    /** One action of one work-item. */
    method Act(action: Action, binds: seq<Binding>, hist: Answers, t: nat, ghost k: Kernel) returns (after: Answers)
      requires Ok() && action == k(t, Heard(hist, t))
      modifies mem, `imgs, `unseen
      ensures Now(after) == FlatStep(k, binds, old(Now(hist)), t)
      ensures OnlyPainted(old(View()), View())
    {
      hide Painted, Covers, Hears, Rasters;
      after := hist;
      match action {
        case Done =>
        case Load(i, off) =>
          var v := if Hits(binds, i, off, scratch) then mem[Bound(binds, i).base + off] else 0;
          after := Hears(hist, t, [v]);
        case Store(i, off, v) =>
          if Hits(binds, i, off, scratch) { mem[Bound(binds, i).base + off] := v; }
          after := Hears(hist, t, []);
        case Sample(i, p) =>
          var v := SamplePixel(Bound(binds, i), p);
          after := Hears(hist, t, v);
        case Paint(i, p, v) =>
          if Bound(binds, i).Surface? && (Bound(binds, i).raster in imgs || Bound(binds, i).raster in unseen) {
            PaintPixel(Bound(binds, i).raster, p, v);
          }
          after := Hears(hist, t, []);
      }
    }

    /** runNDRangeKernel, the items acting in the order of the schedule. */
    method RunKernel(k: Kernel, args: seq<Arg>, sched: seq<nat>)
      requires Ok()
      modifies mem, `imgs, `unseen
      ensures View() == KernelLeaves(k, old(View()), args, sched)
    {
      hide FlatStep, Rasters, Left, Bindings, OnlyPainted;
      ghost var s := View();
      NothingPainted(s);
      var binds := BindArgs(args);
      var hist: Answers := map[];
      ghost var end := FlatRun(k, binds, Now(hist), sched);
      assert sched[0..] == sched;
      for i := 0 to |sched|
        invariant FlatRun(k, binds, Now(hist), sched[i..]) == end
        invariant OnlyPainted(s, View())
      {
        ghost var before := View();
        hist := Act(k(sched[i], Heard(hist, sched[i])), binds, hist, sched[i], k);
        PaintedThenPainted(s, before, View());
        assert sched[i..][1..] == sched[i + 1..] && sched[i..][0] == sched[i];
      }
      PaintedIsLeft(s, end, View());
    }

    /** One buffer of copyKernelBuffers: as many bytes as the shorter one has. */
    method CopyBufferBack(to: nat, from: nat)
      requires Ok() && to in host && Buffer(from) in lin
      requires host[to].start + host[to].size <= scratch && InMemory(lin[Buffer(from)], scratch)
        && host[to].size == lin[Buffer(from)].size
      modifies mem
      ensures HostBytes(mem[..scratch], host[to]) == old(UserBytes(mem[..scratch], lin[Buffer(from)]))
      ensures forall a | 0 <= a < scratch && !InHost(host[to], a) :: mem[a] == old(mem[a])
    {
      var m1, m2 := lin[Buffer(from)], host[to];
      var size := m1.size;
      if size > m2.size { size := m2.size; }
      ghost var before := mem[..scratch];
      CopyWithin(mem, m1.base + POISON_FILL_LENGTH, m2.start, size);
      MovedBack(before, mem[..scratch], m1, m2);
    }

    /** One turn of copyKernelBuffers: only buffers ever have clones. */
    method CopyBackNext(to: seq<Arg>, from: seq<Arg>, i: nat, plan: Plan, ghost w: World, ghost v: State)
      requires Ok() && i < |to| && WorldInv(w) && ArgsLive(w, to) && RoomFor(w, to, plan) && ClonesIn(w, to, plan, v)
      requires from == NewArgs(w, plan, to) && to[i] !in to[..i] && to[i].Mem? && from[i].Mem?
        && to[i].handle != from[i].handle
      requires host == w.host && lin == v.lin && scratch == |v.mem| == |w.dev.mem|
      requires BuffersBack(w, to[..i], plan, v, mem[..scratch])
      modifies mem
      ensures BuffersBack(w, to[..i + 1], plan, v, mem[..scratch])
    {
      hide WorldInv, RoomFor, ClonesIn, BuffersBack, HostPlaced, ArgsLive, HostBytes, UserBytes, HandleFree;
      ghost var before := mem[..scratch];
      NewHandleKind(w, to, plan, to[i]);
      var h := to[i].handle;
      CloneBufferIn(w, to, plan, v, h);
      CopyBufferBack(h, from[i].handle);
      OneMoreBufferBack(w, to, i, plan, v, before, mem[..scratch], h);
    }

    /** copyKernelBuffers: what each clone holds goes back to the object it stands for. */
    method CopyKernelBuffers(to: seq<Arg>, from: seq<Arg>, dupe: seq<nat>, plan: Plan, ghost w: World)
      requires Ok() && WorldInv(w) && ArgsLive(w, to) && RoomFor(w, to, plan) && IsDupe(to, dupe)
        && ClonesIn(w, to, plan, View())
      requires from == NewArgs(w, plan, to) && host == w.host && scratch == |w.dev.mem|
      modifies mem
      ensures BuffersBack(w, to, plan, old(View()), mem[..scratch])
    {
      hide RoomFor, ArgsLive, IsDupe, Consistent, ClonesIn, NewArg, WorldInv, BuffersBack;
      ghost var v := View();
      NoneCopied(w, to, plan, v);
      DupeLength(to, dupe);
      ArgsConsistent(w, to);
      for i := 0 to |to|
        invariant BuffersBack(w, to[..i], plan, v, mem[..scratch])
      {
        FirstUse(to, dupe, i);
        if dupe[i] == i && to[i].Mem? && from[i].Mem? && to[i].handle != from[i].handle {
          CopyBackNext(to, from, i, plan, w, v);
        } else {
          NothingToCopyHere(w, to, i, plan, dupe);
          NothingToCopy(w, to, i, plan, v, mem[..scratch]);
        }
      }
      assert to[..|to|] == to;
    }

    /** delPoisonKernel: the clones are released. */
    method DelPoisonKernel(args: seq<Arg>, newArgs: seq<Arg>, dupe: seq<nat>, plan: Plan, ghost w: World,
        ghost v: State)
      requires Ok() && ArgsLive(w, args) && IsDupe(args, dupe) && RoomFor(w, args, plan)
        && newArgs == NewArgs(w, plan, args)
      requires Leftover(w, args, 0, plan, v, v.(lin := lin), internalMem)
      modifies `lin, `internalMem
      ensures lin == w.dev.lin && internalMem == {}
    {
      hide RoomFor, ArgsLive, IsDupe, NewArg, Leftover;
      DupeLength(args, dupe);
      for i := 0 to |args|
        invariant Leftover(w, args, i, plan, v, v.(lin := lin), internalMem)
      {
        OneTurn(w, args, i, dupe, plan, v, v.(lin := lin), internalMem);
        if dupe[i] == i && newArgs[i].Mem? && newArgs[i].handle in internalMem {
          var c := newArgs[i].handle;
          lin, internalMem := lin - {Buffer(c)}, internalMem - {c};
        }
      }
      NothingLeft(w, args, plan, v, v.(lin := lin), internalMem);
    }

    /** The kernel on the stage. */
    method RunOnStage(k: Kernel, sched: seq<nat>, args: seq<Arg>, newArgs: seq<Arg>, dupe: seq<nat>, plan: Plan,
        how: Strategies.Strategy, imagesHow: PictureChecks.ImageStrategy, B: nat, ghost w: World)
      requires Ok() && WorldInv(w) && ArgsLive(w, args) && RoomFor(w, args, plan) && IsDupe(args, dupe)
      requires newArgs == NewArgs(w, plan, args) && Stages(w, args, plan, View())
      requires Prepared(k, sched, w, args, plan, how, imagesHow, B, scratch, mem.Length)
      modifies mem, `imgs, `unseen
      ensures View() == KernelLeaves(k, old(View()), newArgs, sched) && KernelRan(old(View()), newArgs, View())
      ensures Valid(View()) && LaunchOk(View(), newArgs) && IsDupe(newArgs, dupe)
      ensures Fits(View(), newArgs, dupe, how, imagesHow, B, scratch, mem.Length)
    {
      ghost var staged := View();
      assert Fits(staged, newArgs, dupe, how, imagesHow, B, scratch, mem.Length)
        && StaysInside(k, staged, newArgs, sched);
      StagesKeeps(w, args, plan, staged);
      assert HandlesDistinct(w) && Valid(staged);
      hide WorldInv, HandlesDistinct, ArgsLive, RoomFor, IsDupe, Stages, Prepared, Fits, Valid, LaunchOk, StaysInside,
           Inv, KernelRan, KindsApart;
      NewArgsLive(w, args, plan, staged);
      StageKindsApart(w, args, plan, staged);
      NewArgsAlias(w, args, plan, dupe);
      RunKernel(k, newArgs, sched);
      InsideIsKernelRan(k, staged, newArgs, sched);
      RanValid(staged, newArgs, View());
      hide KernelLeaves;
      StillFits(staged, newArgs, dupe, how, imagesHow, B, scratch, mem.Length, View());
    }

    /** Run, check and mend. */
    method CheckedRun(k: Kernel, sched: seq<nat>, args: seq<Arg>, newArgs: seq<Arg>, dupe: seq<nat>, plan: Plan,
        how: Strategies.Strategy, imagesHow: PictureChecks.ImageStrategy, B: nat, ghost w: World)
      returns (r: Reports)
      requires Ok() && WorldInv(w) && ArgsLive(w, args) && RoomFor(w, args, plan) && IsDupe(args, dupe)
      requires newArgs == NewArgs(w, plan, args) && Stages(w, args, plan, View()) && Marked(w, View(), internalMem)
      requires Prepared(k, sched, w, args, plan, how, imagesHow, B, scratch, mem.Length)
      modifies mem, `imgs, `unseen
      ensures KernelRan(old(View()), newArgs, KernelLeaves(k, old(View()), newArgs, sched))
      ensures Verified(KernelLeaves(k, old(View()), newArgs, sched), newArgs, View(), r)
      ensures Marked(w, View(), internalMem)
    {
      hide WorldInv, ArgsLive, RoomFor, IsDupe, Stages, Prepared, Fits, Valid, LaunchOk, KernelRan, Verified, Marked,
           KernelLeaves, NewArgs;
      ghost var staged := View();
      RunOnStage(k, sched, args, newArgs, dupe, plan, how, imagesHow, B, w);
      ghost var ran := View();
      r := VerifyBufferInBounds(newArgs, dupe, how, imagesHow, B);
      StillMarked(w, staged, newArgs, ran, View(), r, internalMem);
    }

    /** copyKernelBuffers and delPoisonKernel, if there are clones. */
    method PutBack(args: seq<Arg>, newArgs: seq<Arg>, dupe: seq<nat>, plan: Plan, cloned: bool, ghost w: World,
        ghost staged: State)
      requires Ok() && WorldInv(w) && ArgsLive(w, args) && RoomFor(w, args, plan) && IsDupe(args, dupe)
        && newArgs == NewArgs(w, plan, args)
      requires Stages(w, args, plan, staged) && SameTables(staged, View()) && ClonesIn(w, args, plan, View())
        && scratch == |w.dev.mem|
      requires host == w.host && nullRecord == w.nullRecord && Marked(w, View(), internalMem)
      requires !cloned ==> staged == w.dev && internalMem == {} && AllKept(w, args)
      modifies `lin, `internalMem, mem
      ensures PutsBack(w, args, plan, old(View()), WorldView()) && internalMem == {}
    {
      hide WorldInv, ArgsLive, RoomFor, IsDupe, Stages, Marked, AllKept, ClonesIn, Leftover, BuffersBack, SameTables,
           NewArg, NewArgs;
      ghost var checked := View();
      StagedSvms(w, args, plan, staged);
      SameSvms(staged, checked);
      if cloned {
        AllLeft(w, args, plan, staged, checked, internalMem);
        CopyKernelBuffers(args, newArgs, dupe, plan, w);
        assert checked.(lin := lin) == checked;
        DelPoisonKernel(args, newArgs, dupe, plan, w, checked);
      } else {
        NothingToPutBack(w, args, plan, checked, WorldView());
        hide PutsBack;
      }
    }

    /** kernelLaunchFunc from the values of the arguments on: an argument that matches the null record
        ends the process; without one, whatever the kernel writes within what it reaches, the launch is
        the launch step of a run. */
    method KernelLaunch(k: Kernel, sched: seq<nat>, values: seq<Value>, plan: Plan, how: Strategies.Strategy,
        imagesHow: PictureChecks.ImageStrategy, B: nat)
      returns (exits: bool, r: Reports, ghost staged: State, ghost checked: State)
      requires Ok() && WorldInv(WorldView()) && RoomFor(WorldView(), ArgsOf(WorldView(), values), plan)
        && internalMem == {}
      requires !HitsNull(WorldView(), values) ==>
                 Prepared(k, sched, WorldView(), ArgsOf(WorldView(), values), plan, how, imagesHow, B, scratch,
                          mem.Length)
      modifies `lin, `imgs, `unseen, `internalMem, mem
      ensures exits <==> HitsNull(old(WorldView()), values)
      ensures !exits ==> LaunchedKernel(k, sched, old(WorldView()), ArgsOf(old(WorldView()), values), plan, staged,
                                        checked, WorldView(), r)
      ensures !exits ==> internalMem == {} && WorldInv(WorldView())
    {
      hide WorldInv, ArgsLive, ImagesKnown, Consistent, HitsNull, RoomFor, IsDupe, Stages, Prepared, KernelRan,
           Verified, Marked, AllKept, KernelLeaves, ClonesIn, PutsBack, LaunchedKernel, SameTables, ArgsOf, NewArgs;
      ghost var w := WorldView();
      var args := SetKernelArgs(values);
      LaunchableValues(w, values);
      r := NO_REPORTS;
      var dupe := FindDuplicates(args);
      var newArgs, cloned;
      exits, newArgs, cloned := CreatePoisonedKernel(args, dupe, plan);
      staged, checked := View(), View();
      if !exits {
        r := CheckedRun(k, sched, args, newArgs, dupe, plan, how, imagesHow, B, w);
        checked := View();
        ClonesStillIn(w, args, plan, staged, newArgs, KernelLeaves(k, staged, newArgs, sched), checked, r);
        PutBack(args, newArgs, dupe, plan, cloned, w, staged);
        Finished(k, sched, w, args, plan, staged, checked, WorldView(), r);
      }
    }
  }

  method FileAll(l: seq<Name>, linReports: seq<nat>, images: seq<nat>, imgReports: seq<nat>) returns (r: Reports)
    requires |linReports| == |l| && AllDifferent(l) && |imgReports| == |images| && NoDuplicates(images)
    ensures Filed(r.lin, l, linReports) && Filed(r.imgs, images, imgReports)
  {
    var byName := FileReports(l, linReports);
    var byHandle := FileReports(images, imgReports);
    r := Reports(byName, byHandle);
  }
}
