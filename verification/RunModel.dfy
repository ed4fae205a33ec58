/** The objects the detector surrounds with canaries, the single operations on them, and the check
    after a kernel: what each keeps, and what the check reports. */
module RunModel {
  import opened Canary
  import opened Schedules
  import opened LinearBuffers
  import opened ImageGeometry
  import opened ApiGuards
  import opened KernelArgs
  import ImageCopy
  import ImageFill
  import ImagePoison

  // ----- state -----

  /** A live object in linear device memory: a cl_mem buffer or an SVM allocation. */
  datatype Name = Buffer(handle: nat) | Pointer(handle: nat)

  /** Pixels of a device image, by slice, row and column. */
  type Pixels3 = seq<seq<seq<seq<byte>>>>

  /** An image with a canary; desc is the user's description. checked records whether a launch has
      visited the image since its creation. */
  datatype Picture = Picture(desc: Desc, ds: nat, px: Pixels3, checked: bool)

  /** An image without canary: the user's pixels and nothing else. */
  datatype HostPicture = HostPicture(desc: Desc, ds: nat, px: Pixels3)

  /** Device memory, what lies where in it, the table of SVM allocations, the images with canary, and
      the images over host memory, which the tool's table does not have under their handles. */
  datatype State = State(mem: seq<byte>, lin: map<Name, Buf>, svms: seq<SvmObject>, imgs: map<nat, Picture>,
                         unseen: map<nat, HostPicture>)

  function PicDims(d: Desc): Dims
    requires UserDesc(d)
  {
    ExpandedDims(IMAGE_PAD, d);
    DimsOf(IMAGE_PAD, Expand(IMAGE_PAD, d))
  }

  ghost predicate Shaped(px: Pixels3, m: Dims, ds: nat) {
    && |px| == m.kLim
    && (forall z {:trigger px[z]} | 0 <= z < m.kLim :: |px[z]| == m.jLim)
    && (forall z, y {:trigger px[z][y]} | 0 <= z < m.kLim && 0 <= y < m.jLim :: |px[z][y]| == m.iLim)
    && (forall z, y, x {:trigger px[z][y][x]} | 0 <= z < m.kLim && 0 <= y < m.jLim && 0 <= x < m.iLim ::
          |px[z][y][x]| == ds)
  }

  function At(px: Pixels3, m: Dims, ds: nat, p: Pixel): (s: seq<byte>)
    requires Shaped(px, m, ds) && InImage(m, p)
    ensures |s| == ds
  {
    px[p.z][p.y][p.x]
  }

  ghost predicate PicOk(pic: Picture) {
    && Sized(IMAGE_PAD, pic.desc) && pic.ds > 0
    && ImageCopy.Span(IMAGE_PAD, PicDims(pic.desc), pic.ds) <= INT_MAX
    && Shaped(pic.px, PicDims(pic.desc), pic.ds)
  }

  /** The extent of an image without canary. */
  function UserDims(d: Desc): Dims { Dims(d.width, JLim(d), KLim(d), d.width, JLim(d), KLim(d)) }

  ghost predicate HostPicOk(pic: HostPicture) {
    UserDesc(pic.desc) && pic.ds > 0 && Shaped(pic.px, UserDims(pic.desc), pic.ds)
  }

  ghost predicate UnseenOk(unseen: map<nat, HostPicture>) { forall h | h in unseen :: HostPicOk(unseen[h]) }

  ghost predicate PicClean(pic: Picture)
    requires PicOk(pic)
  {
    forall p: Pixel | IsCanary(PicDims(pic.desc), p) ::
      At(pic.px, PicDims(pic.desc), pic.ds, p) == ImagePoison.FillPixel(pic.ds)
  }

  /** Live objects lie apart in device memory; the SVM table lists exactly the live allocations. */
  ghost predicate Valid(s: State) {
    && (forall n | n in s.lin :: InMemory(s.lin[n], |s.mem|))
    && (forall n, k | n in s.lin && k in s.lin && n != k :: Apart(s.lin[n], s.lin[k]))
    && (forall i | 0 <= i < |s.svms| :: Pointer(s.svms[i].handle) in s.lin)
    && (forall i, j | 0 <= i < j < |s.svms| :: s.svms[i].handle != s.svms[j].handle)
    && (forall h | h in s.imgs :: PicOk(s.imgs[h]))
    && UnseenOk(s.unseen)
  }

  ghost predicate LinClean(mem: seq<byte>, buf: Buf)
    requires InMemory(buf, |mem|)
  {
    forall a | 0 <= a < |mem| && InCanary(buf, a) :: mem[a] == FILL
  }

  /** The invariant of every run: canaries are intact, except in array images no launch has visited. */
  ghost predicate Inv(s: State) {
    && Valid(s)
    && (forall n | n in s.lin :: LinClean(s.mem, s.lin[n]))
    && (forall h | h in s.imgs :: (IsArray(s.imgs[h].desc.kind) && !s.imgs[h].checked) || PicClean(s.imgs[h]))
  }

  // ----- operations -----

  /** What a check reports for the objects it visits. */
  datatype Reports = Reports(lin: map<Name, nat>, imgs: map<nat, nat>)

  const NO_REPORTS := Reports(map[], map[])

  /** The driver places a new allocation inside device memory, apart from the live ones. */
  ghost predicate Places(s: State, buf: Buf) {
    InMemory(buf, |s.mem|) && forall n | n in s.lin :: Apart(s.lin[n], buf)
  }

  predicate InUserBytes(buf: Buf, a: nat) {
    buf.base + POISON_FILL_LENGTH <= a < buf.base + POISON_FILL_LENGTH + buf.size
  }

  /** Memory after the canaries of a new allocation are filled; other bytes outside it are unchanged. */
  ghost predicate Filled(mem0: seq<byte>, mem: seq<byte>, buf: Buf) {
    && |mem| == |mem0|
    && (forall a | 0 <= a < |mem| && InCanary(buf, a) :: mem[a] == FILL)
    && (forall a | 0 <= a < |mem| && !InCanary(buf, a) && !InUserBytes(buf, a) :: mem[a] == mem0[a])
  }

  ghost predicate CreatesBuffer(s: State, handle: nat, buf: Buf, content: seq<byte>, t: State) {
    && Buffer(handle) !in s.lin && Places(s, buf) && |content| == buf.size
    && t == s.(mem := t.mem, lin := s.lin[Buffer(handle) := buf])
    && Filled(s.mem, t.mem, buf)
    && forall i | 0 <= i < buf.size && buf.base + POISON_FILL_LENGTH + i < |t.mem| ::
         t.mem[buf.base + POISON_FILL_LENGTH + i] == content[i]
  }

  ghost predicate AllocatesSvm(s: State, handle: nat, buf: Buf, detectorInternal: bool, position: nat, t: State) {
    && Pointer(handle) !in s.lin && Places(s, buf) && position <= |s.svms|
    && t == s.(mem := t.mem, lin := s.lin[Pointer(handle) := buf],
               svms := s.svms[..position] + [SvmObject(handle, detectorInternal)] + s.svms[position..])
    && Filled(s.mem, t.mem, buf)
  }

  /** The upload covers the region of the description; what it leaves out holds anything. */
  ghost predicate CreatesImage(s: State, handle: nat, d: Desc, ds: nat, src: ImageFill.Source, t: State) {
    && handle !in s.imgs && handle in t.imgs
    && t == s.(imgs := s.imgs[handle := t.imgs[handle]])
    && var pic := t.imgs[handle];
    && pic.desc == d && pic.ds == ds && !pic.checked && PicOk(pic)
    && ImageFill.SourceOk(PicDims(d), ds, src)
    && forall p: Pixel, b: nat | InImage(PicDims(d), p) && ImageFill.InRegion(Expand(IMAGE_PAD, d), p) && b < ds ::
         At(pic.px, PicDims(d), ds, p)[b] == ImageFill.PixelContent(PicDims(d), ds, src, p, b)
  }

  /** The write happens when the guard passes and the driver finds it inside the user's buffer. */
  ghost predicate WritesBuffer(s: State, handle: nat, offset: u64, data: seq<byte>, t: State) {
    && Buffer(handle) in s.lin && |data| < TWO64
    && t == s.(mem := t.mem) && |t.mem| == |s.mem|
    && var buf := s.lin[Buffer(handle)];
    && var start := buf.base + POISON_FILL_LENGTH + offset;
    && buf.size < TWO64
    && forall a | 0 <= a < |s.mem| ::
         t.mem[a] == if LinearGuard(buf.size, offset, |data|).Pass? && offset + |data| <= buf.size && start <= a < start + |data|
                     then data[a - start] else s.mem[a]
  }

  predicate BoxHolds(b: ImageBox, p: Pixel) {
    b.o0 <= p.x < b.o0 + b.r0 && b.o1 <= p.y < b.o1 + b.r1 && b.o2 <= p.z < b.o2 + b.r2
  }

  /** The guard passes and the driver finds the box inside the image as it was created. */
  ghost predicate ImageWriteAccepted(pic: Picture, b: ImageBox)
    requires PicOk(pic)
  {
    var e := Expand(IMAGE_PAD, pic.desc);
    && ImageGuard(e, IMAGE_PAD, b).Inside?
    && b.o0 + b.r0 <= e.width && b.o1 + b.r1 <= JLim(e) && b.o2 + b.r2 <= KLim(e)
  }

  ghost predicate WritesImage(s: State, handle: nat, b: ImageBox, data: Pixels3, t: State) {
    && handle in s.imgs && handle in t.imgs && PicOk(s.imgs[handle]) && PicOk(t.imgs[handle])
    && var pic := s.imgs[handle];
    && var m := PicDims(pic.desc);
    && Shaped(data, Dims(b.r0, b.r1, b.r2, b.r0, b.r1, b.r2), pic.ds)
    && t == s.(imgs := s.imgs[handle := pic.(px := t.imgs[handle].px)])
    && forall p: Pixel | InImage(m, p) ::
         At(t.imgs[handle].px, m, pic.ds, p)
         == if ImageWriteAccepted(pic, b) && BoxHolds(b, p) then data[p.z - b.o2][p.y - b.o1][p.x - b.o0]
            else At(pic.px, m, pic.ds, p)
  }

  /** The linear objects a launch can reach and checks: buffers among the arguments and, when any
      argument is an SVM pointer, every SVM allocation of the user. */
  ghost predicate Reaches(s: State, args: seq<Arg>, n: Name) {
    match n
    case Buffer(h) => Mem(h, false) in args
    case Pointer(h) => AnySvm(args, |args|) && exists i :: 0 <= i < |s.svms| && s.svms[i] == SvmObject(h, false)
  }

  /** The arguments name live objects with canaries. */
  ghost predicate LaunchOk(s: State, args: seq<Arg>) {
    && Consistent(args)
    && (forall h | Mem(h, false) in args :: Buffer(h) in s.lin)
    && (forall h | Mem(h, true) in args :: h in s.imgs)
  }

  /** The storage of an object: canaries and user bytes. */
  predicate InStorage(buf: Buf, a: nat) { buf.base <= a < End(buf) }

  ghost predicate Reachable(s: State, args: seq<Arg>, a: nat) {
    exists n :: n in s.lin && Reaches(s, args, n) && InStorage(s.lin[n], a)
  }

  /** A kernel writes anything it likes inside the expanded storage of the objects it can reach. */
  ghost predicate KernelRan(s: State, args: seq<Arg>, ran: State) {
    && |ran.mem| == |s.mem| && ran.lin == s.lin && ran.svms == s.svms && ran.imgs.Keys == s.imgs.Keys
    && (forall a | 0 <= a < |s.mem| && !Reachable(s, args, a) :: ran.mem[a] == s.mem[a])
    && (forall h | h in s.imgs && Mem(h, true) !in args :: ran.imgs[h] == s.imgs[h])
    && (forall h | h in s.imgs && Mem(h, true) in args ::
          PicOk(ran.imgs[h]) && ran.imgs[h] == s.imgs[h].(px := ran.imgs[h].px))
    && UnseenRan(s, args, ran)
  }

  /** Of the images over host memory, those among the arguments are written to. */
  ghost predicate UnseenRan(s: State, args: seq<Arg>, ran: State) {
    && ran.unseen.Keys == s.unseen.Keys
    && (forall h | h in s.unseen && Unseen(h) !in args :: ran.unseen[h] == s.unseen[h])
    && (forall h | h in s.unseen :: HostPicOk(ran.unseen[h]) && ran.unseen[h] == s.unseen[h].(px := ran.unseen[h].px))
  }

  /** The flattened canary of an image. */
  function FlatByteOf(pic: Picture, i: nat): byte
    requires PicOk(pic) && i < ImageCopy.Span(IMAGE_PAD, PicDims(pic.desc), pic.ds)
  {
    var m := PicDims(pic.desc);
    ExpandedDims(IMAGE_PAD, pic.desc);
    StridePositive(IMAGE_PAD, m);
    ImageCopy.QuotRange(i, pic.ds, FlatSize(IMAGE_PAD, m));
    PosOfPixel(IMAGE_PAD, m, Quot(i, pic.ds));
    At(pic.px, m, pic.ds, PixelAt(IMAGE_PAD, m, Quot(i, pic.ds)))[Rem(i, pic.ds)]
  }

  ghost function FlatOf(pic: Picture): (s: seq<byte>)
    requires PicOk(pic)
    ensures |s| == ImageCopy.Span(IMAGE_PAD, PicDims(pic.desc), pic.ds)
    ensures forall i | 0 <= i < |s| :: s[i] == FlatByteOf(pic, i)
  {
    seq(ImageCopy.Span(IMAGE_PAD, PicDims(pic.desc), pic.ds),
        i requires 0 <= i < ImageCopy.Span(IMAGE_PAD, PicDims(pic.desc), pic.ds) && PicOk(pic) => FlatByteOf(pic, i))
  }

  /** The canary holding address a belongs to a reached object. */
  ghost predicate ReachedCanary(s: State, args: seq<Arg>, a: nat) {
    exists n :: n in s.lin && Reaches(s, args, n) && InCanary(s.lin[n], a)
  }

  /** Every reached linear object is reported by its least corrupted canary offset, its canary is
      rewritten, and no other byte changes. */
  ghost predicate LinVerified(ran: State, args: seq<Arg>, t: State, m: map<Name, nat>) {
    && t.lin == ran.lin && t.svms == ran.svms && |t.mem| == |ran.mem|
    && (forall n :: n in m <==> n in ran.lin && Reaches(ran, args, n))
    && (forall n | n in m :: InMemory(ran.lin[n], |ran.mem|) && m[n] == Expected(ran.mem, ran.lin[n]))
    && (forall a | 0 <= a < |ran.mem| :: t.mem[a] == if ReachedCanary(ran, args, a) then FILL else ran.mem[a])
  }

  /** What checking does to one image. */
  ghost predicate ImageChecked(before: Picture, after: Picture, report: nat) {
    PicOk(before) && PicOk(after) && report == FirstBad(FlatOf(before)) && Mended3(before, after)
  }

  ghost predicate ImgVerified(ran: State, args: seq<Arg>, t: State, m: map<nat, nat>) {
    && t.imgs.Keys == ran.imgs.Keys
    && (forall h :: h in m <==> h in ran.imgs && Mem(h, true) in args)
    && (forall h | h in ran.imgs && Mem(h, true) !in args :: t.imgs[h] == ran.imgs[h])
    && (forall h | h in m :: ImageChecked(ran.imgs[h], t.imgs[h], m[h]))
  }

  /** Check and mend. */
  ghost predicate Verified(ran: State, args: seq<Arg>, t: State, r: Reports) {
    && Valid(ran) && Valid(t) && LinVerified(ran, args, t, r.lin) && ImgVerified(ran, args, t, r.imgs)
    && t.unseen == ran.unseen
  }

  ghost predicate Mended3(before: Picture, after: Picture)
    requires PicOk(before) && PicOk(after)
  {
    && after == before.(px := after.px, checked := true)
    && forall p: Pixel | InImage(PicDims(before.desc), p) ::
         At(after.px, PicDims(before.desc), before.ds, p)
         == if IsCanary(PicDims(before.desc), p) then ImagePoison.FillPixel(before.ds)
            else At(before.px, PicDims(before.desc), before.ds, p)
  }

  /** The allocation and its table entry go, if there is one; the order of the others stays. */
  ghost predicate FreesSvm(s: State, handle: nat, t: State) {
    if exists i :: 0 <= i < |s.svms| && s.svms[i].handle == handle then
      exists i :: 0 <= i < |s.svms| && s.svms[i].handle == handle
        && t == s.(lin := s.lin - {Pointer(handle)}, svms := s.svms[..i] + s.svms[i + 1..])
    else t == s
  }

  // ----- every operation keeps the invariant -----

  lemma NewAllocationKeeps(s: State, mem: seq<byte>, buf: Buf, n: Name, lin: map<Name, Buf>)
    requires Inv(s) && n !in s.lin && Places(s, buf) && Filled(s.mem, mem, buf) && lin == s.lin[n := buf]
    ensures forall k | k in lin :: InMemory(lin[k], |mem|) && LinClean(mem, lin[k])
    ensures forall k, l | k in lin && l in lin && k != l :: Apart(lin[k], lin[l])
  {
    forall k | k in s.lin ensures LinClean(mem, s.lin[k]) {
      assert Apart(s.lin[k], buf) && LinClean(s.mem, s.lin[k]);
    }
  }

  lemma CreateBufferKeeps(s: State, handle: nat, buf: Buf, content: seq<byte>, t: State)
    requires Inv(s) && CreatesBuffer(s, handle, buf, content, t)
    ensures Inv(t)
  {
    NewAllocationKeeps(s, t.mem, buf, Buffer(handle), t.lin);
  }

  lemma TableInserted(svms: seq<SvmObject>, position: nat, o: SvmObject, v: seq<SvmObject>)
    requires position <= |svms| && v == svms[..position] + [o] + svms[position..]
    requires forall i, j | 0 <= i < j < |svms| :: svms[i].handle != svms[j].handle
    requires forall i | 0 <= i < |svms| :: svms[i].handle != o.handle
    ensures forall i, j | 0 <= i < j < |v| :: v[i].handle != v[j].handle
    ensures forall i | 0 <= i < |v| :: v[i] == o || v[i] in svms
  {
    assert forall i | 0 <= i < |v| ::
              v[i] == if i < position then svms[i] else if i == position then o else svms[i - 1];
  }

  lemma AllocSvmKeeps(s: State, handle: nat, buf: Buf, internal: bool, position: nat, t: State)
    requires Inv(s) && AllocatesSvm(s, handle, buf, internal, position, t)
    ensures Inv(t)
  {
    NewAllocationKeeps(s, t.mem, buf, Pointer(handle), t.lin);
    TableInserted(s.svms, position, SvmObject(handle, internal), t.svms);
    hide Filled, Places, PicOk, PicClean, LinClean, Apart, InMemory;
  }

  lemma CreateImageKeeps(s: State, handle: nat, d: Desc, ds: nat, src: ImageFill.Source, t: State)
    requires Inv(s) && CreatesImage(s, handle, d, ds, src, t)
    ensures Inv(t)
  {
    var pic := t.imgs[handle];
    if !IsArray(d.kind) {
      ImageFill.UploadCoversCanary(IMAGE_PAD, d);
      forall p: Pixel | IsCanary(PicDims(d), p) ensures At(pic.px, PicDims(d), ds, p) == ImagePoison.FillPixel(ds) {
        assert ImageFill.InRegion(Expand(IMAGE_PAD, d), p);
        forall b | 0 <= b < ds ensures At(pic.px, PicDims(d), ds, p)[b] == FILL {
          assert ImageFill.PixelContent(PicDims(d), ds, src, p, b) == FILL;
        }
      }
    }
  }

  lemma WriteBufferKeeps(s: State, handle: nat, offset: u64, data: seq<byte>, t: State)
    requires Inv(s) && WritesBuffer(s, handle, offset, data, t)
    ensures Inv(t)
  {
    forall n | n in t.lin ensures LinClean(t.mem, t.lin[n]) {
      assert n != Buffer(handle) ==> Apart(s.lin[n], s.lin[Buffer(handle)]);
      assert LinClean(s.mem, s.lin[n]);
    }
  }

  lemma WriteKeepsClean(pic: Picture, b: ImageBox, after: Picture)
    requires PicOk(pic) && PicClean(pic) && PicOk(after) && after == pic.(px := after.px)
    requires forall p: Pixel | InImage(PicDims(pic.desc), p) && !(ImageWriteAccepted(pic, b) && BoxHolds(b, p)) ::
               At(after.px, PicDims(pic.desc), pic.ds, p) == At(pic.px, PicDims(pic.desc), pic.ds, p)
    ensures PicClean(after)
  {
    if ImageWriteAccepted(pic, b) {
      AdmittedBoxIsUser(IMAGE_PAD, pic.desc, b);
      ExpandedDims(IMAGE_PAD, pic.desc);
    }
    hide Shaped, At, ImageGuard;
    forall p: Pixel | IsCanary(PicDims(pic.desc), p)
      ensures At(after.px, PicDims(pic.desc), pic.ds, p) == ImagePoison.FillPixel(pic.ds)
    {
      assert At(pic.px, PicDims(pic.desc), pic.ds, p) == ImagePoison.FillPixel(pic.ds);
    }
  }

  lemma WriteImageKeeps(s: State, handle: nat, b: ImageBox, data: Pixels3, t: State)
    requires Inv(s) && WritesImage(s, handle, b, data, t)
    ensures Inv(t)
  {
    hide WritesImage, PicOk, PicClean, LinClean, Apart, InMemory;
    WrittenKeepsClean(s, handle, b, data, t);
    WritesOnePicture(s, handle, b, data, t);
  }

  lemma WritesOnePicture(s: State, handle: nat, b: ImageBox, data: Pixels3, t: State)
    requires WritesImage(s, handle, b, data, t)
    ensures handle in s.imgs && handle in t.imgs && t == s.(imgs := s.imgs[handle := t.imgs[handle]])
    ensures PicOk(t.imgs[handle]) && t.imgs[handle] == s.imgs[handle].(px := t.imgs[handle].px)
  {
    hide PicOk, Shaped, At;
  }

  lemma WrittenKeepsClean(s: State, handle: nat, b: ImageBox, data: Pixels3, t: State)
    requires WritesImage(s, handle, b, data, t)
    ensures handle in s.imgs && handle in t.imgs && PicOk(s.imgs[handle]) && PicOk(t.imgs[handle])
    ensures PicClean(s.imgs[handle]) ==> PicClean(t.imgs[handle])
  {
    if PicClean(s.imgs[handle]) { WriteKeepsClean(s.imgs[handle], b, t.imgs[handle]); }
    hide PicOk, PicClean, Shaped, At, ImageWriteAccepted;
  }

  /** A byte of a live canary is either in a reached canary or out of the kernel's reach. */
  lemma CanaryUnreached(s: State, args: seq<Arg>, n: Name, a: nat)
    requires Valid(s) && n in s.lin && InCanary(s.lin[n], a) && !Reaches(s, args, n)
    ensures !Reachable(s, args, a)
  {
  }

  lemma LaunchKeepsLinear(s: State, args: seq<Arg>, ran: State, t: State, r: Reports, n: Name)
    requires Inv(s) && KernelRan(s, args, ran) && Verified(ran, args, t, r) && n in t.lin
    ensures LinClean(t.mem, t.lin[n])
  {
    forall a | 0 <= a < |t.mem| && InCanary(t.lin[n], a) ensures t.mem[a] == FILL {
      if Reaches(ran, args, n) {
        assert ReachedCanary(ran, args, a);
      } else if !ReachedCanary(ran, args, a) {
        assert !Reaches(s, args, n);
        CanaryUnreached(s, args, n, a);
        assert LinClean(s.mem, s.lin[n]);
      }
    }
  }

  lemma LaunchKeeps(s: State, args: seq<Arg>, ran: State, t: State, r: Reports)
    requires Inv(s) && KernelRan(s, args, ran) && Verified(ran, args, t, r)
    ensures Inv(t)
  {
    forall n | n in t.lin ensures LinClean(t.mem, t.lin[n]) {
      LaunchKeepsLinear(s, args, ran, t, r, n);
    }
    forall h | h in t.imgs
      ensures (IsArray(t.imgs[h].desc.kind) && !t.imgs[h].checked) || PicClean(t.imgs[h])
    {
      if Mem(h, true) in args { assert ImageChecked(ran.imgs[h], t.imgs[h], r.imgs[h]); }
    }
  }

  lemma FreeSvmKeeps(s: State, handle: nat, t: State)
    requires Inv(s) && FreesSvm(s, handle, t)
    ensures Inv(t)
  {
    hide PicOk, PicClean, LinClean, Apart, InMemory;
  }

  lemma ReleaseKeeps(s: State, t: State)
    requires Inv(s) && t.mem == s.mem && t.svms == s.svms
    requires t.lin.Keys <= s.lin.Keys && t.imgs.Keys <= s.imgs.Keys
    requires forall n | n in t.lin :: t.lin[n] == s.lin[n]
    requires forall n: Name | n in s.lin && n.Pointer? :: n in t.lin
    requires forall h | h in t.imgs :: t.imgs[h] == s.imgs[h]
    requires UnseenOk(t.unseen)
    ensures Inv(t)
  {
    hide PicOk, PicClean, LinClean, Apart, InMemory, UnseenOk;
  }

  // ----- what a launch reports -----

  predicate Changed(before: seq<byte>, after: seq<byte>, a: nat) {
    a < |before| && a < |after| && before[a] != after[a]
  }

  /** The report names the least byte of the canary that changed, if any did. */
  ghost predicate NamesLeastChange(before: seq<byte>, after: seq<byte>, buf: Buf, report: nat) {
    && (report != INT_MAX <==> exists a: nat :: InCanary(buf, a) && Changed(before, after, a))
    && (report != INT_MAX ==> report < CANARY_LENGTH && Changed(before, after, CanaryAddr(buf, report)))
    && (forall p: nat | p < CANARY_LENGTH && p < report :: !Changed(before, after, CanaryAddr(buf, p)))
  }

  /** Against a clean canary, the expected report names the least changed canary byte. */
  lemma ReportOfClean(before: seq<byte>, mem: seq<byte>, buf: Buf)
    requires |before| == |mem| && InMemory(buf, |mem|) && LinClean(before, buf)
    ensures NamesLeastChange(before, mem, buf, Expected(mem, buf))
  {
    CanaryAddrsIn(buf, |mem|);
    var bytes, r := CanaryBytes(mem, buf), Expected(mem, buf);
    assert forall p | 0 <= p < CANARY_LENGTH ::
              bytes[p] == mem[CanaryAddr(buf, p)] && InCanary(buf, CanaryAddr(buf, p));
    if r == INT_MAX {
      forall a: nat | InCanary(buf, a) ensures !Changed(before, mem, a) {
        var p := CanaryPosition(buf, a);
        assert bytes[p] == FILL;
      }
    }
  }

  /** An image is reported exactly when, after the kernel, some byte of its canary is not the fill. */
  lemma LaunchReportsImage(s: State, args: seq<Arg>, ran: State, t: State, r: Reports, h: nat)
    requires Inv(s) && KernelRan(s, args, ran) && Verified(ran, args, t, r) && h in s.imgs && Mem(h, true) in args
    ensures h in r.imgs && PicOk(ran.imgs[h])
    ensures r.imgs[h] != INT_MAX <==> !PicClean(ran.imgs[h])
  {
    assert h in ran.imgs && ImageChecked(ran.imgs[h], t.imgs[h], r.imgs[h]);
    FlatOfClean(ran.imgs[h]);
    FirstBadUnique(FlatOf(ran.imgs[h]), r.imgs[h]);
  }

  /** The flattened canary is all fill exactly when every canary pixel is. */
  lemma FlatOfClean(pic: Picture)
    requires PicOk(pic)
    ensures Intact(FlatOf(pic)) <==> PicClean(pic)
    ensures FirstBad(FlatOf(pic)) == INT_MAX <==> Intact(FlatOf(pic))
  {
    var m, s := PicDims(pic.desc), FlatOf(pic);
    ExpandedDims(IMAGE_PAD, pic.desc);
    StridePositive(IMAGE_PAD, m);
    if PicClean(pic) {
      forall i | 0 <= i < |s| ensures s[i] == FILL {
        ImageCopy.QuotRange(i, pic.ds, FlatSize(IMAGE_PAD, m));
        PosOfPixel(IMAGE_PAD, m, Quot(i, pic.ds));
        assert IsCanary(m, PixelAt(IMAGE_PAD, m, Quot(i, pic.ds)));
      }
    }
    if Intact(s) {
      forall p: Pixel | IsCanary(m, p) ensures At(pic.px, m, pic.ds, p) == ImagePoison.FillPixel(pic.ds) {
        CleanPixelOf(pic, p);
      }
      FirstBadUnique(s, INT_MAX);
    }
  }

  lemma CleanPixelOf(pic: Picture, p: Pixel)
    requires PicOk(pic) && IsCanary(PicDims(pic.desc), p) && Intact(FlatOf(pic))
    ensures At(pic.px, PicDims(pic.desc), pic.ds, p) == ImagePoison.FillPixel(pic.ds)
  {
    forall b: nat | b < pic.ds ensures At(pic.px, PicDims(pic.desc), pic.ds, p)[b] == FILL {
      var i := FlatPosition(pic, p, b);
      assert FlatOf(pic)[i] == FlatByteOf(pic, i);
    }
  }

  /** Where the flattened canary holds byte b of a canary pixel. */
  lemma FlatPosition(pic: Picture, p: Pixel, b: nat) returns (i: nat)
    requires PicOk(pic) && IsCanary(PicDims(pic.desc), p) && b < pic.ds
    ensures i == PosOf(IMAGE_PAD, PicDims(pic.desc), p) * pic.ds + b
    ensures i < ImageCopy.Span(IMAGE_PAD, PicDims(pic.desc), pic.ds)
    ensures FlatByteOf(pic, i) == At(pic.px, PicDims(pic.desc), pic.ds, p)[b]
  {
    hide PosOf, PixelAt, FlatSize, Stride, Quot, Rem, Shaped;
    var m := PicDims(pic.desc);
    ExpandedDims(IMAGE_PAD, pic.desc);
    StridePositive(IMAGE_PAD, m);
    PixelOfPos(IMAGE_PAD, m, p);
    ImagePoison.BytePosition(PosOf(IMAGE_PAD, m, p), FlatSize(IMAGE_PAD, m), pic.ds, b);
    i := PosOf(IMAGE_PAD, m, p) * pic.ds + b;
  }

  ghost predicate CanaryPixelChanged(before: Picture, after: Picture, p: Pixel) {
    && PicOk(before) && PicOk(after) && before.desc == after.desc && before.ds == after.ds
    && IsCanary(PicDims(before.desc), p)
    && At(before.px, PicDims(before.desc), before.ds, p) != At(after.px, PicDims(before.desc), before.ds, p)
  }

  lemma DirtyIffChanged(before: Picture, after: Picture)
    requires PicOk(before) && PicOk(after) && before.desc == after.desc && before.ds == after.ds && PicClean(before)
    ensures !PicClean(after) <==> exists p: Pixel :: CanaryPixelChanged(before, after, p)
  {
    hide Shaped, At;
    if !PicClean(after) {
      var p: Pixel :| IsCanary(PicDims(after.desc), p)
                      && At(after.px, PicDims(after.desc), after.ds, p) != ImagePoison.FillPixel(after.ds);
      assert CanaryPixelChanged(before, after, p);
    }
  }

  /** For an image that was clean, that is: exactly when this launch changed a canary pixel. */
  lemma CleanImageReports(s: State, args: seq<Arg>, ran: State, t: State, r: Reports, h: nat)
    requires Inv(s) && KernelRan(s, args, ran) && Verified(ran, args, t, r) && h in s.imgs && Mem(h, true) in args
    requires !IsArray(s.imgs[h].desc.kind) || s.imgs[h].checked
    ensures h in r.imgs && h in ran.imgs
    ensures r.imgs[h] != INT_MAX <==> exists p: Pixel :: CanaryPixelChanged(s.imgs[h], ran.imgs[h], p)
  {
    LaunchReportsImage(s, args, ran, t, r, h);
    assert PicClean(s.imgs[h]);
    hide Inv, Verified, PicOk, PicClean, CanaryPixelChanged;
    DirtyIffChanged(s.imgs[h], ran.imgs[h]);
  }

  lemma UserByteIsNoCanary(s: State, args: seq<Arg>, n: Name, a: nat)
    requires Valid(s) && n in s.lin && InUserBytes(s.lin[n], a)
    ensures !ReachedCanary(s, args, a)
  {
  }

  /** Mending leaves the user's bytes as the kernel left them. */
  lemma LaunchKeepsUserBytes(ran: State, args: seq<Arg>, t: State, r: Reports, n: Name, a: nat)
    requires Verified(ran, args, t, r) && n in ran.lin && a < |ran.mem| && InUserBytes(ran.lin[n], a)
    ensures t.mem[a] == ran.mem[a]
  {
    assert t.mem[a] == if ReachedCanary(ran, args, a) then FILL else ran.mem[a];
    assert Valid(ran);
    hide Verified, LinVerified, ReachedCanary;
    UserByteIsNoCanary(ran, args, n, a);
  }

  // ----- a launch can always be made -----

  ghost function MendedRow(m: Dims, ds: nat, row: seq<seq<byte>>, y: nat, z: nat): (after: seq<seq<byte>>)
    ensures |after| == |row|
    ensures forall x {:trigger after[x]} | 0 <= x < |row| ::
              after[x] == if IsCanary(m, Pixel(x, y, z)) then ImagePoison.FillPixel(ds) else row[x]
  {
    seq(|row|, x requires 0 <= x < |row| => if IsCanary(m, Pixel(x, y, z)) then ImagePoison.FillPixel(ds) else row[x])
  }

  ghost function MendedSlice(m: Dims, ds: nat, slice: seq<seq<seq<byte>>>, z: nat): (after: seq<seq<seq<byte>>>)
    ensures |after| == |slice|
    ensures forall y {:trigger after[y]} | 0 <= y < |slice| :: after[y] == MendedRow(m, ds, slice[y], y, z)
  {
    seq(|slice|, y requires 0 <= y < |slice| => MendedRow(m, ds, slice[y], y, z))
  }

  ghost function MendedPixels(m: Dims, ds: nat, px: Pixels3): (after: Pixels3)
    requires Shaped(px, m, ds)
    ensures Shaped(after, m, ds)
    ensures forall p: Pixel | InImage(m, p) ::
              At(after, m, ds, p) == if IsCanary(m, p) then ImagePoison.FillPixel(ds) else At(px, m, ds, p)
  {
    seq(|px|, z requires 0 <= z < |px| => MendedSlice(m, ds, px[z], z))
  }

  /** An image after its check. */
  ghost function AfterCheck(pic: Picture): (after: Picture)
    ensures PicOk(pic) ==> ImageChecked(pic, after, FirstBad(FlatOf(pic)))
  {
    if PicOk(pic) then pic.(px := MendedPixels(PicDims(pic.desc), pic.ds, pic.px), checked := true) else pic
  }

  ghost predicate PicsOk(imgs: map<nat, Picture>) { forall h | h in imgs :: PicOk(imgs[h]) }

  ghost function AfterChecks(imgs: map<nat, Picture>, args: seq<Arg>): (after: map<nat, Picture>)
    ensures after.Keys == imgs.Keys
    ensures forall h | h in imgs :: after[h] == if Mem(h, true) in args then AfterCheck(imgs[h]) else imgs[h]
  {
    map h | h in imgs :: if Mem(h, true) in args then AfterCheck(imgs[h]) else imgs[h]
  }

  ghost function ImageReports(imgs: map<nat, Picture>, args: seq<Arg>): (r: map<nat, nat>)
    requires PicsOk(imgs)
    ensures forall h :: h in r <==> h in imgs && Mem(h, true) in args
    ensures forall h | h in r :: r[h] == FirstBad(FlatOf(imgs[h]))
  {
    map h | h in imgs && Mem(h, true) in args :: FirstBad(FlatOf(imgs[h]))
  }

  lemma ImagesCheckable(ran: State, args: seq<Arg>, t: State)
    requires PicsOk(ran.imgs) && t.imgs == AfterChecks(ran.imgs, args)
    ensures ImgVerified(ran, args, t, ImageReports(ran.imgs, args)) && PicsOk(t.imgs)
  {
    hide PicOk, Mended3, FlatOf, FirstBad, ImageChecked, AfterCheck;
    forall h | h in ran.imgs
      ensures PicOk(t.imgs[h])
        && (Mem(h, true) in args ==> ImageChecked(ran.imgs[h], t.imgs[h], ImageReports(ran.imgs, args)[h]))
    {
      OneImageCheckable(ran.imgs, args, h);
    }
  }

  lemma OneImageCheckable(imgs: map<nat, Picture>, args: seq<Arg>, h: nat)
    requires PicsOk(imgs) && h in imgs
    ensures PicOk(AfterChecks(imgs, args)[h])
    ensures Mem(h, true) in args ==> ImageChecked(imgs[h], AfterChecks(imgs, args)[h], ImageReports(imgs, args)[h])
  {
    hide PicOk, Mended3, FlatOf;
  }

  ghost function LinReports(ran: State, args: seq<Arg>): (r: map<Name, nat>)
    requires forall n | n in ran.lin :: InMemory(ran.lin[n], |ran.mem|)
    ensures forall n :: n in r <==> n in ran.lin && Reaches(ran, args, n)
    ensures forall n | n in r :: r[n] == Expected(ran.mem, ran.lin[n])
  {
    map n | n in ran.lin && Reaches(ran, args, n) :: Expected(ran.mem, ran.lin[n])
  }

  lemma LinearCheckable(ran: State, args: seq<Arg>, t: State)
    requires forall n | n in ran.lin :: InMemory(ran.lin[n], |ran.mem|)
    requires t.lin == ran.lin && t.svms == ran.svms && |t.mem| == |ran.mem|
    requires forall a | 0 <= a < |ran.mem| :: t.mem[a] == if ReachedCanary(ran, args, a) then FILL else ran.mem[a]
    ensures LinVerified(ran, args, t, LinReports(ran, args))
  {
    hide ReachedCanary, Reaches, Expected;
  }

  lemma CheckedIsValid(ran: State, t: State)
    requires Valid(ran) && t.lin == ran.lin && t.svms == ran.svms && |t.mem| == |ran.mem| && PicsOk(t.imgs)
    requires t.unseen == ran.unseen
    ensures Valid(t)
  {
    hide PicOk, Apart, UnseenOk;
  }

  /** Whatever a kernel has done, the check has a result: no launch of a run gets stuck. */
  lemma CheckPossible(ran: State, args: seq<Arg>) returns (t: State, r: Reports)
    requires Valid(ran)
    ensures Verified(ran, args, t, r)
  {
    assert PicsOk(ran.imgs) && forall n | n in ran.lin :: InMemory(ran.lin[n], |ran.mem|);
    hide PicOk, PicsOk, ImgVerified, LinVerified, ReachedCanary, Reaches, Expected, Valid;
    r := Reports(LinReports(ran, args), ImageReports(ran.imgs, args));
    t := ran.(mem := seq(|ran.mem|, a requires 0 <= a < |ran.mem| => if ReachedCanary(ran, args, a) then FILL else ran.mem[a]),
              imgs := AfterChecks(ran.imgs, args));
    ImagesCheckable(ran, args, t);
    LinearCheckable(ran, args, t);
    CheckedIsValid(ran, t);
  }

  // ----- array images -----

  ghost function UploadedPixel(d: Desc, ds: nat, src: ImageFill.Source, rest: byte, p: Pixel): (v: seq<byte>)
    requires UserDesc(d) && ImageFill.SourceOk(PicDims(d), ds, src) && InImage(PicDims(d), p)
    ensures |v| == ds
    ensures forall b | 0 <= b < ds ::
              v[b] == if ImageFill.InRegion(Expand(IMAGE_PAD, d), p) then ImageFill.PixelContent(PicDims(d), ds, src, p, b) else rest
  {
    seq(ds, b requires 0 <= b < ds =>
      if ImageFill.InRegion(Expand(IMAGE_PAD, d), p) then ImageFill.PixelContent(PicDims(d), ds, src, p, b) else rest)
  }

  /** Device pixels after an upload, with the given byte wherever the upload does not reach. */
  ghost function Uploaded(d: Desc, ds: nat, src: ImageFill.Source, rest: byte): (px: Pixels3)
    requires UserDesc(d) && ImageFill.SourceOk(PicDims(d), ds, src)
    ensures Shaped(px, PicDims(d), ds)
    ensures forall p: Pixel | InImage(PicDims(d), p) :: At(px, PicDims(d), ds, p) == UploadedPixel(d, ds, src, rest, p)
  {
    var m := PicDims(d);
    seq(m.kLim, z requires 0 <= z < m.kLim =>
      seq(m.jLim, y requires 0 <= y < m.jLim =>
        seq(m.iLim, x requires 0 <= x < m.iLim => UploadedPixel(d, ds, src, rest, Pixel(x, y, z)))))
  }

  lemma UploadedDirty(d: Desc, ds: nat, src: ImageFill.Source)
    requires Sized(IMAGE_PAD, d) && IsArray(d.kind) && ds > 0
    requires ImageFill.SourceOk(PicDims(d), ds, src) && ImageCopy.Span(IMAGE_PAD, PicDims(d), ds) <= INT_MAX
    ensures var pic := Picture(d, ds, Uploaded(d, ds, src, 0), false); PicOk(pic) && !PicClean(pic)
  {
    var pic := Picture(d, ds, Uploaded(d, ds, src, 0), false);
    ImageFill.UploadCoversCanary(IMAGE_PAD, d);
    var p: Pixel :| IsCanary(PicDims(d), p) && !ImageFill.InRegion(Expand(IMAGE_PAD, d), p);
    assert At(pic.px, PicDims(d), ds, p)[0] == 0;
  }

  /** A kernel may write nothing. */
  lemma IdleKernel(s: State, args: seq<Arg>)
    requires Inv(s)
    ensures KernelRan(s, args, s)
  {
    hide PicOk, PicClean, LinClean, HostPicOk;
  }

  /** The exception in the invariant is real: a new array image may hold anything in part of its
      canary, and the first launch that takes it then reports it though the kernel wrote nothing. */
  lemma ArrayImageFalseReport(s: State, handle: nat, d: Desc, ds: nat, src: ImageFill.Source) returns (t: State)
    requires Inv(s) && handle !in s.imgs && Sized(IMAGE_PAD, d) && IsArray(d.kind) && ds > 0
    requires ImageFill.SourceOk(PicDims(d), ds, src) && ImageCopy.Span(IMAGE_PAD, PicDims(d), ds) <= INT_MAX
    ensures CreatesImage(s, handle, d, ds, src, t)
    ensures KernelRan(t, [Mem(handle, true)], t)
    ensures forall u, r | Verified(t, [Mem(handle, true)], u, r) :: handle in r.imgs && r.imgs[handle] != INT_MAX
  {
    hide Inv, PicOk, PicClean, Uploaded, Shaped, At;
    UploadedDirty(d, ds, src);
    t := s.(imgs := s.imgs[handle := Picture(d, ds, Uploaded(d, ds, src, 0), false)]);
    CreateImageKeeps(s, handle, d, ds, src, t);
    var args := [Mem(handle, true)];
    hide CreatesImage, Verified, KernelRan;
    IdleKernel(t, args);
    forall u, r | Verified(t, args, u, r) ensures handle in r.imgs && r.imgs[handle] != INT_MAX {
      LaunchReportsImage(t, args, t, u, r, handle);
    }
  }
}
