/** A user's kernel on the stage of a launch: what it can touch, and what its run means for the user's
    objects. */
module StagedRuns {
  import opened Canary
  import opened LinearBuffers
  import opened ImageGeometry
  import opened KernelArgs
  import opened RunModel
  import opened KernelRuns
  import opened Staging

  // ----- the device a kernel runs on -----

  /** What the driver binds to the arguments. */
  function BindingOf(s: State, a: Arg): Binding {
    if IsLinear(a) then
      if NameOf(a) in s.lin then Address(s.lin[NameOf(a)].base + POISON_FILL_LENGTH + PointerOffset(a)) else Scalar
    else if IsImage(a) then Surface(a.handle)
    else Scalar
  }

  function Bindings(s: State, args: seq<Arg>): (b: seq<Binding>)
    ensures |b| == |args| && forall i | 0 <= i < |args| :: b[i] == BindingOf(s, args[i])
  {
    seq(|args|, i requires 0 <= i < |args| => BindingOf(s, args[i]))
  }

  function Rasters(imgs: map<nat, Picture>, unseen: map<nat, HostPicture>): (r: map<nat, Pixels3>)
    ensures r.Keys == imgs.Keys + unseen.Keys
    ensures forall h | h in r :: r[h] == if h in imgs then imgs[h].px else unseen[h].px
  {
    map h | h in imgs.Keys + unseen.Keys :: if h in imgs then imgs[h].px else unseen[h].px
  }

  function Device(s: State): Flat { Flat(s.mem, Rasters(s.imgs, s.unseen), map[]) }

  /** The state with the memory and the pixels of f. */
  function Left(s: State, f: Flat): (t: State)
    ensures t == s.(mem := f.mem, imgs := t.imgs, unseen := t.unseen)
    ensures t.imgs.Keys == s.imgs.Keys && t.unseen.Keys == s.unseen.Keys
    ensures forall h | h in s.imgs ::
              t.imgs[h] == s.imgs[h].(px := if h in f.rasters then f.rasters[h] else s.imgs[h].px)
    ensures forall h | h in s.unseen ::
              t.unseen[h] == s.unseen[h].(px := if h in f.rasters && h !in s.imgs then f.rasters[h] else s.unseen[h].px)
  {
    s.(mem := f.mem,
       imgs := map h | h in s.imgs :: s.imgs[h].(px := if h in f.rasters then f.rasters[h] else s.imgs[h].px),
       unseen := map h | h in s.unseen ::
         s.unseen[h].(px := if h in f.rasters && h !in s.imgs then f.rasters[h] else s.unseen[h].px))
  }

  /** What kernel k leaves when its items act in the order of the schedule. */
  function KernelLeaves(k: Kernel, s: State, args: seq<Arg>, sched: seq<nat>): State {
    Left(s, FlatRun(k, Bindings(s, args), Device(s), sched))
  }

  ghost function Reach(s: State, args: seq<Arg>): iset<int> { iset a: int | a >= 0 && Reachable(s, args, a) }

  /** The kernel stores only inside the expanded storage of objects the launch reaches; what it reads
      does not matter. */
  ghost predicate StaysInside(k: Kernel, s: State, args: seq<Arg>, sched: seq<nat>) {
    Confined(k, Bindings(s, args), Device(s), sched, Reach(s, args))
  }

  /** Handles tell images with canary from those without, on the device and among the arguments. */
  ghost predicate KindsApart(s: State, args: seq<Arg>) {
    && (forall h | h in s.imgs :: h !in s.unseen && Unseen(h) !in args)
    && (forall h | h in s.unseen :: Mem(h, true) !in args)
  }

  /** Then all it changes is that storage and the pixels of its image arguments. */
  lemma InsideIsKernelRan(k: Kernel, s: State, args: seq<Arg>, sched: seq<nat>)
    requires Valid(s) && KindsApart(s, args) && StaysInside(k, s, args, sched)
    ensures KernelRan(s, args, KernelLeaves(k, s, args, sched))
  {
    ContainedRun(k, Bindings(s, args), Device(s), sched, Reach(s, args));
    assert PicsOk(s.imgs) && UnseenOk(s.unseen);
    hide Valid, Contained, PicOk, UnseenOk, KindsApart;
    ContainedIsKernelRan(s, args, FlatRun(k, Bindings(s, args), Device(s), sched));
  }

  lemma ContainedIsKernelRan(s: State, args: seq<Arg>, f: Flat)
    requires PicsOk(s.imgs) && UnseenOk(s.unseen) && KindsApart(s, args)
    requires Contained(Bindings(s, args), Reach(s, args), Device(s), f)
    ensures KernelRan(s, args, Left(s, f))
  {
    hide PicOk, UnseenOk, SameRaster, Reachable, IsSurface, UnseenRan, KindsApart, Bindings;
    assert forall a | 0 <= a < |s.mem| && !Reachable(s, args, a) :: a !in Reach(s, args);
    ContainedPictures(s, args, f);
    ContainedUnseen(s, args, f);
  }

  lemma ContainedPictures(s: State, args: seq<Arg>, f: Flat)
    requires PicsOk(s.imgs) && KindsApart(s, args) && Contained(Bindings(s, args), Reach(s, args), Device(s), f)
    ensures forall h | h in s.imgs ::
              PicOk(Left(s, f).imgs[h]) && Left(s, f).imgs[h] == s.imgs[h].(px := Left(s, f).imgs[h].px)
    ensures forall h | h in s.imgs && Mem(h, true) !in args :: Left(s, f).imgs[h] == s.imgs[h]
  {
    hide PicOk, SameRaster, Reachable, IsSurface, Bindings;
    var ran := Left(s, f);
    forall h | h in s.imgs
      ensures PicOk(ran.imgs[h]) && ran.imgs[h] == s.imgs[h].(px := ran.imgs[h].px)
      ensures Mem(h, true) in args || ran.imgs[h] == s.imgs[h]
    {
      assert PicOk(s.imgs[h]) && SameRaster(s.imgs[h].px, f.rasters[h]);
      PictureLeft(s.imgs[h], f.rasters[h]);
      if IsSurface(Bindings(s, args), h) { SurfaceIsArg(s, args, h); }
    }
  }

  lemma ContainedUnseen(s: State, args: seq<Arg>, f: Flat)
    requires UnseenOk(s.unseen) && KindsApart(s, args) && Contained(Bindings(s, args), Reach(s, args), Device(s), f)
    ensures UnseenRan(s, args, Left(s, f))
  {
    hide HostPicOk, SameRaster, Reachable, IsSurface, Bindings;
    var ran := Left(s, f);
    forall h | h in s.unseen
      ensures HostPicOk(ran.unseen[h]) && ran.unseen[h] == s.unseen[h].(px := ran.unseen[h].px)
      ensures Unseen(h) in args || ran.unseen[h] == s.unseen[h]
    {
      assert h !in s.imgs && HostPicOk(s.unseen[h]) && SameRaster(s.unseen[h].px, f.rasters[h]);
      HostPictureLeft(s.unseen[h], f.rasters[h]);
      if IsSurface(Bindings(s, args), h) { SurfaceIsArg(s, args, h); }
    }
  }

  lemma PictureLeft(pic: Picture, px: Pixels3)
    requires PicOk(pic) && SameRaster(pic.px, px)
    ensures PicOk(pic.(px := px))
  {
    hide Shaped;
  }

  lemma HostPictureLeft(pic: HostPicture, px: Pixels3)
    requires HostPicOk(pic) && SameRaster(pic.px, px)
    ensures HostPicOk(pic.(px := px))
  {
    hide Shaped;
  }

  lemma SurfaceIsArg(s: State, args: seq<Arg>, h: nat)
    requires IsSurface(Bindings(s, args), h)
    ensures Mem(h, true) in args || Unseen(h) in args
  {
    var i :| 0 <= i < |args| && Bindings(s, args)[i] == Surface(h);
    assert args[i] == Mem(h, true) || args[i] == Unseen(h);
  }

  // ----- the user's objects -----

  /** The linear objects a launch can have to do with: all with canaries, and the arguments without. */
  function Touched(w: World, args: seq<Arg>): set<Name> {
    w.dev.lin.Keys + set h | h in w.host && Replaces(w, args, h) :: Buffer(h)
  }

  /** All images. */
  function Pictures(w: World): set<nat> { w.dev.imgs.Keys + w.dev.unseen.Keys }

  /** The first pixels in every direction. */
  function Corner(px: Pixels3, m: Dims, ds: nat, n: Dims): (c: Pixels3)
    requires Shaped(px, m, ds) && n.iLim <= m.iLim && n.jLim <= m.jLim && n.kLim <= m.kLim
    ensures Shaped(c, n, ds)
    ensures forall p: Pixel | InImage(n, p) :: PixelIn(c, p) == At(px, m, ds, p)
  {
    seq(n.kLim, z requires 0 <= z < n.kLim && Shaped(px, m, ds) && n.jLim <= m.jLim && n.iLim <= m.iLim && n.kLim <= m.kLim =>
      seq(n.jLim, y requires 0 <= y < n.jLim && 0 <= z < m.kLim && Shaped(px, m, ds) && n.iLim <= m.iLim && n.jLim <= m.jLim =>
        px[z][y][..n.iLim]))
  }

  /** The pixels of the user's extent. */
  function UserPixels(pic: Picture): (px: Pixels3)
    requires PicOk(pic)
    ensures Shaped(px, UserDims(pic.desc), pic.ds)
    ensures forall p: Pixel | InImage(UserDims(pic.desc), p) ::
              InImage(PicDims(pic.desc), p) && PixelIn(px, p) == At(pic.px, PicDims(pic.desc), pic.ds, p)
  {
    ExpandedDims(IMAGE_PAD, pic.desc);
    Corner(pic.px, PicDims(pic.desc), pic.ds, UserDims(pic.desc))
  }

  ghost predicate Holds(w: World, n: Name) {
    if n in w.dev.lin then InMemory(w.dev.lin[n], |w.dev.mem|)
    else n.Buffer? && n.handle in w.host && w.host[n.handle].start + w.host[n.handle].size <= |w.dev.mem|
  }

  ghost predicate HoldsPicture(w: World, h: nat) {
    if h in w.dev.imgs then PicOk(w.dev.imgs[h]) else h in w.dev.unseen && HostPicOk(w.dev.unseen[h])
  }

  /** What an object holds for its user. */
  ghost function ContentOf(w: World, n: Name): seq<byte> {
    if !Holds(w, n) then []
    else if n in w.dev.lin then UserBytes(w.dev.mem, w.dev.lin[n])
    else HostBytes(w.dev.mem, w.host[n.handle])
  }

  ghost function PixelsOf(w: World, h: nat): Pixels3 {
    if !HoldsPicture(w, h) then [] else if h in w.dev.imgs then UserPixels(w.dev.imgs[h]) else w.dev.unseen[h].px
  }

  ghost predicate Sound(w: World, args: seq<Arg>) {
    && (forall n | n in Touched(w, args) :: Holds(w, n))
    && (forall h | h in Pictures(w) :: HoldsPicture(w, h))
  }

  lemma WorldSound(w: World, args: seq<Arg>)
    requires WorldInv(w)
    ensures Sound(w, args)
  {
    hide PicOk, HostPicOk, LinClean, PicClean, Apart;
  }

  /** What the user's objects hold. */
  ghost function Contents(w: World, args: seq<Arg>): (s: Ideal)
    ensures s.contents.Keys == Touched(w, args) && s.pics.Keys == Pictures(w) && s.hist == map[]
    ensures forall n | n in s.contents :: s.contents[n] == ContentOf(w, n)
    ensures forall h | h in s.pics :: s.pics[h] == PixelsOf(w, h)
  {
    Ideal(map n | n in Touched(w, args) :: ContentOf(w, n), map h | h in Pictures(w) :: PixelsOf(w, h), map[])
  }

  // ----- where the stage puts them -----

  function NewName(w: World, plan: Plan, n: Name): Name {
    if n.Buffer? && n.handle in w.host && n.handle in plan.bufs then Buffer(plan.bufs[n.handle].handle) else n
  }

  function ObjOf(buf: Buf): Obj { Obj(buf.base + POISON_FILL_LENGTH, buf.size, POISON_FILL_LENGTH) }

  function StageObj(w: World, plan: Plan, u: State, n: Name): Obj {
    if NewName(w, plan, n) in u.lin then ObjOf(u.lin[NewName(w, plan, n)]) else Obj(0, 0, 0)
  }

  function StageLayout(w: World, args: seq<Arg>, plan: Plan, u: State): (l: Layout)
    ensures l.at.Keys == Touched(w, args) && l.surf == Pictures(w)
    ensures forall n | n in l.at :: l.at[n] == StageObj(w, plan, u, n)
  {
    Layout(map n | n in Touched(w, args) :: StageObj(w, plan, u, n), Pictures(w))
  }

  lemma NameStaged(w: World, args: seq<Arg>, plan: Plan, u: State, n: Name)
    requires HandlesDistinct(w) && Stages(w, args, plan, u) && n in Touched(w, args)
    ensures NewName(w, plan, n) in u.lin
    ensures n in w.dev.lin ==> NewName(w, plan, n) == n && u.lin[n] == w.dev.lin[n]
    ensures n !in w.dev.lin ==>
              n.Buffer? && Replaces(w, args, n.handle) && BufCloned(w, plan, n.handle, u)
              && u.lin[NewName(w, plan, n)] == CloneBuf(w, plan, n.handle)
  {
    if n !in w.dev.lin { assert Replaces(w, args, n.handle) && BufCloned(w, plan, n.handle, u); }
  }

  lemma NewNamesDiffer(w: World, args: seq<Arg>, plan: Plan, n: Name, k: Name)
    requires HandlesDistinct(w) && RoomFor(w, args, plan) && n in Touched(w, args) && k in Touched(w, args) && n != k
    ensures NewName(w, plan, n) != NewName(w, plan, k)
  {
    if n !in w.dev.lin { assert BufRoom(w, args, plan, n.handle); }
    if k !in w.dev.lin { assert BufRoom(w, args, plan, k.handle); }
  }

  lemma ApartWindows(x: Buf, y: Buf)
    requires Apart(x, y)
    ensures WindowsApart(ObjOf(x), ObjOf(y))
  {
  }

  lemma ApartIn(u: State, n: Name, k: Name)
    requires Valid(u) && n in u.lin && k in u.lin && n != k
    ensures Apart(u.lin[n], u.lin[k])
  {
  }

  lemma StageObjPlaced(w: World, args: seq<Arg>, plan: Plan, u: State, n: Name)
    requires HandlesDistinct(w) && Stages(w, args, plan, u) && Valid(u) && n in Touched(w, args)
    ensures NewName(w, plan, n) in u.lin && InMemory(u.lin[NewName(w, plan, n)], |u.mem|)
    ensures StageObj(w, plan, u, n) == ObjOf(u.lin[NewName(w, plan, n)])
  {
    NameStaged(w, args, plan, u, n);
    hide HandlesDistinct, Stages, NewName, Touched, PicOk;
  }

  lemma StageObjsApart(w: World, args: seq<Arg>, plan: Plan, u: State, n: Name, k: Name)
    requires HandlesDistinct(w) && RoomFor(w, args, plan) && Stages(w, args, plan, u) && Valid(u)
    requires n in Touched(w, args) && k in Touched(w, args) && n != k
    ensures WindowsApart(StageObj(w, plan, u, n), StageObj(w, plan, u, k))
  {
    hide HandlesDistinct, Stages, NewName, Touched, Valid, RoomFor, StageObj, WindowsApart, Apart;
    StageObjPlaced(w, args, plan, u, n);
    StageObjPlaced(w, args, plan, u, k);
    NewNamesDiffer(w, args, plan, n, k);
    ApartIn(u, NewName(w, plan, n), NewName(w, plan, k));
    ApartWindows(u.lin[NewName(w, plan, n)], u.lin[NewName(w, plan, k)]);
  }

  lemma StageLaidOut(w: World, args: seq<Arg>, plan: Plan, u: State)
    requires HandlesDistinct(w) && RoomFor(w, args, plan) && Stages(w, args, plan, u) && Valid(u)
    ensures LaidOut(StageLayout(w, args, plan, u), |u.mem|)
  {
    hide HandlesDistinct, RoomFor, Stages, Valid, WindowsApart, NewName, Touched, StageObj;
    var l := StageLayout(w, args, plan, u);
    forall n | n in l.at
      ensures l.at[n].slack <= l.at[n].base && l.at[n].base + l.at[n].size + l.at[n].slack <= |u.mem|
    {
      StageObjPlaced(w, args, plan, u, n);
    }
    forall n, k | n in l.at && k in l.at && n != k ensures WindowsApart(l.at[n], l.at[k]) {
      StageObjsApart(w, args, plan, u, n, k);
    }
  }

  lemma OldBytesStaged(w: World, args: seq<Arg>, plan: Plan, u: State, n: Name)
    requires RoomFor(w, args, plan) && Stages(w, args, plan, u) && n in w.dev.lin && InMemory(w.dev.lin[n], |w.dev.mem|)
    ensures |u.mem| == |w.dev.mem| && UserBytes(u.mem, w.dev.lin[n]) == UserBytes(w.dev.mem, w.dev.lin[n])
  {
    assert forall a | 0 <= a < |u.mem| && !InCloneStorage(w, args, plan, a) :: u.mem[a] == w.dev.mem[a];
    assert |u.mem| == |w.dev.mem|;
    hide RoomFor, InCloneStorage, Stages;
    forall a: nat | InUserBytes(w.dev.lin[n], a) ensures u.mem[a] == w.dev.mem[a] {
      OldStorageNotCloned(w, args, plan, n, a);
    }
  }

  lemma BytesStaged(w: World, args: seq<Arg>, plan: Plan, u: State, n: Name)
    requires HandlesDistinct(w) && RoomFor(w, args, plan) && Stages(w, args, plan, u) && n in Touched(w, args)
      && Holds(w, n)
    ensures NewName(w, plan, n) in u.lin && InMemory(u.lin[NewName(w, plan, n)], |u.mem|)
    ensures UserBytes(u.mem, u.lin[NewName(w, plan, n)]) == ContentOf(w, n)
  {
    NameStaged(w, args, plan, u, n);
    hide HandlesDistinct, RoomFor, Stages, UserBytes, HostBytes, LinClean, Touched;
    if n in w.dev.lin { OldBytesStaged(w, args, plan, u, n); }
  }

  lemma UserBytesHold(buf: Buf, mem: seq<byte>)
    requires InMemory(buf, |mem|)
    ensures HoldsAt(ObjOf(buf), UserBytes(mem, buf), mem)
  {
  }

  lemma HeldBytes(buf: Buf, mem: seq<byte>, content: seq<byte>)
    requires InMemory(buf, |mem|) && HoldsAt(ObjOf(buf), content, mem)
    ensures UserBytes(mem, buf) == content
  {
  }

  lemma PictureShown(w: World, h: nat)
    requires HoldsPicture(w, h)
    ensures h in Device(w.dev).rasters && Shows(Device(w.dev).rasters[h], PixelsOf(w, h))
  {
    hide Shows, UserPixels, PicOk, HostPicOk;
    if h in w.dev.imgs { UserPixelsShown(w.dev.imgs[h]); } else { ItselfShown(w.dev.unseen[h].px); }
  }

  lemma ItselfShown(px: Pixels3)
    ensures Shows(px, px)
  {
  }

  lemma CoversShaped(px: Pixels3, m: Dims, ds: nat, p: Pixel)
    requires Shaped(px, m, ds)
    ensures Covers(px, p) <==> InImage(m, p)
    ensures InImage(m, p) ==> PixelIn(px, p) == At(px, m, ds, p)
  {
  }

  lemma UserPixelsShown(pic: Picture)
    requires PicOk(pic)
    ensures Shows(pic.px, UserPixels(pic))
  {
    var px := UserPixels(pic);
    forall p: Pixel | Covers(px, p) ensures Covers(pic.px, p) && PixelIn(pic.px, p) == PixelIn(px, p) {
      CoversShaped(px, UserDims(pic.desc), pic.ds, p);
      CoversShaped(pic.px, PicDims(pic.desc), pic.ds, p);
    }
    hide Shaped, UserPixels, Covers;
  }

  lemma ObjStaged(w: World, args: seq<Arg>, plan: Plan, u: State, n: Name)
    requires HandlesDistinct(w) && RoomFor(w, args, plan) && Stages(w, args, plan, u) && n in Touched(w, args)
      && Holds(w, n)
    ensures HoldsAt(StageObj(w, plan, u, n), ContentOf(w, n), u.mem)
  {
    hide HandlesDistinct, RoomFor, Stages, ContentOf, NewName, Touched, HoldsAt, UserBytes, Holds;
    BytesStaged(w, args, plan, u, n);
    UserBytesHold(u.lin[NewName(w, plan, n)], u.mem);
  }

  /** Before the kernel runs, the stage holds what the user's objects hold. */
  lemma StageAgrees(w: World, args: seq<Arg>, plan: Plan, u: State)
    requires HandlesDistinct(w) && Sound(w, args) && RoomFor(w, args, plan) && Stages(w, args, plan, u)
    ensures Agree(StageLayout(w, args, plan, u), Contents(w, args), Device(u))
  {
    assert u.imgs == w.dev.imgs && u.unseen == w.dev.unseen;
    hide HandlesDistinct, RoomFor, Stages, HoldsAt, Shows, ContentOf, PixelsOf, StageObj, Touched, Holds,
         HoldsPicture;
    forall n | n in Touched(w, args) ensures HoldsAt(StageObj(w, plan, u, n), ContentOf(w, n), u.mem) {
      ObjStaged(w, args, plan, u, n);
    }
    forall h | h in Pictures(w)
      ensures h in Device(u).rasters && Shows(Device(u).rasters[h], PixelsOf(w, h))
    {
      PictureShown(w, h);
    }
  }

  /** SVM pointers among the arguments are the user's allocations. */
  ghost predicate SvmLive(w: World, args: seq<Arg>) {
    forall h, off | Svm(h, off) in args :: Pointer(h) in w.dev.lin && SvmObject(h, false) in w.dev.svms
  }

  /** No pointer into an SVM allocation loses its offset: it has none, or the kernel is not duplicated. */
  ghost predicate PointersKept(w: World, args: seq<Arg>) {
    forall h, off | Svm(h, off) in args :: off == 0 || !Duplicates(w, args)
  }

  /** The kernel that runs finds its objects where the user's arguments point if and only if no pointer
      loses its offset. */
  lemma StageBindings(w: World, args: seq<Arg>, plan: Plan, u: State)
    requires HandlesDistinct(w) && ArgsLive(w, args) && SvmLive(w, args) && RoomFor(w, args, plan)
      && Stages(w, args, plan, u)
    ensures BindingsOk(StageLayout(w, args, plan, u), args, Bindings(u, NewArgs(w, plan, args)))
       <==> PointersKept(w, args)
  {
    var l, binds := StageLayout(w, args, plan, u), Bindings(u, NewArgs(w, plan, args));
    assert plan.duplicated <==> Duplicates(w, args);
    hide HandlesDistinct, ArgsLive, SvmLive, Stages, RoomFor, BindingOk, BindingOf, NewArg, StageLayout, Duplicates;
    forall i | 0 <= i < |args|
      ensures BindingOk(l, args[i], binds[i]) <==> (args[i].Svm? && args[i].offset != 0 ==> !plan.duplicated)
    {
      StageBinding(w, args, plan, u, args[i]);
    }
    if PointersKept(w, args) {
      forall i | 0 <= i < |args| ensures args[i].Svm? && args[i].offset != 0 ==> !plan.duplicated {
        if args[i].Svm? { assert Svm(args[i].handle, args[i].offset) in args; }
      }
    }
    if BindingsOk(l, args, binds) {
      forall h, off | Svm(h, off) in args ensures off == 0 || !Duplicates(w, args) {
        var i :| 0 <= i < |args| && args[i] == Svm(h, off);
      }
    }
  }

  /** One argument: a pointer into an SVM allocation is the one kind that can go wrong. */
  lemma StageBinding(w: World, args: seq<Arg>, plan: Plan, u: State, a: Arg)
    requires HandlesDistinct(w) && ArgsLive(w, args) && SvmLive(w, args) && Stages(w, args, plan, u) && a in args
    ensures BindingOk(StageLayout(w, args, plan, u), a, BindingOf(u, NewArg(w, plan, a)))
       <==> (a.Svm? && a.offset != 0 ==> !plan.duplicated)
  {
    hide Stages, Touched, HandlesDistinct, ArgsLive, SvmLive, StageObj, NewName, Pictures;
    if IsLinear(a) { LinearStaged(w, args, plan, u, a); } else { ImagePictured(w, args, a); }
  }

  lemma ImagePictured(w: World, args: seq<Arg>, a: Arg)
    requires ArgsLive(w, args) && a in args
    ensures IsImage(a) ==> a.handle in Pictures(w)
  {
  }

  /** A pointer argument, and what stands in for it. */
  lemma LinearStaged(w: World, args: seq<Arg>, plan: Plan, u: State, a: Arg)
    requires HandlesDistinct(w) && ArgsLive(w, args) && SvmLive(w, args) && Stages(w, args, plan, u) && a in args
      && IsLinear(a)
    ensures NameOf(a) in Touched(w, args) && NewName(w, plan, NameOf(a)) in u.lin
    ensures IsLinear(NewArg(w, plan, a)) && NameOf(NewArg(w, plan, a)) == NewName(w, plan, NameOf(a))
    ensures StageObj(w, plan, u, NameOf(a)) == ObjOf(u.lin[NewName(w, plan, NameOf(a))])
  {
    assert NameOf(a) in Touched(w, args);
    hide Stages;
    NameStaged(w, args, plan, u, NameOf(a));
    hide HandlesDistinct, ArgsLive, SvmLive;
  }

  lemma StageKindsApart(w: World, args: seq<Arg>, plan: Plan, u: State)
    requires HandlesDistinct(w) && ArgsLive(w, args) && Stages(w, args, plan, u)
    ensures KindsApart(u, NewArgs(w, plan, args))
  {
    forall h
      ensures Mem(h, true) in NewArgs(w, plan, args) <==> Mem(h, true) in args
      ensures Unseen(h) in NewArgs(w, plan, args) <==> Unseen(h) in args
    {
      ImageArgsKept(w, args, plan, h);
    }
    hide NewArgs, BufCloned;
  }

  lemma LinearReached(w: World, args: seq<Arg>, plan: Plan, u: State, a: Arg)
    requires SvmLive(w, args) && u.svms == w.dev.svms && a in args && IsLinear(a) && IsLinear(NewArg(w, plan, a))
    ensures Reaches(u, NewArgs(w, plan, args), NameOf(NewArg(w, plan, a)))
  {
    NewArgAt(w, plan, args, a);
    if a.Svm? {
      AnySvmKept(w, plan, args);
      assert SvmObject(a.handle, false) in u.svms;
      var i :| 0 <= i < |args| && args[i] == a;
      assert AnySvm(args, |args|);
    }
  }

  /** The windows of the arguments are storage the launch reaches. */
  lemma ArgWindowReached(w: World, args: seq<Arg>, plan: Plan, u: State, a: nat)
    requires HandlesDistinct(w) && ArgsLive(w, args) && SvmLive(w, args) && Stages(w, args, plan, u)
    requires InArgWindow(StageLayout(w, args, plan, u), args, a)
    ensures Reachable(u, NewArgs(w, plan, args), a)
  {
    var l := StageLayout(w, args, plan, u);
    assert u.svms == w.dev.svms;
    hide HandlesDistinct, ArgsLive, SvmLive, Stages, NewName, StageObj, NewArg, Touched, Reaches, Reachable;
    var i :| 0 <= i < |args| && IsLinear(args[i]) && NameOf(args[i]) in l.at && InWindow(l.at[NameOf(args[i])], a);
    hide InArgWindow;
    LinearStaged(w, args, plan, u, args[i]);
    LinearReached(w, args, plan, u, args[i]);
    StorageReached(u, NewArgs(w, plan, args), NewName(w, plan, NameOf(args[i])), a);
  }

  lemma StorageReached(s: State, args: seq<Arg>, n: Name, a: nat)
    requires n in s.lin && Reaches(s, args, n) && InStorage(s.lin[n], a)
    ensures Reachable(s, args, a)
  {
  }

  /** A run that reads in range and keeps its stores within the canaries stays inside. */
  ghost function CanarySlack(w: World, args: seq<Arg>): (s: map<Name, nat>)
    ensures s.Keys == Touched(w, args) && forall n | n in s :: s[n] == POISON_FILL_LENGTH
  {
    map n | n in Touched(w, args) :: POISON_FILL_LENGTH
  }

  lemma StageSlack(w: World, args: seq<Arg>, plan: Plan, u: State)
    requires HandlesDistinct(w) && Stages(w, args, plan, u)
    ensures Slacks(StageLayout(w, args, plan, u).at) == CanarySlack(w, args)
  {
    forall n | n in Touched(w, args) ensures StageObj(w, plan, u, n).slack == POISON_FILL_LENGTH {
      NameStaged(w, args, plan, u, n);
    }
    hide HandlesDistinct, Stages, Touched, NewName;
  }

  lemma StageReady(w: World, args: seq<Arg>, plan: Plan, u: State)
    requires WorldInv(w) && ArgsLive(w, args) && SvmLive(w, args) && PointersKept(w, args) && RoomFor(w, args, plan)
      && Stages(w, args, plan, u)
    ensures var l := StageLayout(w, args, plan, u);
      && LaidOut(l, |u.mem|) && BindingsOk(l, args, Bindings(u, NewArgs(w, plan, args)))
      && Agree(l, Contents(w, args), Device(u)) && Slacks(l.at) == CanarySlack(w, args)
  {
    StagesKeeps(w, args, plan, u);
    WorldSound(w, args);
    assert HandlesDistinct(w) && Valid(u);
    hide WorldInv, Inv, HandlesDistinct, Valid, Sound, ArgsLive, SvmLive, PointersKept, RoomFor, Stages, LaidOut,
         BindingsOk, Agree, StageLayout;
    StageLaidOut(w, args, plan, u);
    StageAgrees(w, args, plan, u);
    StageBindings(w, args, plan, u);
    StageSlack(w, args, plan, u);
  }

  lemma StageReach(w: World, args: seq<Arg>, plan: Plan, u: State)
    requires HandlesDistinct(w) && ArgsLive(w, args) && SvmLive(w, args) && Stages(w, args, plan, u)
    ensures forall a | a in ArgWindows(StageLayout(w, args, plan, u), args) && 0 <= a ::
              a in Reach(u, NewArgs(w, plan, args))
  {
    hide HandlesDistinct, ArgsLive, SvmLive, Stages, InArgWindow, Reachable, StageLayout;
    forall a | a in ArgWindows(StageLayout(w, args, plan, u), args) && 0 <= a
      ensures a in Reach(u, NewArgs(w, plan, args))
    {
      ArgWindowReached(w, args, plan, u, a);
    }
  }

  /** The stage as the device runs on it: the meaning holds at the end, and no store strays. */
  lemma StageRun(k: Kernel, w: World, args: seq<Arg>, plan: Plan, u: State, sched: seq<nat>)
    requires WorldInv(w) && ArgsLive(w, args) && SvmLive(w, args) && PointersKept(w, args) && RoomFor(w, args, plan)
    requires Stages(w, args, plan, u) && GoodRun(k, args, Contents(w, args), sched, CanarySlack(w, args))
    ensures StaysInside(k, u, NewArgs(w, plan, args), sched)
    ensures Agree(StageLayout(w, args, plan, u), IdealRun(k, args, Contents(w, args), sched),
                  FlatRun(k, Bindings(u, NewArgs(w, plan, args)), Device(u), sched))
  {
    assert HandlesDistinct(w);
    hide WorldInv, HandlesDistinct, ArgsLive, SvmLive, PointersKept, RoomFor, Stages, LaidOut, BindingsOk, Agree,
         GoodRun, IdealRun, FlatRun, Confined, StageLayout, ArgWindows, Reach;
    StageReady(w, args, plan, u);
    StageReach(w, args, plan, u);
    var l, newArgs := StageLayout(w, args, plan, u), NewArgs(w, plan, args);
    DeviceRun(k, l, args, Bindings(u, newArgs), Contents(w, args), Device(u), sched);
    ConfinedMore(k, Bindings(u, newArgs), Device(u), sched, ArgWindows(l, args), Reach(u, newArgs));
  }

  // ----- what the user's objects hold after the launch -----

  /** A run keeps the objects there are, and the shape of every image. */
  ghost predicate SameShapes(before: Ideal, after: Ideal) {
    && after.contents.Keys == before.contents.Keys && after.pics.Keys == before.pics.Keys
    && forall h | h in before.pics :: SameRaster(before.pics[h], after.pics[h])
  }

  lemma StepKeepsShapes(k: Kernel, args: seq<Arg>, s: Ideal, t: nat)
    ensures SameShapes(s, IdealStep(k, args, s, t))
  {
    match k(t, Heard(s.hist, t)) {
      case Paint(i, p, v) =>
        if KnownPic(args, s.pics, i) {
          var px := s.pics[args[i].handle];
          forall m: Dims, ds: nat | Shaped(px, m, ds)
            ensures Shaped(Painted(px, p, v), m, ds)
          {
            PaintedShape(px, p, v, m, ds);
          }
        }
      case _ =>
    }
    hide Shaped, Painted;
  }

  lemma {:induction false} RunKeepsShapes(k: Kernel, args: seq<Arg>, s: Ideal, sched: seq<nat>)
    ensures SameShapes(s, IdealRun(k, args, s, sched))
    decreases |sched|
  {
    hide Shaped, IdealStep;
    if sched != [] {
      StepKeepsShapes(k, args, s, sched[0]);
      RunKeepsShapes(k, args, IdealStep(k, args, s, sched[0]), sched[1..]);
    }
  }

  lemma ShownIsUser(pic: Picture, px: Pixels3)
    requires PicOk(pic) && Shaped(px, UserDims(pic.desc), pic.ds) && Shows(pic.px, px)
    ensures UserPixels(pic) == px
  {
    var u, m := UserPixels(pic), UserDims(pic.desc);
    forall x: nat, y: nat, z: nat | x < m.iLim && y < m.jLim && z < m.kLim ensures u[z][y][x] == px[z][y][x] {
      var p := Pixel(x, y, z);
      CoversShaped(px, m, pic.ds, p);
      CoversShaped(pic.px, PicDims(pic.desc), pic.ds, p);
      assert InImage(m, p) && PixelIn(u, p) == At(pic.px, PicDims(pic.desc), pic.ds, p);
    }
    SamePixels(u, px, m, pic.ds);
  }

  lemma SamePixels(a: Pixels3, b: Pixels3, m: Dims, ds: nat)
    requires Shaped(a, m, ds) && Shaped(b, m, ds)
    requires forall x: nat, y: nat, z: nat | x < m.iLim && y < m.jLim && z < m.kLim :: a[z][y][x] == b[z][y][x]
    ensures a == b
  {
    forall z, y | 0 <= z < m.kLim && 0 <= y < m.jLim ensures a[z][y] == b[z][y] { }
    forall z | 0 <= z < m.kLim ensures a[z] == b[z] { }
  }

  /** Check and mend leave the user's pixels of an image as the kernel left them. */
  lemma CheckKeepsUserPixels(ran: State, args: seq<Arg>, checked: State, r: Reports, h: nat)
    requires Verified(ran, args, checked, r) && h in ran.imgs
    ensures h in checked.imgs && PicOk(ran.imgs[h]) && PicOk(checked.imgs[h])
      && checked.imgs[h].desc == ran.imgs[h].desc
    ensures UserPixels(checked.imgs[h]) == UserPixels(ran.imgs[h])
  {
    assert PicOk(ran.imgs[h]) && PicOk(checked.imgs[h]);
    if Mem(h, true) in args {
      assert h in r.imgs && ImageChecked(ran.imgs[h], checked.imgs[h], r.imgs[h]);
      hide Verified, Valid, PicOk, UserPixels, ImageChecked;
      assert Mended3(ran.imgs[h], checked.imgs[h]) by { assert ImageChecked(ran.imgs[h], checked.imgs[h], r.imgs[h]); }
      MendedUserPixels(ran.imgs[h], checked.imgs[h]);
    } else {
      assert checked.imgs[h] == ran.imgs[h];
    }
  }

  lemma MendedUserPixels(before: Picture, after: Picture)
    requires PicOk(before) && PicOk(after) && Mended3(before, after)
    ensures after.desc == before.desc && UserPixels(after) == UserPixels(before)
  {
    var m := UserDims(before.desc);
    UserExtentInside(before.desc);
    forall x: nat, y: nat, z: nat | x < m.iLim && y < m.jLim && z < m.kLim
      ensures UserPixels(after)[z][y][x] == UserPixels(before)[z][y][x]
    {
      var p := Pixel(x, y, z);
      assert InImage(m, p) && !IsCanary(PicDims(before.desc), p);
      assert PixelIn(UserPixels(after), p) == PixelIn(UserPixels(before), p);
    }
    SamePixels(UserPixels(after), UserPixels(before), m, before.ds);
    hide Shaped, At;
  }
}
