/** What a launch on clones leaves in the user's objects, and what the same kernel would have left
    running on those objects directly. */
module LaunchMeaning {
  import opened Canary
  import opened LinearBuffers
  import opened ImageGeometry
  import opened KernelArgs
  import opened RunModel
  import opened KernelRuns
  import opened Staging
  import opened StagedRuns

  // ----- bytes -----

  lemma OldBytesReturn(w: World, args: seq<Arg>, plan: Plan, v: State, t: World, n: Name)
    requires WorldInv(w) && PutsBack(w, args, plan, v, t) && n in w.dev.lin && InMemory(w.dev.lin[n], |v.mem|)
    ensures |t.dev.mem| == |v.mem| && UserBytes(t.dev.mem, w.dev.lin[n]) == UserBytes(v.mem, w.dev.lin[n])
  {
    assert |t.dev.mem| == |v.mem|;
    assert forall a | 0 <= a < |v.mem| && !InReplaced(w, args, a) :: t.dev.mem[a] == v.mem[a];
    hide WorldInv, PutsBack, InReplaced;
    forall a: nat | InUserBytes(w.dev.lin[n], a) ensures t.dev.mem[a] == v.mem[a] {
      OldStorageNotReplaced(w, args, n, a);
    }
  }

  /** Every object holds, after the launch, what the kernel left where the launch staged it. */
  lemma BytesReturn(w: World, args: seq<Arg>, plan: Plan, u: State, ran: State, checked: State, t: World,
      r: Reports, n: Name)
    requires WorldInv(w) && Launches(w, args, plan, u, ran, checked, t, r) && n in Touched(w, args)
    ensures NewName(w, plan, n) in u.lin && InMemory(u.lin[NewName(w, plan, n)], |ran.mem|) && Holds(t, n)
    ensures ContentOf(t, n) == UserBytes(ran.mem, u.lin[NewName(w, plan, n)])
  {
    var newArgs, m := NewArgs(w, plan, args), NewName(w, plan, n);
    assert HandlesDistinct(w) && Stages(w, args, plan, u) && KernelRan(u, newArgs, ran)
      && Verified(ran, newArgs, checked, r);
    assert PutsBack(w, args, plan, checked, t) && t.dev.lin == w.dev.lin && t.host == w.host;
    NameStaged(w, args, plan, u, n);
    hide WorldInv, HandlesDistinct, Launches, Stages, KernelRan, Verified, PutsBack, Touched, NewName, UserBytes,
         HostBytes, BufCloned;
    CheckKeepsUserBytes(u, newArgs, ran, checked, r, m);
    if n in w.dev.lin {
      OldBytesReturn(w, args, plan, checked, t, n);
    } else {
      HostBytesReturn(w, args, plan, u, ran, checked, t, r, n.handle);
    }
  }

  // ----- pixels -----

  lemma PixelsReturn(w: World, args: seq<Arg>, plan: Plan, u: State, ran: State, checked: State, t: World,
      r: Reports, h: nat)
    requires WorldInv(w) && Launches(w, args, plan, u, ran, checked, t, r) && h in w.dev.imgs
    ensures h in ran.imgs && PicOk(ran.imgs[h]) && HoldsPicture(t, h)
    ensures PixelsOf(t, h) == UserPixels(ran.imgs[h])
  {
    hide WorldInv, RoomFor, ArgsLive, BuffersBack, UserPixels, PicOk, Verified, Reachable;
    assert u.imgs == w.dev.imgs && ran.imgs.Keys == u.imgs.Keys && t.dev.imgs == checked.imgs;
    CheckKeepsUserPixels(ran, NewArgs(w, plan, args), checked, r, h);
  }

  // ----- the meaning -----

  lemma SameTouched(w: World, args: seq<Arg>, t: World)
    requires t.dev.lin.Keys == w.dev.lin.Keys && t.host.Keys == w.host.Keys
    requires t.dev.imgs.Keys == w.dev.imgs.Keys && t.dev.unseen.Keys == w.dev.unseen.Keys
    ensures Touched(t, args) == Touched(w, args) && Pictures(t) == Pictures(w)
  {
  }

  lemma KernelLeft(k: Kernel, u: State, newArgs: seq<Arg>, sched: seq<nat>)
    ensures LeftBy(u, FlatRun(k, Bindings(u, newArgs), Device(u), sched), KernelLeaves(k, u, newArgs, sched))
  {
    hide FlatRun;
  }

  lemma ObjectMeans(w: World, args: seq<Arg>, plan: Plan, u: State, s: Ideal, f: Flat, n: Name)
    requires HandlesDistinct(w) && Stages(w, args, plan, u) && Agree(StageLayout(w, args, plan, u), s, f)
      && n in Touched(w, args)
    requires NewName(w, plan, n) in u.lin && InMemory(u.lin[NewName(w, plan, n)], |f.mem|)
    ensures n in s.contents && s.contents[n] == UserBytes(f.mem, u.lin[NewName(w, plan, n)])
  {
    var l := StageLayout(w, args, plan, u);
    assert n in l.at && HoldsAt(l.at[n], s.contents[n], f.mem);
    hide HandlesDistinct, Stages, HoldsAt, NewName, Touched, Agree, UserBytes;
    HeldBytes(u.lin[NewName(w, plan, n)], f.mem, s.contents[n]);
  }

  /** An image with canary: the kernel left the raster f has for it. */
  lemma PictureMeans(before: Picture, after: Picture, px: Pixels3)
    requires PicOk(before) && PicOk(after) && after.desc == before.desc && after.ds == before.ds
      && SameRaster(UserPixels(before), px) && Shows(after.px, px)
    ensures px == UserPixels(after)
  {
    assert Shaped(px, UserDims(before.desc), before.ds);
    hide PicOk, Shaped, SameRaster, Shows;
    ShownIsUser(after, px);
  }

  /** ... and one without. */
  lemma HostPictureMeans(before: HostPicture, after: HostPicture, px: Pixels3)
    requires HostPicOk(before) && HostPicOk(after) && after.desc == before.desc && after.ds == before.ds
      && SameRaster(before.px, px) && Shows(after.px, px)
    ensures px == after.px
  {
    assert Shaped(after.px, UserDims(before.desc), before.ds) && Shaped(px, UserDims(before.desc), before.ds);
    hide Shaped, SameRaster, Shows;
    SameShape(after.px, px, UserDims(before.desc), before.ds);
  }

  /** The launch ran kernel k, its items acting in the order of the schedule. */
  ghost predicate LaunchedKernel(k: Kernel, sched: seq<nat>, w: World, args: seq<Arg>, plan: Plan, u: State,
      checked: State, t: World, r: Reports)
  {
    Launches(w, args, plan, u, KernelLeaves(k, u, NewArgs(w, plan, args), sched), checked, t, r)
  }

  /** The kernel reads in range and keeps its stores within the canaries; what it means by a pointer into
      an SVM allocation is what it gets. */
  ghost predicate Behaves(k: Kernel, sched: seq<nat>, w: World, args: seq<Arg>) {
    && SvmLive(w, args) && PointersKept(w, args)
    && GoodRun(k, args, Contents(w, args), sched, CanarySlack(w, args))
  }

  /** Such a kernel stays inside on every stage. */
  lemma BehavedStaysInside(k: Kernel, sched: seq<nat>, w: World, args: seq<Arg>, plan: Plan)
    requires WorldInv(w) && ArgsLive(w, args) && RoomFor(w, args, plan) && Behaves(k, sched, w, args)
    ensures forall u | Stages(w, args, plan, u) :: StaysInside(k, u, NewArgs(w, plan, args), sched)
  {
    hide WorldInv, ArgsLive, RoomFor, Stages, SvmLive, PointersKept, StaysInside, NewArgs, Contents, CanarySlack,
         GoodRun, Agree, StageLayout, IdealRun, FlatRun;
    forall u | Stages(w, args, plan, u) ensures StaysInside(k, u, NewArgs(w, plan, args), sched) {
      StageRun(k, w, args, plan, u, sched);
    }
  }

  lemma LaunchParts(w: World, args: seq<Arg>, plan: Plan, u: State, ran: State, checked: State, t: World, r: Reports)
    requires WorldInv(w) && Launches(w, args, plan, u, ran, checked, t, r)
    ensures HandlesDistinct(w) && ArgsLive(w, args) && RoomFor(w, args, plan) && Stages(w, args, plan, u)
    ensures Touched(t, args) == Touched(w, args) && Pictures(t) == Pictures(w)
  {
    hide RoomFor, ArgsLive, HandlesDistinct, Touched, Pictures, Verified, BuffersBack, Inv, Reachable;
    assert ran.imgs.Keys == w.dev.imgs.Keys && ran.unseen.Keys == w.dev.unseen.Keys;
    CheckKeepsTables(ran, NewArgs(w, plan, args), checked, r);
    SameTouched(w, args, t);
  }

  lemma CheckKeepsTables(ran: State, args: seq<Arg>, checked: State, r: Reports)
    requires Verified(ran, args, checked, r)
    ensures checked.imgs.Keys == ran.imgs.Keys && checked.unseen == ran.unseen
  {
  }

  /** ran is what the kernel's run f leaves of the stage. */
  ghost predicate LeftBy(u: State, f: Flat, ran: State) {
    && ran.mem == f.mem && ran.imgs.Keys == u.imgs.Keys && ran.unseen.Keys == u.unseen.Keys
    && (forall h | h in u.imgs ::
          ran.imgs[h].desc == u.imgs[h].desc && ran.imgs[h].ds == u.imgs[h].ds
          && (h in f.rasters ==> ran.imgs[h].px == f.rasters[h]))
    && (forall h | h in u.unseen ::
          ran.unseen[h].desc == u.unseen[h].desc && ran.unseen[h].ds == u.unseen[h].ds
          && (h in f.rasters && h !in u.imgs ==> ran.unseen[h].px == f.rasters[h]))
  }

  lemma ObjectReturned(w: World, args: seq<Arg>, plan: Plan, u: State, ran: State, checked: State, t: World, r: Reports,
      s: Ideal, f: Flat, n: Name)
    requires WorldInv(w) && Launches(w, args, plan, u, ran, checked, t, r) && n in Touched(w, args)
    requires Agree(StageLayout(w, args, plan, u), s, f) && ran.mem == f.mem
    ensures Holds(t, n) && n in s.contents && s.contents[n] == ContentOf(t, n)
  {
    LaunchParts(w, args, plan, u, ran, checked, t, r);
    hide WorldInv, Launches, RoomFor, Stages, Agree, HandlesDistinct, Touched, ArgsLive, ContentOf, UserBytes,
         NewName, Holds;
    BytesReturn(w, args, plan, u, ran, checked, t, r, n);
    ObjectMeans(w, args, plan, u, s, f, n);
  }

  lemma ImageReturned(w: World, args: seq<Arg>, plan: Plan, u: State, ran: State, checked: State, t: World, r: Reports,
      s: Ideal, f: Flat, h: nat)
    requires WorldInv(w) && Launches(w, args, plan, u, ran, checked, t, r) && h in w.dev.imgs
    requires Agree(StageLayout(w, args, plan, u), s, f) && LeftBy(u, f, ran)
    requires HoldsPicture(w, h) && h in s.pics && SameRaster(PixelsOf(w, h), s.pics[h])
    ensures HoldsPicture(t, h) && s.pics[h] == PixelsOf(t, h)
  {
    hide WorldInv, RoomFor, ArgsLive, Verified, KernelRan, PutsBack, PicOk, UserPixels, SameRaster, Shows, HoldsAt,
         Touched, BufCloned;
    assert h in StageLayout(w, args, plan, u).surf && u.imgs == w.dev.imgs;
    assert Shows(f.rasters[h], s.pics[h]) && ran.imgs[h].px == f.rasters[h];
    PixelsReturn(w, args, plan, u, ran, checked, t, r, h);
    PictureMeans(w.dev.imgs[h], ran.imgs[h], s.pics[h]);
  }

  lemma HostImageReturned(w: World, args: seq<Arg>, plan: Plan, u: State, ran: State, checked: State, t: World,
      r: Reports, s: Ideal, f: Flat, h: nat)
    requires WorldInv(w) && Launches(w, args, plan, u, ran, checked, t, r) && h in w.dev.unseen && h !in w.dev.imgs
    requires Agree(StageLayout(w, args, plan, u), s, f) && LeftBy(u, f, ran)
    requires HoldsPicture(w, h) && h in s.pics && SameRaster(PixelsOf(w, h), s.pics[h])
    ensures HoldsPicture(t, h) && s.pics[h] == PixelsOf(t, h)
  {
    hide WorldInv, RoomFor, ArgsLive, Verified, PutsBack, SameRaster, Shows, HoldsAt, Touched, BufCloned, HostPicOk,
         Reachable;
    assert h in StageLayout(w, args, plan, u).surf && u.unseen == w.dev.unseen && u.imgs == w.dev.imgs;
    assert Shows(f.rasters[h], s.pics[h]) && ran.unseen[h].px == f.rasters[h] && HostPicOk(ran.unseen[h]);
    UnseenAsLeft(w, args, plan, u, ran, checked, t, r, h);
    SameImages(w, args, plan, u, ran, checked, t, r);
    HostPictureMeans(w.dev.unseen[h], ran.unseen[h], s.pics[h]);
  }

  lemma SameImages(w: World, args: seq<Arg>, plan: Plan, u: State, ran: State, checked: State, t: World, r: Reports)
    requires Launches(w, args, plan, u, ran, checked, t, r)
    ensures t.dev.imgs.Keys == w.dev.imgs.Keys && t.dev.unseen.Keys == w.dev.unseen.Keys
  {
    hide RoomFor, ArgsLive, BuffersBack, Valid, LinVerified, Reachable, BufCloned;
  }

  lemma ObjectsReturned(w: World, args: seq<Arg>, plan: Plan, u: State, ran: State, checked: State, t: World,
      r: Reports,
      s: Ideal, f: Flat)
    requires WorldInv(w) && Launches(w, args, plan, u, ran, checked, t, r)
    requires Agree(StageLayout(w, args, plan, u), s, f) && ran.mem == f.mem
    ensures forall n | n in Touched(w, args) :: Holds(t, n) && n in s.contents && s.contents[n] == ContentOf(t, n)
  {
    hide *;
    forall n | n in Touched(w, args) ensures Holds(t, n) && n in s.contents && s.contents[n] == ContentOf(t, n) {
      ObjectReturned(w, args, plan, u, ran, checked, t, r, s, f, n);
    }
  }

  /** The images of the world in s keep their shape. */
  ghost predicate ShapesFrom(w: World, s: Ideal) {
    forall h | h in Pictures(w) :: HoldsPicture(w, h) && h in s.pics && SameRaster(PixelsOf(w, h), s.pics[h])
  }

  lemma ImagesReturned(w: World, args: seq<Arg>, plan: Plan, u: State, ran: State, checked: State, t: World, r: Reports,
      s: Ideal, f: Flat)
    requires WorldInv(w) && Launches(w, args, plan, u, ran, checked, t, r) && ShapesFrom(w, s)
    requires Agree(StageLayout(w, args, plan, u), s, f) && LeftBy(u, f, ran)
    ensures forall h | h in Pictures(w) :: HoldsPicture(t, h) && h in s.pics && s.pics[h] == PixelsOf(t, h)
  {
    hide *;
    forall h | h in Pictures(w) ensures HoldsPicture(t, h) && h in s.pics && s.pics[h] == PixelsOf(t, h) {
      ShapeFrom(w, s, h);
      if h in w.dev.imgs {
        ImageReturned(w, args, plan, u, ran, checked, t, r, s, f, h);
      } else {
        HostImageReturned(w, args, plan, u, ran, checked, t, r, s, f, h);
      }
    }
  }

  lemma ShapeFrom(w: World, s: Ideal, h: nat)
    requires ShapesFrom(w, s) && h in Pictures(w)
    ensures HoldsPicture(w, h) && h in s.pics && SameRaster(PixelsOf(w, h), s.pics[h])
    ensures h in w.dev.imgs || h in w.dev.unseen
  {
    hide HoldsPicture, SameRaster, PixelsOf;
  }

  lemma AllReturned(w: World, args: seq<Arg>, plan: Plan, u: State, ran: State, checked: State, t: World, r: Reports,
      s: Ideal, f: Flat)
    requires WorldInv(w) && Launches(w, args, plan, u, ran, checked, t, r) && Sound(w, args)
    requires Agree(StageLayout(w, args, plan, u), s, f) && LeftBy(u, f, ran) && SameShapes(Contents(w, args), s)
    ensures Contents(t, args).contents == s.contents && Contents(t, args).pics == s.pics
  {
    hide *;
    LaunchParts(w, args, plan, u, ran, checked, t, r);
    LeftMemory(u, f, ran);
    ShapesKept(w, args, s);
    ObjectsReturned(w, args, plan, u, ran, checked, t, r, s, f);
    ImagesReturned(w, args, plan, u, ran, checked, t, r, s, f);
    ContentsAre(t, args, s);
  }

  lemma LeftMemory(u: State, f: Flat, ran: State)
    requires LeftBy(u, f, ran)
    ensures ran.mem == f.mem
  {
  }

  lemma ShapesKept(w: World, args: seq<Arg>, s: Ideal)
    requires Sound(w, args) && SameShapes(Contents(w, args), s)
    ensures ShapesFrom(w, s) && s.contents.Keys == Touched(w, args) && s.pics.Keys == Pictures(w)
  {
    hide PixelsOf, ContentOf, HoldsPicture, SameRaster;
  }

  lemma ContentsAre(t: World, args: seq<Arg>, s: Ideal)
    requires s.contents.Keys == Touched(t, args) && s.pics.Keys == Pictures(t)
    requires forall n | n in Touched(t, args) :: Holds(t, n) && n in s.contents && s.contents[n] == ContentOf(t, n)
    requires forall h | h in Pictures(t) :: HoldsPicture(t, h) && h in s.pics && s.pics[h] == PixelsOf(t, h)
    ensures Contents(t, args).contents == s.contents && Contents(t, args).pics == s.pics
  {
    hide Touched, Pictures, Holds, HoldsPicture, ContentOf, PixelsOf;
  }

  /** Such a kernel leaves in every object of the user, by way of clones or not, what it means to
      leave there. */
  lemma LaunchMeans(k: Kernel, sched: seq<nat>, w: World, args: seq<Arg>, plan: Plan, u: State, checked: State,
      t: World, r: Reports)
    requires WorldInv(w) && Behaves(k, sched, w, args)
    requires LaunchedKernel(k, sched, w, args, plan, u, checked, t, r)
    ensures Contents(t, args).contents == IdealRun(k, args, Contents(w, args), sched).contents
    ensures Contents(t, args).pics == IdealRun(k, args, Contents(w, args), sched).pics
  {
    var newArgs, s0 := NewArgs(w, plan, args), Contents(w, args);
    var ran, f := KernelLeaves(k, u, newArgs, sched), FlatRun(k, Bindings(u, newArgs), Device(u), sched);
    KernelLeft(k, u, newArgs, sched);
    LaunchParts(w, args, plan, u, ran, checked, t, r);
    WorldSound(w, args);
    assert SvmLive(w, args) && PointersKept(w, args) && GoodRun(k, args, s0, sched, CanarySlack(w, args));
    assert Launches(w, args, plan, u, ran, checked, t, r);
    hide *;
    StageRun(k, w, args, plan, u, sched);
    RunKeepsShapes(k, args, s0, sched);
    AllReturned(w, args, plan, u, ran, checked, t, r, IdealRun(k, args, s0, sched), f);
  }

  // ----- the original launch -----

  /** Without the detector's clones an argument is bound to the user's own object. */
  function DirectBinding(w: World, a: Arg): Binding {
    if IsLinear(a) && NameOf(a) in w.dev.lin then
      Address(w.dev.lin[NameOf(a)].base + POISON_FILL_LENGTH + PointerOffset(a))
    else if IsLinear(a) then (if a.handle in w.host then Address(w.host[a.handle].start) else Scalar)
    else if IsImage(a) then Surface(a.handle)
    else Scalar
  }

  function DirectBindings(w: World, args: seq<Arg>): (b: seq<Binding>)
    ensures |b| == |args| && forall i | 0 <= i < |args| :: b[i] == DirectBinding(w, args[i])
  {
    seq(|args|, i requires 0 <= i < |args| => DirectBinding(w, args[i]))
  }

  function DirectObj(w: World, n: Name): Obj {
    if n in w.dev.lin then ObjOf(w.dev.lin[n])
    else if n.handle in w.host then Obj(w.host[n.handle].start, w.host[n.handle].size, 0)
    else Obj(0, 0, 0)
  }

  function DirectLayout(w: World, args: seq<Arg>): (l: Layout)
    ensures l.at.Keys == Touched(w, args) && l.surf == Pictures(w)
    ensures forall n | n in l.at :: l.at[n] == DirectObj(w, n)
  {
    Layout(map n | n in Touched(w, args) :: DirectObj(w, n), Pictures(w))
  }

  /** The original launch: the kernel runs on the user's own objects. */
  function RunsDirectly(k: Kernel, w: World, args: seq<Arg>, sched: seq<nat>): World {
    w.(dev := Left(w.dev, FlatRun(k, DirectBindings(w, args), Device(w.dev), sched)))
  }

  lemma DirectObjsApart(w: World, args: seq<Arg>, n: Name, k: Name)
    requires WorldInv(w) && n in Touched(w, args) && k in Touched(w, args) && n != k
    ensures WindowsApart(DirectObj(w, n), DirectObj(w, k))
  {
    if n in w.dev.lin && k in w.dev.lin {
      ApartIn(w.dev, n, k);
      ApartWindows(w.dev.lin[n], w.dev.lin[k]);
    } else if n in w.dev.lin {
      assert HostApart(w.host[k.handle], w.dev.lin[n]);
    } else if k in w.dev.lin {
      assert HostApart(w.host[n.handle], w.dev.lin[k]);
    } else {
      assert HostsApart(w.host[n.handle], w.host[k.handle]);
    }
    hide WorldInv;
  }

  lemma DirectLaidOut(w: World, args: seq<Arg>)
    requires WorldInv(w) && Sound(w, args)
    ensures LaidOut(DirectLayout(w, args), |w.dev.mem|)
  {
    var l := DirectLayout(w, args);
    hide WorldInv, WindowsApart, Touched, Pictures;
    forall n, k | n in l.at && k in l.at && n != k
      ensures WindowsApart(l.at[n], l.at[k])
    {
      DirectObjsApart(w, args, n, k);
    }
    forall n | n in l.at
      ensures l.at[n].slack <= l.at[n].base && l.at[n].base + l.at[n].size + l.at[n].slack <= |w.dev.mem|
    {
      assert Holds(w, n);
    }
  }

  lemma HostBytesHold(b: HostBuffer, mem: seq<byte>)
    requires b.start + b.size <= |mem|
    ensures HoldsAt(Obj(b.start, b.size, 0), HostBytes(mem, b), mem)
  {
  }

  lemma HeldHostBytes(b: HostBuffer, mem: seq<byte>, content: seq<byte>)
    requires b.start + b.size <= |mem| && HoldsAt(Obj(b.start, b.size, 0), content, mem)
    ensures HostBytes(mem, b) == content
  {
  }

  lemma DirectAgrees(w: World, args: seq<Arg>)
    requires Sound(w, args)
    ensures Agree(DirectLayout(w, args), Contents(w, args), Device(w.dev))
  {
    hide HoldsAt, Shows, ContentOf, PixelsOf, DirectObj, Touched, Pictures, Holds, HoldsPicture;
    forall n | n in Touched(w, args) ensures HoldsAt(DirectObj(w, n), ContentOf(w, n), w.dev.mem) { DirectHolds(w, n); }
    forall h | h in Pictures(w)
      ensures h in Device(w.dev).rasters && Shows(Device(w.dev).rasters[h], PixelsOf(w, h))
    {
      PictureShown(w, h);
    }
  }

  lemma DirectHolds(w: World, n: Name)
    requires Holds(w, n)
    ensures HoldsAt(DirectObj(w, n), ContentOf(w, n), w.dev.mem)
  {
    hide HoldsAt, UserBytes, HostBytes;
    if n in w.dev.lin { UserBytesHold(w.dev.lin[n], w.dev.mem); } else { HostBytesHold(w.host[n.handle], w.dev.mem); }
  }

  lemma DirectBindingsOk(w: World, args: seq<Arg>)
    requires ArgsLive(w, args) && SvmLive(w, args)
    ensures BindingsOk(DirectLayout(w, args), args, DirectBindings(w, args))
  {
    forall i | 0 <= i < |args| ensures BindingOk(DirectLayout(w, args), args[i], DirectBinding(w, args[i])) {
      assert args[i] in args;
    }
  }

  /** In range through buffers without canary, within the canaries elsewhere. */
  ghost predicate BehavesDirectly(k: Kernel, sched: seq<nat>, w: World, args: seq<Arg>) {
    SvmLive(w, args) && GoodRun(k, args, Contents(w, args), sched, Slacks(DirectLayout(w, args).at))
  }

  lemma DirectRun(k: Kernel, sched: seq<nat>, w: World, args: seq<Arg>)
    requires WorldInv(w) && Sound(w, args) && ArgsLive(w, args) && BehavesDirectly(k, sched, w, args)
    ensures var f := FlatRun(k, DirectBindings(w, args), Device(w.dev), sched);
      && Agree(DirectLayout(w, args), IdealRun(k, args, Contents(w, args), sched), f)
      && |f.mem| == |w.dev.mem| && KeepsRasters(w, f)
  {
    var l, binds := DirectLayout(w, args), DirectBindings(w, args);
    assert SvmLive(w, args) && GoodRun(k, args, Contents(w, args), sched, Slacks(l.at));
    assert Device(w.dev).mem == w.dev.mem;
    DirectLaidOut(w, args);
    DirectAgrees(w, args);
    DirectBindingsOk(w, args);
    hide WorldInv, Sound, ArgsLive, SvmLive, LaidOut, BindingsOk, Agree, GoodRun, IdealRun, FlatRun, Confined,
         DirectLayout, ArgWindows, Contents, Device, DirectBindings, Slacks, BehavesDirectly, SameRaster;
    DeviceRun(k, l, args, binds, Contents(w, args), Device(w.dev), sched);
    ContainedRun(k, binds, Device(w.dev), sched, ArgWindows(l, args));
  }

  /** Every image still has a raster, of the same shape. */
  ghost predicate KeepsRasters(w: World, f: Flat) {
    && f.rasters.Keys == Device(w.dev).rasters.Keys
    && forall h | h in f.rasters :: SameRaster(Device(w.dev).rasters[h], f.rasters[h])
  }

  lemma DirectObjectMeans(w: World, args: seq<Arg>, s: Ideal, f: Flat, n: Name)
    requires Sound(w, args) && Agree(DirectLayout(w, args), s, f) && |f.mem| == |w.dev.mem| && n in Touched(w, args)
    ensures Holds(w.(dev := Left(w.dev, f)), n) && n in s.contents
      && s.contents[n] == ContentOf(w.(dev := Left(w.dev, f)), n)
  {
    var l := DirectLayout(w, args);
    assert Holds(w, n) && HoldsAt(l.at[n], s.contents[n], f.mem);
    hide Agree, Sound, Touched, HoldsAt, UserBytes, HostBytes;
    if n in w.dev.lin {
      HeldBytes(w.dev.lin[n], f.mem, s.contents[n]);
    } else {
      HeldHostBytes(w.host[n.handle], f.mem, s.contents[n]);
    }
  }

  lemma SameShape(raster: Pixels3, px: Pixels3, m: Dims, ds: nat)
    requires Shaped(raster, m, ds) && Shaped(px, m, ds) && Shows(raster, px)
    ensures raster == px
  {
    forall x: nat, y: nat, z: nat | x < m.iLim && y < m.jLim && z < m.kLim ensures raster[z][y][x] == px[z][y][x] {
      var p := Pixel(x, y, z);
      assert Covers(px, p);
      assert PixelIn(raster, p) == PixelIn(px, p);
    }
    SamePixels(raster, px, m, ds);
  }

  lemma DirectImageMeans(w: World, args: seq<Arg>, s: Ideal, f: Flat, h: nat)
    requires Agree(DirectLayout(w, args), s, f) && h in Pictures(w) && ShapesFrom(w, s) && KeepsRasters(w, f)
    ensures HoldsPicture(w.(dev := Left(w.dev, f)), h) && h in s.pics
      && s.pics[h] == PixelsOf(w.(dev := Left(w.dev, f)), h)
  {
    hide SameRaster, Shows, PicOk, HostPicOk, UserPixels, HoldsAt, Touched;
    assert HoldsPicture(w, h) && SameRaster(PixelsOf(w, h), s.pics[h]);
    assert h in DirectLayout(w, args).surf && Shows(f.rasters[h], s.pics[h]);
    if h in w.dev.imgs {
      PictureLeft(w.dev.imgs[h], f.rasters[h]);
      PictureMeans(w.dev.imgs[h], w.dev.imgs[h].(px := f.rasters[h]), s.pics[h]);
    } else {
      HostPictureLeft(w.dev.unseen[h], f.rasters[h]);
      HostPictureMeans(w.dev.unseen[h], w.dev.unseen[h].(px := f.rasters[h]), s.pics[h]);
    }
  }

  /** The original launch leaves in every object what the kernel means to leave there. */
  lemma DirectMeans(k: Kernel, sched: seq<nat>, w: World, args: seq<Arg>)
    requires WorldInv(w) && ArgsLive(w, args) && BehavesDirectly(k, sched, w, args)
    ensures var d, s := RunsDirectly(k, w, args, sched), IdealRun(k, args, Contents(w, args), sched);
      Contents(d, args).contents == s.contents && Contents(d, args).pics == s.pics
  {
    var s, f := IdealRun(k, args, Contents(w, args), sched), FlatRun(k, DirectBindings(w, args), Device(w.dev), sched);
    WorldSound(w, args);
    DirectRun(k, sched, w, args);
    RunKeepsShapes(k, args, Contents(w, args), sched);
    assert s.contents.Keys == Touched(w, args) && s.pics.Keys == Pictures(w) && ShapesFrom(w, s);
    hide IdealRun, FlatRun, Agree, BehavesDirectly, WorldInv, DirectLayout, SameRaster, Sound, KeepsRasters,
         ArgsLive, PixelsOf, ContentOf, ShapesFrom, Touched, Pictures, Holds, HoldsPicture;
    var d := w.(dev := Left(w.dev, f));
    SameTouched(w, args, d);
    forall n | n in Touched(w, args) ensures Holds(d, n) && n in s.contents && s.contents[n] == ContentOf(d, n) {
      DirectObjectMeans(w, args, s, f, n);
    }
    forall h | h in Pictures(w) ensures HoldsPicture(d, h) && h in s.pics && s.pics[h] == PixelsOf(d, h) {
      DirectImageMeans(w, args, s, f, h);
    }
    ContentsAre(d, args, s);
  }

  lemma DirectSlackIsLess(w: World, args: seq<Arg>)
    ensures forall n | n in Slacks(DirectLayout(w, args).at) ::
              n in CanarySlack(w, args) && Slacks(DirectLayout(w, args).at)[n] <= CanarySlack(w, args)[n]
  {
  }

  /** A kernel that keeps its stores through buffers without canary in range leaves every object of the
      user, after the launch on clones, with exactly the bytes and pixels it would have left running on
      the user's own objects. */
  lemma SameAsOriginal(k: Kernel, sched: seq<nat>, w: World, args: seq<Arg>, plan: Plan, u: State,
      checked: State, t: World, r: Reports)
    requires WorldInv(w) && BehavesDirectly(k, sched, w, args) && PointersKept(w, args)
    requires LaunchedKernel(k, sched, w, args, plan, u, checked, t, r)
    ensures var d := RunsDirectly(k, w, args, sched);
      Contents(t, args).contents == Contents(d, args).contents && Contents(t, args).pics == Contents(d, args).pics
  {
    LaunchParts(w, args, plan, u, KernelLeaves(k, u, NewArgs(w, plan, args), sched), checked, t, r);
    DirectSlackIsLess(w, args);
    assert SvmLive(w, args) && GoodRun(k, args, Contents(w, args), sched, Slacks(DirectLayout(w, args).at));
    MoreSlack(k, args, Contents(w, args), sched, Slacks(DirectLayout(w, args).at), CanarySlack(w, args));
    assert Behaves(k, sched, w, args);
    hide *;
    LaunchMeans(k, sched, w, args, plan, u, checked, t, r);
    DirectMeans(k, sched, w, args);
  }

  /** A kernel whose work-items all store v through argument i. */
  function OneStore(i: nat, v: byte): Kernel { (t: nat, heard: seq<seq<byte>>) => Store(i, 0, v) }

  lemma StoredOnce(i: nat, v: byte, binds: seq<Binding>, s: Flat)
    requires Hits(binds, i, 0, |s.mem|)
    ensures FlatRun(OneStore(i, v), binds, s, [0]).mem == s.mem[Bound(binds, i).base := v]
  {
    assert [0][1..] == [];
    assert FlatRun(OneStore(i, v), binds, s, [0]) == FlatStep(OneStore(i, v), binds, s, 0);
  }

  lemma AllocationStaged(w: World, args: seq<Arg>, plan: Plan, u: State, n: Name)
    requires WorldInv(w) && RoomFor(w, args, plan) && Stages(w, args, plan, u) && n in w.dev.lin
    ensures InMemory(w.dev.lin[n], |w.dev.mem|) && |u.mem| == |w.dev.mem| && n in u.lin && u.lin[n] == w.dev.lin[n]
    ensures plan.duplicated <==> Duplicates(w, args)
  {
    hide Duplicates, BufRoom, BufCloned, HandlesDistinct, HostPlaced, PicOk, LinClean;
  }

  /** Otherwise it may not: beside a buffer over host memory, a store through a pointer into an SVM
      allocation goes to the start of the allocation. */
  lemma RebasedStore(w: World, args: seq<Arg>, plan: Plan, u: State, i: nat, v: byte)
    requires WorldInv(w) && SvmLive(w, args) && RoomFor(w, args, plan) && Stages(w, args, plan, u)
    requires i < |args| && args[i].Svm? && args[i].offset != 0 && Duplicates(w, args)
    requires Pointer(args[i].handle) in w.dev.lin && args[i].offset <= w.dev.lin[Pointer(args[i].handle)].size
    ensures var start := w.dev.lin[Pointer(args[i].handle)].base + POISON_FILL_LENGTH;
      && |w.dev.mem| == |u.mem| > start + args[i].offset
      && KernelLeaves(OneStore(i, v), u, NewArgs(w, plan, args), [0]).mem == u.mem[start := v]
      && RunsDirectly(OneStore(i, v), w, args, [0]).dev.mem == w.dev.mem[start + args[i].offset := v]
  {
    hide WorldInv, SvmLive, RoomFor, Stages, Duplicates, FlatRun, OneStore, NewArgs, Rasters;
    var n := Pointer(args[i].handle);
    var start := w.dev.lin[n].base + POISON_FILL_LENGTH;
    AllocationStaged(w, args, plan, u, n);
    assert NewArgs(w, plan, args)[i] == Svm(args[i].handle, 0);
    var binds := Bindings(u, NewArgs(w, plan, args));
    assert binds[i] == Address(start);
    StoredOnce(i, v, binds, Device(u));
    StoredOnce(i, v, DirectBindings(w, args), Device(w.dev));
  }
}
