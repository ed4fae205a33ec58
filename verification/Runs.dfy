/** Whole runs: objects with and without canaries are created, written through the guarded API, passed
    to kernels and released, and the user's own program writes its own memory. Each launch clones,
    runs, checks, mends and copies back before the next operation. */
module Runs {
  import opened Canary
  import opened LinearBuffers
  import opened ImageGeometry
  import opened ApiGuards
  import opened KernelArgs
  import opened RunModel
  import opened Staging
  import opened CloneSteps
  import opened KernelRuns
  import opened StagedRuns
  import opened LaunchMeaning
  import ImageFill

  /** values: what the kernel's arguments were set to; staged, ran, checked: device state once the clones
      are made, as the kernel leaves it, and after check and mend. */
  datatype Op =
    | CreateBuffer(handle: nat, buf: Buf, content: seq<byte>)
    | CreateHostBuffer(handle: nat, over: HostBuffer)
    | AllocSvm(handle: nat, buf: Buf, detectorInternal: bool, position: nat)
    | CreateImage(handle: nat, desc: Desc, ds: nat, src: ImageFill.Source)
    | CreateHostImage(handle: nat, pic: HostPicture)
    | WriteBuffer(handle: nat, offset: u64, data: seq<byte>)
    | WriteImage(handle: nat, box: ImageBox, pixels: Pixels3)
    | HostActs
    | Launch(values: seq<Value>, plan: Plan, staged: State, ran: State, checked: State)
    | Release(handle: nat)
    | FreeSvm(handle: nat)

  /** The host buffers are where the new allocation is not. */
  ghost predicate OutsideHost(w: World, buf: Buf) {
    forall h | h in w.host :: HostApart(w.host[h], buf)
  }

  /** The driver wraps host memory of the user's that no live object uses. */
  ghost predicate CreatesHostBuffer(w: World, h: nat, b: HostBuffer, t: World) {
    && HandleFree(w, h) && b.start + b.size <= |w.dev.mem|
    && (forall n | n in w.dev.lin :: HostApart(b, w.dev.lin[n])) && (forall k | k in w.host :: HostsApart(w.host[k], b))
    && t == w.(host := w.host[h := b])
  }

  /** A write to a host buffer goes straight to its memory, under the same guard. */
  ghost predicate WritesHostBuffer(w: World, h: nat, offset: u64, data: seq<byte>, t: World) {
    && h in w.host && |data| < TWO64 && w.host[h].size < TWO64
    && t == w.(dev := w.dev.(mem := t.dev.mem)) && |t.dev.mem| == |w.dev.mem|
    && var b := w.host[h];
    && var start := b.start + offset;
    && forall a | 0 <= a < |w.dev.mem| ::
         t.dev.mem[a] == if LinearGuard(b.size, offset, |data|).Pass? && offset + |data| <= b.size && start <= a < start + |data|
                         then data[a - start] else w.dev.mem[a]
  }

  /** The driver's own check: no guard looks at an image the table does not have. */
  predicate HostWriteAccepted(pic: HostPicture, b: ImageBox) {
    b.o0 + b.r0 <= pic.desc.width && b.o1 + b.r1 <= JLim(pic.desc) && b.o2 + b.r2 <= KLim(pic.desc)
  }

  ghost predicate WritesHostImage(w: World, h: nat, b: ImageBox, data: Pixels3, t: World) {
    && h in w.dev.unseen && h in t.dev.unseen && HostPicOk(w.dev.unseen[h]) && HostPicOk(t.dev.unseen[h])
    && var pic := w.dev.unseen[h];
    && var m := UserDims(pic.desc);
    && Shaped(data, Dims(b.r0, b.r1, b.r2, b.r0, b.r1, b.r2), pic.ds)
    && t == w.(dev := w.dev.(unseen := w.dev.unseen[h := pic.(px := t.dev.unseen[h].px)]))
    && forall p: Pixel | InImage(m, p) ::
         At(t.dev.unseen[h].px, m, pic.ds, p)
         == if HostWriteAccepted(pic, b) && BoxHolds(b, p) then data[p.z - b.o2][p.y - b.o1][p.x - b.o0]
            else At(pic.px, m, pic.ds, p)
  }

  /** The driver makes the image; its record goes under the null handle. */
  ghost predicate CreatesHostImage(w: World, h: nat, pic: HostPicture, t: World) {
    && HandleFree(w, h) && HostPicOk(pic)
    && t == w.(dev := w.dev.(unseen := w.dev.unseen[h := pic]), nullRecord := true)
  }

  ghost predicate InDeviceStorage(s: State, a: nat) { exists n :: n in s.lin && InStorage(s.lin[n], a) }

  /** The user's program writes memory of its own; the device's allocations are none of it. */
  ghost predicate HostActed(w: World, t: World) {
    && t == w.(dev := w.dev.(mem := t.dev.mem, unseen := t.dev.unseen))
    && |t.dev.mem| == |w.dev.mem| && t.dev.unseen.Keys == w.dev.unseen.Keys && UnseenOk(t.dev.unseen)
    && (forall a | 0 <= a < |w.dev.mem| && InDeviceStorage(w.dev, a) :: t.dev.mem[a] == w.dev.mem[a])
    && (forall h | h in w.dev.unseen :: t.dev.unseen[h] == w.dev.unseen[h].(px := t.dev.unseen[h].px))
  }

  /** Dropping the last reference to whatever the handle names; null names the null record. */
  function Released(w: World, h: nat): World {
    World(w.dev.(lin := w.dev.lin - {Buffer(h)}, imgs := w.dev.imgs - {h}, unseen := w.dev.unseen - {h}),
          w.host - {h}, w.nullRecord && h != 0)
  }

  /** The device side of the world moves; the host side stays. */
  predicate OnDevice(w: World, t: World) { t == w.(dev := t.dev) }

  ghost predicate Step(w: World, op: Op, t: World, r: Reports) {
    && (!op.Launch? ==> r == NO_REPORTS)
    && match op
       case CreateBuffer(h, buf, content) =>
         HandleFree(w, h) && OutsideHost(w, buf) && OnDevice(w, t) && CreatesBuffer(w.dev, h, buf, content, t.dev)
       case CreateHostBuffer(h, b) => CreatesHostBuffer(w, h, b, t)
       case AllocSvm(h, buf, internal, position) =>
         OutsideHost(w, buf) && OnDevice(w, t) && AllocatesSvm(w.dev, h, buf, internal, position, t.dev)
       case CreateImage(h, d, ds, src) => HandleFree(w, h) && OnDevice(w, t) && CreatesImage(w.dev, h, d, ds, src, t.dev)
       case CreateHostImage(h, pic) => CreatesHostImage(w, h, pic, t)
       case WriteBuffer(h, offset, data) =>
         || (OnDevice(w, t) && WritesBuffer(w.dev, h, offset, data, t.dev))
         || WritesHostBuffer(w, h, offset, data, t)
       case WriteImage(h, box, data) =>
         || (OnDevice(w, t) && WritesImage(w.dev, h, box, data, t.dev))
         || WritesHostImage(w, h, box, data, t)
       case HostActs => HostActed(w, t)
       case Launch(values, plan, staged, ran, checked) =>
         Launches(w, ArgsOf(w, values), plan, staged, ran, checked, t, r)
       case Release(h) => t == Released(w, h)
       case FreeSvm(h) => OnDevice(w, t) && FreesSvm(w.dev, h, t.dev)
  }

  // ----- every operation keeps the invariant -----

  /** What the host side needs when the device side has moved. */
  lemma DeviceMoved(w: World, t: World)
    requires WorldInv(w) && OnDevice(w, t) && Inv(t.dev) && |t.dev.mem| == |w.dev.mem|
    requires forall n | n in t.dev.lin :: n in w.dev.lin || OutsideHost(w, t.dev.lin[n])
    requires forall n | n in t.dev.lin && n in w.dev.lin :: t.dev.lin[n] == w.dev.lin[n]
    requires forall h | Buffer(h) in t.dev.lin && Buffer(h) !in w.dev.lin :: HandleFree(w, h) && h !in t.dev.imgs
    requires forall h | h in t.dev.imgs && h !in w.dev.imgs :: HandleFree(w, h) && Buffer(h) !in t.dev.lin
    requires t.dev.unseen == w.dev.unseen
    ensures WorldInv(t)
  {
    hide Inv, HostsApart, HostApart;
  }

  lemma CreateBufferStep(w: World, h: nat, buf: Buf, content: seq<byte>, t: World)
    requires WorldInv(w) && HandleFree(w, h) && OutsideHost(w, buf) && OnDevice(w, t)
      && CreatesBuffer(w.dev, h, buf, content, t.dev)
    ensures WorldInv(t)
  {
    CreateBufferKeeps(w.dev, h, buf, content, t.dev);
    hide Inv, WorldInv, OutsideHost, Places;
    DeviceMoved(w, t);
  }

  lemma AllocSvmStep(w: World, h: nat, buf: Buf, internal: bool, position: nat, t: World)
    requires WorldInv(w) && OutsideHost(w, buf) && OnDevice(w, t)
      && AllocatesSvm(w.dev, h, buf, internal, position, t.dev)
    ensures WorldInv(t)
  {
    AllocSvmKeeps(w.dev, h, buf, internal, position, t.dev);
    hide Inv, WorldInv, OutsideHost, Places;
    DeviceMoved(w, t);
  }

  lemma CreateImageStep(w: World, h: nat, d: Desc, ds: nat, src: ImageFill.Source, t: World)
    requires WorldInv(w) && HandleFree(w, h) && OnDevice(w, t) && CreatesImage(w.dev, h, d, ds, src, t.dev)
    ensures WorldInv(t)
  {
    CreateImageKeeps(w.dev, h, d, ds, src, t.dev);
    assert t.dev == w.dev.(imgs := w.dev.imgs[h := t.dev.imgs[h]]);
    hide Inv, WorldInv, OutsideHost, CreatesImage;
    DeviceMoved(w, t);
  }

  lemma DeviceWriteStep(w: World, t: World)
    requires WorldInv(w) && OnDevice(w, t) && Inv(t.dev) && t.dev.lin == w.dev.lin && |t.dev.mem| == |w.dev.mem|
    requires t.dev.imgs.Keys == w.dev.imgs.Keys && t.dev.unseen == w.dev.unseen
    ensures WorldInv(t)
  {
    hide Inv, WorldInv, OutsideHost;
    DeviceMoved(w, t);
  }

  /** Memory that belongs to no allocation may change. */
  lemma HostMemoryChanged(s: State, t: State)
    requires Inv(s) && t == s.(mem := t.mem, unseen := t.unseen) && |t.mem| == |s.mem| && UnseenOk(t.unseen)
    requires forall a | 0 <= a < |s.mem| && InDeviceStorage(s, a) :: t.mem[a] == s.mem[a]
    ensures Inv(t)
  {
    forall n | n in t.lin ensures LinClean(t.mem, t.lin[n]) {
      assert InMemory(s.lin[n], |s.mem|) && LinClean(s.mem, s.lin[n]);
      assert forall a: nat | InCanary(s.lin[n], a) :: InStorage(s.lin[n], a);
    }
    hide LinClean, InDeviceStorage, PicOk, PicClean, Apart, UnseenOk;
  }

  lemma WorldOk(w: World)
    requires WorldInv(w)
    ensures Inv(w.dev) && UnseenOk(w.dev.unseen)
  {
  }

  lemma WriteHostBufferStep(w: World, h: nat, offset: u64, data: seq<byte>, t: World)
    requires WorldInv(w) && WritesHostBuffer(w, h, offset, data, t)
    ensures WorldInv(t)
  {
    forall a: nat | a < |w.dev.mem| && InDeviceStorage(w.dev, a) ensures !InHost(w.host[h], a) {
      var n :| n in w.dev.lin && InStorage(w.dev.lin[n], a);
      assert HostApart(w.host[h], w.dev.lin[n]);
    }
    hide Inv, WorldInv, HandlesDistinct, HostPlaced, LinearGuard, InDeviceStorage;
    WorldOk(w);
    HostMemoryChanged(w.dev, t.dev);
    DeviceWriteStep(w, t);
  }

  lemma HostActsStep(w: World, t: World)
    requires WorldInv(w) && HostActed(w, t)
    ensures WorldInv(t)
  {
    HostMemoryChanged(w.dev, t.dev);
    hide Inv, UnseenOk, InDeviceStorage, HostApart, HostsApart;
  }

  lemma ReleaseStep(w: World, h: nat)
    requires WorldInv(w)
    ensures WorldInv(Released(w, h))
  {
    hide Inv, UnseenOk, HostPlaced;
    WorldOk(w);
    FewerUnseen(w.dev.unseen, h);
    ReleaseKeeps(w.dev, Released(w, h).dev);
    ReleasedPlaced(w, h);
  }

  lemma FewerUnseen(unseen: map<nat, HostPicture>, h: nat)
    requires UnseenOk(unseen)
    ensures UnseenOk(unseen - {h})
  {
    hide HostPicOk;
  }

  lemma ReleasedPlaced(w: World, h: nat)
    requires HostPlaced(w)
    ensures HostPlaced(Released(w, h))
  {
    hide HostApart, HostsApart;
  }

  lemma FreeSvmStep(w: World, h: nat, t: World)
    requires WorldInv(w) && OnDevice(w, t) && FreesSvm(w.dev, h, t.dev)
    ensures WorldInv(t)
  {
    FreeSvmKeeps(w.dev, h, t.dev);
    hide Inv, WorldInv, OutsideHost;
    DeviceMoved(w, t);
  }

  lemma WriteBufferStep(w: World, h: nat, offset: u64, data: seq<byte>, t: World)
    requires WorldInv(w) && OnDevice(w, t) && WritesBuffer(w.dev, h, offset, data, t.dev)
    ensures WorldInv(t)
  {
    assert Inv(w.dev) && t.dev == w.dev.(mem := t.dev.mem) && |t.dev.mem| == |w.dev.mem|;
    hide Inv, WorldInv, WritesBuffer;
    WriteBufferKeeps(w.dev, h, offset, data, t.dev);
    DeviceWriteStep(w, t);
  }

  lemma WriteImageStep(w: World, h: nat, b: ImageBox, data: Pixels3, t: World)
    requires WorldInv(w) && OnDevice(w, t) && WritesImage(w.dev, h, b, data, t.dev)
    ensures WorldInv(t)
  {
    assert Inv(w.dev) && t.dev.lin == w.dev.lin && t.dev.mem == w.dev.mem && t.dev.imgs.Keys == w.dev.imgs.Keys;
    hide Inv, WorldInv, WritesImage;
    WriteImageKeeps(w.dev, h, b, data, t.dev);
    DeviceWriteStep(w, t);
  }

  /** One image over host memory more, or changed. */
  lemma HostImageStep(w: World, h: nat, t: World)
    requires WorldInv(w) && h in t.dev.unseen && HostPicOk(t.dev.unseen[h]) && t.host == w.host
    requires t.dev == w.dev.(unseen := w.dev.unseen[h := t.dev.unseen[h]]) && (h in w.dev.unseen || HandleFree(w, h))
    ensures WorldInv(t)
  {
    hide PicOk, PicClean, LinClean, HostPicOk, HostApart, HostsApart, Apart, InMemory;
  }

  lemma WriteHostImageStep(w: World, h: nat, b: ImageBox, data: Pixels3, t: World)
    requires WorldInv(w) && WritesHostImage(w, h, b, data, t)
    ensures WorldInv(t)
  {
    hide WorldInv, HostPicOk, HostWriteAccepted, Shaped, At;
    HostImageStep(w, h, t);
  }

  lemma CreateHostImageStep(w: World, h: nat, pic: HostPicture, t: World)
    requires WorldInv(w) && CreatesHostImage(w, h, pic, t)
    ensures WorldInv(t)
  {
    hide WorldInv, HostPicOk, HandleFree;
    HostImageStep(w, h, t);
  }

  lemma StepKeeps(w: World, op: Op, t: World, r: Reports)
    requires WorldInv(w) && Step(w, op, t, r)
    ensures WorldInv(t)
  {
    hide WorldInv, CreatesBuffer, AllocatesSvm, CreatesImage, WritesBuffer, WritesImage, WritesHostBuffer,
         WritesHostImage, CreatesHostImage, HostActed, Launches, FreesSvm, HandleFree, OutsideHost, Released;
    match op {
      case CreateBuffer(h, buf, content) => CreateBufferStep(w, h, buf, content, t);
      case CreateHostBuffer(h, b) => CreateHostBufferStep(w, h, b, t);
      case AllocSvm(h, buf, internal, position) => AllocSvmStep(w, h, buf, internal, position, t);
      case CreateImage(h, d, ds, src) => CreateImageStep(w, h, d, ds, src, t);
      case CreateHostImage(h, pic) => CreateHostImageStep(w, h, pic, t);
      case WriteBuffer(h, offset, data) =>
        if WritesHostBuffer(w, h, offset, data, t) {
          WriteHostBufferStep(w, h, offset, data, t);
        } else {
          WriteBufferStep(w, h, offset, data, t);
        }
      case WriteImage(h, b, data) =>
        if WritesHostImage(w, h, b, data, t) {
          WriteHostImageStep(w, h, b, data, t);
        } else {
          WriteImageStep(w, h, b, data, t);
        }
      case HostActs => HostActsStep(w, t);
      case Launch(values, plan, staged, ran, checked) =>
        LaunchesKeeps(w, ArgsOf(w, values), plan, staged, ran, checked, t, r);
      case Release(h) => ReleaseStep(w, h);
      case FreeSvm(h) => FreeSvmStep(w, h, t);
    }
  }

  lemma CreateHostBufferStep(w: World, h: nat, b: HostBuffer, t: World)
    requires WorldInv(w) && CreatesHostBuffer(w, h, b, t)
    ensures WorldInv(t)
  {
    HostBufferPlaced(w, h, b, t);
    hide Inv, HostPlaced;
  }

  lemma HostBufferPlaced(w: World, h: nat, b: HostBuffer, t: World)
    requires HostPlaced(w) && CreatesHostBuffer(w, h, b, t)
    ensures HostPlaced(t)
  {
  }

  // ----- every run -----

  /** A run: states, the operations between them, and what each reported. */
  ghost predicate IsRun(states: seq<World>, ops: seq<Op>, reports: seq<Reports>) {
    && |states| == |ops| + 1 && |reports| == |ops|
    && forall i | 0 <= i < |ops| :: Step(states[i], ops[i], states[i + 1], reports[i])
  }

  /** Nothing live. */
  function Start(mem: seq<byte>): World { World(State(mem, map[], [], map[], map[]), map[], false) }

  lemma StartsClean(mem: seq<byte>)
    ensures WorldInv(Start(mem))
  {
  }

  /** Over every run the canaries are intact before every operation, each launch included. */
  lemma {:induction false} RunKeeps(states: seq<World>, ops: seq<Op>, reports: seq<Reports>, i: nat)
    requires IsRun(states, ops, reports) && WorldInv(states[0]) && i <= |ops|
    ensures WorldInv(states[i])
  {
    hide WorldInv, Step;
    if i > 0 {
      RunKeeps(states, ops, reports, i - 1);
      StepKeeps(states[i - 1], ops[i - 1], states[i], reports[i - 1]);
    }
  }

  /** A run of the whole program, from nothing live. */
  ghost predicate WholeRun(states: seq<World>, ops: seq<Op>, reports: seq<Reports>) {
    IsRun(states, ops, reports) && states[0] == Start(states[0].dev.mem)
  }

  lemma WholeRunKeeps(states: seq<World>, ops: seq<Op>, reports: seq<Reports>, i: nat)
    requires WholeRun(states, ops, reports) && i <= |ops|
    ensures WorldInv(states[i])
  {
    StartsClean(states[0].dev.mem);
    hide WorldInv, Start;
    RunKeeps(states, ops, reports, i);
  }

  /** The launch in question. */
  ghost predicate LaunchAt(states: seq<World>, ops: seq<Op>, reports: seq<Reports>, i: nat) {
    && WholeRun(states, ops, reports) && i < |ops| && ops[i].Launch?
  }

  /** What the values of the launch name. */
  function ArgsAt(states: seq<World>, ops: seq<Op>, i: nat): seq<Arg>
    requires i < |ops| < |states| && ops[i].Launch?
  {
    ArgsOf(states[i], ops[i].values)
  }

  lemma LaunchFacts(states: seq<World>, ops: seq<Op>, reports: seq<Reports>, i: nat)
    requires LaunchAt(states, ops, reports, i)
    ensures WorldInv(states[i])
    ensures Launches(states[i], ArgsAt(states, ops, i), ops[i].plan, ops[i].staged, ops[i].ran, ops[i].checked,
                     states[i + 1], reports[i])
  {
    hide WorldInv, Launches;
    WholeRunKeeps(states, ops, reports, i);
    assert Step(states[i], ops[i], states[i + 1], reports[i]);
  }

  /** In every run a launch reports a buffer or allocation with canaries exactly when that launch's
      kernel changed one of its canary bytes. */
  lemma EveryLaunchReportsExactly(states: seq<World>, ops: seq<Op>, reports: seq<Reports>, i: nat, n: Name)
    requires LaunchAt(states, ops, reports, i) && n in states[i].dev.lin
      && Reaches(states[i].dev, ArgsAt(states, ops, i), n)
    ensures n in reports[i].lin
    ensures NamesLeastChange(states[i].dev.mem, ops[i].ran.mem, states[i].dev.lin[n], reports[i].lin[n])
  {
    LaunchFacts(states, ops, reports, i);
    hide WorldInv, Launches, LaunchAt, NamesLeastChange, Reaches, ArgsAt;
    LaunchReports(states[i], ArgsAt(states, ops, i), ops[i].plan, ops[i].staged, ops[i].ran, ops[i].checked,
      states[i + 1], reports[i], n);
  }

  /** ... and a buffer over host memory, by its clone, exactly when the kernel left a byte of the
      clone's canary different from the fill. */
  lemma EveryLaunchReportsClones(states: seq<World>, ops: seq<Op>, reports: seq<Reports>, i: nat, h: nat)
    requires LaunchAt(states, ops, reports, i) && Replaces(states[i], ArgsAt(states, ops, i), h)
    ensures HostReported(states[i], ops[i].plan, h, ops[i].staged, ops[i].ran, reports[i])
  {
    LaunchFacts(states, ops, reports, i);
    hide WorldInv, Launches, LaunchAt, HostReported, Replaces, ArgsAt;
    HostBufferReports(states[i], ArgsAt(states, ops, i), ops[i].plan, ops[i].staged, ops[i].ran, ops[i].checked,
      states[i + 1], reports[i], h);
  }

  /** ... and an image of the table exactly when one of its canary pixels is not the fill once the kernel
      has run. */
  lemma EveryLaunchReportsImages(states: seq<World>, ops: seq<Op>, reports: seq<Reports>, i: nat, h: nat)
    requires LaunchAt(states, ops, reports, i) && Mem(h, true) in ArgsAt(states, ops, i)
    ensures PictureReported(ops[i].ran, reports[i], h)
  {
    LaunchFacts(states, ops, reports, i);
    hide WorldInv, Launches, LaunchAt, PictureReported, ArgsAt;
    LaunchReportsPicture(states[i], ArgsAt(states, ops, i), ops[i].plan, ops[i].staged, ops[i].ran, ops[i].checked,
      states[i + 1], reports[i], h);
  }

  /** ... that is, unless it is an array image no launch has visited, exactly when the kernel changed
      one of its canary pixels. */
  lemma EveryLaunchReportsChanges(states: seq<World>, ops: seq<Op>, reports: seq<Reports>, i: nat, h: nat)
    requires LaunchAt(states, ops, reports, i) && Mem(h, true) in ArgsAt(states, ops, i)
    ensures h in states[i].dev.imgs
    ensures !IsArray(states[i].dev.imgs[h].desc.kind) || states[i].dev.imgs[h].checked ==>
              PictureChangeReported(states[i].dev, ops[i].ran, reports[i], h)
  {
    LaunchFacts(states, ops, reports, i);
    hide WorldInv, Launches, LaunchAt, PictureChangeReported, ArgsAt;
    LaunchReportsChange(states[i], ArgsAt(states, ops, i), ops[i].plan, ops[i].staged, ops[i].ran, ops[i].checked,
      states[i + 1], reports[i], h);
  }

  // ----- what a launch leaves -----

  /** In every run, a launch of a kernel that reads in range and stores within the canaries leaves in
      every object of the user what the kernel means to leave there. */
  lemma EveryLaunchMeans(states: seq<World>, ops: seq<Op>, reports: seq<Reports>, i: nat, k: Kernel, sched: seq<nat>)
    requires LaunchAt(states, ops, reports, i)
    requires ops[i].ran
          == KernelLeaves(k, ops[i].staged, NewArgs(states[i], ops[i].plan, ArgsAt(states, ops, i)), sched)
    requires Behaves(k, sched, states[i], ArgsAt(states, ops, i))
    ensures var args := ArgsAt(states, ops, i);
      var s := IdealRun(k, args, Contents(states[i], args), sched);
      && Contents(states[i + 1], args).contents == s.contents
      && Contents(states[i + 1], args).pics == s.pics
  {
    LaunchFacts(states, ops, reports, i);
    hide WorldInv, Launches, LaunchAt, Behaves, IdealRun, KernelLeaves, NewArgs, ArgsAt;
    LaunchMeans(k, sched, states[i], ArgsAt(states, ops, i), ops[i].plan, ops[i].staged, ops[i].checked, states[i + 1],
      reports[i]);
  }

  /** A launch with no argument but an image over host memory: whatever its kernel does to the image, the
      launch is a step of a run and reports nothing. */
  lemma HostImageUnchecked(w: World, h: nat, px: Pixels3) returns (op: Op, t: World)
    requires WorldInv(w) && h in w.dev.unseen && Shaped(px, UserDims(w.dev.unseen[h].desc), w.dev.unseen[h].ds)
    ensures op.Launch? && op.values == [Bytes(HANDLE_SIZE, h)] && Step(w, op, t, NO_REPORTS)
    ensures t == w.(dev := w.dev.(unseen := w.dev.unseen[h := w.dev.unseen[h].(px := px)]))
  {
    var ran := w.dev.(unseen := w.dev.unseen[h := w.dev.unseen[h].(px := px)]);
    var plan := Plan(false, map[]);
    op, t := Launch([Bytes(HANDLE_SIZE, h)], plan, w.dev, ran, ran), w.(dev := ran);
    hide *;
    OnlyUnseen(w, h);
    NoneReplaced(w, [Unseen(h)], plan);
    UnseenWritten(w, h, px);
    NothingToCheck(ran, h);
    NothingToPutBack(w, [Unseen(h)], plan, ran, t);
    LaunchIsStep(w, op, t, NO_REPORTS);
  }

  /** The shortest such run: create an image over host memory, and launch on it. */
  lemma HostImageRun(mem: seq<byte>, h: nat, pic: HostPicture, px: Pixels3)
    returns (states: seq<World>, ops: seq<Op>, reports: seq<Reports>)
    requires h != 0 && HostPicOk(pic) && Shaped(px, UserDims(pic.desc), pic.ds)
    ensures LaunchAt(states, ops, reports, 1) && ops[0] == CreateHostImage(h, pic)
    ensures ops[1].values == [Bytes(HANDLE_SIZE, h)] && reports[1] == NO_REPORTS
    ensures h in states[2].dev.unseen && states[2].dev.unseen[h].px == px
  {
    hide HostPicOk, Shaped, UserDims, WorldInv, CreatesBuffer, Launches, Stages;
    var w0 := Start(mem);
    var w1 := w0.(dev := w0.dev.(unseen := map[h := pic]), nullRecord := true);
    assert Step(w0, CreateHostImage(h, pic), w1, NO_REPORTS);
    StartsClean(mem);
    StepKeeps(w0, CreateHostImage(h, pic), w1, NO_REPORTS);
    var op, w2 := HostImageUnchecked(w1, h, px);
    states, ops, reports := [w0, w1, w2], [CreateHostImage(h, pic), op], [NO_REPORTS, NO_REPORTS];
    hide Step;
  }

  lemma LaunchIsStep(w: World, op: Op, t: World, r: Reports)
    requires op.Launch? && Launches(w, ArgsOf(w, op.values), op.plan, op.staged, op.ran, op.checked, t, r)
    ensures Step(w, op, t, r)
  {
    hide Launches;
  }

  lemma UnseenWritten(w: World, h: nat, px: Pixels3)
    requires WorldInv(w) && h in w.dev.unseen && Shaped(px, UserDims(w.dev.unseen[h].desc), w.dev.unseen[h].ds)
    ensures var ran := w.dev.(unseen := w.dev.unseen[h := w.dev.unseen[h].(px := px)]);
      KernelRan(w.dev, [Unseen(h)], ran) && Valid(ran) && SameTables(w.dev, ran)
  {
    hide PicOk, PicClean, LinClean, Apart, InMemory, Shaped, Reachable, HandlesDistinct, HostPlaced;
    assert HostPicOk(w.dev.unseen[h]);
  }

  lemma NothingToCheck(ran: State, h: nat)
    requires Valid(ran)
    ensures Verified(ran, [Unseen(h)], ran, NO_REPORTS)
  {
    hide Valid;
    NothingReached(ran, h);
  }

  lemma OnlyUnseen(w: World, h: nat)
    requires WorldInv(w) && h in w.dev.unseen
    ensures ArgsOf(w, [Bytes(HANDLE_SIZE, h)]) == [Unseen(h)] && ArgsLive(w, [Unseen(h)])
    ensures AllKept(w, [Unseen(h)]) && RoomFor(w, [Unseen(h)], Plan(false, map[]))
  {
    hide Inv, HostPlaced;
  }

  lemma NothingReached(s: State, h: nat)
    ensures forall n :: !Reaches(s, [Unseen(h)], n)
  {
  }
}
