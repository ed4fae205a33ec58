/** What the operations of a run alone say: which objects there are, and which of them each launch
    checks. */
module Histories {
  import opened Canary
  import opened LinearBuffers
  import opened ApiGuards
  import opened ImageGeometry
  import opened KernelArgs
  import opened RunModel
  import opened Staging
  import opened CloneSteps
  import opened Runs

  // ----- what a handle names -----

  /** What a cl_mem handle names. */
  datatype Named =
    | Nothing
    | DeviceBuffer(buf: Buf)
    | OverHost(over: HostBuffer)
    | Image(desc: Desc, ds: nat)
    | HostImage(desc: Desc, ds: nat)

  /** An operation names what it creates and un-names what it releases. */
  function Renamed(op: Op, h: nat, named: Named): Named {
    match op
    case CreateBuffer(g, buf, _) => if g == h then DeviceBuffer(buf) else named
    case CreateHostBuffer(g, over) => if g == h then OverHost(over) else named
    case CreateImage(g, d, ds, _) => if g == h then Image(d, ds) else named
    case CreateHostImage(g, pic) => if g == h then HostImage(pic.desc, pic.ds) else named
    case Release(g) => if g == h then Nothing else named
    case _ => named
  }

  /** What a handle names after the first i operations. */
  function NamedBy(ops: seq<Op>, i: nat, h: nat): Named
    requires i <= |ops|
  {
    if i == 0 then Nothing else Renamed(ops[i - 1], h, NamedBy(ops, i - 1, h))
  }

  /** The tables have exactly that under the handle. */
  ghost predicate Tracked(w: World, h: nat, named: Named) {
    && (Buffer(h) in w.dev.lin <==> named.DeviceBuffer?)
    && (Buffer(h) in w.dev.lin ==> w.dev.lin[Buffer(h)] == named.buf)
    && (h in w.host <==> named.OverHost?)
    && (h in w.host ==> w.host[h] == named.over)
    && (h in w.dev.imgs <==> named.Image?)
    && (h in w.dev.imgs ==> w.dev.imgs[h].desc == named.desc && w.dev.imgs[h].ds == named.ds)
    && (h in w.dev.unseen <==> named.HostImage?)
    && (h in w.dev.unseen ==> w.dev.unseen[h].desc == named.desc && w.dev.unseen[h].ds == named.ds)
  }

  // ----- SVM allocations -----

  datatype Allocation = Freed | Allocated(buf: Buf, detectorInternal: bool)

  function Reallocated(op: Op, h: nat, a: Allocation): Allocation {
    match op
    case AllocSvm(g, buf, internal, _) => if g == h then Allocated(buf, internal) else a
    case FreeSvm(g) => if g == h then Freed else a
    case _ => a
  }

  function AllocatedBy(ops: seq<Op>, i: nat, h: nat): Allocation
    requires i <= |ops|
  {
    if i == 0 then Freed else Reallocated(ops[i - 1], h, AllocatedBy(ops, i - 1, h))
  }

  ghost predicate InTable(s: State, h: nat, internal: bool) { SvmObject(h, internal) in s.svms }

  ghost predicate TrackedSvm(s: State, h: nat, a: Allocation) {
    && (Pointer(h) in s.lin <==> a.Allocated?)
    && (Pointer(h) in s.lin ==> s.lin[Pointer(h)] == a.buf)
    && (forall internal :: InTable(s, h, internal) <==> a.Allocated? && a.detectorInternal == internal)
  }

  /** An image over host memory has been created, and null not been released since. */
  predicate NullFiled(ops: seq<Op>, i: nat)
    requires i <= |ops|
  {
    i > 0 && (ops[i - 1].CreateHostImage? || (ops[i - 1] != Release(0) && NullFiled(ops, i - 1)))
  }

  // ----- every operation does to the tables what its name says -----

  lemma LaunchKeepsTables(w: World, args: seq<Arg>, plan: Plan, staged: State, ran: State, checked: State, t: World,
      r: Reports)
    requires Launches(w, args, plan, staged, ran, checked, t, r)
    ensures t.dev.lin == w.dev.lin && t.dev.svms == w.dev.svms && t.host == w.host && t.nullRecord == w.nullRecord
    ensures t.dev.imgs == checked.imgs && t.dev.unseen == ran.unseen
    ensures staged.imgs == w.dev.imgs && staged.unseen == w.dev.unseen
  {
    hide RoomFor, ArgsLive, BuffersBack, KernelRan, LinVerified, ImgVerified, Valid, BufCloned;
  }

  lemma LaunchKeepsImage(staged: State, newArgs: seq<Arg>, ran: State, checked: State, r: Reports, h: nat)
    requires KernelRan(staged, newArgs, ran) && Verified(ran, newArgs, checked, r)
    ensures h in checked.imgs <==> h in staged.imgs
    ensures h in staged.imgs ==>
              checked.imgs[h].desc == staged.imgs[h].desc && checked.imgs[h].ds == staged.imgs[h].ds
    ensures h in ran.unseen <==> h in staged.unseen
    ensures h in staged.unseen ==>
              ran.unseen[h].desc == staged.unseen[h].desc && ran.unseen[h].ds == staged.unseen[h].ds
  {
    hide PicOk, HostPicOk, Reachable, LinVerified, Valid;
    if h in ran.imgs && Mem(h, true) in newArgs { assert ImageChecked(ran.imgs[h], checked.imgs[h], r.imgs[h]); }
  }

  lemma LaunchTracks(w: World, args: seq<Arg>, plan: Plan, staged: State, ran: State, checked: State, t: World,
      r: Reports, h: nat, named: Named)
    requires Launches(w, args, plan, staged, ran, checked, t, r) && Tracked(w, h, named)
    ensures Tracked(t, h, named)
  {
    LaunchKeepsTables(w, args, plan, staged, ran, checked, t, r);
    LaunchKeepsImage(staged, NewArgs(w, plan, args), ran, checked, r, h);
    hide ArgsLive, RoomFor, Stages, KernelRan, Verified, PutsBack;
  }

  lemma FreeTracksNothing(w: World, h: nat, named: Named)
    requires Tracked(w, h, named) && HandleFree(w, h)
    ensures named == Nothing
  {
  }

  lemma CreationTracks(w: World, op: Op, t: World, r: Reports, h: nat, named: Named)
    requires Step(w, op, t, r) && Tracked(w, h, named)
    requires op.CreateBuffer? || op.CreateHostBuffer? || op.CreateImage? || op.CreateHostImage?
    ensures Tracked(t, h, Renamed(op, h, named))
  {
    hide Places, Filled, HostPicOk, PicOk, Shaped, At, HandleFree, OutsideHost;
    if op.handle == h {
      CreationIsFree(w, op, t, r);
      FreeTracksNothing(w, h, named);
    }
  }

  lemma CreationIsFree(w: World, op: Op, t: World, r: Reports)
    requires Step(w, op, t, r)
    requires op.CreateBuffer? || op.CreateHostBuffer? || op.CreateImage? || op.CreateHostImage?
    ensures HandleFree(w, op.handle)
  {
    hide CreatesBuffer, CreatesImage, HostPicOk, HandleFree, OutsideHost;
  }

  lemma WriteBufferTracks(w: World, g: nat, offset: u64, data: seq<byte>, t: World, h: nat, named: Named)
    requires Tracked(w, h, named)
    requires (OnDevice(w, t) && WritesBuffer(w.dev, g, offset, data, t.dev)) || WritesHostBuffer(w, g, offset, data, t)
    ensures Tracked(t, h, named)
  {
    hide LinearGuard;
  }

  lemma WriteImageTracks(w: World, g: nat, b: ImageBox, data: Pixels3, t: World, h: nat, named: Named)
    requires Tracked(w, h, named)
    requires (OnDevice(w, t) && WritesImage(w.dev, g, b, data, t.dev)) || WritesHostImage(w, g, b, data, t)
    ensures Tracked(t, h, named)
  {
    hide PicOk, HostPicOk, ImageWriteAccepted, HostWriteAccepted, Shaped, At;
  }

  lemma HostActsTracks(w: World, t: World, h: nat, named: Named)
    requires Tracked(w, h, named) && HostActed(w, t)
    ensures Tracked(t, h, named)
  {
    hide UnseenOk, InDeviceStorage;
  }

  lemma ReleaseTracks(w: World, op: Op, t: World, r: Reports, h: nat, named: Named)
    requires Step(w, op, t, r) && Tracked(w, h, named) && (op.Release? || op.FreeSvm? || op.AllocSvm?)
    ensures Tracked(t, h, Renamed(op, h, named))
  {
    hide Places, Filled, OutsideHost;
  }

  lemma StepTracks(w: World, op: Op, t: World, r: Reports, h: nat, named: Named)
    requires Step(w, op, t, r) && Tracked(w, h, named)
    ensures Tracked(t, h, Renamed(op, h, named))
  {
    hide Tracked, CreatesBuffer, CreatesHostBuffer, AllocatesSvm, CreatesImage, CreatesHostImage, WritesBuffer,
         WritesHostBuffer, WritesImage, WritesHostImage, HostActed, Launches, Released, FreesSvm, HandleFree,
         OutsideHost;
    match op {
      case Launch(values, plan, staged, ran, checked) =>
        LaunchTracks(w, ArgsOf(w, values), plan, staged, ran, checked, t, r, h, named);
      case WriteBuffer(g, offset, data) => WriteBufferTracks(w, g, offset, data, t, h, named);
      case WriteImage(g, b, data) => WriteImageTracks(w, g, b, data, t, h, named);
      case HostActs => HostActsTracks(w, t, h, named);
      case AllocSvm(_, _, _, _) => ReleaseTracks(w, op, t, r, h, named);
      case Release(_) => ReleaseTracks(w, op, t, r, h, named);
      case FreeSvm(_) => ReleaseTracks(w, op, t, r, h, named);
      case _ => CreationTracks(w, op, t, r, h, named);
    }
  }

  lemma TableWith(svms: seq<SvmObject>, position: nat, o: SvmObject, h: nat, internal: bool)
    requires position <= |svms|
    ensures SvmObject(h, internal) in svms[..position] + [o] + svms[position..]
       <==> SvmObject(h, internal) in svms || SvmObject(h, internal) == o
  {
    assert svms == svms[..position] + svms[position..];
  }

  lemma TableWithout(svms: seq<SvmObject>, i: nat, h: nat, internal: bool)
    requires i < |svms| && forall j, k | 0 <= j < k < |svms| :: svms[j].handle != svms[k].handle
    ensures SvmObject(h, internal) in svms[..i] + svms[i + 1..]
       <==> SvmObject(h, internal) in svms && h != svms[i].handle
  {
    assert svms == svms[..i] + [svms[i]] + svms[i + 1..];
    if SvmObject(h, internal) in svms[..i] { var j :| 0 <= j < i && svms[j] == SvmObject(h, internal); }
    if SvmObject(h, internal) in svms[i + 1..] {
      var j :| i < j < |svms| && svms[j] == SvmObject(h, internal);
    }
  }

  lemma AllocTracks(s: State, g: nat, buf: Buf, internal: bool, position: nat, t: State, h: nat, a: Allocation)
    requires AllocatesSvm(s, g, buf, internal, position, t) && TrackedSvm(s, h, a)
    ensures TrackedSvm(t, h, if g == h then Allocated(buf, internal) else a)
  {
    hide Places, Filled;
    forall b ensures InTable(t, h, b) <==> InTable(s, h, b) || SvmObject(h, b) == SvmObject(g, internal) {
      TableWith(s.svms, position, SvmObject(g, internal), h, b);
    }
    hide InTable;
  }

  lemma EntryGone(s: State, i: nat, t: State, h: nat, a: Allocation)
    requires i < |s.svms| && TrackedSvm(s, h, a)
    requires forall j, k | 0 <= j < k < |s.svms| :: s.svms[j].handle != s.svms[k].handle
    requires t == s.(lin := s.lin - {Pointer(s.svms[i].handle)}, svms := s.svms[..i] + s.svms[i + 1..])
    ensures TrackedSvm(t, h, if s.svms[i].handle == h then Freed else a)
  {
    forall b ensures InTable(t, h, b) <==> InTable(s, h, b) && h != s.svms[i].handle { TableWithout(s.svms, i, h, b); }
    hide InTable;
  }

  lemma FreeTracks(s: State, g: nat, t: State, h: nat, a: Allocation)
    requires Valid(s) && FreesSvm(s, g, t) && TrackedSvm(s, h, a)
    ensures TrackedSvm(t, h, if g == h then Freed else a)
  {
    HandlesDiffer(s);
    hide Valid, TrackedSvm, InTable;
    if exists i :: 0 <= i < |s.svms| && s.svms[i].handle == g {
      var i :| 0 <= i < |s.svms| && s.svms[i].handle == g
               && t == s.(lin := s.lin - {Pointer(g)}, svms := s.svms[..i] + s.svms[i + 1..]);
      EntryGone(s, i, t, h, a);
    } else if g == h {
      Unlisted(s, h);
      UnlistedIsFreed(s, h, a);
    }
  }

  lemma HandlesDiffer(s: State)
    requires Valid(s)
    ensures forall i, j | 0 <= i < j < |s.svms| :: s.svms[i].handle != s.svms[j].handle
  {
  }

  lemma Unlisted(s: State, h: nat)
    requires forall i | 0 <= i < |s.svms| :: s.svms[i].handle != h
    ensures forall b :: !InTable(s, h, b)
  {
  }

  lemma UnlistedIsFreed(s: State, h: nat, a: Allocation)
    requires TrackedSvm(s, h, a) && forall b :: !InTable(s, h, b)
    ensures a == Freed
  {
    assert !InTable(s, h, true) && !InTable(s, h, false);
  }

  lemma SameSvmTracked(s: State, t: State, h: nat, a: Allocation)
    requires TrackedSvm(s, h, a) && t.svms == s.svms && (Pointer(h) in t.lin <==> Pointer(h) in s.lin)
      && (Pointer(h) in s.lin ==> t.lin[Pointer(h)] == s.lin[Pointer(h)])
    ensures TrackedSvm(t, h, a)
  {
    assert forall b :: InTable(t, h, b) <==> InTable(s, h, b);
    hide InTable;
  }

  /** Other operations leave the SVM table and its allocations. */
  lemma OthersKeepSvm(w: World, op: Op, t: World, r: Reports, h: nat)
    requires Step(w, op, t, r) && !op.AllocSvm? && !op.FreeSvm? && !op.Launch?
    ensures t.dev.svms == w.dev.svms && (Pointer(h) in t.dev.lin <==> Pointer(h) in w.dev.lin)
    ensures Pointer(h) in w.dev.lin ==> t.dev.lin[Pointer(h)] == w.dev.lin[Pointer(h)]
  {
    hide Places, Filled, PicOk, HostPicOk, Shaped, At, UnseenOk, LinearGuard, InDeviceStorage, HandleFree, OutsideHost;
  }

  lemma StepTracksSvm(w: World, op: Op, t: World, r: Reports, h: nat, a: Allocation)
    requires WorldInv(w) && Step(w, op, t, r) && TrackedSvm(w.dev, h, a)
    ensures TrackedSvm(t.dev, h, Reallocated(op, h, a))
  {
    hide WorldInv, Valid, AllocatesSvm, FreesSvm, Launches, TrackedSvm, OutsideHost, CreatesBuffer, CreatesHostBuffer,
         CreatesImage, CreatesHostImage, WritesBuffer, WritesHostBuffer, WritesImage, WritesHostImage, HostActed,
         Released, HandleFree;
    match op {
      case AllocSvm(g, buf, internal, position) => AllocTracks(w.dev, g, buf, internal, position, t.dev, h, a);
      case FreeSvm(g) =>
        WorldOk(w);
        InvIsValid(w.dev);
        FreeTracks(w.dev, g, t.dev, h, a);
      case Launch(values, plan, staged, ran, checked) =>
        LaunchKeepsTables(w, ArgsOf(w, values), plan, staged, ran, checked, t, r);
        SameSvmTracked(w.dev, t.dev, h, a);
      case _ =>
        OthersKeepSvm(w, op, t, r, h);
        SameSvmTracked(w.dev, t.dev, h, a);
        NotSvm(op, h, a);
    }
  }

  lemma InvIsValid(s: State)
    requires Inv(s)
    ensures Valid(s)
  {
    hide Valid, LinClean, PicClean;
  }

  lemma NotSvm(op: Op, h: nat, a: Allocation)
    requires !op.AllocSvm? && !op.FreeSvm?
    ensures Reallocated(op, h, a) == a
  {
  }

  // ----- every run -----

  /** In every run the tables have under a cl_mem handle what was last created under it and not released
      since: where its bytes are, or the description of the image; and images over host memory are not
      among the tool's. */
  lemma {:induction false} RunTracksHandles(states: seq<World>, ops: seq<Op>, reports: seq<Reports>, i: nat, h: nat)
    requires WholeRun(states, ops, reports) && i <= |ops|
    ensures Tracked(states[i], h, NamedBy(ops, i, h))
  {
    hide Step;
    if i > 0 {
      RunTracksHandles(states, ops, reports, i - 1, h);
      hide Tracked;
      StepTracks(states[i - 1], ops[i - 1], states[i], reports[i - 1], h, NamedBy(ops, i - 1, h));
    }
  }

  /** ... and under an SVM pointer the last allocation made there and not freed, marked as the detector's
      own if it was. */
  lemma {:induction false} RunTracksSvm(states: seq<World>, ops: seq<Op>, reports: seq<Reports>, i: nat, h: nat)
    requires WholeRun(states, ops, reports) && i <= |ops|
    ensures TrackedSvm(states[i].dev, h, AllocatedBy(ops, i, h))
  {
    hide Step, WorldInv;
    if i > 0 {
      RunTracksSvm(states, ops, reports, i - 1, h);
      hide TrackedSvm;
      WholeRunKeeps(states, ops, reports, i - 1);
      StepTracksSvm(states[i - 1], ops[i - 1], states[i], reports[i - 1], h, AllocatedBy(ops, i - 1, h));
    }
  }

  lemma StepTracksNull(w: World, op: Op, t: World, r: Reports)
    requires Step(w, op, t, r)
    ensures t.nullRecord == (op.CreateHostImage? || (op != Release(0) && w.nullRecord))
  {
    hide Places, Filled, HostPicOk, PicOk, ImageWriteAccepted, HandleFree, Shaped, At, UnseenOk, Launches,
         LinearGuard, InDeviceStorage, FreesSvm;
    match op {
      case Launch(values, plan, staged, ran, checked) =>
        LaunchKeepsTables(w, ArgsOf(w, values), plan, staged, ran, checked, t, r);
      case _ =>
    }
  }

  /** The table has a null record if and only if an image was created over host memory since null was
      last released. */
  lemma {:induction false} RunTracksNull(states: seq<World>, ops: seq<Op>, reports: seq<Reports>, i: nat)
    requires WholeRun(states, ops, reports) && i <= |ops|
    ensures states[i].nullRecord <==> NullFiled(ops, i)
  {
    hide Step;
    if i > 0 {
      RunTracksNull(states, ops, reports, i - 1);
      StepTracksNull(states[i - 1], ops[i - 1], states[i], reports[i - 1]);
    }
  }

  // ----- what every launch checks -----

  /** The launch reports what it found out about an object among its arguments: by itself, or by its
      clone; an image over host memory it leaves as the kernel did, unreported. */
  ghost predicate CheckedAs(w: World, op: Op, t: World, r: Reports, h: nat, named: Named)
    requires op.Launch?
  {
    match named
    case Nothing => h !in r.imgs
    case DeviceBuffer(buf) =>
      h !in r.imgs && Buffer(h) in r.lin && NamesLeastChange(w.dev.mem, op.ran.mem, buf, r.lin[Buffer(h)])
    case OverHost(over) =>
      h !in r.imgs && h in w.host && w.host[h] == over && HostReported(w, op.plan, h, op.staged, op.ran, r)
    case Image(d, ds) => h in op.ran.imgs && op.ran.imgs[h].desc == d && PictureReported(op.ran, r, h)
    case HostImage(_, _) =>
      h !in r.imgs && h in op.ran.unseen && h in t.dev.unseen && t.dev.unseen[h] == op.ran.unseen[h]
  }

  /** In every run a launch checks the objects whose handles are among its values: every buffer with
      canaries exactly for the changes of its kernel, every buffer over host memory by its clone, and
      every image unless it was created with CL_MEM_USE_HOST_PTR. */
  lemma EveryLaunchChecksArguments(states: seq<World>, ops: seq<Op>, reports: seq<Reports>, i: nat, h: nat)
    requires LaunchAt(states, ops, reports, i) && Bytes(HANDLE_SIZE, h) in ops[i].values
    ensures CheckedAs(states[i], ops[i], states[i + 1], reports[i], h, NamedBy(ops, i, h))
  {
    hide WorldInv, Launches, LaunchAt, WholeRun, PictureReported, HostReported, NamesLeastChange, NamedBy, Reaches;
    LaunchIsInRun(states, ops, reports, i);
    LaunchFacts(states, ops, reports, i);
    RunTracksHandles(states, ops, reports, i, h);
    var w, args := states[i], ArgsAt(states, ops, i);
    VisitedImages(w, args, ops[i].plan, ops[i].staged, ops[i].ran, ops[i].checked, states[i + 1], reports[i], h);
    match NamedBy(ops, i, h) {
      case Nothing =>
      case DeviceBuffer(buf) =>
        BufferReached(w, ops[i].values, h);
        EveryLaunchReportsExactly(states, ops, reports, i, Buffer(h));
      case OverHost(over) =>
        BufferReached(w, ops[i].values, h);
        EveryLaunchReportsClones(states, ops, reports, i, h);
      case Image(d, ds) =>
        NamesImage(w, ops[i].values, h);
        EveryLaunchReportsImages(states, ops, reports, i, h);
        LaunchKeepsDescription(w, args, ops[i].plan, ops[i].staged, ops[i].ran, ops[i].checked, states[i + 1],
          reports[i], h);
      case HostImage(_, _) =>
        UnseenAsLeft(w, args, ops[i].plan, ops[i].staged, ops[i].ran, ops[i].checked, states[i + 1], reports[i], h);
    }
  }

  lemma LaunchIsInRun(states: seq<World>, ops: seq<Op>, reports: seq<Reports>, i: nat)
    requires LaunchAt(states, ops, reports, i)
    ensures WholeRun(states, ops, reports) && i < |ops| && ops[i].Launch? && |states| == |ops| + 1 == |reports| + 1
  {
  }

  lemma BufferReached(w: World, values: seq<Value>, h: nat)
    requires Bytes(HANDLE_SIZE, h) in values
    ensures Buffer(h) in w.dev.lin ==> Reaches(w.dev, ArgsOf(w, values), Buffer(h))
    ensures h in w.host ==> Replaces(w, ArgsOf(w, values), h)
  {
    hide ArgsOf;
    BufferValues(w, values, h);
  }

  lemma NamesImage(w: World, values: seq<Value>, h: nat)
    requires WorldInv(w) && Bytes(HANDLE_SIZE, h) in values
    ensures h in w.dev.imgs ==> Mem(h, true) in ArgsOf(w, values)
    ensures h in w.dev.unseen ==> Unseen(h) in ArgsOf(w, values)
  {
    hide Inv, HostPlaced;
    ImageValues(w, values, h);
  }

  lemma LaunchKeepsDescription(w: World, args: seq<Arg>, plan: Plan, staged: State, ran: State, checked: State,
      t: World, r: Reports, h: nat)
    requires Launches(w, args, plan, staged, ran, checked, t, r) && h in w.dev.imgs
    ensures h in ran.imgs && ran.imgs[h].desc == w.dev.imgs[h].desc
  {
    hide RoomFor, ArgsLive, PutsBack, Verified, Reachable, PicOk, UnseenRan;
    assert staged.imgs == w.dev.imgs;
    assert Mem(h, true) in NewArgs(w, plan, args) || ran.imgs[h] == staged.imgs[h];
  }

  /** A value points into a live allocation, or to its end. */
  predicate PointsInto(ops: seq<Op>, i: nat, v: Value)
    requires i <= |ops|
  {
    v.SvmPtr? && AllocatedBy(ops, i, v.handle).Allocated? && v.offset <= AllocatedBy(ops, i, v.handle).buf.size
  }

  /** In every run a launch checks and reports an SVM allocation if and only if it was not made by the
      detector, has not been freed, and some value of the launch points into any allocation; the report
      is then exact. */
  lemma EveryLaunchChecksSvm(states: seq<World>, ops: seq<Op>, reports: seq<Reports>, i: nat, h: nat)
    requires LaunchAt(states, ops, reports, i)
    ensures Pointer(h) in reports[i].lin
       <==> (exists v :: v in ops[i].values && PointsInto(ops, i, v))
            && AllocatedBy(ops, i, h).Allocated? && !AllocatedBy(ops, i, h).detectorInternal
    ensures Pointer(h) in reports[i].lin ==>
              NamesLeastChange(states[i].dev.mem, ops[i].ran.mem, AllocatedBy(ops, i, h).buf,
                               reports[i].lin[Pointer(h)])
  {
    hide WorldInv, Launches, LaunchAt, WholeRun, NamesLeastChange, AllocatedBy, PointsInto;
    LaunchIsInRun(states, ops, reports, i);
    LaunchFacts(states, ops, reports, i);
    RunTracksSvm(states, ops, reports, i, h);
    AnyPointer(states, ops, reports, i);
    var w, args := states[i], ArgsAt(states, ops, i);
    PointerReached(w.dev, args, h, AllocatedBy(ops, i, h));
    AllocatedAt(w.dev, h, AllocatedBy(ops, i, h));
    ReportsWhatLives(w, args, ops[i].plan, ops[i].staged, ops[i].ran, ops[i].checked, states[i + 1], reports[i], h);
    hide Reaches, TrackedSvm;
    if Pointer(h) in w.dev.lin {
      VisitedLinear(w, args, ops[i].plan, ops[i].staged, ops[i].ran, ops[i].checked, states[i + 1],
        reports[i], Pointer(h));
      if Pointer(h) in reports[i].lin { EveryLaunchReportsExactly(states, ops, reports, i, Pointer(h)); }
    }
  }

  lemma AllocatedAt(s: State, h: nat, a: Allocation)
    requires TrackedSvm(s, h, a)
    ensures Pointer(h) in s.lin <==> a.Allocated?
    ensures Pointer(h) in s.lin ==> s.lin[Pointer(h)] == a.buf
  {
  }

  lemma PointerReached(s: State, args: seq<Arg>, h: nat, a: Allocation)
    requires TrackedSvm(s, h, a)
    ensures Reaches(s, args, Pointer(h)) <==> AnySvm(args, |args|) && a.Allocated? && !a.detectorInternal
  {
    assert InTable(s, h, false) <==> a.Allocated? && !a.detectorInternal;
    hide TrackedSvm;
  }

  /** Only what is live is reported. */
  lemma ReportsWhatLives(w: World, args: seq<Arg>, plan: Plan, staged: State, ran: State, checked: State, t: World,
      r: Reports, h: nat)
    requires Launches(w, args, plan, staged, ran, checked, t, r)
    ensures Pointer(h) in r.lin ==> Pointer(h) in w.dev.lin
  {
    hide RoomFor, ArgsLive, PutsBack, BufCloned, ImgVerified, Valid, UnseenRan, Reachable;
    assert Pointer(h) in r.lin ==> Pointer(h) in staged.lin;
    BufCloneNames(w, args, plan);
    hide IsBufClone;
  }

  /** The launch has a pointer argument if and only if a value points into an allocation. */
  lemma AnyPointer(states: seq<World>, ops: seq<Op>, reports: seq<Reports>, i: nat)
    requires WholeRun(states, ops, reports) && i < |ops| && ops[i].Launch? && |states| == |ops| + 1
    ensures var args := ArgsAt(states, ops, i);
      AnySvm(args, |args|) <==> exists v :: v in ops[i].values && PointsInto(ops, i, v)
  {
    hide WholeRun, AllocatedBy;
    var w, values := states[i], ops[i].values;
    var args := ArgsAt(states, ops, i);
    if AnySvm(args, |args|) {
      var k :| 0 <= k < |args| && args[k].Svm?;
      PointerValues(w, values, args[k].handle, args[k].offset);
      RunTracksSvm(states, ops, reports, i, args[k].handle);
      AllocatedAt(w.dev, args[k].handle, AllocatedBy(ops, i, args[k].handle));
      assert PointsInto(ops, i, SvmPtr(args[k].handle, args[k].offset));
    }
    forall v | v in values && PointsInto(ops, i, v) ensures AnySvm(args, |args|) {
      PointerValues(w, values, v.handle, v.offset);
      RunTracksSvm(states, ops, reports, i, v.handle);
      AllocatedAt(w.dev, v.handle, AllocatedBy(ops, i, v.handle));
      var k :| 0 <= k < |args| && args[k] == Svm(v.handle, v.offset);
    }
  }

  /** In every run a launch visits a buffer with canaries if and only if its handle is among the values. */
  lemma EveryLaunchVisits(states: seq<World>, ops: seq<Op>, reports: seq<Reports>, i: nat, h: nat)
    requires LaunchAt(states, ops, reports, i) && NamedBy(ops, i, h).DeviceBuffer?
    ensures Buffer(h) in reports[i].lin <==> Bytes(HANDLE_SIZE, h) in ops[i].values
  {
    hide WorldInv, Launches, LaunchAt, WholeRun, NamedBy, ArgsOf;
    LaunchIsInRun(states, ops, reports, i);
    LaunchFacts(states, ops, reports, i);
    RunTracksHandles(states, ops, reports, i, h);
    BufferValues(states[i], ops[i].values, h);
    VisitedLinear(states[i], ArgsAt(states, ops, i), ops[i].plan, ops[i].staged, ops[i].ran, ops[i].checked,
      states[i + 1], reports[i], Buffer(h));
  }

  /** In every run, once an image over host memory has been created, no launch with a zero the size of a
      handle among its arguments comes to an end, until null is released. */
  lemma NullArgumentEndsRun(states: seq<World>, ops: seq<Op>, reports: seq<Reports>, i: nat)
    requires LaunchAt(states, ops, reports, i) && NullFiled(ops, i)
    ensures Bytes(HANDLE_SIZE, 0) !in ops[i].values
  {
    hide WorldInv, Launches, LaunchAt, WholeRun, NullFiled;
    LaunchIsInRun(states, ops, reports, i);
    LaunchFacts(states, ops, reports, i);
    RunTracksNull(states, ops, reports, i);
    LaunchHitsNoNull(states[i], ops[i].values, ops[i].plan, ops[i].staged, ops[i].ran, ops[i].checked,
      states[i + 1], reports[i]);
  }

  lemma LaunchHitsNoNull(w: World, values: seq<Value>, plan: Plan, staged: State, ran: State, checked: State,
      t: World, r: Reports)
    requires WorldInv(w) && Launches(w, ArgsOf(w, values), plan, staged, ran, checked, t, r)
    ensures !HitsNull(w, values)
  {
    hide Inv, HostPlaced, RoomFor, Stages, KernelRan, Verified, PutsBack;
    LiveUnlessNull(w, values);
  }
}
