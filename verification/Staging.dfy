/** What the values of a kernel's arguments name, and the poisoned clones that a launch puts in the place
    of buffers over the user's own memory. */
module Staging {
  import opened Canary
  import opened LinearBuffers
  import opened ImageGeometry
  import opened KernelArgs
  import opened RunModel

  /** A buffer created over host memory: size bytes from start on. */
  datatype HostBuffer = HostBuffer(start: nat, size: nat)

  /** Everything live: the device, the host buffers, and whether the table has a record under the null
      handle. clCreateImage files there what it creates over host memory. */
  datatype World = World(dev: State, host: map<nat, HostBuffer>, nullRecord: bool)

  /** The user's bytes: of a host buffer, and of an allocation with canaries. */
  function HostBytes(mem: seq<byte>, b: HostBuffer): (s: seq<byte>)
    requires b.start + b.size <= |mem|
    ensures |s| == b.size
  {
    mem[b.start..b.start + b.size]
  }

  function UserBytes(mem: seq<byte>, buf: Buf): (s: seq<byte>)
    requires InMemory(buf, |mem|)
    ensures |s| == buf.size
  {
    mem[buf.base + POISON_FILL_LENGTH..BackStart(buf)]
  }

  predicate InHost(b: HostBuffer, a: nat) { b.start <= a < b.start + b.size }

  predicate HostApart(b: HostBuffer, buf: Buf) { b.start + b.size <= buf.base || End(buf) <= b.start }

  predicate HostsApart(x: HostBuffer, y: HostBuffer) { x.start + x.size <= y.start || y.start + y.size <= x.start }

  /** A handle names at most one object, and null none. */
  predicate HandleFree(w: World, h: nat) {
    h != 0 && Buffer(h) !in w.dev.lin && h !in w.dev.imgs && h !in w.dev.unseen && h !in w.host
  }

  ghost predicate HandlesDistinct(w: World) {
    && (forall h | h in w.host :: h != 0 && Buffer(h) !in w.dev.lin && h !in w.dev.imgs && h !in w.dev.unseen)
    && (forall h | h in w.dev.unseen :: h != 0 && Buffer(h) !in w.dev.lin && h !in w.dev.imgs)
    && (forall h | h in w.dev.imgs :: h != 0 && Buffer(h) !in w.dev.lin)
    && Buffer(0) !in w.dev.lin
  }

  /** Host buffers lie in memory, apart from each other and from the device's allocations. */
  ghost predicate HostPlaced(w: World) {
    && (forall h | h in w.host :: w.host[h].start + w.host[h].size <= |w.dev.mem|)
    && (forall h, k | h in w.host && k in w.host && h != k :: HostsApart(w.host[h], w.host[k]))
    && (forall h, n | h in w.host && n in w.dev.lin :: HostApart(w.host[h], w.dev.lin[n]))
  }

  /** The invariant of every run. */
  ghost predicate WorldInv(w: World) { Inv(w.dev) && HandlesDistinct(w) && HostPlaced(w) }

  // ----- the values of the arguments -----

  /** What clSetKernelArg or clSetKernelArgSVMPointer was given: a size alone, a size and bytes read as
      a number, or a pointer so many bytes into an SVM allocation. */
  datatype Value = Local(size: nat) | Bytes(size: nat, bits: nat) | SvmPtr(handle: nat, offset: nat)

  const HANDLE_SIZE: nat := 8

  /** Bytes the size of a handle are looked up as one. The table lacks images over host memory; its
      range test for pointers takes in the end of an allocation. */
  function ArgOf(w: World, v: Value): Arg {
    match v
    case Local(_) => Plain
    case Bytes(size, bits) =>
      if size != HANDLE_SIZE then Plain
      else if Buffer(bits) in w.dev.lin || bits in w.host then Mem(bits, false)
      else if bits in w.dev.imgs || (bits == 0 && w.nullRecord) then Mem(bits, true)
      else if bits in w.dev.unseen then Unseen(bits)
      else Plain
    case SvmPtr(h, off) =>
      if Pointer(h) in w.dev.lin && off <= w.dev.lin[Pointer(h)].size then Svm(h, off) else Plain
  }

  function ArgsOf(w: World, values: seq<Value>): (args: seq<Arg>)
    ensures |args| == |values| && forall i | 0 <= i < |values| :: args[i] == ArgOf(w, values[i])
  {
    seq(|values|, i requires 0 <= i < |values| => ArgOf(w, values[i]))
  }

  /** A null handle, or any zero of that size, when the table has a record under it. */
  predicate HitsNull(w: World, values: seq<Value>) { w.nullRecord && Bytes(HANDLE_SIZE, 0) in values }

  // ----- the clones of a launch -----

  /** What the driver answers when a clone is created: handle and storage. */
  datatype Clone = Clone(handle: nat, storage: nat)

  /** The clones of a launch, and whether the kernel is duplicated to take them. */
  datatype Plan = Plan(duplicated: bool, bufs: map<nat, Clone>)

  /** The buffers a launch replaces. */
  predicate Replaces(w: World, args: seq<Arg>, h: nat) { h in w.host && Mem(h, false) in args }

  /** The images among the arguments are in the table under their own handles. */
  ghost predicate ImagesKnown(w: World, args: seq<Arg>) { forall h | Mem(h, true) in args :: h in w.dev.imgs }

  /** The kernel is duplicated: the record of some argument has no canary. */
  ghost predicate Duplicates(w: World, args: seq<Arg>) {
    (exists h :: Replaces(w, args, h)) || !ImagesKnown(w, args)
  }

  function CloneBuf(w: World, plan: Plan, h: nat): Buf
    requires h in w.host && h in plan.bufs
  {
    Buf(plan.bufs[h].storage, w.host[h].size)
  }

  /** The argument of the kernel that runs. A duplicate gets the base of an SVM allocation, wherever the
      user's pointer points. */
  function NewArg(w: World, plan: Plan, a: Arg): Arg {
    match a
    case Mem(h, isImage) => if !isImage && h in w.host && h in plan.bufs then Mem(plan.bufs[h].handle, false) else a
    case Svm(h, off) => if plan.duplicated then Svm(h, 0) else a
    case _ => a
  }

  function NewArgs(w: World, plan: Plan, args: seq<Arg>): (n: seq<Arg>)
    ensures |n| == |args| && forall i | 0 <= i < |args| :: n[i] == NewArg(w, plan, args[i])
  {
    seq(|args|, i requires 0 <= i < |args| => NewArg(w, plan, args[i]))
  }

  /** Arguments name live objects, images among them with canaries. */
  ghost predicate ArgsLive(w: World, args: seq<Arg>) {
    && Consistent(args)
    && (forall h | Mem(h, false) in args :: Buffer(h) in w.dev.lin || h in w.host)
    && ImagesKnown(w, args)
    && (forall h | Unseen(h) in args :: h in w.dev.unseen)
  }

  /** The driver finds room for the clone of buffer h, apart from everything live, under a new handle. */
  ghost predicate BufRoom(w: World, args: seq<Arg>, plan: Plan, h: nat)
    requires Replaces(w, args, h)
  {
    && h in plan.bufs && HandleFree(w, plan.bufs[h].handle) && InMemory(CloneBuf(w, plan, h), |w.dev.mem|)
    && (forall n | n in w.dev.lin :: Apart(w.dev.lin[n], CloneBuf(w, plan, h)))
    && (forall k | k in w.host :: HostApart(w.host[k], CloneBuf(w, plan, h)))
  }

  /** ... for every clone, and the kernel is duplicated if there are any. */
  ghost predicate RoomFor(w: World, args: seq<Arg>, plan: Plan) {
    && (forall h | Replaces(w, args, h) :: BufRoom(w, args, plan, h))
    && (forall h, k | Replaces(w, args, h) && Replaces(w, args, k) && h != k ::
          plan.bufs[h].handle != plan.bufs[k].handle && Apart(CloneBuf(w, plan, h), CloneBuf(w, plan, k)))
    && (plan.duplicated <==> Duplicates(w, args))
  }

  /** The clone of a host buffer: canaries around a copy of its bytes. */
  ghost predicate BufCloned(w: World, plan: Plan, h: nat, u: State) {
    && h in w.host && h in plan.bufs && Buffer(plan.bufs[h].handle) in u.lin
    && u.lin[Buffer(plan.bufs[h].handle)] == CloneBuf(w, plan, h)
    && InMemory(CloneBuf(w, plan, h), |u.mem|) && w.host[h].start + w.host[h].size <= |w.dev.mem|
    && LinClean(u.mem, CloneBuf(w, plan, h))
    && UserBytes(u.mem, CloneBuf(w, plan, h)) == HostBytes(w.dev.mem, w.host[h])
  }

  predicate InCloneStorage(w: World, args: seq<Arg>, plan: Plan, a: nat) {
    exists h :: h in w.host && Replaces(w, args, h) && h in plan.bufs && InStorage(CloneBuf(w, plan, h), a)
  }

  predicate IsBufClone(w: World, args: seq<Arg>, plan: Plan, n: Name) {
    exists h :: h in w.host && Replaces(w, args, h) && h in plan.bufs && n == Buffer(plan.bufs[h].handle)
  }

  /** The host buffers among the arguments have been cloned, and nothing else has changed. */
  ghost predicate Stages(w: World, args: seq<Arg>, plan: Plan, u: State) {
    && u.svms == w.dev.svms && |u.mem| == |w.dev.mem|
    && (forall n | n in w.dev.lin :: n in u.lin && u.lin[n] == w.dev.lin[n])
    && (forall h | Replaces(w, args, h) :: BufCloned(w, plan, h, u))
    && (forall n | n in u.lin && n !in w.dev.lin :: IsBufClone(w, args, plan, n))
    && (forall a | 0 <= a < |u.mem| && !InCloneStorage(w, args, plan, a) :: u.mem[a] == w.dev.mem[a])
    && u.imgs == w.dev.imgs && u.unseen == w.dev.unseen
  }

  predicate InReplaced(w: World, args: seq<Arg>, a: nat) {
    exists h :: h in w.host && Replaces(w, args, h) && InHost(w.host[h], a)
  }

  /** The bytes of a clone are back in the buffer it stands for. */
  ghost predicate BufReturned(w: World, plan: Plan, h: nat, before: seq<byte>, after: seq<byte>) {
    && h in w.host && h in plan.bufs && |after| == |before|
    && InMemory(CloneBuf(w, plan, h), |before|) && w.host[h].start + w.host[h].size <= |before|
    && HostBytes(after, w.host[h]) == UserBytes(before, CloneBuf(w, plan, h))
  }

  /** What the clones hold has been copied back to the buffers these arguments use. */
  ghost predicate BuffersBack(w: World, args: seq<Arg>, plan: Plan, v: State, mem: seq<byte>) {
    && |mem| == |v.mem|
    && (forall h | Replaces(w, args, h) :: BufReturned(w, plan, h, v.mem, mem))
    && (forall a | 0 <= a < |mem| && !InReplaced(w, args, a) :: mem[a] == v.mem[a])
  }

  /** Copied back, and the clones released. */
  ghost predicate PutsBack(w: World, args: seq<Arg>, plan: Plan, v: State, t: World) {
    && BuffersBack(w, args, plan, v, t.dev.mem) && t.host == w.host && t.nullRecord == w.nullRecord
    && t.dev.lin == w.dev.lin && t.dev.svms == w.dev.svms && t.dev.imgs == v.imgs && t.dev.unseen == v.unseen
  }

  /** A whole launch: clone the host buffers, run, check and mend, copy back, release. */
  ghost predicate Launches(w: World, args: seq<Arg>, plan: Plan, staged: State, ran: State, checked: State,
      t: World, r: Reports)
  {
    && ArgsLive(w, args) && RoomFor(w, args, plan)
    && Stages(w, args, plan, staged)
    && KernelRan(staged, NewArgs(w, plan, args), ran)
    && Verified(ran, NewArgs(w, plan, args), checked, r)
    && PutsBack(w, args, plan, checked, t)
  }

  // ----- what the values name -----

  /** The images a launch is told of: those of its table, and the null record's. */
  lemma ImageValues(w: World, values: seq<Value>, h: nat)
    requires HandlesDistinct(w)
    ensures Mem(h, true) in ArgsOf(w, values)
       <==> Bytes(HANDLE_SIZE, h) in values && (h in w.dev.imgs || (h == 0 && w.nullRecord))
    ensures Unseen(h) in ArgsOf(w, values) <==> Bytes(HANDLE_SIZE, h) in values && h in w.dev.unseen
  {
    var args := ArgsOf(w, values);
    forall i | 0 <= i < |values|
      ensures args[i] == Mem(h, true)
         <==> values[i] == Bytes(HANDLE_SIZE, h) && (h in w.dev.imgs || (h == 0 && w.nullRecord))
      ensures args[i] == Unseen(h) <==> values[i] == Bytes(HANDLE_SIZE, h) && h in w.dev.unseen
    {
      assert Buffer(0) !in w.dev.lin && 0 !in w.host;
    }
    hide HandlesDistinct, ArgOf, ArgsOf;
    if Bytes(HANDLE_SIZE, h) in values {
      var i :| 0 <= i < |values| && values[i] == Bytes(HANDLE_SIZE, h);
      assert args[i] in args;
    }
  }

  /** The buffers a launch is told of: those of the table, with canaries or over host memory. */
  lemma BufferValues(w: World, values: seq<Value>, h: nat)
    ensures Mem(h, false) in ArgsOf(w, values)
       <==> Bytes(HANDLE_SIZE, h) in values && (Buffer(h) in w.dev.lin || h in w.host)
  {
    var args := ArgsOf(w, values);
    assert forall i | 0 <= i < |values| ::
              args[i] == Mem(h, false)
              <==> values[i] == Bytes(HANDLE_SIZE, h) && (Buffer(h) in w.dev.lin || h in w.host);
    hide ArgOf, ArgsOf;
    if Bytes(HANDLE_SIZE, h) in values {
      var i :| 0 <= i < |values| && values[i] == Bytes(HANDLE_SIZE, h);
      assert args[i] in args;
    }
  }

  /** The pointers: those into an allocation of the table, or to its end. */
  lemma PointerValues(w: World, values: seq<Value>, h: nat, off: nat)
    ensures Svm(h, off) in ArgsOf(w, values)
       <==> SvmPtr(h, off) in values && Pointer(h) in w.dev.lin && off <= w.dev.lin[Pointer(h)].size
  {
    var args := ArgsOf(w, values);
    assert forall i | 0 <= i < |values| ::
              args[i] == Svm(h, off)
              <==> values[i] == SvmPtr(h, off) && Pointer(h) in w.dev.lin && off <= w.dev.lin[Pointer(h)].size;
    hide ArgOf, ArgsOf;
    if SvmPtr(h, off) in values {
      var i :| 0 <= i < |values| && values[i] == SvmPtr(h, off);
      assert args[i] in args;
    }
  }

  /** Every value names something live or nothing, unless it is a zero and there is a null record. */
  lemma LiveUnlessNull(w: World, values: seq<Value>)
    requires HandlesDistinct(w)
    ensures ArgsLive(w, ArgsOf(w, values)) <==> !HitsNull(w, values)
  {
    ImageValues(w, values, 0);
    forall h | Mem(h, true) in ArgsOf(w, values) ensures h in w.dev.imgs || (h == 0 && HitsNull(w, values)) {
      ImageValues(w, values, h);
    }
    forall h | Unseen(h) in ArgsOf(w, values) ensures h in w.dev.unseen { ImageValues(w, values, h); }
  }

  lemma KnownUnlessNull(w: World, values: seq<Value>)
    requires HandlesDistinct(w)
    ensures ImagesKnown(w, ArgsOf(w, values)) <==> !HitsNull(w, values)
    ensures Consistent(ArgsOf(w, values))
  {
    ImageValues(w, values, 0);
    forall h | Mem(h, true) in ArgsOf(w, values) ensures h in w.dev.imgs || (h == 0 && HitsNull(w, values)) {
      ImageValues(w, values, h);
    }
  }

  // ----- staging keeps the invariant -----

  lemma UserExtentInside(d: Desc)
    requires UserDesc(d)
    ensures PicDims(d).iDat == d.width && PicDims(d).jDat == JLim(d) && PicDims(d).kDat == KLim(d)
    ensures forall p: Pixel | InImage(UserDims(d), p) :: InImage(PicDims(d), p) && InUser(PicDims(d), p)
  {
    ExpandedDims(IMAGE_PAD, d);
  }

  lemma StagedOldClean(w: World, args: seq<Arg>, plan: Plan, u: State, n: Name)
    requires WorldInv(w) && RoomFor(w, args, plan) && Stages(w, args, plan, u) && n in w.dev.lin
    ensures LinClean(u.mem, w.dev.lin[n])
  {
    assert LinClean(w.dev.mem, w.dev.lin[n]) && InMemory(w.dev.lin[n], |w.dev.mem|);
    forall a: nat | a < |u.mem| && InCanary(w.dev.lin[n], a) ensures !InCloneStorage(w, args, plan, a) {
      OldStorageNotCloned(w, args, plan, n, a);
    }
    hide WorldInv, RoomFor, InCloneStorage;
  }

  lemma OldStorageNotCloned(w: World, args: seq<Arg>, plan: Plan, n: Name, a: nat)
    requires RoomFor(w, args, plan) && n in w.dev.lin && InStorage(w.dev.lin[n], a)
    ensures !InCloneStorage(w, args, plan, a)
  {
    forall h | h in w.host && Replaces(w, args, h) && h in plan.bufs ensures !InStorage(CloneBuf(w, plan, h), a) {
      assert BufRoom(w, args, plan, h);
    }
  }

  lemma HostBytesNotCloned(w: World, args: seq<Arg>, plan: Plan, k: nat, a: nat)
    requires RoomFor(w, args, plan) && k in w.host && InHost(w.host[k], a)
    ensures !InCloneStorage(w, args, plan, a)
  {
    forall h | h in w.host && Replaces(w, args, h) && h in plan.bufs ensures !InStorage(CloneBuf(w, plan, h), a) {
      assert BufRoom(w, args, plan, h);
    }
  }

  /** Every linear object of the stage is an old one or a clone with room of its own. */
  lemma StagedPlaced(w: World, args: seq<Arg>, plan: Plan, u: State, n: Name)
    requires WorldInv(w) && RoomFor(w, args, plan) && Stages(w, args, plan, u) && n in u.lin
    ensures InMemory(u.lin[n], |u.mem|) && LinClean(u.mem, u.lin[n])
    ensures n !in w.dev.lin ==> exists h :: ClonePlaced(w, args, plan, n, u.lin[n], h)
  {
    if n in w.dev.lin {
      StagedOldClean(w, args, plan, u, n);
      assert InMemory(w.dev.lin[n], |w.dev.mem|);
    } else {
      assert IsBufClone(w, args, plan, n);
      var h :| h in w.host && Replaces(w, args, h) && h in plan.bufs && n == Buffer(plan.bufs[h].handle);
      assert BufCloned(w, plan, h, u) && BufRoom(w, args, plan, h);
      assert ClonePlaced(w, args, plan, n, u.lin[n], h);
    }
  }

  /** A clone of its own. */
  ghost predicate ClonePlaced(w: World, args: seq<Arg>, plan: Plan, n: Name, buf: Buf, h: nat) {
    && h in w.host && Replaces(w, args, h) && BufRoom(w, args, plan, h)
    && n == Buffer(plan.bufs[h].handle) && buf == CloneBuf(w, plan, h)
  }

  lemma ClonesApart(w: World, args: seq<Arg>, plan: Plan, n: Name, k: Name, x: Buf, y: Buf, h: nat, g: nat)
    requires RoomFor(w, args, plan) && ClonePlaced(w, args, plan, n, x, h) && ClonePlaced(w, args, plan, k, y, g)
      && n != k
    ensures Apart(x, y)
  {
    assert h != g;
    hide BufRoom;
  }

  lemma StagedApart(w: World, args: seq<Arg>, plan: Plan, u: State, n: Name, k: Name)
    requires WorldInv(w) && RoomFor(w, args, plan) && Stages(w, args, plan, u) && n in u.lin && k in u.lin && n != k
    ensures Apart(u.lin[n], u.lin[k])
  {
    StagedPlaced(w, args, plan, u, n);
    StagedPlaced(w, args, plan, u, k);
    assert n in w.dev.lin ==> u.lin[n] == w.dev.lin[n];
    assert k in w.dev.lin ==> u.lin[k] == w.dev.lin[k];
    assert n in w.dev.lin && k in w.dev.lin ==> Apart(w.dev.lin[n], w.dev.lin[k]);
    hide WorldInv, Stages, InMemory, LinClean, Apart, RoomFor, Replaces;
    if n !in w.dev.lin {
      var h :| ClonePlaced(w, args, plan, n, u.lin[n], h);
      if k !in w.dev.lin {
        var g :| ClonePlaced(w, args, plan, k, u.lin[k], g);
        ClonesApart(w, args, plan, n, k, u.lin[n], u.lin[k], h, g);
      } else {
        ApartSymmetric(u.lin[k], u.lin[n]);
      }
    } else if k !in w.dev.lin {
      var g :| ClonePlaced(w, args, plan, k, u.lin[k], g);
    }
  }

  lemma ApartSymmetric(x: Buf, y: Buf)
    ensures Apart(x, y) <==> Apart(y, x)
  {
  }

  /** The stage has clean canaries all over, the clones' included. */
  lemma StagesKeeps(w: World, args: seq<Arg>, plan: Plan, u: State)
    requires WorldInv(w) && RoomFor(w, args, plan) && Stages(w, args, plan, u)
    ensures Inv(u)
  {
    hide PicOk, PicClean, LinClean, Apart, InMemory, RoomFor, WorldInv, Stages, ClonePlaced;
    StagedSvms(w, args, plan, u);
    forall n | n in u.lin
      ensures InMemory(u.lin[n], |u.mem|) && LinClean(u.mem, u.lin[n])
    {
      StagedPlaced(w, args, plan, u, n);
    }
    forall n, k | n in u.lin && k in u.lin && n != k
      ensures Apart(u.lin[n], u.lin[k])
    {
      StagedApart(w, args, plan, u, n, k);
    }
    TableKept(w, u);
    StagedImages(w, args, plan, u);
  }

  lemma StagedSvms(w: World, args: seq<Arg>, plan: Plan, u: State)
    requires Stages(w, args, plan, u)
    ensures u.svms == w.dev.svms && forall n | n in w.dev.lin :: n in u.lin
  {
  }

  lemma StagedImages(w: World, args: seq<Arg>, plan: Plan, u: State)
    requires WorldInv(w) && Stages(w, args, plan, u)
    ensures u.imgs == w.dev.imgs && u.unseen == w.dev.unseen && PicturesInv(u)
  {
    hide PicOk, PicClean, HostPicOk;
  }

  /** The invariant of the images. */
  ghost predicate PicturesInv(u: State) {
    && UnseenOk(u.unseen)
    && forall k | k in u.imgs ::
         PicOk(u.imgs[k]) && ((IsArray(u.imgs[k].desc.kind) && !u.imgs[k].checked) || PicClean(u.imgs[k]))
  }

  lemma TableKept(w: World, u: State)
    requires WorldInv(w) && u.svms == w.dev.svms && forall n | n in w.dev.lin :: n in u.lin
    ensures forall i | 0 <= i < |u.svms| :: Pointer(u.svms[i].handle) in u.lin
    ensures forall i, j | 0 <= i < j < |u.svms| :: u.svms[i].handle != u.svms[j].handle
  {
  }

  // ----- putting back keeps it too -----

  lemma OldStorageNotReplaced(w: World, args: seq<Arg>, n: Name, a: nat)
    requires WorldInv(w) && n in w.dev.lin && InStorage(w.dev.lin[n], a)
    ensures !InReplaced(w, args, a)
  {
    forall h | h in w.host ensures !InHost(w.host[h], a) {
      assert HostApart(w.host[h], w.dev.lin[n]);
    }
  }

  lemma ReturnedClean(w: World, args: seq<Arg>, plan: Plan, v: State, t: World, n: Name)
    requires WorldInv(w) && Inv(v) && PutsBack(w, args, plan, v, t) && n in w.dev.lin && n in v.lin
      && v.lin[n] == w.dev.lin[n]
    ensures InMemory(w.dev.lin[n], |t.dev.mem|) && LinClean(t.dev.mem, w.dev.lin[n])
  {
    assert InMemory(v.lin[n], |v.mem|) && LinClean(v.mem, v.lin[n]);
    forall a: nat | InCanary(w.dev.lin[n], a) ensures !InReplaced(w, args, a) { OldStorageNotReplaced(w, args, n, a); }
    hide WorldInv, Inv, InReplaced;
  }

  lemma ReturnedImages(w: World, args: seq<Arg>, plan: Plan, v: State, t: World)
    requires Inv(v) && PutsBack(w, args, plan, v, t)
    ensures t.dev.imgs == v.imgs && t.dev.unseen == v.unseen && PicturesInv(t.dev)
  {
    hide PicOk, PicClean, HostPicOk, BuffersBack;
  }

  lemma PutsBackKeeps(w: World, args: seq<Arg>, plan: Plan, v: State, t: World)
    requires WorldInv(w) && Inv(v) && PutsBack(w, args, plan, v, t) && |v.mem| == |w.dev.mem|
    requires forall n | n in w.dev.lin :: n in v.lin && v.lin[n] == w.dev.lin[n]
    requires v.imgs.Keys == w.dev.imgs.Keys && v.unseen.Keys == w.dev.unseen.Keys
    ensures WorldInv(t)
  {
    hide PicturesInv, WorldInv, Inv, InMemory, LinClean, BuffersBack;
    BackSize(w, args, plan, v, t.dev.mem);
    forall n | n in t.dev.lin ensures InMemory(t.dev.lin[n], |t.dev.mem|) && LinClean(t.dev.mem, t.dev.lin[n]) {
      ReturnedClean(w, args, plan, v, t, n);
    }
    ReturnedImages(w, args, plan, v, t);
    TableKept(w, t.dev);
    WorldKept(w, t);
  }

  lemma BackSize(w: World, args: seq<Arg>, plan: Plan, v: State, mem: seq<byte>)
    requires BuffersBack(w, args, plan, v, mem)
    ensures |mem| == |v.mem|
  {
  }

  lemma WorldKept(w: World, t: World)
    requires WorldInv(w) && |t.dev.mem| == |w.dev.mem| && t.dev.lin == w.dev.lin && t.dev.svms == w.dev.svms
    requires t.dev.imgs.Keys == w.dev.imgs.Keys && t.dev.unseen.Keys == w.dev.unseen.Keys && t.host == w.host
    requires forall n | n in t.dev.lin :: InMemory(t.dev.lin[n], |t.dev.mem|) && LinClean(t.dev.mem, t.dev.lin[n])
    requires PicturesInv(t.dev)
    ensures WorldInv(t)
  {
    hide PicOk, PicClean, HostPicOk, UnseenOk, LinClean, Apart, HostApart, HostsApart;
  }

  /** A launch of any kernel keeps the invariant, whatever its arguments are made of. */
  lemma LaunchesKeeps(w: World, args: seq<Arg>, plan: Plan, staged: State, ran: State, checked: State, t: World,
      r: Reports)
    requires WorldInv(w) && Launches(w, args, plan, staged, ran, checked, t, r)
    ensures Inv(staged) && Inv(checked) && WorldInv(t)
  {
    StagesKeeps(w, args, plan, staged);
    LaunchKeeps(staged, NewArgs(w, plan, args), ran, checked, r);
    assert checked.unseen.Keys == w.dev.unseen.Keys;
    hide Inv, WorldInv, RoomFor, PutsBack, ArgsLive;
    PutsBackKeeps(w, args, plan, checked, t);
  }

  /** After the check every canary of the stage is the fill, the clones' included, and so is every
      canary of an image argument, array images not excepted. */
  lemma ArgumentsMended(w: World, args: seq<Arg>, plan: Plan, staged: State, ran: State, checked: State,
      t: World, r: Reports)
    requires WorldInv(w) && Launches(w, args, plan, staged, ran, checked, t, r)
    ensures forall n | n in checked.lin ::
              InMemory(checked.lin[n], |checked.mem|) && LinClean(checked.mem, checked.lin[n])
    ensures forall k | k in checked.imgs && Mem(k, true) in NewArgs(w, plan, args) ::
              PicOk(checked.imgs[k]) && PicClean(checked.imgs[k])
    ensures forall n | n in t.dev.lin :: InMemory(t.dev.lin[n], |t.dev.mem|) && LinClean(t.dev.mem, t.dev.lin[n])
  {
    LaunchesKeeps(w, args, plan, staged, ran, checked, t, r);
    forall k | k in checked.imgs && Mem(k, true) in NewArgs(w, plan, args) ensures checked.imgs[k].checked {
      assert ImageChecked(ran.imgs[k], checked.imgs[k], r.imgs[k]);
    }
    hide ArgsLive, RoomFor, Stages, KernelRan, PutsBack, PicOk, PicClean, LinClean, NewArgs, HandlesDistinct,
         HostPlaced;
  }

  // ----- what a launch reports and returns -----

  lemma NewArgAt(w: World, plan: Plan, args: seq<Arg>, a: Arg)
    requires a in args
    ensures NewArg(w, plan, a) in NewArgs(w, plan, args)
  {
    var i :| 0 <= i < |args| && args[i] == a;
    assert NewArgs(w, plan, args)[i] == NewArg(w, plan, a);
  }

  lemma AnySvmKept(w: World, plan: Plan, args: seq<Arg>)
    ensures AnySvm(NewArgs(w, plan, args), |args|) <==> AnySvm(args, |args|)
  {
    var n := NewArgs(w, plan, args);
    if AnySvm(args, |args|) {
      var i :| 0 <= i < |args| && args[i].Svm?;
      assert n[i].Svm?;
    }
    if AnySvm(n, |args|) {
      var i :| 0 <= i < |args| && n[i].Svm?;
      assert args[i].Svm?;
    }
  }

  /** What the user's arguments reach, the new arguments reach. */
  lemma OldStillReached(w: World, args: seq<Arg>, plan: Plan, staged: State, n: Name)
    requires WorldInv(w) && Stages(w, args, plan, staged) && n in w.dev.lin && Reaches(w.dev, args, n)
    ensures n in staged.lin && staged.lin[n] == w.dev.lin[n] && Reaches(staged, NewArgs(w, plan, args), n)
  {
    AnySvmKept(w, plan, args);
    match n {
      case Buffer(h) => NewArgAt(w, plan, args, Mem(h, false));
      case Pointer(h) =>
    }
    hide Inv;
  }

  lemma CloneReached(w: World, args: seq<Arg>, plan: Plan, staged: State, h: nat)
    requires Stages(w, args, plan, staged) && Replaces(w, args, h)
    ensures BufCloned(w, plan, h, staged) && Reaches(staged, NewArgs(w, plan, args), Buffer(plan.bufs[h].handle))
  {
    assert BufCloned(w, plan, h, staged);
    NewArgAt(w, plan, args, Mem(h, false));
  }

  /** A buffer or allocation with canaries is reported if and only if the kernel changed one of its
      canary bytes; the report is the least changed canary offset. */
  lemma LaunchReports(w: World, args: seq<Arg>, plan: Plan, staged: State, ran: State, checked: State, t: World,
      r: Reports, n: Name)
    requires WorldInv(w) && Launches(w, args, plan, staged, ran, checked, t, r) && n in w.dev.lin
      && Reaches(w.dev, args, n)
    ensures n in r.lin && NamesLeastChange(w.dev.mem, ran.mem, w.dev.lin[n], r.lin[n])
  {
    OldStillReached(w, args, plan, staged, n);
    CheckReports(staged, NewArgs(w, plan, args), ran, checked, r, n);
    assert LinClean(w.dev.mem, w.dev.lin[n]) && InMemory(w.dev.lin[n], |w.dev.mem|) && |ran.mem| == |w.dev.mem|;
    hide WorldInv, Launches, LinClean, InMemory, Expected, Reaches;
    ReportOfClean(w.dev.mem, ran.mem, w.dev.lin[n]);
  }

  lemma CheckReports(staged: State, newArgs: seq<Arg>, ran: State, checked: State, r: Reports, n: Name)
    requires KernelRan(staged, newArgs, ran) && Verified(ran, newArgs, checked, r) && n in staged.lin
      && Reaches(staged, newArgs, n)
    ensures n in r.lin && n in ran.lin && InMemory(staged.lin[n], |ran.mem|)
      && r.lin[n] == Expected(ran.mem, staged.lin[n])
  {
    assert Reaches(ran, newArgs, n);
    hide Valid, ImgVerified, Expected, Reachable;
  }

  /** A launch visits a buffer or allocation with canaries if and only if its arguments reach it. */
  lemma VisitedLinear(w: World, args: seq<Arg>, plan: Plan, staged: State, ran: State, checked: State, t: World,
      r: Reports, n: Name)
    requires WorldInv(w) && Launches(w, args, plan, staged, ran, checked, t, r) && n in w.dev.lin
    ensures n in r.lin <==> Reaches(w.dev, args, n)
  {
    hide WorldInv, Reaches, Stages, RoomFor, ArgsLive, PutsBack, KernelRan, ImgVerified, Valid, NewArgs;
    if Reaches(w.dev, args, n) { LaunchReports(w, args, plan, staged, ran, checked, t, r, n); }
    if n in r.lin {
      SameSvmTable(w, args, plan, staged, ran);
      ReachedBefore(w, args, plan, ran, n);
    }
  }

  lemma SameSvmTable(w: World, args: seq<Arg>, plan: Plan, staged: State, ran: State)
    requires Stages(w, args, plan, staged) && KernelRan(staged, NewArgs(w, plan, args), ran)
    ensures ran.svms == w.dev.svms
  {
  }

  /** What the new arguments reach of the user's, the user's arguments reach. */
  lemma ReachedBefore(w: World, args: seq<Arg>, plan: Plan, ran: State, n: Name)
    requires ran.svms == w.dev.svms && n in w.dev.lin && RoomFor(w, args, plan)
      && Reaches(ran, NewArgs(w, plan, args), n)
    ensures Reaches(w.dev, args, n)
  {
    AnySvmKept(w, plan, args);
    match n {
      case Buffer(h) =>
        var newArgs := NewArgs(w, plan, args);
        var i :| 0 <= i < |args| && newArgs[i] == Mem(h, false);
        if args[i] != Mem(h, false) { CloneIsNoUsers(w, args, plan, args[i]); }
      case Pointer(_) =>
    }
  }

  lemma CloneIsNoUsers(w: World, args: seq<Arg>, plan: Plan, a: Arg)
    requires RoomFor(w, args, plan) && a in args && a.Mem? && NewArg(w, plan, a) != a
    ensures NewArg(w, plan, a).Mem? && HandleFree(w, NewArg(w, plan, a).handle)
  {
    assert Replaces(w, args, a.handle) && BufRoom(w, args, plan, a.handle);
  }

  /** A buffer without a canary is reported by its clone's handle: the report names the least byte of
      the clone's canary that the kernel changed, and so left different from the fill. */
  ghost predicate HostReported(w: World, plan: Plan, h: nat, staged: State, ran: State, r: Reports) {
    && h in w.host && h in plan.bufs && Buffer(plan.bufs[h].handle) in r.lin
    && LeftByKernel(staged.mem, ran.mem, CloneBuf(w, plan, h), r.lin[Buffer(plan.bufs[h].handle)])
  }

  ghost predicate LeftByKernel(staged: seq<byte>, ran: seq<byte>, clone: Buf, report: nat) {
    && InMemory(clone, |ran|) && NamesLeastChange(staged, ran, clone, report)
    && (report == INT_MAX <==> forall p: nat | p < CANARY_LENGTH :: ran[CanaryAddr(clone, p)] == FILL)
    && (report != INT_MAX ==> report < CANARY_LENGTH && ran[CanaryAddr(clone, report)] != FILL)
    && (forall p: nat | p < CANARY_LENGTH && p < report :: ran[CanaryAddr(clone, p)] == FILL)
  }

  lemma HostBufferReports(w: World, args: seq<Arg>, plan: Plan, staged: State, ran: State, checked: State,
      t: World, r: Reports, h: nat)
    requires WorldInv(w) && Launches(w, args, plan, staged, ran, checked, t, r) && Replaces(w, args, h)
    ensures HostReported(w, plan, h, staged, ran, r)
  {
    CloneReached(w, args, plan, staged, h);
    var n, clone := Buffer(plan.bufs[h].handle), CloneBuf(w, plan, h);
    CheckReports(staged, NewArgs(w, plan, args), ran, checked, r, n);
    assert LinClean(staged.mem, clone) && InMemory(clone, |ran.mem|) && |ran.mem| == |staged.mem|;
    hide WorldInv, Launches, LinClean, Expected, Reaches, BufCloned, LeftByKernel;
    CleanReport(staged.mem, ran.mem, clone);
  }

  lemma CleanReport(before: seq<byte>, mem: seq<byte>, buf: Buf)
    requires |before| == |mem| && InMemory(buf, |mem|) && LinClean(before, buf)
    ensures LeftByKernel(before, mem, buf, Expected(mem, buf))
  {
    ReportOfClean(before, mem, buf);
    CanaryAddrsIn(buf, |mem|);
    var bytes := CanaryBytes(mem, buf);
    assert forall p | 0 <= p < CANARY_LENGTH :: bytes[p] == mem[CanaryAddr(buf, p)];
    hide NamesLeastChange, LinClean;
  }

  /** Image h is reported if and only if, after the kernel, one of its canary pixels is not the fill. */
  ghost predicate PictureReported(ran: State, r: Reports, h: nat) {
    h in r.imgs && h in ran.imgs && PicOk(ran.imgs[h]) && (r.imgs[h] != INT_MAX <==> !PicClean(ran.imgs[h]))
  }

  lemma ImageArgKept(w: World, args: seq<Arg>, plan: Plan, staged: State, h: nat)
    requires WorldInv(w) && ArgsLive(w, args) && Stages(w, args, plan, staged) && Mem(h, true) in args
    ensures staged.imgs == w.dev.imgs && h in staged.imgs && Mem(h, true) in NewArgs(w, plan, args)
  {
    NewArgAt(w, plan, args, Mem(h, true));
    hide Inv, BufCloned, HostPlaced;
  }

  lemma LaunchReportsPicture(w: World, args: seq<Arg>, plan: Plan, staged: State, ran: State, checked: State,
      t: World, r: Reports, h: nat)
    requires WorldInv(w) && Launches(w, args, plan, staged, ran, checked, t, r) && Mem(h, true) in args
    ensures PictureReported(ran, r, h)
  {
    hide WorldInv, Inv, PutsBack, RoomFor, ArgsLive, Stages, KernelRan, Verified, NewArg, NewArgs, PictureReported;
    ImageArgKept(w, args, plan, staged, h);
    StagesKeeps(w, args, plan, staged);
    PictureIsReported(staged, NewArgs(w, plan, args), ran, checked, r, h);
  }

  lemma PictureIsReported(staged: State, newArgs: seq<Arg>, ran: State, checked: State, r: Reports, k: nat)
    requires Inv(staged) && KernelRan(staged, newArgs, ran) && Verified(ran, newArgs, checked, r) && k in staged.imgs
      && Mem(k, true) in newArgs
    ensures PictureReported(ran, r, k)
  {
    assert k in ran.imgs;
    hide Inv, KernelRan, Verified, PicOk, PicClean;
    LaunchReportsImage(staged, newArgs, ran, checked, r, k);
  }

  /** An image clean before the kernel: the report is that the kernel changed one of its canary pixels. */
  ghost predicate PictureChangeReported(before: State, ran: State, r: Reports, h: nat) {
    && h in r.imgs && h in before.imgs && h in ran.imgs
    && (r.imgs[h] != INT_MAX <==> exists p: Pixel :: CanaryPixelChanged(before.imgs[h], ran.imgs[h], p))
  }

  /** Only array images no launch has visited are reported for any other reason. */
  lemma LaunchReportsChange(w: World, args: seq<Arg>, plan: Plan, staged: State, ran: State, checked: State,
      t: World, r: Reports, h: nat)
    requires WorldInv(w) && Launches(w, args, plan, staged, ran, checked, t, r) && Mem(h, true) in args
    ensures h in w.dev.imgs
    ensures !IsArray(w.dev.imgs[h].desc.kind) || w.dev.imgs[h].checked ==> PictureChangeReported(w.dev, ran, r, h)
  {
    hide WorldInv, Inv, PutsBack, RoomFor, ArgsLive, Stages, KernelRan, Verified, NewArg, NewArgs, CanaryPixelChanged;
    ImageArgKept(w, args, plan, staged, h);
    StagesKeeps(w, args, plan, staged);
    if !IsArray(staged.imgs[h].desc.kind) || staged.imgs[h].checked {
      CleanImageReports(staged, NewArgs(w, plan, args), ran, checked, r, h);
    }
  }

  /** A launch visits an image if and only if it is passed as an argument and has a canary. */
  lemma VisitedImages(w: World, args: seq<Arg>, plan: Plan, staged: State, ran: State, checked: State,
      t: World, r: Reports, h: nat)
    requires WorldInv(w) && Launches(w, args, plan, staged, ran, checked, t, r)
    ensures h in r.imgs <==> h in w.dev.imgs && Mem(h, true) in args
  {
    assert staged.imgs == w.dev.imgs && ran.imgs.Keys == staged.imgs.Keys;
    ImageArgsKept(w, args, plan, h);
    hide WorldInv, PutsBack, RoomFor, ArgsLive, Stages, NewArgs, LinVerified, UnseenRan, Valid;
  }

  lemma ImageArgsKept(w: World, args: seq<Arg>, plan: Plan, h: nat)
    ensures Mem(h, true) in NewArgs(w, plan, args) <==> Mem(h, true) in args
    ensures Unseen(h) in NewArgs(w, plan, args) <==> Unseen(h) in args
  {
    var newArgs := NewArgs(w, plan, args);
    if Mem(h, true) in args { NewArgAt(w, plan, args, Mem(h, true)); }
    if Unseen(h) in args { NewArgAt(w, plan, args, Unseen(h)); }
    assert forall i | 0 <= i < |args| && (newArgs[i] == Mem(h, true) || newArgs[i] == Unseen(h)) ::
              args[i] == newArgs[i];
  }

  /** Check and clones leave an image over host memory as the kernel left it, its surroundings unseen. */
  lemma UnseenAsLeft(w: World, args: seq<Arg>, plan: Plan, staged: State, ran: State, checked: State,
      t: World, r: Reports, h: nat)
    requires WorldInv(w) && Launches(w, args, plan, staged, ran, checked, t, r) && h in w.dev.unseen
    ensures h !in r.imgs && h in ran.unseen && h in t.dev.unseen && t.dev.unseen[h] == ran.unseen[h]
    ensures Unseen(h) !in args ==> t.dev.unseen[h] == w.dev.unseen[h]
  {
    VisitedImages(w, args, plan, staged, ran, checked, t, r, h);
    ImageArgsKept(w, args, plan, h);
    assert h !in w.dev.imgs && staged.unseen == w.dev.unseen && UnseenRan(staged, NewArgs(w, plan, args), ran);
    hide WorldInv, RoomFor, ArgsLive, Stages, NewArgs, LinVerified, ImgVerified, Valid, BuffersBack, HostPicOk;
  }

  // ----- user data -----

  /** Host buffer h holds, from its start on, the user bytes of its clone. */
  ghost predicate HoldsClone(w: World, plan: Plan, h: nat, ran: seq<byte>, mem: seq<byte>) {
    && h in w.host && h in plan.bufs && w.host[h].start + w.host[h].size <= |mem|
    && InMemory(CloneBuf(w, plan, h), |ran|)
    && HostBytes(mem, w.host[h]) == UserBytes(ran, CloneBuf(w, plan, h))
  }

  /** A host buffer ends with what the kernel left in its clone: mending does not touch it. */
  lemma HostBytesReturn(w: World, args: seq<Arg>, plan: Plan, staged: State, ran: State, checked: State,
      t: World, r: Reports, h: nat)
    requires Launches(w, args, plan, staged, ran, checked, t, r) && Replaces(w, args, h)
    ensures HoldsClone(w, plan, h, ran.mem, t.dev.mem)
  {
    CloneReached(w, args, plan, staged, h);
    assert BufReturned(w, plan, h, checked.mem, t.dev.mem);
    assert KernelRan(staged, NewArgs(w, plan, args), ran) && Verified(ran, NewArgs(w, plan, args), checked, r);
    assert staged.lin[Buffer(plan.bufs[h].handle)] == CloneBuf(w, plan, h);
    hide Launches, Verified, KernelRan, Reaches;
    CheckKeepsUserBytes(staged, NewArgs(w, plan, args), ran, checked, r, Buffer(plan.bufs[h].handle));
    hide HostBytes, UserBytes, InMemory;
  }

  /** Check and mend leave an object's user bytes as the kernel left them. */
  lemma CheckKeepsUserBytes(staged: State, args: seq<Arg>, ran: State, checked: State, r: Reports, n: Name)
    requires KernelRan(staged, args, ran) && Verified(ran, args, checked, r) && n in staged.lin
    ensures |checked.mem| == |ran.mem| && InMemory(staged.lin[n], |ran.mem|)
    ensures UserBytes(checked.mem, staged.lin[n]) == UserBytes(ran.mem, staged.lin[n])
  {
    assert Valid(ran) && InMemory(ran.lin[n], |ran.mem|) && |checked.mem| == |ran.mem|;
    forall a: nat | InUserBytes(staged.lin[n], a) ensures checked.mem[a] == ran.mem[a] {
      LaunchKeepsUserBytes(ran, args, checked, r, n, a);
    }
    hide Verified, Valid, KernelRan;
  }

  /** Whatever the kernel does, memory it cannot reach and no clone stands for keeps its bytes: a wild
      store within the storage of a clone never gets to host memory. */
  lemma HostMemorySafe(w: World, args: seq<Arg>, plan: Plan, staged: State, ran: State, checked: State,
      t: World, r: Reports, a: nat)
    requires Launches(w, args, plan, staged, ran, checked, t, r) && a < |w.dev.mem|
    requires !Reachable(staged, NewArgs(w, plan, args), a) && !InReplaced(w, args, a)
    ensures a < |t.dev.mem| && t.dev.mem[a] == w.dev.mem[a]
  {
    var newArgs := NewArgs(w, plan, args);
    if InCloneStorage(w, args, plan, a) { CloneStorageReached(w, args, plan, staged, a); }
    CanaryIsReachable(staged, newArgs, ran, a);
    assert checked.mem[a] == if ReachedCanary(ran, newArgs, a) then FILL else ran.mem[a];
    hide RoomFor, ArgsLive, Valid, ImgVerified, Reachable, ReachedCanary, InCloneStorage, InReplaced, BufReturned,
         BufCloned;
  }

  lemma CloneStorageReached(w: World, args: seq<Arg>, plan: Plan, staged: State, a: nat)
    requires Stages(w, args, plan, staged) && InCloneStorage(w, args, plan, a)
    ensures Reachable(staged, NewArgs(w, plan, args), a)
  {
    var h :| h in w.host && Replaces(w, args, h) && h in plan.bufs && InStorage(CloneBuf(w, plan, h), a);
    CloneReached(w, args, plan, staged, h);
    assert InStorage(staged.lin[Buffer(plan.bufs[h].handle)], a);
  }

  lemma CanaryIsReachable(s: State, args: seq<Arg>, ran: State, a: nat)
    requires KernelRan(s, args, ran)
    ensures ReachedCanary(ran, args, a) ==> Reachable(s, args, a)
  {
    if ReachedCanary(ran, args, a) {
      var n :| n in ran.lin && Reaches(ran, args, n) && InCanary(ran.lin[n], a);
      assert Reaches(s, args, n) && InStorage(s.lin[n], a);
    }
  }
}
