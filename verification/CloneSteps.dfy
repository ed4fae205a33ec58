/** One argument at a time: what one turn of the cloning, copying back and releasing loops adds. */
module CloneSteps {
  import opened Canary
  import opened LinearBuffers
  import opened ImageGeometry
  import opened KernelArgs
  import opened RunModel
  import opened Staging

  // ----- the arguments seen so far -----

  lemma InPrefix(args: seq<Arg>, i: nat, a: Arg)
    requires i < |args|
    ensures a in args[..i + 1] <==> a in args[..i] || a == args[i]
  {
    assert args[..i + 1] == args[..i] + [args[i]];
  }

  ghost predicate SameReplaced(w: World, a: seq<Arg>, b: seq<Arg>) {
    forall h :: Replaces(w, a, h) <==> Replaces(w, b, h)
  }

  /** The argument is a buffer over host memory. */
  predicate OverHost(w: World, a: Arg) { a.Mem? && !a.isImage && a.handle in w.host }

  /** This argument replaces nothing that was not replaced before. */
  ghost predicate NothingNew(w: World, args: seq<Arg>, i: nat)
    requires i < |args|
  {
    args[i] in args[..i] || !OverHost(w, args[i])
  }

  /** No argument is replaced. */
  ghost predicate AllKept(w: World, args: seq<Arg>) { forall i | 0 <= i < |args| :: NothingNew(w, args, i) }

  lemma NothingNewSame(w: World, args: seq<Arg>, i: nat)
    requires i < |args| && NothingNew(w, args, i)
    ensures SameReplaced(w, args[..i], args[..i + 1])
  {
    forall h ensures Replaces(w, args[..i], h) <==> Replaces(w, args[..i + 1], h) { InPrefix(args, i, Mem(h, false)); }
  }

  lemma SameClones(w: World, a: seq<Arg>, b: seq<Arg>, plan: Plan)
    requires SameReplaced(w, a, b)
    ensures forall n {:trigger IsBufClone(w, b, plan, n)} :: IsBufClone(w, a, plan, n) <==> IsBufClone(w, b, plan, n)
    ensures forall p: nat {:trigger InCloneStorage(w, b, plan, p)} ::
              InCloneStorage(w, a, plan, p) <==> InCloneStorage(w, b, plan, p)
    ensures forall p: nat {:trigger InReplaced(w, b, p)} :: InReplaced(w, a, p) <==> InReplaced(w, b, p)
  {
    forall n ensures IsBufClone(w, a, plan, n) <==> IsBufClone(w, b, plan, n) { hide Replaces; }
    forall p: nat ensures InCloneStorage(w, a, plan, p) <==> InCloneStorage(w, b, plan, p) { hide Replaces; }
    forall p: nat ensures InReplaced(w, a, p) <==> InReplaced(w, b, p) { hide Replaces; }
  }

  lemma SameStages(w: World, a: seq<Arg>, b: seq<Arg>, plan: Plan, u: State)
    requires SameReplaced(w, a, b) && Stages(w, a, plan, u)
    ensures Stages(w, b, plan, u)
  {
    SameClones(w, a, b, plan);
    hide BufCloned, Replaces, IsBufClone, InCloneStorage;
  }

  /** An argument that needs no clone of its own. */
  lemma NothingToClone(w: World, args: seq<Arg>, i: nat, plan: Plan, u: State)
    requires i < |args| && NothingNew(w, args, i) && Stages(w, args[..i], plan, u)
    ensures Stages(w, args[..i + 1], plan, u)
  {
    NothingNewSame(w, args, i);
    hide Stages, SameReplaced;
    SameStages(w, args[..i], args[..i + 1], plan, u);
  }

  lemma NothingStaged(w: World, args: seq<Arg>, plan: Plan)
    requires forall h :: !Replaces(w, args, h)
    ensures Stages(w, args, plan, w.dev)
  {
  }

  lemma NoneCloned(w: World, args: seq<Arg>, plan: Plan)
    ensures Stages(w, args[..0], plan, w.dev)
  {
    NothingStaged(w, args[..0], plan);
  }

  /** Without an argument to replace, the stage is the world and the arguments are the user's. */
  lemma NoneReplaced(w: World, args: seq<Arg>, plan: Plan)
    requires AllKept(w, args) && ImagesKnown(w, args) && RoomFor(w, args, plan)
    ensures Stages(w, args, plan, w.dev) && NewArgs(w, plan, args) == args
  {
    forall h ensures !Replaces(w, args, h) { KeptIsNotReplaced(w, args, h); }
    assert !plan.duplicated;
    forall i | 0 <= i < |args| ensures NewArg(w, plan, args[i]) == args[i] { NoneFirst(w, args, i); }
    NothingStaged(w, args, plan);
    hide NothingNew, Stages, RoomFor;
  }

  lemma KeptIsNotReplaced(w: World, args: seq<Arg>, h: nat)
    requires AllKept(w, args)
    ensures !Replaces(w, args, h)
  {
    if Mem(h, false) in args {
      var i :| 0 <= i < |args| && args[i] == Mem(h, false);
      NoneFirst(w, args, i);
    }
  }

  lemma {:induction false} NoneFirst(w: World, args: seq<Arg>, i: nat)
    requires i < |args| && AllKept(w, args)
    ensures !OverHost(w, args[i])
    decreases i
  {
    assert NothingNew(w, args, i);
    if args[i] in args[..i] {
      var j :| 0 <= j < i && args[..i][j] == args[i];
      NoneFirst(w, args, j);
    }
  }

  // ----- a clone for a buffer -----

  /** What a new buffer argument adds. */
  lemma OneMoreReplaced(w: World, args: seq<Arg>, i: nat, plan: Plan, h: nat)
    requires i < |args| && args[i] == Mem(h, false) && h in w.host && h in plan.bufs
    ensures forall k :: Replaces(w, args[..i + 1], k) <==> Replaces(w, args[..i], k) || k == h
    ensures forall n {:trigger IsBufClone(w, args[..i + 1], plan, n)} ::
              IsBufClone(w, args[..i + 1], plan, n) <==> IsBufClone(w, args[..i], plan, n) || n == Buffer(plan.bufs[h].handle)
    ensures forall p: nat {:trigger InCloneStorage(w, args[..i + 1], plan, p)} ::
              InCloneStorage(w, args[..i + 1], plan, p) <==> InCloneStorage(w, args[..i], plan, p) || InStorage(CloneBuf(w, plan, h), p)
    ensures forall p: nat {:trigger InReplaced(w, args[..i + 1], p)} ::
              InReplaced(w, args[..i + 1], p) <==> InReplaced(w, args[..i], p) || InHost(w.host[h], p)
  {
    forall k
      ensures Replaces(w, args[..i + 1], k) <==> Replaces(w, args[..i], k) || k == h
    {
      InPrefix(args, i, Mem(k, false));
    }
    forall n
      ensures IsBufClone(w, args[..i + 1], plan, n) <==> IsBufClone(w, args[..i], plan, n) || n == Buffer(plan.bufs[h].handle)
    {
      hide Replaces;
    }
    forall p: nat
      ensures InCloneStorage(w, args[..i + 1], plan, p) <==> InCloneStorage(w, args[..i], plan, p) || InStorage(CloneBuf(w, plan, h), p)
    {
      hide Replaces;
    }
    forall p: nat
      ensures InReplaced(w, args[..i + 1], p) <==> InReplaced(w, args[..i], p) || InHost(w.host[h], p)
    {
      hide Replaces;
    }
    hide Replaces;
  }

  lemma PrefixReplaces(w: World, args: seq<Arg>, i: nat, h: nat)
    requires i <= |args|
    ensures Replaces(w, args[..i], h) ==> Replaces(w, args, h)
  {
  }

  /** Cloning so far has not touched host memory. */
  lemma HostBytesUntouched(w: World, args: seq<Arg>, i: nat, plan: Plan, u: State, h: nat)
    requires i <= |args| && RoomFor(w, args, plan) && Stages(w, args[..i], plan, u) && h in w.host
    requires w.host[h].start + w.host[h].size <= |w.dev.mem|
    ensures |u.mem| == |w.dev.mem| && HostBytes(u.mem, w.host[h]) == HostBytes(w.dev.mem, w.host[h])
  {
    assert |u.mem| == |w.dev.mem|;
    assert forall a | 0 <= a < |u.mem| && !InCloneStorage(w, args[..i], plan, a) :: u.mem[a] == w.dev.mem[a];
    hide Stages, RoomFor, InCloneStorage;
    forall a: nat | InHost(w.host[h], a) ensures u.mem[a] == w.dev.mem[a] {
      HostBytesNotCloned(w, args, plan, h, a);
      PrefixStorage(w, args, i, plan, a);
    }
  }

  lemma PrefixStorage(w: World, args: seq<Arg>, i: nat, plan: Plan, a: nat)
    requires i <= |args| && !InCloneStorage(w, args, plan, a)
    ensures !InCloneStorage(w, args[..i], plan, a)
  {
    forall h ensures Replaces(w, args[..i], h) ==> Replaces(w, args, h) { PrefixReplaces(w, args, i, h); }
  }

  /** There is still room for the clone of a buffer not met before. */
  lemma RoomInStage(w: World, args: seq<Arg>, i: nat, plan: Plan, u: State, h: nat)
    requires i < |args| && RoomFor(w, args, plan) && Stages(w, args[..i], plan, u)
    requires args[i] == Mem(h, false) && Replaces(w, args, h) && !Replaces(w, args[..i], h)
    ensures Buffer(plan.bufs[h].handle) !in u.lin && Places(u, CloneBuf(w, plan, h))
  {
    assert BufRoom(w, args, plan, h) && |u.mem| == |w.dev.mem|;
    forall n | n in u.lin ensures Apart(u.lin[n], CloneBuf(w, plan, h)) && n != Buffer(plan.bufs[h].handle) {
      RoomBeside(w, args, i, plan, u, h, n);
    }
    hide Stages, RoomFor, Apart, BufRoom;
  }

  lemma RoomIsFree(w: World, args: seq<Arg>, plan: Plan, h: nat)
    requires RoomFor(w, args, plan) && Replaces(w, args, h)
    ensures h in plan.bufs && HandleFree(w, plan.bufs[h].handle)
  {
    assert BufRoom(w, args, plan, h);
  }

  lemma ArgsConsistent(w: World, args: seq<Arg>)
    requires ArgsLive(w, args)
    ensures Consistent(args)
  {
  }

  lemma RoomBeside(w: World, args: seq<Arg>, i: nat, plan: Plan, u: State, h: nat, n: Name)
    requires i < |args| && RoomFor(w, args, plan) && Stages(w, args[..i], plan, u) && n in u.lin
    requires Replaces(w, args, h) && !Replaces(w, args[..i], h)
    ensures Apart(u.lin[n], CloneBuf(w, plan, h)) && n != Buffer(plan.bufs[h].handle)
  {
    assert BufRoom(w, args, plan, h);
    if n !in w.dev.lin {
      assert IsBufClone(w, args[..i], plan, n);
      var g :| g in w.host && Replaces(w, args[..i], g) && g in plan.bufs && n == Buffer(plan.bufs[g].handle);
      PrefixReplaces(w, args, i, g);
      assert BufCloned(w, plan, g, u);
      assert Apart(CloneBuf(w, plan, g), CloneBuf(w, plan, h));
    }
    hide Stages, RoomFor;
  }

  /** A clone made earlier is not disturbed. */
  lemma CloneUntouched(w: World, args: seq<Arg>, plan: Plan, u1: State, u2: State, h: nat, g: nat)
    requires RoomFor(w, args, plan) && Replaces(w, args, h) && Replaces(w, args, g) && g != h
      && BufCloned(w, plan, g, u1)
    requires u2.lin == u1.lin[Buffer(plan.bufs[h].handle) := CloneBuf(w, plan, h)] && |u2.mem| == |u1.mem|
    requires forall a | 0 <= a < |u1.mem| && !InStorage(CloneBuf(w, plan, h), a) :: u2.mem[a] == u1.mem[a]
    ensures BufCloned(w, plan, g, u2)
  {
    assert Apart(CloneBuf(w, plan, g), CloneBuf(w, plan, h));
    assert plan.bufs[g].handle != plan.bufs[h].handle;
    hide RoomFor;
    var c := CloneBuf(w, plan, g);
    assert UserBytes(u2.mem, c) == UserBytes(u1.mem, c);
  }

  lemma NewCloneMade(w: World, plan: Plan, u1: State, u2: State, h: nat)
    requires h in w.host && h in plan.bufs && w.host[h].start + w.host[h].size <= |w.dev.mem|
    requires InMemory(CloneBuf(w, plan, h), |u1.mem|)
    requires CreatesBuffer(u1, plan.bufs[h].handle, CloneBuf(w, plan, h), HostBytes(w.dev.mem, w.host[h]), u2)
    ensures BufCloned(w, plan, h, u2)
  {
    var c, content := CloneBuf(w, plan, h), HostBytes(w.dev.mem, w.host[h]);
    assert |u2.mem| == |u1.mem|;
    assert UserBytes(u2.mem, c) == content by {
      forall i | 0 <= i < c.size ensures UserBytes(u2.mem, c)[i] == content[i] {
        assert u2.mem[c.base + POISON_FILL_LENGTH + i] == content[i];
      }
    }
    hide HostBytes, UserBytes;
  }

  lemma OutsideUntouched(u1: State, handle: nat, buf: Buf, content: seq<byte>, u2: State)
    requires CreatesBuffer(u1, handle, buf, content, u2)
    ensures u2 == u1.(mem := u2.mem, lin := u1.lin[Buffer(handle) := buf]) && |u2.mem| == |u1.mem|
      && Buffer(handle) !in u1.lin
    ensures forall a | 0 <= a < |u1.mem| && !InStorage(buf, a) :: u2.mem[a] == u1.mem[a]
  {
  }

  /** A buffer over host memory gets its clone. */
  lemma OneMoreBuffer(w: World, args: seq<Arg>, i: nat, plan: Plan, u1: State, u2: State, h: nat)
    requires i < |args| && RoomFor(w, args, plan) && Stages(w, args[..i], plan, u1) && args[i] == Mem(h, false)
      && Replaces(w, args, h)
    requires w.host[h].start + w.host[h].size <= |w.dev.mem| && !Replaces(w, args[..i], h)
    requires CreatesBuffer(u1, plan.bufs[h].handle, CloneBuf(w, plan, h), HostBytes(w.dev.mem, w.host[h]), u2)
    ensures Stages(w, args[..i + 1], plan, u2)
  {
    assert BufRoom(w, args, plan, h);
    OneMoreReplaced(w, args, i, plan, h);
    OutsideUntouched(u1, plan.bufs[h].handle, CloneBuf(w, plan, h), HostBytes(w.dev.mem, w.host[h]), u2);
    NewCloneMade(w, plan, u1, u2, h);
    hide RoomFor, CreatesBuffer, BufRoom, Replaces, InCloneStorage, IsBufClone, HostBytes, CloneBuf, InStorage;
    forall g | Replaces(w, args[..i + 1], g) ensures BufCloned(w, plan, g, u2) {
      if g != h {
        assert BufCloned(w, plan, g, u1);
        PrefixReplaces(w, args, i, g);
        CloneUntouched(w, args, plan, u1, u2, h, g);
      }
    }
    hide BufCloned;
  }

  // ----- copying back -----

  /** The clones are in the tables. */
  ghost predicate ClonesIn(w: World, args: seq<Arg>, plan: Plan, v: State) {
    forall h | Replaces(w, args, h) :: BufferIn(w, plan, v, h)
  }

  ghost predicate BufferIn(w: World, plan: Plan, v: State, h: nat) {
    && h in w.host && h in plan.bufs && Buffer(plan.bufs[h].handle) in v.lin
    && v.lin[Buffer(plan.bufs[h].handle)] == CloneBuf(w, plan, h) && InMemory(CloneBuf(w, plan, h), |v.mem|)
  }

  lemma CloneBufferIn(w: World, args: seq<Arg>, plan: Plan, v: State, h: nat)
    requires WorldInv(w) && ClonesIn(w, args, plan, v) && Replaces(w, args, h)
    ensures h in w.host && h in plan.bufs && Buffer(plan.bufs[h].handle) in v.lin
    ensures v.lin[Buffer(plan.bufs[h].handle)] == CloneBuf(w, plan, h) && InMemory(CloneBuf(w, plan, h), |v.mem|)
    ensures w.host[h].start + w.host[h].size <= |w.dev.mem| && HostPlaced(w)
  {
    assert BufferIn(w, plan, v, h);
  }

  lemma NoneCopied(w: World, args: seq<Arg>, plan: Plan, v: State)
    ensures BuffersBack(w, args[..0], plan, v, v.mem)
  {
  }

  lemma NothingToCopy(w: World, args: seq<Arg>, i: nat, plan: Plan, v: State, mem: seq<byte>)
    requires i < |args| && NothingNew(w, args, i) && BuffersBack(w, args[..i], plan, v, mem)
    ensures BuffersBack(w, args[..i + 1], plan, v, mem)
  {
    NothingNewSame(w, args, i);
    SameClones(w, args[..i], args[..i + 1], plan);
    hide NothingNew, Replaces, InReplaced, BufReturned;
  }

  /** Copying back does not disturb a clone. */
  lemma CloneKept(w: World, args: seq<Arg>, i: nat, plan: Plan, v: State, mem: seq<byte>, h: nat)
    requires i <= |args| && RoomFor(w, args, plan) && Replaces(w, args, h) && BuffersBack(w, args[..i], plan, v, mem)
    requires InMemory(CloneBuf(w, plan, h), |v.mem|)
    ensures |mem| == |v.mem| && UserBytes(mem, CloneBuf(w, plan, h)) == UserBytes(v.mem, CloneBuf(w, plan, h))
  {
    assert BufRoom(w, args, plan, h);
    var c := CloneBuf(w, plan, h);
    assert forall a | 0 <= a < |mem| && !InReplaced(w, args[..i], a) :: mem[a] == v.mem[a];
    assert |mem| == |v.mem|;
    assert forall k | k in w.host :: HostApart(w.host[k], c);
    hide RoomFor, BuffersBack, BufRoom;
    forall a: nat | InUserBytes(c, a) ensures !InReplaced(w, args[..i], a) { }
    hide InReplaced;
  }

  lemma OtherHostKept(w: World, plan: Plan, v: State, h: nat, g: nat, before: seq<byte>, mem: seq<byte>)
    requires HostPlaced(w) && h in w.host && g in w.host && g != h && BufReturned(w, plan, g, v.mem, before)
      && |mem| == |before|
    requires forall a | 0 <= a < |mem| && !InHost(w.host[h], a) :: mem[a] == before[a]
    ensures BufReturned(w, plan, g, v.mem, mem)
  {
    assert HostsApart(w.host[g], w.host[h]) && |before| == |v.mem|;
    hide HostPlaced;
    assert HostBytes(mem, w.host[g]) == HostBytes(before, w.host[g]);
  }

  lemma OneMoreBufferBack(w: World, args: seq<Arg>, i: nat, plan: Plan, v: State, before: seq<byte>, mem: seq<byte>,
      h: nat)
    requires i < |args| && HostPlaced(w) && RoomFor(w, args, plan) && args[i] == Mem(h, false) && Replaces(w, args, h)
    requires BuffersBack(w, args[..i], plan, v, before) && |mem| == |before| == |w.dev.mem|
    requires BufReturned(w, plan, h, before, mem)
    requires forall a | 0 <= a < |mem| && !InHost(w.host[h], a) :: mem[a] == before[a]
    ensures BuffersBack(w, args[..i + 1], plan, v, mem)
  {
    assert BufRoom(w, args, plan, h) && |before| == |v.mem|;
    CloneKept(w, args, i, plan, v, before, h);
    OneMoreReplaced(w, args, i, plan, h);
    hide RoomFor, BufRoom, Replaces, InReplaced, HostPlaced, HostBytes, UserBytes, CloneBuf, InHost;
    forall g | Replaces(w, args[..i + 1], g) ensures BufReturned(w, plan, g, v.mem, mem) {
      if g != h {
        assert BufReturned(w, plan, g, v.mem, before) && g in w.host;
        OtherHostKept(w, plan, v, h, g, before, mem);
      }
    }
    hide BufReturned;
  }

  // ----- releasing the clones -----

  /** detector_internal_buffer is set on exactly the clones. */
  ghost predicate Marked(w: World, u: State, internal: set<nat>) {
    && (forall n | n in u.lin && n !in w.dev.lin :: n.handle in internal)
    && (forall k | k in internal :: Buffer(k) in u.lin && Buffer(k) !in w.dev.lin)
  }

  lemma SameSvms(u: State, v: State)
    requires SameTables(u, v)
    ensures v.svms == u.svms
  {
  }

  lemma MarkedBuffer(w: World, u1: State, u2: State, internal: set<nat>, c: nat, buf: Buf)
    requires Marked(w, u1, internal) && HandleFree(w, c) && u2.lin == u1.lin[Buffer(c) := buf]
    ensures Marked(w, u2, internal + {c})
  {
  }

  /** Kernel and check leave the tables of the stage as they are. */
  ghost predicate SameTables(u: State, v: State) {
    v.lin == u.lin && v.svms == u.svms && v.imgs.Keys == u.imgs.Keys && v.unseen.Keys == u.unseen.Keys
  }

  /** What is still to be released when the loop is at i; internal marks it. */
  ghost predicate Leftover(w: World, args: seq<Arg>, i: nat, plan: Plan, v: State, u: State, internal: set<nat>)
    requires i <= |args|
  {
    && u == v.(lin := u.lin)
    && (forall n | n in w.dev.lin :: n in u.lin && u.lin[n] == w.dev.lin[n])
    && (forall n | n in u.lin && n !in w.dev.lin ::
          IsBufClone(w, args, plan, n) && !IsBufClone(w, args[..i], plan, n) && n.handle in internal)
    && (forall k | k in internal :: Buffer(k) in u.lin && Buffer(k) !in w.dev.lin)
  }

  lemma AllLeft(w: World, args: seq<Arg>, plan: Plan, u: State, v: State, internal: set<nat>)
    requires Stages(w, args, plan, u) && SameTables(u, v) && Marked(w, v, internal)
    ensures Leftover(w, args, 0, plan, v, v, internal)
  {
    forall n ensures !IsBufClone(w, args[..0], plan, n) { }
    hide IsBufClone, BufCloned;
  }

  lemma NothingToRelease(w: World, args: seq<Arg>, i: nat, plan: Plan, v: State, u: State, internal: set<nat>)
    requires i < |args| && NothingNew(w, args, i) && Leftover(w, args, i, plan, v, u, internal)
    ensures Leftover(w, args, i + 1, plan, v, u, internal)
  {
    NothingNewSame(w, args, i);
    SameClones(w, args[..i], args[..i + 1], plan);
    hide IsBufClone, NothingNew, Replaces;
  }

  /** What is marked is a clone, so its handle names nothing of the user's. */
  lemma MarkedIsFree(w: World, args: seq<Arg>, i: nat, plan: Plan, v: State, u: State, internal: set<nat>, k: nat)
    requires i <= |args| && RoomFor(w, args, plan) && Leftover(w, args, i, plan, v, u, internal) && k in internal
    ensures HandleFree(w, k)
  {
    assert IsBufClone(w, args, plan, Buffer(k));
    hide Leftover;
    var g :| g in w.host && Replaces(w, args, g) && g in plan.bufs && Buffer(k) == Buffer(plan.bufs[g].handle);
    assert BufRoom(w, args, plan, g);
  }

  /** Releasing whatever the handle names. */
  function Without(u: State, c: nat): State { u.(lin := u.lin - {Buffer(c)}) }

  /** Argument i brings in no clone but c. */
  ghost predicate AddsOnly(w: World, args: seq<Arg>, i: nat, plan: Plan, c: nat)
    requires i < |args|
  {
    forall n {:trigger IsBufClone(w, args[..i + 1], plan, n)} ::
      IsBufClone(w, args[..i + 1], plan, n) ==> IsBufClone(w, args[..i], plan, n) || n == Buffer(c)
  }

  lemma ClonedAddsOnly(w: World, args: seq<Arg>, i: nat, plan: Plan)
    requires i < |args| && RoomFor(w, args, plan) && OverHost(w, args[i])
    ensures NewArg(w, plan, args[i]).Mem? && AddsOnly(w, args, i, plan, NewArg(w, plan, args[i]).handle)
  {
    var h := args[i].handle;
    assert Replaces(w, args, h) && BufRoom(w, args, plan, h);
    OneMoreReplaced(w, args, i, plan, h);
    hide IsBufClone, RoomFor;
  }

  lemma OneCloneLess(w: World, args: seq<Arg>, i: nat, plan: Plan, v: State, u: State, internal: set<nat>, c: nat)
    requires i < |args| && HandleFree(w, c) && AddsOnly(w, args, i, plan, c)
      && Leftover(w, args, i, plan, v, u, internal)
    ensures Leftover(w, args, i + 1, plan, v, Without(u, c), internal - {c})
  {
    hide IsBufClone;
    assert forall n | n in u.lin && n !in w.dev.lin :: IsBufClone(w, args, plan, n);
    BufCloneNames(w, args, plan);
  }

  lemma BufCloneNames(w: World, args: seq<Arg>, plan: Plan)
    ensures forall n {:trigger IsBufClone(w, args, plan, n)} | IsBufClone(w, args, plan, n) :: n.Buffer?
  {
  }

  /** A clone that is not marked any more is not there any more. */
  lemma CloneGone(w: World, args: seq<Arg>, i: nat, plan: Plan, v: State, u: State, internal: set<nat>, c: nat)
    requires i < |args| && c !in internal && AddsOnly(w, args, i, plan, c) && Leftover(w, args, i, plan, v, u, internal)
    ensures Leftover(w, args, i + 1, plan, v, u, internal)
  {
    hide IsBufClone;
  }

  lemma NothingLeft(w: World, args: seq<Arg>, plan: Plan, v: State, u: State, internal: set<nat>)
    requires Leftover(w, args, |args|, plan, v, u, internal)
    ensures u == v.(lin := w.dev.lin) && internal == {}
  {
    assert args[..|args|] == args;
    hide IsBufClone;
  }

  // ----- the new arguments -----

  lemma FirstUse(args: seq<Arg>, dupe: seq<nat>, i: nat)
    requires IsDupe(args, dupe) && i < |args|
    ensures dupe[i] == i && args[i].Mem? ==> args[i] !in args[..i]
    ensures dupe[i] != i ==> dupe[i] < i && args[i].Mem?
    ensures Consistent(args) ==> args[dupe[i]] == args[i]
    ensures Consistent(args) && dupe[i] != i ==> args[i] in args[..i]
  {
    assert LeastSame(args, i, dupe[i]);
    if Consistent(args) { DupeSameObject(args, dupe, i); assert dupe[i] != i ==> args[..i][dupe[i]] == args[i]; }
  }

  /** Different objects get different arguments. */
  lemma NewArgInjective(w: World, args: seq<Arg>, plan: Plan, a: Arg, b: Arg)
    requires HandlesDistinct(w) && ArgsLive(w, args) && RoomFor(w, args, plan) && a in args && b in args
    ensures SameMem(NewArg(w, plan, a), NewArg(w, plan, b)) <==> SameMem(a, b)
    ensures SameMem(a, b) ==> a == b
  {
    SameMemSame(args, a, b);
    if a.Mem? && b.Mem? && a != b { DifferentHandles(w, args, plan, a, b); }
    hide RoomFor, HandlesDistinct, ArgsLive;
  }

  lemma SameMemSame(args: seq<Arg>, a: Arg, b: Arg)
    requires Consistent(args) && a in args && b in args
    ensures SameMem(a, b) ==> a == b
  {
    var i :| 0 <= i < |args| && args[i] == a;
    var j :| 0 <= j < |args| && args[j] == b;
  }

  /** Where an argument's handle comes from: a live object of the user, or a clone. */
  lemma NewHandleKind(w: World, args: seq<Arg>, plan: Plan, a: Arg)
    requires ArgsLive(w, args) && RoomFor(w, args, plan) && a in args && a.Mem?
    ensures NewArg(w, plan, a).Mem?
    ensures NewArg(w, plan, a) == a ==> !HandleFree(w, a.handle)
    ensures NewArg(w, plan, a) != a ==> HandleFree(w, NewArg(w, plan, a).handle) && OverHost(w, a)
  {
    if Replaces(w, args, a.handle) { assert BufRoom(w, args, plan, a.handle); }
  }

  lemma DifferentHandles(w: World, args: seq<Arg>, plan: Plan, a: Arg, b: Arg)
    requires ArgsLive(w, args) && RoomFor(w, args, plan) && a in args && b in args && a.Mem? && b.Mem? && a != b
    requires a.handle != b.handle
    ensures NewArg(w, plan, a).handle != NewArg(w, plan, b).handle
  {
    NewHandleKind(w, args, plan, a);
    NewHandleKind(w, args, plan, b);
    hide HandleFree, BufRoom, ArgsLive;
  }

  lemma NewArgsConsistent(w: World, args: seq<Arg>, plan: Plan)
    requires HandlesDistinct(w) && ArgsLive(w, args) && RoomFor(w, args, plan)
    ensures Consistent(NewArgs(w, plan, args))
    ensures forall i, j | 0 <= i < |args| && 0 <= j < |args| ::
              SameMem(NewArg(w, plan, args[i]), NewArg(w, plan, args[j])) <==> SameMem(args[i], args[j])
  {
    forall i, j | 0 <= i < |args| && 0 <= j < |args|
      ensures SameMem(NewArg(w, plan, args[i]), NewArg(w, plan, args[j])) <==> SameMem(args[i], args[j])
      ensures SameMem(args[i], args[j]) ==> args[i] == args[j]
    {
      NewArgInjective(w, args, plan, args[i], args[j]);
    }
    hide HandlesDistinct, ArgsLive, RoomFor, SameMem, NewArg;
  }

  /** The duplicate analysis of the user's arguments holds for the new ones: they alias alike. */
  lemma NewArgsAlias(w: World, args: seq<Arg>, plan: Plan, dupe: seq<nat>)
    requires HandlesDistinct(w) && ArgsLive(w, args) && RoomFor(w, args, plan) && IsDupe(args, dupe)
    ensures IsDupe(NewArgs(w, plan, args), dupe) && Consistent(NewArgs(w, plan, args))
  {
    NewArgsConsistent(w, args, plan);
    hide HandlesDistinct, ArgsLive, RoomFor, SameMem, NewArg, Consistent;
    forall i | 0 <= i < |args|
      ensures LeastSame(NewArgs(w, plan, args), i, dupe[i])
    {
      assert LeastSame(args, i, dupe[i]);
    }
  }

  /** On the stage, all arguments have canaries. */
  lemma NewArgsLive(w: World, args: seq<Arg>, plan: Plan, u: State)
    requires HandlesDistinct(w) && ArgsLive(w, args) && RoomFor(w, args, plan) && Stages(w, args, plan, u)
    ensures LaunchOk(u, NewArgs(w, plan, args))
  {
    var newArgs := NewArgs(w, plan, args);
    NewArgsConsistent(w, args, plan);
    forall i | 0 <= i < |args| ensures NewArgLive(u, newArgs[i]) { OneNewArgLive(w, args, plan, u, args[i]); }
    hide HandlesDistinct, ArgsLive, RoomFor, Stages, NewArg, Consistent;
  }

  predicate NewArgLive(u: State, a: Arg) {
    a.Mem? ==> if a.isImage then a.handle in u.imgs else Buffer(a.handle) in u.lin
  }

  lemma OneNewArgLive(w: World, args: seq<Arg>, plan: Plan, u: State, a: Arg)
    requires ArgsLive(w, args) && RoomFor(w, args, plan) && Stages(w, args, plan, u) && a in args
    ensures NewArgLive(u, NewArg(w, plan, a))
  {
    hide BufRoom, Apart, LinClean, UserBytes, HostBytes, InCloneStorage, IsBufClone, Consistent;
    if a.Mem? && Replaces(w, args, a.handle) && !a.isImage { assert BufCloned(w, plan, a.handle, u); }
  }

  // ----- the turns of the loops that do nothing -----

  lemma ReplacedHandleIsNew(w: World, args: seq<Arg>, plan: Plan, a: Arg)
    requires RoomFor(w, args, plan) && a in args && OverHost(w, a)
    ensures NewArg(w, plan, a).Mem? && NewArg(w, plan, a).handle != a.handle
  {
    assert Replaces(w, args, a.handle) && BufRoom(w, args, plan, a.handle);
  }

  lemma KeptHandleNothingNew(w: World, args: seq<Arg>, plan: Plan, i: nat)
    requires RoomFor(w, args, plan) && i < |args|
    requires args[i].Mem? ==> NewArg(w, plan, args[i]).Mem? && NewArg(w, plan, args[i]).handle == args[i].handle
    ensures NothingNew(w, args, i)
  {
    hide RoomFor, NewArg;
    if OverHost(w, args[i]) { ReplacedHandleIsNew(w, args, plan, args[i]); }
  }

  lemma NothingToCopyHere(w: World, args: seq<Arg>, i: nat, plan: Plan, dupe: seq<nat>)
    requires ArgsLive(w, args) && RoomFor(w, args, plan) && IsDupe(args, dupe) && i < |args|
    requires var a := NewArg(w, plan, args[i]);
      !(dupe[i] == i && args[i].Mem? && a.Mem? && args[i].handle != a.handle)
    ensures NothingNew(w, args, i)
  {
    FirstUse(args, dupe, i);
    if dupe[i] == i { KeptHandleNothingNew(w, args, plan, i); }
    hide RoomFor;
  }

  /** One turn of delPoisonKernel. */
  lemma OneTurn(w: World, args: seq<Arg>, i: nat, dupe: seq<nat>, plan: Plan, v: State, u: State, internal: set<nat>)
    requires i < |args| && ArgsLive(w, args) && RoomFor(w, args, plan) && IsDupe(args, dupe)
      && Leftover(w, args, i, plan, v, u, internal)
    ensures var a := NewArg(w, plan, args[i]);
      if dupe[i] == i && a.Mem? && a.handle in internal
      then Leftover(w, args, i + 1, plan, v, Without(u, a.handle), internal - {a.handle})
      else Leftover(w, args, i + 1, plan, v, u, internal)
  {
    var a := NewArg(w, plan, args[i]);
    FirstUse(args, dupe, i);
    if dupe[i] != i || !args[i].Mem? {
      assert NothingNew(w, args, i);
      hide *;
      NothingToRelease(w, args, i, plan, v, u, internal);
    } else {
      NewHandleKind(w, args, plan, args[i]);
      hide RoomFor, Leftover, HandleFree, NewArg, Replaces, AddsOnly, OverHost;
      if a.handle in internal {
        MarkedIsFree(w, args, i, plan, v, u, internal, a.handle);
        ClonedAddsOnly(w, args, i, plan);
        OneCloneLess(w, args, i, plan, v, u, internal, a.handle);
      } else if a != args[i] {
        ClonedAddsOnly(w, args, i, plan);
        CloneGone(w, args, i, plan, v, u, internal, a.handle);
      } else {
        KeptHandleNothingNew(w, args, plan, i);
        NothingToRelease(w, args, i, plan, v, u, internal);
      }
    }
  }

  // ----- from the stage to the end -----

  lemma RanPictureOk(u: State, args: seq<Arg>, ran: State, h: nat)
    requires PicsOk(u.imgs) && KernelRan(u, args, ran) && h in u.imgs
    ensures h in ran.imgs && PicOk(ran.imgs[h]) && ran.imgs[h].desc == u.imgs[h].desc && ran.imgs[h].ds == u.imgs[h].ds
  {
    assert Mem(h, true) in args || ran.imgs[h] == u.imgs[h];
    hide PicOk, Reachable;
  }

  lemma RanValid(u: State, args: seq<Arg>, ran: State)
    requires Valid(u) && LaunchOk(u, args) && KernelRan(u, args, ran)
    ensures Valid(ran) && LaunchOk(ran, args)
    ensures SameTables(u, ran)
    ensures forall h | h in u.imgs :: ran.imgs[h].desc == u.imgs[h].desc && ran.imgs[h].ds == u.imgs[h].ds
  {
    hide PicOk, HostPicOk, Apart, InMemory, Reachable;
    assert PicsOk(u.imgs) && |ran.mem| == |u.mem| && ran.lin == u.lin && ran.svms == u.svms
      && ran.imgs.Keys == u.imgs.Keys;
    forall h | h in ran.imgs
      ensures PicOk(ran.imgs[h]) && ran.imgs[h].desc == u.imgs[h].desc && ran.imgs[h].ds == u.imgs[h].ds
    {
      RanPictureOk(u, args, ran, h);
    }
  }

  /** After kernel and check the clones are still in the tables. */
  lemma ClonesStillIn(w: World, args: seq<Arg>, plan: Plan, u: State, newArgs: seq<Arg>, ran: State, v: State,
      r: Reports)
    requires Stages(w, args, plan, u) && KernelRan(u, newArgs, ran) && Verified(ran, newArgs, v, r)
    ensures ClonesIn(w, args, plan, v) && SameTables(u, v) && |v.mem| == |w.dev.mem|
  {
    forall h | Replaces(w, args, h) ensures BufferIn(w, plan, v, h) { assert BufCloned(w, plan, h, u); }
    hide Replaces, BufferIn, Stages, Valid;
  }

  lemma StillMarked(w: World, u: State, newArgs: seq<Arg>, ran: State, v: State, r: Reports, internal: set<nat>)
    requires KernelRan(u, newArgs, ran) && Verified(ran, newArgs, v, r) && Marked(w, u, internal)
    ensures Marked(w, v, internal)
  {
    assert v.lin == u.lin && v.imgs.Keys == u.imgs.Keys;
    hide KernelRan, Verified;
  }

  lemma NothingToPutBack(w: World, args: seq<Arg>, plan: Plan, v: State, t: World)
    requires AllKept(w, args) && t == w.(dev := v) && SameTables(w.dev, v)
    ensures PutsBack(w, args, plan, v, t)
  {
    forall h ensures !Replaces(w, args, h) { KeptIsNotReplaced(w, args, h); }
    hide NothingNew;
  }
}
