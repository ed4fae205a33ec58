/** Checker kernels as concurrent programs over one device memory.

    Every work-item compares one word (one byte in the image kernel); its work-group then takes
    the minimum of its items' verdicts, and the last lane commits that minimum with atomic_min.
    Compare steps of different items and commits of different groups interleave in any order. A
    device without work_group_scan_inclusive_min commits item by item, which is group size 1. */
module Schedules {
  import opened Canary

  /** What one active work-item looks at: width bytes at addr, reported as off, off+1, ... in slot. */
  datatype Item = Item(slot: nat, addr: nat, off: nat)

  /** A kernel launch: one item per active work-item, in global-id order, in work-groups of local size L. */
  datatype Launch = Launch(items: seq<Item>, width: nat, mends: bool, L: nat, groups: nat)

  // ----- one work-item -----

  /** The first corrupted byte of a word, as the offset to report, or INT_MAX. */
  function FirstBadIn(mem: seq<byte>, addr: nat, width: nat, off: nat): (r: nat)
    requires addr + width <= |mem| && off + width <= INT_MAX
    ensures r == INT_MAX ==> forall a | addr <= a < addr + width :: mem[a] == FILL
    ensures r != INT_MAX ==> off <= r < off + width && mem[addr + (r - off)] != FILL
                             && forall a | addr <= a < addr + (r - off) :: mem[a] == FILL
    decreases width
  {
    if width == 0 then INT_MAX
    else if mem[addr] != FILL then off
    else FirstBadIn(mem, addr + 1, width - 1, off + 1)
  }

  predicate Fits(it: Item, width: nat, memSize: nat) {
    it.addr + width <= memSize && it.off + width <= INT_MAX
  }

  function Verdict(it: Item, width: nat, mem: seq<byte>): (r: nat)
    requires Fits(it, width, |mem|)
    ensures r <= INT_MAX
  {
    FirstBadIn(mem, it.addr, width, it.off)
  }

  predicate Touches(it: Item, width: nat, a: nat) {
    it.addr <= a < it.addr + width
  }

  function Filled(mem: seq<byte>, addr: nat, width: nat): (m: seq<byte>)
    requires addr + width <= |mem|
    ensures |m| == |mem|
    ensures forall a | 0 <= a < |mem| :: m[a] == if addr <= a < addr + width then FILL else mem[a]
  {
    mem[..addr] + seq(width, i => FILL) + mem[addr + width..]
  }

  // ----- launches and schedules -----

  ghost predicate RaceFree(items: seq<Item>, width: nat) {
    forall t, u | 0 <= t < u < |items| ::
      items[t].addr + width <= items[u].addr || items[u].addr + width <= items[t].addr
  }

  /** The memory holds every word, every result slot exists, no two items share a byte, groups are
      full, and the items of one group report to one slot. */
  ghost predicate Launchable(k: Launch, memSize: nat, slots: nat) {
    && k.L > 0 && |k.items| == GroupStart(k.L, k.groups)
    && (forall t | 0 <= t < |k.items| :: Fits(k.items[t], k.width, memSize) && k.items[t].slot < slots)
    && RaceFree(k.items, k.width)
    && GroupsUniform(k)
  }

  /** Every item reports to the slot its group's last lane commits to. */
  ghost predicate GroupsUniform(k: Launch)
    requires k.L > 0 && |k.items| == GroupStart(k.L, k.groups)
  {
    forall t | 0 <= t < |k.items| :: UniformAt(k, t)
  }

  ghost predicate UniformAt(k: Launch, t: nat)
    requires k.L > 0 && |k.items| == GroupStart(k.L, k.groups) && t < |k.items|
  {
    GroupInRange(k.L, t, k.groups);
    k.items[t].slot == CommitSlot(k, GroupId(k.L, t))
  }

  datatype Event = Compare(tid: nat) | Commit(group: nat)

  /** rets: the verdict of every item that has compared; committed: the groups past their atomic_min. */
  datatype Device = Device(mem: seq<byte>, first: seq<nat>, rets: map<nat, nat>, committed: set<nat>)

  predicate Enabled(k: Launch, d: Device, e: Event)
    requires k.L > 0
  {
    match e
    case Compare(t) => t < |k.items| && t !in d.rets
    case Commit(g) => g < k.groups && g !in d.committed && AllIn(d.rets, GroupStart(k.L, g), k.L)
  }

  predicate AllIn(rets: map<nat, nat>, start: nat, n: nat) {
    forall t | start <= t < start + n :: t in rets
  }

  /** work_group_scan_inclusive_min as lane n-1 of the group starting at start receives it. */
  function ScanMin(rets: map<nat, nat>, start: nat, n: nat): nat
    requires n > 0 && AllIn(rets, start, n)
  {
    if n == 1 then rets[start] else Min(ScanMin(rets, start, n - 1), rets[start + n - 1])
  }

  lemma {:induction false} ScanMinIsMin(rets: map<nat, nat>, start: nat, n: nat, t: nat) returns (u: nat)
    requires n > 0 && AllIn(rets, start, n) && start <= t < start + n
    ensures ScanMin(rets, start, n) <= rets[t]
    ensures start <= u < start + n && ScanMin(rets, start, n) == rets[u]
    decreases n
  {
    u := start + n - 1;
    if n > 1 {
      var v := ScanMinIsMin(rets, start, n - 1, if t == u then start else t);
      if rets[v] <= rets[u] { u := v; }
    }
  }

  /** get_group_id of the work-item with global id t, and the global id of a group's lane 0. */
  function GroupId(L: nat, t: nat): nat
    requires L > 0
  {
    if t < L then 0 else 1 + GroupId(L, t - L)
  }

  function GroupStart(L: nat, g: nat): nat {
    if g == 0 then 0 else L + GroupStart(L, g - 1)
  }

  lemma {:induction false} LaneGroup(L: nat, g: nat, t: nat)
    requires L > 0
    ensures GroupStart(L, g) <= t < GroupStart(L, g) + L <==> GroupId(L, t) == g
  {
    if t >= L && g > 0 { LaneGroup(L, g - 1, t - L); }
  }

  lemma {:induction false} GroupLanes(L: nat, g: nat, groups: nat)
    requires g < groups
    ensures GroupStart(L, g) + L <= GroupStart(L, groups)
    decreases groups
  {
    if g < groups - 1 { GroupLanes(L, g, groups - 1); }
  }

  lemma {:induction false} GroupInRange(L: nat, t: nat, groups: nat)
    requires L > 0 && t < GroupStart(L, groups)
    ensures GroupId(L, t) < groups
    decreases groups
  {
    if t >= L { GroupInRange(L, t - L, groups - 1); }
  }

  lemma {:induction false} GroupArithmetic(L: nat, g: nat)
    ensures GroupStart(L, g) == g * L
  {
    if g > 0 { GroupArithmetic(L, g - 1); }
  }

  /** atomic_min on a result slot: section 6.12.11 of the OpenCL C 1.2 specification. */
  function AtomicMin(first: seq<nat>, slot: nat, v: nat): (f: seq<nat>)
    requires slot < |first|
    ensures |f| == |first|
    ensures forall b | 0 <= b < |f| :: f[b] == if b == slot then Min(first[b], v) else first[b]
  {
    first[slot := Min(first[slot], v)]
  }

  function CompareStep(k: Launch, d: Device, t: nat): (d': Device)
    requires t < |k.items| && Fits(k.items[t], k.width, |d.mem|)
    ensures |d'.mem| == |d.mem| && d'.first == d.first
  {
    d.(rets := d.rets[t := Verdict(k.items[t], k.width, d.mem)],
       mem := if k.mends then Filled(d.mem, k.items[t].addr, k.width) else d.mem)
  }

  /** The slot the last lane of group g commits to. */
  function CommitSlot(k: Launch, g: nat): nat
    requires k.L > 0 && |k.items| == GroupStart(k.L, k.groups) && g < k.groups
  {
    GroupLanes(k.L, g, k.groups);
    k.items[GroupStart(k.L, g) + k.L - 1].slot
  }

  function CommitStep(k: Launch, d: Device, g: nat): (d': Device)
    requires k.L > 0 && |k.items| == GroupStart(k.L, k.groups) && g < k.groups
    requires CommitSlot(k, g) < |d.first| && AllIn(d.rets, GroupStart(k.L, g), k.L)
    ensures |d'.first| == |d.first| && d'.mem == d.mem
  {
    d.(first := AtomicMin(d.first, CommitSlot(k, g), ScanMin(d.rets, GroupStart(k.L, g), k.L)),
       committed := d.committed + {g})
  }

  function Step(k: Launch, d: Device, e: Event): (d': Device)
    requires Launchable(k, |d.mem|, |d.first|) && Enabled(k, d, e)
    ensures |d'.mem| == |d.mem| && |d'.first| == |d.first|
  {
    match e
    case Compare(t) => CompareStep(k, d, t)
    case Commit(g) => GroupLanes(k.L, g, k.groups); CommitStep(k, d, g)
  }

  /** Every event of the schedule is enabled when its turn comes. */
  ghost predicate Runs(k: Launch, d: Device, schedule: seq<Event>)
    requires Launchable(k, |d.mem|, |d.first|)
    decreases |schedule|
  {
    schedule == [] || (Enabled(k, d, schedule[0]) && Runs(k, Step(k, d, schedule[0]), schedule[1..]))
  }

  ghost function Outcome(k: Launch, d: Device, schedule: seq<Event>): Device
    requires Launchable(k, |d.mem|, |d.first|) && Runs(k, d, schedule)
    decreases |schedule|
  {
    if schedule == [] then d else Outcome(k, Step(k, d, schedule[0]), schedule[1..])
  }

  /** Which events can run next depends on what has compared and committed, not on memory contents. */
  lemma {:induction false} RunsAnyMemory(k: Launch, d: Device, e: Device, schedule: seq<Event>)
    requires |d.mem| == |e.mem| && |d.first| == |e.first| && Launchable(k, |d.mem|, |d.first|)
    requires d.rets.Keys == e.rets.Keys && d.committed == e.committed && Runs(k, d, schedule)
    ensures Runs(k, e, schedule)
    ensures Outcome(k, d, schedule).committed == Outcome(k, e, schedule).committed
    decreases |schedule|
  {
    if schedule != [] {
      assert Enabled(k, e, schedule[0]) by { assert forall t :: t in d.rets <==> t in e.rets.Keys; }
      RunsAnyMemory(k, Step(k, d, schedule[0]), Step(k, e, schedule[0]), schedule[1..]);
    }
  }

  /** The launch has finished: every work-group has committed. */
  ghost predicate Complete(k: Launch, d: Device)
    requires k.L > 0
  {
    forall g: nat | g < k.groups :: g in d.committed
  }

  /** Until the launch has finished the device can always take another step. */
  lemma NoDeadlock(k: Launch, d: Device) returns (e: Event)
    requires Launchable(k, |d.mem|, |d.first|) && !Complete(k, d)
    ensures Enabled(k, d, e)
  {
    var g: nat :| g < k.groups && g !in d.committed;
    if AllIn(d.rets, GroupStart(k.L, g), k.L) {
      e := Commit(g);
    } else {
      var t :| GroupStart(k.L, g) <= t < GroupStart(k.L, g) + k.L && t !in d.rets;
      GroupLanes(k.L, g, k.groups);
      e := Compare(t);
    }
  }

  /** A schedule that runs the launch to its end; memory contents do not matter. */
  ghost predicate CompleteSchedule(k: Launch, memSize: nat, slots: nat, schedule: seq<Event>) {
    && Launchable(k, memSize, slots)
    && var d := Start(seq(memSize, i => FILL), slots);
       Runs(k, d, schedule) && Complete(k, Outcome(k, d, schedule))
  }

  lemma CompleteScheduleRuns(k: Launch, mem: seq<byte>, slots: nat, schedule: seq<Event>)
    requires CompleteSchedule(k, |mem|, slots, schedule)
    ensures Runs(k, Start(mem, slots), schedule) && Complete(k, Outcome(k, Start(mem, slots), schedule))
  {
    RunsAnyMemory(k, Start(seq(|mem|, i => FILL), slots), Start(mem, slots), schedule);
  }

  ghost function Below(n: nat): (s: set<nat>)
    ensures forall t: nat {:trigger t in s} :: t in s <==> t < n
  {
    if n == 0 then {} else Below(n - 1) + {n - 1}
  }

  /** What is left to do: items that have not compared and groups that have not committed. */
  ghost function Left(k: Launch, d: Device): nat {
    |Below(|k.items|) - d.rets.Keys| + |Below(k.groups) - d.committed|
  }

  lemma OneLess(n: nat, done: set<nat>, x: nat)
    requires x < n && x !in done
    ensures |Below(n) - (done + {x})| == |Below(n) - done| - 1
  {
    assert Below(n) - (done + {x}) == (Below(n) - done) - {x};
  }

  lemma CompareLowers(k: Launch, d: Device, t: nat)
    requires t < |k.items| && Fits(k.items[t], k.width, |d.mem|) && t !in d.rets
    ensures Left(k, CompareStep(k, d, t)) == Left(k, d) - 1
  {
    CompareRecords(k, d, t);
    OneLess(|k.items|, d.rets.Keys, t);
    hide CompareStep, Below;
  }

  lemma CompareRecords(k: Launch, d: Device, t: nat)
    requires t < |k.items| && Fits(k.items[t], k.width, |d.mem|)
    ensures CompareStep(k, d, t).rets.Keys == d.rets.Keys + {t} && CompareStep(k, d, t).committed == d.committed
  {
    hide Verdict, Filled;
  }

  lemma StepLowers(k: Launch, d: Device, e: Event)
    requires Launchable(k, |d.mem|, |d.first|) && Enabled(k, d, e)
    ensures Left(k, Step(k, d, e)) == Left(k, d) - 1
  {
    match e {
      case Compare(t) => CompareLowers(k, d, t);
      case Commit(g) => OneLess(k.groups, d.committed, g);
    }
    hide CompareStep, Below, RaceFree, GroupsUniform;
  }

  /** No schedule goes on for ever. */
  lemma {:induction false} SchedulesAreFinite(k: Launch, d: Device, schedule: seq<Event>)
    requires Launchable(k, |d.mem|, |d.first|) && Runs(k, d, schedule)
    ensures |schedule| <= Left(k, d)
    decreases |schedule|
  {
    if schedule != [] {
      StepLowers(k, d, schedule[0]);
      SchedulesAreFinite(k, Step(k, d, schedule[0]), schedule[1..]);
    }
  }

  /** From any state the device can run the launch to its end. */
  lemma {:induction false} CanFinish(k: Launch, d: Device) returns (schedule: seq<Event>)
    requires Launchable(k, |d.mem|, |d.first|)
    ensures Runs(k, d, schedule) && Complete(k, Outcome(k, d, schedule))
    decreases Left(k, d)
  {
    schedule := [];
    if !Complete(k, d) {
      var e := NoDeadlock(k, d);
      StepLowers(k, d, e);
      var rest := CanFinish(k, Step(k, d, e));
      schedule := [e] + rest;
      assert schedule[1..] == rest;
    }
  }

  /** So every launch that can be made has a complete schedule. */
  lemma ScheduleExists(k: Launch, memSize: nat, slots: nat) returns (schedule: seq<Event>)
    requires Launchable(k, memSize, slots)
    ensures CompleteSchedule(k, memSize, slots, schedule)
  {
    schedule := CanFinish(k, Start(seq(memSize, i => FILL), slots));
  }

  function Start(mem: seq<byte>, slots: nat): Device {
    Device(mem, seq(slots, i => INT_MAX), map[], {})
  }

  // ----- the invariant every interleaving keeps -----

  ghost predicate Changeable(k: Launch, a: nat) {
    k.mends && exists t :: 0 <= t < |k.items| && Touches(k.items[t], k.width, a)
  }

  /** The result slot holds INT_MAX or the verdict of one of its own items. */
  ghost predicate Attained(k: Launch, mem0: seq<byte>, first: seq<nat>, b: nat)
    requires b < |first|
  {
    first[b] == INT_MAX || exists t: nat :: Attains(k, mem0, b, first[b], t)
  }

  ghost predicate Attains(k: Launch, mem0: seq<byte>, b: nat, v: nat, t: nat) {
    t < |k.items| && Fits(k.items[t], k.width, |mem0|)
    && k.items[t].slot == b && v == Verdict(k.items[t], k.width, mem0)
  }

  ghost predicate MemInv(k: Launch, mem0: seq<byte>, d: Device) {
    && |d.mem| == |mem0|
    && (forall t, a | 0 <= t < |k.items| && t !in d.rets && 0 <= a < |mem0| && Touches(k.items[t], k.width, a) ::
          d.mem[a] == mem0[a])
    && (k.mends ==> forall t, a | 0 <= t < |k.items| && t in d.rets && 0 <= a < |mem0| && Touches(k.items[t], k.width, a) ::
          d.mem[a] == FILL)
    && (forall a | 0 <= a < |mem0| && d.mem[a] != mem0[a] :: Changeable(k, a))
  }

  ghost predicate RetsInv(k: Launch, mem0: seq<byte>, rets: map<nat, nat>) {
    forall t | t in rets :: Attains(k, mem0, if t < |k.items| then k.items[t].slot else 0, rets[t], t)
  }

  ghost predicate Inv(k: Launch, mem0: seq<byte>, slots: nat, d: Device)
    requires Launchable(k, |mem0|, slots)
  {
    && |d.first| == slots
    && MemInv(k, mem0, d)
    && RetsInv(k, mem0, d.rets)
    && (forall t | 0 <= t < |k.items| && GroupId(k.L, t) in d.committed :: Counted(k, mem0, d, t))
    && (forall b | 0 <= b < slots :: Attained(k, mem0, d.first, b))
  }

  /** A committed item's verdict is accounted for in its slot. */
  ghost predicate Counted(k: Launch, mem0: seq<byte>, d: Device, t: nat)
    requires t < |k.items| && Fits(k.items[t], k.width, |mem0|) && k.items[t].slot < |d.first|
  {
    t in d.rets && d.first[k.items[t].slot] <= Verdict(k.items[t], k.width, mem0)
  }

  lemma UnchangedVerdict(m: seq<byte>, mem0: seq<byte>, addr: nat, width: nat, off: nat)
    requires |m| == |mem0| && addr + width <= |m| && off + width <= INT_MAX
    requires forall a | addr <= a < addr + width :: m[a] == mem0[a]
    ensures FirstBadIn(m, addr, width, off) == FirstBadIn(mem0, addr, width, off)
    decreases width
  {
    if width > 0 { UnchangedVerdict(m, mem0, addr + 1, width - 1, off + 1); }
  }

  lemma MemInvCompare(k: Launch, mem0: seq<byte>, slots: nat, d: Device, t: nat)
    requires Launchable(k, |mem0|, slots) && |d.first| == slots
    requires MemInv(k, mem0, d) && Enabled(k, d, Compare(t))
    ensures MemInv(k, mem0, CompareStep(k, d, t))
  {
    var it := k.items[t];
    var d' := CompareStep(k, d, t);
    assert RaceFree(k.items, k.width);
    forall u, a | 0 <= u < |k.items| && u !in d'.rets && 0 <= a < |mem0| && Touches(k.items[u], k.width, a)
      ensures d'.mem[a] == mem0[a]
    {
      assert u != t && !Touches(it, k.width, a);
    }
    forall a | 0 <= a < |mem0| && d'.mem[a] != mem0[a] ensures Changeable(k, a) {
      if d.mem[a] == mem0[a] { assert Touches(it, k.width, a); }
    }
  }

  lemma RetsInvCompare(k: Launch, mem0: seq<byte>, d: Device, t: nat)
    requires t < |k.items| && Fits(k.items[t], k.width, |mem0|) && t !in d.rets
    requires MemInv(k, mem0, d) && RetsInv(k, mem0, d.rets)
    ensures RetsInv(k, mem0, CompareStep(k, d, t).rets)
  {
    var it := k.items[t];
    forall a | it.addr <= a < it.addr + k.width ensures d.mem[a] == mem0[a] {
      assert Touches(it, k.width, a);
    }
    UnchangedVerdict(d.mem, mem0, it.addr, k.width, it.off);
  }

  lemma InvCompare(k: Launch, mem0: seq<byte>, slots: nat, d: Device, t: nat)
    requires Launchable(k, |mem0|, slots) && Inv(k, mem0, slots, d) && Enabled(k, d, Compare(t))
    ensures Inv(k, mem0, slots, CompareStep(k, d, t))
  {
    RetsInvCompare(k, mem0, d, t);
    MemInvCompare(k, mem0, slots, d, t);
    var d' := CompareStep(k, d, t);
    forall u | 0 <= u < |k.items| && GroupId(k.L, u) in d'.committed ensures Counted(k, mem0, d', u) {
      assert Counted(k, mem0, d, u);
    }
    forall b | 0 <= b < slots ensures Attained(k, mem0, d'.first, b) {
      assert Attained(k, mem0, d.first, b);
    }
  }

  lemma CommitCounts(k: Launch, mem0: seq<byte>, d: Device, g: nat, t: nat)
    requires k.L > 0 && |k.items| == GroupStart(k.L, k.groups) && GroupsUniform(k) && g < k.groups
    requires CommitSlot(k, g) < |d.first| && AllIn(d.rets, GroupStart(k.L, g), k.L) && RetsInv(k, mem0, d.rets)
    requires t < |k.items| && GroupId(k.L, t) == g && Fits(k.items[t], k.width, |mem0|)
    ensures k.items[t].slot < |d.first| && Counted(k, mem0, CommitStep(k, d, g), t)
  {
    var start := GroupStart(k.L, g);
    LaneGroup(k.L, g, t);
    var _ := ScanMinIsMin(d.rets, start, k.L, t);
    assert d.rets[t] == Verdict(k.items[t], k.width, mem0);
    assert UniformAt(k, t);
  }

  lemma CommitAttains(k: Launch, mem0: seq<byte>, d: Device, g: nat, b: nat)
    requires k.L > 0 && |k.items| == GroupStart(k.L, k.groups) && GroupsUniform(k) && g < k.groups
    requires CommitSlot(k, g) < |d.first| && AllIn(d.rets, GroupStart(k.L, g), k.L) && RetsInv(k, mem0, d.rets)
    requires b < |d.first| && Attained(k, mem0, d.first, b)
    ensures Attained(k, mem0, CommitStep(k, d, g).first, b)
  {
    GroupLanes(k.L, g, k.groups);
    var start := GroupStart(k.L, g);
    var wgRet := ScanMin(d.rets, start, k.L);
    var t := ScanMinIsMin(d.rets, start, k.L, start);
    LaneGroup(k.L, g, t);
    assert UniformAt(k, t);
    assert Attains(k, mem0, CommitSlot(k, g), wgRet, t);
    CommitAttainsAt(k, mem0, d.first, CommitSlot(k, g), wgRet, t, b);
  }

  lemma CommitAttainsAt(k: Launch, mem0: seq<byte>, first: seq<nat>, slot: nat, wgRet: nat, t: nat, b: nat)
    requires slot < |first| && b < |first| && Attained(k, mem0, first, b) && Attains(k, mem0, slot, wgRet, t)
    ensures Attained(k, mem0, AtomicMin(first, slot, wgRet), b)
  {
  }

  lemma InvCommit(k: Launch, mem0: seq<byte>, slots: nat, d: Device, g: nat)
    requires Launchable(k, |mem0|, slots) && Inv(k, mem0, slots, d) && Enabled(k, d, Commit(g))
    ensures Inv(k, mem0, slots, CommitStep(k, d, g))
  {
    var d' := CommitStep(k, d, g);
    forall t | 0 <= t < |k.items| && GroupId(k.L, t) in d'.committed ensures Counted(k, mem0, d', t) {
      if GroupId(k.L, t) == g {
        CommitCounts(k, mem0, d, g, t);
      } else {
        assert Counted(k, mem0, d, t);
      }
    }
    forall b | 0 <= b < slots ensures Attained(k, mem0, d'.first, b) {
      CommitAttains(k, mem0, d, g, b);
    }
    assert MemInv(k, mem0, d');
  }

  lemma {:induction false} InvRuns(k: Launch, mem0: seq<byte>, slots: nat, d: Device, schedule: seq<Event>)
    requires Launchable(k, |mem0|, slots) && Inv(k, mem0, slots, d) && Runs(k, d, schedule)
    ensures Inv(k, mem0, slots, Outcome(k, d, schedule))
    decreases |schedule|
  {
    if schedule != [] {
      match schedule[0] {
        case Compare(t) => InvCompare(k, mem0, slots, d, t);
        case Commit(g) => InvCommit(k, mem0, slots, d, g);
      }
      InvRuns(k, mem0, slots, Step(k, d, schedule[0]), schedule[1..]);
    }
  }

  /** What a finished launch leaves behind; no schedule appears in the statement. */
  ghost predicate Finished(k: Launch, mem0: seq<byte>, mem: seq<byte>, first: seq<nat>)
    requires Launchable(k, |mem0|, |first|)
  {
    && |mem| == |mem0|
    && (forall t | 0 <= t < |k.items| :: first[k.items[t].slot] <= Verdict(k.items[t], k.width, mem0))
    && (forall b | 0 <= b < |first| :: Attained(k, mem0, first, b))
    && (k.mends ==> forall t, a | 0 <= t < |k.items| && 0 <= a < |mem0| && Touches(k.items[t], k.width, a) ::
          mem[a] == FILL)
    && (forall a | 0 <= a < |mem0| && mem[a] != mem0[a] :: Changeable(k, a))
  }

  lemma EveryScheduleFinishes(k: Launch, mem: seq<byte>, slots: nat, schedule: seq<Event>)
    requires Launchable(k, |mem|, slots) && Runs(k, Start(mem, slots), schedule)
    requires Complete(k, Outcome(k, Start(mem, slots), schedule))
    ensures var d := Outcome(k, Start(mem, slots), schedule);
      |d.first| == slots && Finished(k, mem, d.mem, d.first)
  {
    InvStart(k, mem, slots);
    InvRuns(k, mem, slots, Start(mem, slots), schedule);
    InvFinishes(k, mem, slots, Outcome(k, Start(mem, slots), schedule));
  }

  lemma InvStart(k: Launch, mem: seq<byte>, slots: nat)
    requires Launchable(k, |mem|, slots)
    ensures Inv(k, mem, slots, Start(mem, slots))
  {
  }

  lemma InvFinishes(k: Launch, mem: seq<byte>, slots: nat, d: Device)
    requires Launchable(k, |mem|, slots) && Inv(k, mem, slots, d) && Complete(k, d)
    ensures Finished(k, mem, d.mem, d.first)
  {
    forall t | 0 <= t < |k.items| 
      ensures t in d.rets && d.first[k.items[t].slot] <= Verdict(k.items[t], k.width, mem)
    {
      GroupInRange(k.L, t, k.groups);
      assert Counted(k, mem, d, t);
    }
  }

  /** The result of a launch does not depend on how the device scheduled it. */
  lemma SchedulesAgree(k: Launch, mem0: seq<byte>, m1: seq<byte>, m2: seq<byte>, f1: seq<nat>, f2: seq<nat>)
    requires |f1| == |f2| && Launchable(k, |mem0|, |f1|)
    requires Finished(k, mem0, m1, f1) && Finished(k, mem0, m2, f2)
    ensures m1 == m2 && f1 == f2
  {
    forall b | 0 <= b < |f1| ensures f1[b] == f2[b] {
      assert Attained(k, mem0, f1, b) && Attained(k, mem0, f2, b);
    }
    forall a | 0 <= a < |mem0| ensures m1[a] == m2[a] {
      if Changeable(k, a) {
        var t :| 0 <= t < |k.items| && Touches(k.items[t], k.width, a);
      }
    }
  }

  // ----- from work-items to whole canaries -----

  ghost predicate Covers(it: Item, width: nat, b: nat, p: nat) {
    it.slot == b && it.off <= p < it.off + width
  }

  ghost predicate Covered(k: Launch, b: nat, p: nat) {
    exists t :: 0 <= t < |k.items| && Covers(k.items[t], k.width, b, p)
  }

  /** The item reads the bytes it reports: views[slot][off + i] is address addr + i. */
  ghost predicate Faithful(it: Item, width: nat, views: seq<seq<nat>>) {
    && it.slot < |views| && it.off + width <= |views[it.slot]|
    && forall p | it.off <= p < it.off + width :: views[it.slot][p] == it.addr + (p - it.off)
  }

  /** views[b][p] is the device address of canary byte p of result slot b. */
  ghost predicate Layout(k: Launch, views: seq<seq<nat>>) {
    && (forall t | 0 <= t < |k.items| :: Faithful(k.items[t], k.width, views))
    && (forall b, p {:trigger Covered(k, b, p)} | 0 <= b < |views| && 0 <= p < |views[b]| :: Covered(k, b, p))
  }

  ghost predicate AddressesIn(addrs: seq<nat>, memSize: nat) {
    forall p | 0 <= p < |addrs| :: addrs[p] < memSize
  }

  function Bytes(mem: seq<byte>, addrs: seq<nat>): (s: seq<byte>)
    requires AddressesIn(addrs, |mem|)
    ensures |s| == |addrs| && forall p | 0 <= p < |addrs| :: s[p] == mem[addrs[p]]
  {
    seq(|addrs|, p requires 0 <= p < |addrs| => mem[addrs[p]])
  }

  /** The heart of all kernel results: a finished launch reports, per slot, the sequential answer. */
  lemma SlotReportsFirstBad(k: Launch, mem0: seq<byte>, mem: seq<byte>, first: seq<nat>, views: seq<seq<nat>>, b: nat)
    requires |views| == |first| && b < |first| && |views[b]| <= INT_MAX && AddressesIn(views[b], |mem0|)
    requires Launchable(k, |mem0|, |first|) && Layout(k, views) && Finished(k, mem0, mem, first)
    ensures first[b] == FirstBad(Bytes(mem0, views[b]))
  {
    var s := Bytes(mem0, views[b]);
    forall p | 0 <= p < |s| && s[p] != FILL ensures first[b] <= p {
      assert Covered(k, b, p);
      var t :| 0 <= t < |k.items| && Covers(k.items[t], k.width, b, p);
      assert first[k.items[t].slot] <= Verdict(k.items[t], k.width, mem0);
      ReportsBadByte(k.items[t], k.width, mem0, views, p);
    }
    assert Attained(k, mem0, first, b);
    if first[b] != INT_MAX {
      var t: nat :| Attains(k, mem0, b, first[b], t);
      assert Faithful(k.items[t], k.width, views);
      assert s[first[b]] != FILL;
    }
    FirstBadUnique(s, first[b]);
  }

  lemma ReportsBadByte(it: Item, width: nat, mem: seq<byte>, views: seq<seq<nat>>, p: nat)
    requires Fits(it, width, |mem|) && Faithful(it, width, views) && it.off <= p < it.off + width
    requires views[it.slot][p] < |mem| && mem[views[it.slot][p]] != FILL
    ensures Verdict(it, width, mem) <= p
  {
    assert views[it.slot][p] == it.addr + (p - it.off);
  }

  /** ... and a mending launch leaves every canary byte clean and nothing else changed. */
  lemma LaunchMends(k: Launch, mem0: seq<byte>, mem: seq<byte>, first: seq<nat>, views: seq<seq<nat>>, a: nat)
    requires |views| == |first| && a < |mem0|
    requires Launchable(k, |mem0|, |first|) && Layout(k, views) && Finished(k, mem0, mem, first)
    ensures k.mends && (exists b, p :: IsCanaryByte(views, b, p, a)) ==> mem[a] == FILL
    ensures !k.mends || !(exists b, p :: IsCanaryByte(views, b, p, a)) ==> mem[a] == mem0[a]
  {
    if k.mends && exists b, p :: IsCanaryByte(views, b, p, a) {
      var b, p :| IsCanaryByte(views, b, p, a);
      assert Covered(k, b, p);
      var t :| 0 <= t < |k.items| && Covers(k.items[t], k.width, b, p);
      assert Faithful(k.items[t], k.width, views);
      assert Touches(k.items[t], k.width, a);
    } else if mem[a] != mem0[a] {
      assert Changeable(k, a);
      var t :| 0 <= t < |k.items| && Touches(k.items[t], k.width, a);
      var it := k.items[t];
      assert Faithful(it, k.width, views);
      assert IsCanaryByte(views, it.slot, it.off + (a - it.addr), a);
      assert false;
    }
  }

  ghost predicate IsCanaryByte(views: seq<seq<nat>>, b: nat, p: nat, a: nat) {
    b < |views| && p < |views[b]| && views[b][p] == a
  }

  /** No two canary bytes share an address. */
  ghost predicate Distinct(views: seq<seq<nat>>) {
    forall b, p, c, q, a | IsCanaryByte(views, b, p, a) && IsCanaryByte(views, c, q, a) :: b == c && p == q
  }

  /** Items that report different offsets never touch the same byte: a kernel whose items cover
      disjoint stretches of distinct canary bytes is free of data races. */
  lemma LayoutIsRaceFree(k: Launch, views: seq<seq<nat>>)
    requires Layout(k, views) && Distinct(views)
    requires forall t, u | 0 <= t < u < |k.items| && k.items[t].slot == k.items[u].slot ::
               k.items[t].off + k.width <= k.items[u].off || k.items[u].off + k.width <= k.items[t].off
    ensures RaceFree(k.items, k.width)
  {
    forall t, u | 0 <= t < u < |k.items|
      ensures k.items[t].addr + k.width <= k.items[u].addr || k.items[u].addr + k.width <= k.items[t].addr
    {
      var x, y := k.items[t], k.items[u];
      assert Faithful(x, k.width, views) && Faithful(y, k.width, views);
      if x.addr <= y.addr < x.addr + k.width {
        assert IsCanaryByte(views, x.slot, x.off + (y.addr - x.addr), y.addr);
        assert IsCanaryByte(views, y.slot, y.off, y.addr);
        assert false;
      } else if y.addr <= x.addr < y.addr + k.width {
        assert IsCanaryByte(views, y.slot, y.off + (x.addr - y.addr), x.addr);
        assert IsCanaryByte(views, x.slot, x.off, x.addr);
        assert false;
      }
    }
  }

  /** A launch that does not mend leaves memory as it was. */
  lemma ReadOnlyLaunch(l: Launch, mem0: seq<byte>, mem: seq<byte>, first: seq<nat>)
    requires Launchable(l, |mem0|, |first|) && !l.mends && Finished(l, mem0, mem, first)
    ensures mem == mem0
  {
    forall a | 0 <= a < |mem0| ensures mem[a] == mem0[a] {
      assert !Changeable(l, a);
    }
  }
}
