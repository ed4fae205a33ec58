/** The five OpenCL checker kernels: what each work-item addresses, its body over device memory,
    and the execution of any schedule of a launch. */
module Kernels {
  import opened Arithmetic
  import opened Canary
  import opened Schedules

  /** The kernels and their launch arguments; B, C and the entries of table are device addresses. */
  datatype Kernel =
    | FindCorruption(canaryLen: nat, buffEnd: nat, svmEnd: nat, B: nat, C: nat)
    | FindCorruptionNoSVM(canaryLen: nat, buffEnd: nat, svmEnd: nat, B: nat)
    | FindImageCorruption(ends: seq<nat>, B: nat)
    | LocateDiffParts(length: nat, regions: seq<Region>)
    | LocateDiffSVMPtr(length: nat, endBuffs: nat, endSVM: nat, B: nat, table: seq<nat>)

  /** One canary region: a main buffer and the byte offset of the region in it. */
  datatype Region = Region(B: nat, offset: nat)

  /** LocateDiffParts stands for all launches of that kernel that one check enqueues, one per region,
      each with its own result slot buffID. They wait for the same events, so the device may
      interleave them; global id buffID * length + tid is work-item tid of launch buffID. */

  /** How many work-items get past the early return. */
  function Threads(k: Kernel): nat {
    match k
    case FindCorruption(_, _, svmEnd, _, _) => svmEnd
    case FindCorruptionNoSVM(_, _, svmEnd, _) => svmEnd
    case FindImageCorruption(ends, _) => if ends == [] then 0 else ends[|ends| - 1]
    case LocateDiffParts(length, regions) => |regions| * length
    case LocateDiffSVMPtr(_, _, endSVM, _, _) => endSVM
  }

  /** The launch arguments make every index expression of the kernel defined. */
  ghost predicate ArgsOk(k: Kernel) {
    match k
    case FindCorruption(w, _, _, _, _) => w > 0
    case FindCorruptionNoSVM(w, buffEnd, svmEnd, _) => w > 0 && svmEnd == buffEnd
    case FindImageCorruption(ends, _) => Ascending(ends)
    case LocateDiffParts(length, _) => length > 0
    case LocateDiffSVMPtr(w, endBuffs, endSVM, _, table) =>
      w > 0 && RegionWords(w) > 0 && forall t | endBuffs <= t < endSVM :: InTable(RegionWords(w), endBuffs, table, t)
  }

  /** Words per canary region, of w words per buffer. */
  function RegionWords(w: nat): nat { w / POISON_REGIONS }

  ghost predicate InTable(half: nat, endBuffs: nat, table: seq<nat>, t: nat)
    requires half > 0 && endBuffs <= t
  {
    (t - endBuffs) / half < |table|
  }

  ghost predicate Ascending(ends: seq<nat>) {
    forall i, j | 0 <= i < j < |ends| :: ends[i] <= ends[j]
  }

  /** Image b is the one whose canary holds flat position tid: the first end beyond it. */
  ghost predicate IsOwner(ends: seq<nat>, tid: nat, b: nat) {
    b < |ends| && (forall i | 0 <= i < b :: ends[i] <= tid) && tid < ends[b]
  }

  /** The position in the combined canary array where image b's canary starts. */
  function StartOf(ends: seq<nat>, b: nat): nat
    requires b < |ends|
  {
    if b > 0 then ends[b - 1] else 0
  }

  function Owner(ends: seq<nat>, tid: nat): (b: nat)
    requires ends != [] && tid < ends[|ends| - 1]
    ensures IsOwner(ends, tid, b)
  {
    OwnerFrom(ends, tid, 0)
  }

  function OwnerFrom(ends: seq<nat>, tid: nat, b: nat): (r: nat)
    requires b < |ends| && tid < ends[|ends| - 1] && forall i | 0 <= i < b :: ends[i] <= tid
    ensures IsOwner(ends, tid, r)
    decreases |ends| - b
  {
    if tid < ends[b] then b else OwnerFrom(ends, tid, b + 1)
  }

  function ItemOf(k: Kernel, tid: nat): Item
    requires ArgsOk(k) && tid < Threads(k)
  {
    match k
    case FindCorruption(w, buffEnd, _, B, C) => CopyItem(w, buffEnd, B, C, tid)
    case FindCorruptionNoSVM(w, buffEnd, _, B) => CopyItem(w, buffEnd, B, 0, tid)
    case FindImageCorruption(ends, B) => ImageItem(ends, B, tid)
    case LocateDiffParts(length, regions) => PartsItem(length, regions, tid)
    case LocateDiffSVMPtr(w, endBuffs, _, B, table) => PtrItem(w, endBuffs, B, table, tid)
  }

  function CopyItem(w: nat, buffEnd: nat, B: nat, C: nat, tid: nat): Item
    requires w > 0
  {
    Item(tid / w, if tid < buffEnd then B + 4 * tid else C + 4 * (tid - buffEnd), 4 * (tid % w))
  }

  function ImageItem(ends: seq<nat>, B: nat, tid: nat): Item
    requires ends != [] && tid < ends[|ends| - 1]
  {
    Item(Owner(ends, tid), B + tid, tid - StartOf(ends, Owner(ends, tid)))
  }

  function PartsItem(length: nat, regions: seq<Region>, tid: nat): Item
    requires length > 0 && tid < |regions| * length
  {
    PartInRange(length, |regions|, tid);
    PartItem(regions[tid / length], tid / length, tid % length)
  }

  function PtrItem(w: nat, endBuffs: nat, B: nat, table: seq<nat>, tid: nat): Item
    requires w > 0 && RegionWords(w) > 0 && (tid >= endBuffs ==> InTable(RegionWords(w), endBuffs, table, tid))
  {
    Item(tid / w, if tid < endBuffs then B + 4 * tid else SvmAddress(RegionWords(w), endBuffs, table, tid),
         4 * (tid % w))
  }

  function PartItem(r: Region, buffID: nat, tid: nat): Item {
    Item(buffID, r.B + r.offset + 4 * tid, 4 * tid)
  }

  lemma PartInRange(length: nat, n: nat, t: nat)
    requires length > 0 && t < n * length
    ensures t / length < n
  {
    assert t == (t / length) * length + t % length;
    if t / length >= n { MulMono(n, t / length, length); }
  }

  /** The word an item of the SVM part looks at: through the pointer of its canary region. */
  function SvmAddress(half: nat, endBuffs: nat, table: seq<nat>, tid: nat): nat
    requires half > 0 && tid >= endBuffs && InTable(half, endBuffs, table, tid)
  {
    table[(tid - endBuffs) / half] + 4 * (tid % half)
  }

  function WidthOf(k: Kernel): nat { if k.FindImageCorruption? then 1 else 4 }

  /** Two of the kernels overwrite what they find corrupted. */
  predicate MendsOf(k: Kernel) { k.LocateDiffParts? || k.LocateDiffSVMPtr? }

  function LaunchOf(k: Kernel, L: nat, groups: nat): Launch
    requires ArgsOk(k)
  {
    Launch(seq(Threads(k), t requires 0 <= t < Threads(k) => ItemOf(k, t)),
           WidthOf(k), MendsOf(k), L, groups)
  }

  // ----- work-item bodies -----

  lemma FirstBadInIs(mem: seq<byte>, addr: nat, width: nat, off: nat, r: nat)
    requires addr + width <= |mem| && off + width <= INT_MAX
    requires r == INT_MAX ==> forall a | addr <= a < addr + width :: mem[a] == FILL
    requires r != INT_MAX ==> off <= r < off + width && mem[addr + (r - off)] != FILL
                              && forall a | addr <= a < addr + (r - off) :: mem[a] == FILL
    ensures r == FirstBadIn(mem, addr, width, off)
  {
  }

  function WordAt(mem: seq<byte>, a: nat): bv32
    requires a + 4 <= |mem|
  {
    Word(mem[a], mem[a + 1], mem[a + 2], mem[a + 3])
  }

  lemma WordAtIsPoison(mem: seq<byte>, a: nat)
    requires a + 4 <= |mem|
    ensures WordAt(mem, a) == POISON_FILL_32B <==> forall i | a <= i < a + 4 :: mem[i] == FILL
  {
    WordIsPoison(mem[a], mem[a + 1], mem[a + 2], mem[a + 3]);
  }

  /** The comparer of the copied-canary kernels: it only reads. */
  method CompareWithPoison(localBuff: nat, index: nat, mem: array<byte>, B: nat) returns (ret: nat)
    requires B + 4 * index + 4 <= mem.Length && 4 * localBuff + 4 <= INT_MAX
    ensures ret == FirstBadIn(mem[..], B + 4 * index, 4, 4 * localBuff)
  {
    ret := INT_MAX;
    ghost var a := B + 4 * index;
    WordAtIsPoison(mem[..], a);
    if Word(mem[B + 4 * index], mem[B + 4 * index + 1], mem[B + 4 * index + 2], mem[B + 4 * index + 3]) != POISON_FILL_32B {
      var i := 0;
      while i < 4
        invariant 0 <= i <= 4 && ret == INT_MAX
        invariant forall j | a <= j < a + i :: mem[j] == FILL
      {
        if mem[B + 4 * index + i] != FILL {
          ret := 4 * localBuff + i;
          break;
        }
        i := i + 1;
      }
    }
    FirstBadInIs(mem[..], a, 4, 4 * localBuff, ret);
  }

  /** The comparer of the SVM-pointer kernel: a corrupted word is overwritten after it is reported. */
  method CompareAndMend(localBuff: nat, index: nat, mem: array<byte>, B: nat) returns (ret: nat)
    requires B + 4 * index + 4 <= mem.Length && 4 * localBuff + 4 <= INT_MAX
    modifies mem
    ensures ret == FirstBadIn(old(mem[..]), B + 4 * index, 4, 4 * localBuff)
    ensures mem[..] == Filled(old(mem[..]), B + 4 * index, 4)
  {
    ret := CompareWithPoison(localBuff, index, mem, B);
    ghost var before := mem[..];
    WordAtIsPoison(before, B + 4 * index);
    if Word(mem[B + 4 * index], mem[B + 4 * index + 1], mem[B + 4 * index + 2], mem[B + 4 * index + 3]) != POISON_FILL_32B {
      WriteWord(mem, B + 4 * index);
    } else {
      assert mem[..] == Filled(before, B + 4 * index, 4);
    }
  }

  method WriteWord(mem: array<byte>, a: nat)
    requires a + 4 <= mem.Length
    modifies mem
    ensures mem[..] == Filled(old(mem[..]), a, 4)
  {
    mem[a], mem[a + 1], mem[a + 2], mem[a + 3] := FILL, FILL, FILL, FILL;
  }

  method FirstNonzeroByte(bytes: seq<byte>) returns (i: nat)
    requires |bytes| == 4
    ensures i <= 4 && (i < 4 ==> bytes[i] != 0) && forall j | 0 <= j < i :: bytes[j] == 0
  {
    i := 0;
    while i < 4 && bytes[i] == 0
      invariant i <= 4 && forall j | 0 <= j < i :: bytes[j] == 0
    {
      i := i + 1;
    }
  }

  /** The exclusive-or of the fill word and a canary word, and its bytes. */
  method XorWord(b0: byte, b1: byte, b2: byte, b3: byte) returns (differs: bool, bytes: seq<byte>)
    ensures |bytes| == 4
    ensures !differs <==> b0 == FILL && b1 == FILL && b2 == FILL && b3 == FILL
    ensures (bytes[0] == 0 <==> b0 == FILL) && (bytes[1] == 0 <==> b1 == FILL)
    ensures (bytes[2] == 0 <==> b2 == FILL) && (bytes[3] == 0 <==> b3 == FILL)
  {
    var word := POISON_FILL_32B ^ Word(b0, b1, b2, b3);
    bytes := BytesOf(word);
    differs := word != 0;
    XorBytes(b0, b1, b2, b3);
    XorIsZero(b0, b1, b2, b3);
  }

  /** The aligned comparer of the single-buffer kernel looks for the first non-zero byte of the
      exclusive-or with the fill word. */
  method CompareXor(index: nat, mem: array<byte>, canary: nat) returns (ret: nat)
    requires canary + 4 * index + 4 <= mem.Length && 4 * index + 4 <= INT_MAX
    modifies mem
    ensures ret == FirstBadIn(old(mem[..]), canary + 4 * index, 4, 4 * index)
    ensures mem[..] == Filled(old(mem[..]), canary + 4 * index, 4)
  {
    ret := INT_MAX;
    var a := canary + 4 * index;
    ghost var before := mem[..];
    var differs, bytes := XorWord(mem[a], mem[a + 1], mem[a + 2], mem[a + 3]);
    if differs {
      var i := FirstNonzeroByte(bytes);
      if i < 4 { ret := 4 * index + i; }
      WriteWord(mem, a);
    } else {
      assert mem[..] == Filled(before, a, 4);
    }
    FirstBadInIs(before, a, 4, 4 * index, ret);
  }

  /** The unaligned comparer visits all four bytes, mends each, and keeps the least offset. */
  method CompareBytes(index: nat, mem: array<byte>, canary: nat) returns (ret: nat)
    requires canary + index + 4 <= mem.Length && index + 4 <= INT_MAX
    modifies mem
    ensures ret == FirstBadIn(old(mem[..]), canary + index, 4, index)
    ensures mem[..] == Filled(old(mem[..]), canary + index, 4)
  {
    ret := INT_MAX;
    var tmpRet := INT_MAX;
    ghost var a := canary + index;
    for i := 0 to 4
      invariant tmpRet == INT_MAX ==> ret == INT_MAX
      invariant tmpRet != INT_MAX ==> index <= ret <= tmpRet < index + i
      invariant ret == INT_MAX ==> forall j | a <= j < a + i :: old(mem[j]) == FILL
      invariant ret != INT_MAX ==> old(mem[a + (ret - index)]) != FILL
                                   && forall j | a <= j < a + (ret - index) :: old(mem[j]) == FILL
      invariant forall j | 0 <= j < mem.Length :: mem[j] == if a <= j < a + i then FILL else old(mem[j])
    {
      if mem[canary + index + i] != FILL {
        tmpRet := index + i;
        mem[canary + index + i] := FILL;
      }
      if tmpRet < ret { ret := tmpRet; }
    }
    FirstBadInIs(old(mem[..]), a, 4, index, ret);
  }

  /** The search loop of the batched image kernel. */
  method FindOwner(ends: seq<nat>, tid: nat) returns (buffID: nat)
    ensures buffID <= |ends| && forall i | 0 <= i < buffID :: ends[i] <= tid
    ensures buffID < |ends| ==> IsOwner(ends, tid, buffID)
  {
    buffID := 0;
    while buffID < |ends| && tid >= ends[buffID]
      invariant buffID <= |ends| && forall i | 0 <= i < buffID :: ends[i] <= tid
    {
      buffID := buffID + 1;
    }
  }

  lemma OwnerUnique(ends: seq<nat>, tid: nat, b: nat, c: nat)
    requires IsOwner(ends, tid, b) && IsOwner(ends, tid, c)
    ensures b == c
  {
  }

  method FindCorruptionItem(canaryLen: nat, buffEnd: nat, B: nat, C: nat, tid: nat, mem: array<byte>) returns (ret: nat)
    requires canaryLen > 0 && Fits(CopyItem(canaryLen, buffEnd, B, C, tid), 4, mem.Length)
    ensures ret == Verdict(CopyItem(canaryLen, buffEnd, B, C, tid), 4, mem[..])
  {
    var localBuff := tid % canaryLen;
    if tid < buffEnd {
      ret := CompareWithPoison(localBuff, tid, mem, B);
    } else {
      ret := CompareWithPoison(localBuff, tid - buffEnd, mem, C);
    }
  }

  method FindCorruptionNoSVMItem(canaryLen: nat, buffEnd: nat, B: nat, tid: nat, mem: array<byte>) returns (ret: nat)
    requires canaryLen > 0 && tid < buffEnd && Fits(CopyItem(canaryLen, buffEnd, B, 0, tid), 4, mem.Length)
    ensures ret == Verdict(CopyItem(canaryLen, buffEnd, B, 0, tid), 4, mem[..])
  {
    var localBuff := tid % canaryLen;
    ret := INT_MAX;
    if tid < buffEnd {
      ret := CompareWithPoison(localBuff, tid, mem, B);
    }
  }

  method FindImageCorruptionItem(ends: seq<nat>, B: nat, tid: nat, mem: array<byte>) returns (ret: nat)
    requires ends != [] && tid < ends[|ends| - 1] && Fits(ImageItem(ends, B, tid), 1, mem.Length)
    ensures ret == Verdict(ImageItem(ends, B, tid), 1, mem[..])
  {
    var buffID := FindOwner(ends, tid);
    OwnerUnique(ends, tid, buffID, Owner(ends, tid));
    var localBuff := tid - StartOf(ends, buffID);
    ret := INT_MAX;
    if mem[B + tid] != FILL {
      ret := localBuff;
    }
    FirstBadInIs(mem[..], B + tid, 1, localBuff, ret);
  }

  method LocateDiffPartsItem(buffID: nat, r: Region, tid: nat, mem: array<byte>) returns (ret: nat)
    requires Fits(PartItem(r, buffID, tid), 4, mem.Length)
    modifies mem
    ensures ret == Verdict(PartItem(r, buffID, tid), 4, old(mem[..]))
    ensures mem[..] == Filled(old(mem[..]), PartItem(r, buffID, tid).addr, 4)
  {
    if r.offset % 4 != 0 {
      ret := CompareBytes(tid * 4, mem, r.B + r.offset);
    } else {
      ret := CompareXor(tid, mem, r.B + r.offset);
    }
  }

  method SvmTarget(half: nat, endBuffs: nat, table: seq<nat>, tid: nat) returns (index: nat, valPtr: nat)
    requires half > 0 && tid >= endBuffs && InTable(half, endBuffs, table, tid)
    ensures valPtr + 4 * index == SvmAddress(half, endBuffs, table, tid)
  {
    index := tid % half;
    valPtr := table[(tid - endBuffs) / half];
  }

  method LocateDiffSVMPtrItem(length: nat, endBuffs: nat, B: nat, table: seq<nat>, tid: nat, mem: array<byte>)
    returns (ret: nat)
    requires length > 0 && RegionWords(length) > 0
    requires tid >= endBuffs ==> InTable(RegionWords(length), endBuffs, table, tid)
    requires Fits(PtrItem(length, endBuffs, B, table, tid), 4, mem.Length)
    modifies mem
    ensures ret == Verdict(PtrItem(length, endBuffs, B, table, tid), 4, old(mem[..]))
    ensures mem[..] == Filled(old(mem[..]), PtrItem(length, endBuffs, B, table, tid).addr, 4)
  {
    var localBuff := tid % length;
    if tid < endBuffs {
      ret := CompareAndMend(localBuff, tid, mem, B);
    } else {
      var index, valPtr := SvmTarget(length / POISON_REGIONS, endBuffs, table, tid);
      ret := CompareAndMend(localBuff, index, mem, valPtr);
    }
  }

  /** One work-item of any kernel, up to its group operation. */
  method WorkItem(k: Kernel, tid: nat, mem: array<byte>) returns (ret: nat)
    requires ArgsOk(k) && tid < Threads(k) && Fits(ItemOf(k, tid), WidthOf(k), mem.Length)
    modifies mem
    ensures ret == Verdict(ItemOf(k, tid), WidthOf(k), old(mem[..]))
    ensures mem[..] == if MendsOf(k) then Filled(old(mem[..]), ItemOf(k, tid).addr, WidthOf(k)) else old(mem[..])
  {
    match k {
      case FindCorruption(canaryLen, buffEnd, svmEnd, B, C) =>
        ret := FindCorruptionItem(canaryLen, buffEnd, B, C, tid, mem);
      case FindCorruptionNoSVM(canaryLen, buffEnd, svmEnd, B) =>
        ret := FindCorruptionNoSVMItem(canaryLen, buffEnd, B, tid, mem);
      case FindImageCorruption(ends, B) =>
        ret := FindImageCorruptionItem(ends, B, tid, mem);
      case LocateDiffParts(length, regions) =>
        PartInRange(length, |regions|, tid);
        ret := LocateDiffPartsItem(tid / length, regions[tid / length], tid % length, mem);
      case LocateDiffSVMPtr(length, endBuffs, endSVM, B, table) =>
        ret := LocateDiffSVMPtrItem(length, endBuffs, B, table, tid, mem);
    }
  }

  /** work_group_scan_inclusive_min: the value lane L-1 receives (section 6.13.15 of OpenCL C 2.0). */
  method ScanInclusiveMin(rets: map<nat, nat>, start: nat, L: nat) returns (wgRet: nat)
    requires L > 0 && AllIn(rets, start, L)
    ensures wgRet == ScanMin(rets, start, L)
  {
    wgRet := rets[start];
    for lane := 1 to L
      invariant wgRet == ScanMin(rets, start, lane)
    {
      if rets[start + lane] <= wgRet { wgRet := rets[start + lane]; }
    }
  }

  method ExecuteCompare(k: Kernel, ghost l: Launch, ghost d: Device, tid: nat, mem: array<byte>, rets: map<nat, nat>)
    returns (rets': map<nat, nat>)
    requires ArgsOk(k) && l == LaunchOf(k, l.L, l.groups) && tid < |l.items| && Fits(l.items[tid], l.width, mem.Length)
    requires mem[..] == d.mem && rets == d.rets
    modifies mem
    ensures mem[..] == CompareStep(l, d, tid).mem && rets' == CompareStep(l, d, tid).rets
  {
    assert l.items[tid] == ItemOf(k, tid);
    var ret := WorkItem(k, tid, mem);
    rets' := rets[tid := ret];
  }

  method ExecuteCommit(k: Kernel, ghost l: Launch, ghost d: Device, g: nat, L: nat, first: array<nat>,
      rets: map<nat, nat>)
    requires ArgsOk(k) && l == LaunchOf(k, L, l.groups) && L > 0 && |l.items| == GroupStart(L, l.groups) && g < l.groups
    requires CommitSlot(l, g) < |d.first| && AllIn(d.rets, GroupStart(L, g), L)
    requires first[..] == d.first && rets == d.rets
    modifies first
    ensures first[..] == CommitStep(l, d, g).first
  {
    GroupLanes(L, g, l.groups);
    GroupArithmetic(L, g);
    var last := g * L + L - 1;
    assert l.items[last] == ItemOf(k, last);
    var wgRet := ScanInclusiveMin(rets, g * L, L);
    var slot := ItemSlot(k, last);
    first[slot] := Min(first[slot], wgRet);
  }

  /** Filling the result buffer with INT_MAX before the launch. */
  method CreateResultBuffer(first: array<nat>)
    modifies first
    ensures forall b | 0 <= b < first.Length :: first[b] == INT_MAX
  {
    for b := 0 to first.Length
      invariant forall c | 0 <= c < b :: first[c] == INT_MAX
    {
      first[b] := INT_MAX;
    }
  }

  lemma OutcomeUnfolds(l: Launch, d: Device, schedule: seq<Event>, n: nat)
    requires n < |schedule| && Launchable(l, |d.mem|, |d.first|) && Runs(l, d, schedule[n..])
    ensures Enabled(l, d, schedule[n])
    ensures Runs(l, Step(l, d, schedule[n]), schedule[n + 1..])
    ensures Outcome(l, d, schedule[n..]) == Outcome(l, Step(l, d, schedule[n]), schedule[n + 1..])
  {
    assert schedule[n..][0] == schedule[n] && schedule[n..][1..] == schedule[n + 1..];
  }

  method ExecuteEvent(k: Kernel, L: nat, groups: nat, e: Event, ghost d: Device, mem: array<byte>,
      first: array<nat>, rets: map<nat, nat>)
    returns (rets': map<nat, nat>)
    requires ArgsOk(k) && mem as object != first
    requires Launchable(LaunchOf(k, L, groups), mem.Length, first.Length)
    requires mem[..] == d.mem && first[..] == d.first && rets == d.rets && Enabled(LaunchOf(k, L, groups), d, e)
    modifies mem, first
    ensures var d' := Step(LaunchOf(k, L, groups), d, e);
      mem[..] == d'.mem && first[..] == d'.first && rets' == d'.rets
  {
    ghost var l := LaunchOf(k, L, groups);
    match e {
      case Compare(tid) =>
        rets' := ExecuteCompare(k, l, d, tid, mem, rets);
      case Commit(g) =>
        GroupLanes(L, g, groups);
        ExecuteCommit(k, l, d, g, L, first, rets);
        rets' := rets;
    }
  }

  /** Executes one schedule of a launch in place, step by step as the device would. */
  method RunSchedule(k: Kernel, L: nat, groups: nat, schedule: seq<Event>, mem: array<byte>, first: array<nat>)
    requires ArgsOk(k) && mem as object != first
    requires Launchable(LaunchOf(k, L, groups), mem.Length, first.Length)
    requires Runs(LaunchOf(k, L, groups), Start(mem[..], first.Length), schedule)
    modifies mem, first
    ensures var d := Outcome(LaunchOf(k, L, groups), Start(old(mem[..]), first.Length), schedule);
      mem[..] == d.mem && first[..] == d.first
  {
    CreateResultBuffer(first);
    ghost var l := LaunchOf(k, L, groups);
    ghost var d := Start(mem[..], first.Length);
    ghost var final := Outcome(l, d, schedule);
    var rets: map<nat, nat> := map[];
    var n := 0;
    assert schedule[0..] == schedule;
    while n < |schedule|
      invariant 0 <= n <= |schedule|
      invariant |d.mem| == mem.Length && |d.first| == first.Length
      invariant mem[..] == d.mem && first[..] == d.first && rets == d.rets
      invariant Runs(l, d, schedule[n..]) && Outcome(l, d, schedule[n..]) == final
    {
      OutcomeUnfolds(l, d, schedule, n);
      rets := ExecuteEvent(k, L, groups, schedule[n], d, mem, first, rets);
      d := Step(l, d, schedule[n]);
      n := n + 1;
    }
  }

  /** buffID as the kernels compute it. */
  method ItemSlot(k: Kernel, tid: nat) returns (slot: nat)
    requires ArgsOk(k) && tid < Threads(k)
    ensures slot == ItemOf(k, tid).slot
  {
    match k {
      case FindCorruption(canaryLen, _, _, _, _) => slot := tid / canaryLen;
      case FindCorruptionNoSVM(canaryLen, _, _, _) => slot := tid / canaryLen;
      case FindImageCorruption(ends, _) =>
        slot := FindOwner(ends, tid);
        OwnerUnique(ends, tid, slot, Owner(ends, tid));
      case LocateDiffParts(length, _) => slot := tid / length;
      case LocateDiffSVMPtr(length, _, _, _, _) => slot := tid / length;
    }
  }
}
