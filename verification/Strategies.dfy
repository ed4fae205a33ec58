/** Every strategy answers alike: the reports do not depend on where or how the canaries are checked. */
module Strategies {
  import opened Canary
  import opened Schedules
  import opened Kernels
  import opened LinearBuffers
  import opened CpuCheck
  import opened GpuCheck
  import SvmPointers
  import SingleBuffer

  /** L: work-group size, q: work-groups per canary (per region for Single), C: where SVM copies go. */
  datatype Strategy =
    | Host
    | CopyCanary(L: nat, q: nat, C: nat, schedule: seq<Event>)
    | SvmPointer(L: nat, q: nat, schedule: seq<Event>)
    | Single(L: nat, q: nat, schedule: seq<Event>)

  /** Work-group sizes divide the canary length, the detector's copies have room, and the schedule
      is one the device can run. */
  ghost predicate Applicable(s: Strategy, memSize: nat, bufs: seq<Buf>, n: nat, B: nat, lo: nat, hi: nat)
    requires n <= |bufs|
  {
    match s
    case Host => true
    case CopyCanary(L, q, C, schedule) =>
      && L > 0 && q > 0 && q * L == CANARY_WORDS && Scratch(n, |bufs| - n, B, C, lo, hi)
      && CompleteSchedule(LaunchOf(CopyKernel(n, |bufs| - n, B, C), L, |bufs| * q), memSize, |bufs|, schedule)
    case SvmPointer(L, q, schedule) =>
      && L > 0 && q > 0 && q * L == CANARY_WORDS && lo <= B && CopyPos(B, n) <= hi
      && ArgsOk(SvmPointers.PtrKernel(n, bufs[n..], B))
      && CompleteSchedule(LaunchOf(SvmPointers.PtrKernel(n, bufs[n..], B), L, |bufs| * q), memSize, |bufs|, schedule)
    case Single(L, q, schedule) =>
      && L > 0 && q > 0 && q * L == REGION_WORDS
      && CompleteSchedule(LaunchOf(SingleBuffer.PartsKernel(bufs), L, (POISON_REGIONS * |bufs|) * q),
                          memSize, POISON_REGIONS * |bufs|, schedule)
  }

  /** n cl_mem buffers, then SVM allocations, checked with the chosen strategy. */
  method CheckBuffers(s: Strategy, mem: array<byte>, bufs: seq<Buf>, n: nat, B: nat, ghost lo: nat, ghost hi: nat)
    returns (reports: seq<nat>)
    requires n <= |bufs| && hi <= mem.Length && Separate(bufs, mem.Length) && ClearOf(bufs, lo, hi)
    requires Applicable(s, mem.Length, bufs, n, B, lo, hi)
    modifies mem
    ensures |reports| == |bufs| && forall b | 0 <= b < |bufs| :: reports[b] == Expected(old(mem[..]), bufs[b])
    ensures Mended(old(mem[..]), mem[..], bufs, lo, hi)
  {
    match s {
      case Host =>
        reports := VerifyClMem(mem, bufs);
      case CopyCanary(L, q, C, schedule) =>
        var first := new nat[|bufs|];
        VerifyClBufferCopy(mem, first, bufs, n, B, C, lo, hi, L, q, schedule);
        reports := first[..];
      case SvmPointer(L, q, schedule) =>
        var first := new nat[|bufs|];
        SvmPointers.VerifyClBufferSvmPtr(mem, first, bufs, n, B, lo, hi, L, q, schedule);
        reports := first[..];
      case Single(L, q, schedule) =>
        var first := new nat[POISON_REGIONS * |bufs|];
        SingleBuffer.VerifyClBufferSingle(mem, first, bufs, L, q, schedule);
        reports := first[..|bufs|];
    }
  }

  /** Two strategies, each run on its own copy of one memory: they report the same offsets and leave
      the same memory outside the detector's own. */
  method RunBoth(s1: Strategy, s2: Strategy, mem: seq<byte>, bufs: seq<Buf>, n: nat, B: nat, ghost lo: nat,
      ghost hi: nat)
    returns (reports: seq<nat>, again: seq<nat>, after: seq<byte>, afterAgain: seq<byte>)
    requires n <= |bufs| && hi <= |mem| && Separate(bufs, |mem|) && ClearOf(bufs, lo, hi)
    requires Applicable(s1, |mem|, bufs, n, B, lo, hi) && Applicable(s2, |mem|, bufs, n, B, lo, hi)
    ensures reports == again && |reports| == |bufs|
      && forall b | 0 <= b < |bufs| :: reports[b] == Expected(mem, bufs[b])
    ensures |after| == |afterAgain| == |mem|
      && forall a | 0 <= a < |mem| && !(lo <= a < hi) :: after[a] == afterAgain[a]
    ensures Mended(mem, after, bufs, lo, hi)
  {
    reports, after := RunOn(s1, mem, bufs, n, B, lo, hi);
    again, afterAgain := RunOn(s2, mem, bufs, n, B, lo, hi);
    hide Expected, Separate, ClearOf, Applicable, InSomeCanary;
  }

  method RunOn(s: Strategy, mem: seq<byte>, bufs: seq<Buf>, n: nat, B: nat, ghost lo: nat, ghost hi: nat)
    returns (reports: seq<nat>, after: seq<byte>)
    requires n <= |bufs| && hi <= |mem| && Separate(bufs, |mem|) && ClearOf(bufs, lo, hi)
    requires Applicable(s, |mem|, bufs, n, B, lo, hi)
    ensures |reports| == |bufs| && forall b | 0 <= b < |bufs| :: reports[b] == Expected(mem, bufs[b])
    ensures Mended(mem, after, bufs, lo, hi)
  {
    var copy := new byte[|mem|](i requires 0 <= i < |mem| => mem[i]);
    assert copy[..] == mem;
    hide Separate, ClearOf, Applicable, Mended, Expected;
    reports := CheckBuffers(s, copy, bufs, n, B, lo, hi);
    after := copy[..];
  }

  /** After any check the canaries are clean: a second check reports nothing. */
  lemma CheckedIsClean(mem0: seq<byte>, mem: seq<byte>, bufs: seq<Buf>, lo: nat, hi: nat, b: nat)
    requires Separate(bufs, |mem0|) && ClearOf(bufs, lo, hi) && Mended(mem0, mem, bufs, lo, hi) && b < |bufs|
    ensures Expected(mem, bufs[b]) == INT_MAX
  {
    forall p | 0 <= p < CANARY_LENGTH ensures CanaryBytes(mem, bufs[b])[p] == FILL {
      CanaryAddrsIn(bufs[b], |mem|);
      assert InCanary(bufs[b], CanaryAddr(bufs[b], p));
    }
    FirstBadUnique(CanaryBytes(mem, bufs[b]), INT_MAX);
  }
}
