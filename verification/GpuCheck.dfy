/** The three device-side checkers of linear buffers and SVM, from device memory to per-buffer report. */
module GpuCheck {
  import opened Canary
  import opened Schedules
  import opened Kernels
  import opened KernelLayouts
  import opened LinearBuffers

  /** poisonWordLen, and the words of one buffer's whole canary. */
  const REGION_WORDS: nat := POISON_FILL_LENGTH / 4
  const CANARY_WORDS: nat := POISON_REGIONS * REGION_WORDS

  /** Runs one launch, with the events in any order the device may choose. */
  method LaunchCheckKernel(k: Kernel, L: nat, groups: nat, schedule: seq<Event>, mem: array<byte>, first: array<nat>)
    requires ArgsOk(k) && mem as object != first
    requires CompleteSchedule(LaunchOf(k, L, groups), mem.Length, first.Length, schedule)
    modifies mem, first
    ensures Finished(LaunchOf(k, L, groups), old(mem[..]), mem[..], first[..])
  {
    CompleteScheduleRuns(LaunchOf(k, L, groups), mem[..], first.Length, schedule);
    EveryScheduleFinishes(LaunchOf(k, L, groups), mem[..], first.Length, schedule);
    RunSchedule(k, L, groups, schedule, mem, first);
  }

  // ----- copied canaries -----

  /** The canary of buf, as it was in mem0, lies at address at. */
  ghost predicate CopiedAt(mem0: seq<byte>, mem: seq<byte>, buf: Buf, at: nat)
    requires InMemory(buf, |mem0|)
  {
    at + CANARY_LENGTH <= |mem|
    && forall a | at <= a < at + CANARY_LENGTH :: mem[a] == mem0[CanaryAddr(buf, a - at)]
  }

  method CopyThisCanary(mem: array<byte>, buf: Buf, at: nat)
    requires InMemory(buf, mem.Length) && at + CANARY_LENGTH <= mem.Length
    requires End(buf) <= at || at + CANARY_LENGTH <= buf.base
    modifies mem
    ensures CopiedAt(old(mem[..]), mem[..], buf, at)
    ensures forall a | 0 <= a < mem.Length && !(at <= a < at + CANARY_LENGTH) :: mem[a] == old(mem[a])
  {
    CopyWithin(mem, buf.base, at, POISON_FILL_LENGTH);
    var offset := buf.size + POISON_FILL_LENGTH;
    CopyWithin(mem, buf.base + offset, at + POISON_FILL_LENGTH, POISON_FILL_LENGTH);
  }

  /** Canaries not yet reached by the copy loop are still as they were. */
  lemma LaterCanaryUntouched(mem0: seq<byte>, mem: seq<byte>, bufs: seq<Buf>, n: nat, i: nat, lo: nat, hi: nat)
    requires Separate(bufs, |mem0|) && ClearOf(bufs, lo, hi) && n <= i < |bufs| && Mended(mem0, mem, bufs[..n], lo, hi)
    ensures CanarySame(mem0, mem, bufs[i])
  {
    forall a | bufs[i].base <= a < End(bufs[i]) ensures mem[a] == mem0[a] {
      assert !InSomeCanary(bufs[..n], a) by {
        forall j | 0 <= j < n ensures !InCanary(bufs[..n][j], a) {
          assert Apart(bufs[j], bufs[i]);
        }
      }
    }
  }

  ghost predicate CanarySame(mem0: seq<byte>, mem: seq<byte>, buf: Buf)
    requires InMemory(buf, |mem0|)
  {
    |mem| == |mem0| && forall p | 0 <= p < CANARY_LENGTH :: mem[CanaryAddr(buf, p)] == mem0[CanaryAddr(buf, p)]
  }

  lemma CopiedTransfer(mem0: seq<byte>, before: seq<byte>, mem: seq<byte>, buf: Buf, at: nat)
    requires InMemory(buf, |mem0|) && CanarySame(mem0, before, buf) && CopiedAt(before, mem, buf, at)
    ensures CopiedAt(mem0, mem, buf, at)
  {
  }

  lemma CopiedKept(mem0: seq<byte>, m1: seq<byte>, m2: seq<byte>, buf: Buf, at: nat)
    requires InMemory(buf, |mem0|) && CopiedAt(mem0, m1, buf, at) && |m2| == |m1|
    requires forall a | at <= a < at + CANARY_LENGTH :: m2[a] == m1[a]
    ensures CopiedAt(mem0, m2, buf, at)
  {
  }

  /** Copy one canary, then mend it in place. */
  method CopyAndMend(mem: array<byte>, buf: Buf, at: nat)
    requires InMemory(buf, mem.Length) && at + CANARY_LENGTH <= mem.Length
    requires End(buf) <= at || at + CANARY_LENGTH <= buf.base
    modifies mem
    ensures CopiedAt(old(mem[..]), mem[..], buf, at)
    ensures forall a | 0 <= a < mem.Length && !(at <= a < at + CANARY_LENGTH) ::
              mem[a] == if InCanary(buf, a) then FILL else old(mem[a])
  {
    ghost var mem0 := mem[..];
    CopyThisCanary(mem, buf, at);
    ghost var mem1 := mem[..];
    MendCanaryRegion(mem, buf);
    CopiedKept(mem0, mem1, mem[..], buf, at);
  }

  /** Where copy number k of the canaries stored from address at on begins. */
  function CopyPos(at: nat, k: nat): nat { at + k * CANARY_LENGTH }

  lemma CopyPosApart(at: nat, j: nat, k: nat)
    requires j < k
    ensures at <= CopyPos(at, j) && CopyPos(at, j) + CANARY_LENGTH <= CopyPos(at, k)
  {
  }

  /** Canaries of bufs[from..to] lie back to back from address at on. */
  ghost predicate CopiesAt(mem0: seq<byte>, mem: seq<byte>, bufs: seq<Buf>, from: nat, to: nat, at: nat)
    requires Separate(bufs, |mem0|) && from <= to <= |bufs|
  {
    forall j | from <= j < to :: CopiedAt(mem0, mem, bufs[j], CopyPos(at, j - from))
  }

  lemma CopiesStep(mem0: seq<byte>, before: seq<byte>, mem: seq<byte>, bufs: seq<Buf>, from: nat, i: nat, at: nat)
    requires Separate(bufs, |mem0|) && from <= i < |bufs| && |mem| == |before| == |mem0|
    requires CopiesAt(mem0, before, bufs, from, i, at) && CopiedAt(mem0, mem, bufs[i], CopyPos(at, i - from))
    requires forall a | at <= a < CopyPos(at, i - from) :: mem[a] == before[a]
    ensures CopiesAt(mem0, mem, bufs, from, i + 1, at)
  {
    forall j | from <= j < i + 1 ensures CopiedAt(mem0, mem, bufs[j], CopyPos(at, j - from)) {
      if j < i {
        CopyPosApart(at, j - from, i - from);
        CopiedKept(mem0, before, mem, bufs[j], CopyPos(at, j - from));
      }
    }
  }

  /** One turn of the copy loop. */
  method CopyAndMendNext(mem: array<byte>, bufs: seq<Buf>, i: nat, pos: nat, ghost lo: nat, ghost hi: nat,
      ghost mem0: seq<byte>)
    requires Separate(bufs, |mem0|) && ClearOf(bufs, lo, hi) && |mem0| == mem.Length && i < |bufs|
    requires lo <= pos && pos + CANARY_LENGTH <= hi <= mem.Length
    requires Mended(mem0, mem[..], bufs[..i], lo, hi)
    modifies mem
    ensures Mended(mem0, mem[..], bufs[..i + 1], lo, hi) && CopiedAt(mem0, mem[..], bufs[i], pos)
    ensures forall a | lo <= a < hi && !(pos <= a < pos + CANARY_LENGTH) :: mem[a] == old(mem[a])
  {
    ghost var before := mem[..];
    LaterCanaryUntouched(mem0, before, bufs, i, i, lo, hi);
    CopyAndMend(mem, bufs[i], pos);
    CopiedTransfer(mem0, before, mem[..], bufs[i], pos);
    MendedMore(mem0, before, mem[..], bufs, i, lo, hi);
  }

  method CopyTurn(mem: array<byte>, bufs: seq<Buf>, from: nat, i: nat, ghost to: nat, at: nat,
                  ghost lo: nat, ghost hi: nat, ghost mem0: seq<byte>) returns (i': nat)
    requires Separate(bufs, |mem0|) && ClearOf(bufs, lo, hi) && |mem0| == mem.Length && from <= i < to <= |bufs|
    requires lo <= at && CopyPos(at, to - from) <= hi <= mem.Length
    requires Mended(mem0, mem[..], bufs[..i], lo, hi) && CopiesAt(mem0, mem[..], bufs, from, i, at)
    modifies mem
    ensures i' == i + 1
    ensures Mended(mem0, mem[..], bufs[..i'], lo, hi) && CopiesAt(mem0, mem[..], bufs, from, i', at)
    ensures forall a | lo <= a < hi && !(at <= a < CopyPos(at, to - from)) :: mem[a] == old(mem[a])
  {
    ghost var before := mem[..];
    var pos := CopyPos(at, i - from);
    CopyPosApart(at, i - from, to - from);
    CopyAndMendNext(mem, bufs, i, pos, lo, hi, mem0);
    CopiesStep(mem0, before, mem[..], bufs, from, i, at);
    i' := i + 1;
  }

  /** create_clmem_copies and create_svm_copies: canaries of bufs[from..to] back to back at address at. */
  method CreateCanaryCopies(mem: array<byte>, bufs: seq<Buf>, from: nat, to: nat, at: nat,
                            ghost lo: nat, ghost hi: nat, ghost mem0: seq<byte>)
    requires Separate(bufs, |mem0|) && ClearOf(bufs, lo, hi) && |mem0| == mem.Length && from <= to <= |bufs|
    requires lo <= at && CopyPos(at, to - from) <= hi <= mem.Length
    requires Mended(mem0, mem[..], bufs[..from], lo, hi)
    modifies mem
    ensures Mended(mem0, mem[..], bufs[..to], lo, hi)
    ensures CopiesAt(mem0, mem[..], bufs, from, to, at)
    ensures forall a | lo <= a < hi && !(at <= a < CopyPos(at, to - from)) :: mem[a] == old(mem[a])
  {
    var i := from;
    while i < to
      invariant from <= i <= to
      invariant Mended(mem0, mem[..], bufs[..i], lo, hi)
      invariant CopiesAt(mem0, mem[..], bufs, from, i, at)
      invariant forall a | lo <= a < hi && !(at <= a < CopyPos(at, to - from)) :: mem[a] == old(mem[a])
    {
      i := CopyTurn(mem, bufs, from, i, to, at, lo, hi, mem0);
    }
  }

  /** The detector's own memory: the cl_mem canary copies at B, the SVM copies at C, both in [lo, hi). */
  ghost predicate Scratch(n: nat, m: nat, B: nat, C: nat, lo: nat, hi: nat) {
    && lo <= B && B + n * CANARY_LENGTH <= hi && lo <= C && C + m * CANARY_LENGTH <= hi
    && (B + n * CANARY_LENGTH <= C || C + m * CANARY_LENGTH <= B)
  }

  /** The kernel the copied-canary strategy launches: without SVM a variant without C. */
  function CopyKernel(n: nat, m: nat, B: nat, C: nat): Kernel {
    if m > 0 then FindCorruption(CANARY_WORDS, n * CANARY_WORDS, n * CANARY_WORDS + m * CANARY_WORDS, B, C)
    else FindCorruptionNoSVM(CANARY_WORDS, n * CANARY_WORDS, n * CANARY_WORDS, B)
  }

  lemma CopyKernelLayout(n: nat, m: nat, B: nat, C: nat, L: nat, q: nat, memSize: nat)
    requires L > 0 && q > 0 && q * L == CANARY_WORDS
    requires Scratch(n, m, B, C, 0, memSize)
    ensures var l := LaunchOf(CopyKernel(n, m, B, C), L, (n + m) * q);
      Launchable(l, memSize, n + m) && Layout(l, CopyViews(B, C, CANARY_WORDS, n, m))
  {
    var l := LaunchOf(CopyKernel(n, m, B, C), L, (n + m) * q);
    if m > 0 {
      FindCorruptionIsWordLaunch(B, C, CANARY_WORDS, n, m, L, (n + m) * q);
    } else {
      FindCorruptionNoSVMIsWordLaunch(B, C, CANARY_WORDS, n, L, n * q);
    }
    CopyLaunchOk(l, B, C, CANARY_WORDS, n, m, q, memSize);
  }

  lemma CopyBlockBytes(mem0: seq<byte>, mem: seq<byte>, buf: Buf, at: nat)
    requires InMemory(buf, |mem0|) && CopiedAt(mem0, mem, buf, at)
    ensures AddressesIn(Block(at, CANARY_LENGTH), |mem|)
    ensures Bytes(mem, Block(at, CANARY_LENGTH)) == CanaryBytes(mem0, buf)
  {
    var s, t := Bytes(mem, Block(at, CANARY_LENGTH)), CanaryBytes(mem0, buf);
    forall p | 0 <= p < CANARY_LENGTH ensures s[p] == t[p] {
      assert mem[at + p] == mem0[CanaryAddr(buf, (at + p) - at)];
    }
  }

  /** The launch part: copies in, reports out. */
  method CheckCopies(mem: array<byte>, first: array<nat>, bufs: seq<Buf>, n: nat, B: nat, C: nat,
                     L: nat, q: nat, schedule: seq<Event>, ghost mem0: seq<byte>)
    requires mem as object != first && n <= |bufs| == first.Length && |mem0| == mem.Length
    requires Separate(bufs, |mem0|) && Scratch(n, |bufs| - n, B, C, 0, mem.Length)
    requires L > 0 && q > 0 && q * L == CANARY_WORDS
    requires CompleteSchedule(LaunchOf(CopyKernel(n, |bufs| - n, B, C), L, |bufs| * q), mem.Length, first.Length, schedule)
    requires CopiesAt(mem0, mem[..], bufs, 0, n, B) && CopiesAt(mem0, mem[..], bufs, n, |bufs|, C)
    modifies mem, first
    ensures mem[..] == old(mem[..])
    ensures forall b | 0 <= b < |bufs| :: first[b] == Expected(mem0, bufs[b])
  {
    ghost var m := |bufs| - n;
    ghost var l := LaunchOf(CopyKernel(n, m, B, C), L, |bufs| * q);
    ghost var mem2 := mem[..];
    CopyKernelLayout(n, m, B, C, L, q, mem.Length);
    LaunchCheckKernel(CopyKernel(n, |bufs| - n, B, C), L, |bufs| * q, schedule, mem, first);
    ReadOnlyLaunch(l, mem2, mem[..], first[..]);
    forall b | 0 <= b < |bufs| ensures first[b] == Expected(mem0, bufs[b]) {
      CopyReports(l, mem0, mem2, mem[..], first[..], bufs, n, B, C, b);
    }
  }

  lemma CopyReports(l: Launch, mem0: seq<byte>, mem2: seq<byte>, mem: seq<byte>, first: seq<nat>, bufs: seq<Buf>,
                    n: nat, B: nat, C: nat, b: nat)
    requires n <= |bufs| == |first| && b < |bufs| && Separate(bufs, |mem0|)
    requires CopiesAt(mem0, mem2, bufs, 0, n, B) && CopiesAt(mem0, mem2, bufs, n, |bufs|, C)
    requires Launchable(l, |mem2|, |first|) && Layout(l, CopyViews(B, C, CANARY_WORDS, n, |bufs| - n))
    requires Finished(l, mem2, mem, first)
    ensures first[b] == Expected(mem0, bufs[b])
  {
    var at := if b < n then CopyPos(B, b - 0) else CopyPos(C, b - n);
    assert CopiedAt(mem0, mem2, bufs[b], at);
    CopyViewAt(n, |bufs| - n, B, C, b);
    CopyBlockBytes(mem0, mem2, bufs[b], at);
    SlotReportsFirstBad(l, mem2, mem, first, CopyViews(B, C, CANARY_WORDS, n, |bufs| - n), b);
  }

  /** The word-based addressing of the kernel and the byte-based addressing of the copies agree. */
  lemma CopyViewAt(n: nat, m: nat, B: nat, C: nat, b: nat)
    requires b < n + m
    ensures CopyViews(B, C, CANARY_WORDS, n, m)[b]
         == Block(if b < n then CopyPos(B, b - 0) else CopyPos(C, b - n), CANARY_LENGTH)
  {
  }

  /** verify_cl_buffer_copy with copied SVM canaries: bufs lists n cl_mem buffers, then SVM. */
  method VerifyClBufferCopy(mem: array<byte>, first: array<nat>, bufs: seq<Buf>, n: nat, B: nat, C: nat,
                            ghost lo: nat, ghost hi: nat, L: nat, q: nat, schedule: seq<Event>)
    requires mem as object != first && n <= |bufs| == first.Length && hi <= mem.Length
    requires Separate(bufs, mem.Length) && ClearOf(bufs, lo, hi) && Scratch(n, |bufs| - n, B, C, lo, hi)
    requires L > 0 && q > 0 && q * L == CANARY_WORDS
    requires CompleteSchedule(LaunchOf(CopyKernel(n, |bufs| - n, B, C), L, |bufs| * q), mem.Length, first.Length, schedule)
    modifies mem, first
    ensures forall b | 0 <= b < |bufs| :: first[b] == Expected(old(mem[..]), bufs[b])
    ensures Mended(old(mem[..]), mem[..], bufs, lo, hi)
  {
    ghost var mem0 := mem[..];
    CreateCanaryCopies(mem, bufs, 0, n, B, lo, hi, mem0);
    ghost var mem1 := mem[..];
    CreateCanaryCopies(mem, bufs, n, |bufs|, C, lo, hi, mem0);
    assert bufs[..|bufs|] == bufs;
    CopiesKept(mem0, mem1, mem[..], bufs, 0, n, B);
    CheckCopies(mem, first, bufs, n, B, C, L, q, schedule, mem0);
  }

  lemma CopiesKept(mem0: seq<byte>, m1: seq<byte>, m2: seq<byte>, bufs: seq<Buf>, from: nat, to: nat, at: nat)
    requires Separate(bufs, |mem0|) && from <= to <= |bufs| && |m1| == |m2| == |mem0|
      && CopiesAt(mem0, m1, bufs, from, to, at)
    requires forall a | at <= a < CopyPos(at, to - from) && a < |m1| :: m2[a] == m1[a]
    ensures CopiesAt(mem0, m2, bufs, from, to, at)
  {
    forall j | from <= j < to ensures CopiedAt(mem0, m2, bufs[j], CopyPos(at, j - from)) {
      CopyPosApart(at, j - from, to - from);
      CopiedKept(mem0, m1, m2, bufs[j], CopyPos(at, j - from));
    }
  }
}
