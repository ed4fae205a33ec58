/** The single-buffer strategy: one launch per canary region, results compacted afterwards. */
module SingleBuffer {
  import opened Canary
  import opened Schedules
  import opened Kernels
  import opened KernelLayouts
  import opened LinearBuffers
  import opened GpuCheck

  function RegionOf(bufs: seq<Buf>, x: nat): Region
    requires x < POISON_REGIONS * |bufs|
  {
    Region(bufs[x / 2].base, if x % 2 == 0 then 0 else bufs[x / 2].size + POISON_FILL_LENGTH)
  }

  function Regions(bufs: seq<Buf>): (r: seq<Region>)
    ensures |r| == POISON_REGIONS * |bufs| && forall x | 0 <= x < |r| :: r[x] == RegionOf(bufs, x)
  {
    seq(POISON_REGIONS * |bufs|, x requires 0 <= x < POISON_REGIONS * |bufs| => RegionOf(bufs, x))
  }

  /** The launch loop: buffer by buffer, region by region, slot POISON_REGIONS * i + n. */
  method PerformClBufferChecks(bufs: seq<Buf>) returns (launches: seq<Region>)
    ensures launches == Regions(bufs)
  {
    launches := [];
    for i := 0 to |bufs|
      invariant |launches| == POISON_REGIONS * i && forall x | 0 <= x < |launches| :: launches[x] == RegionOf(bufs, x)
    {
      for n := 0 to POISON_REGIONS
        invariant |launches| == POISON_REGIONS * i + n
        invariant forall x | 0 <= x < |launches| :: launches[x] == RegionOf(bufs, x)
      {
        var offset := 0;
        if n != 0 { offset := bufs[i].size + POISON_FILL_LENGTH; }
        launches := launches + [Region(bufs[i].base, offset)];
      }
    }
  }

  lemma RegionAddresses(bufs: seq<Buf>, x: nat)
    requires x < POISON_REGIONS * |bufs|
    ensures var a := RegionOf(bufs, x).B + RegionOf(bufs, x).offset;
      && a == CanaryAddr(bufs[x / 2], (x % 2) * POISON_FILL_LENGTH)
      && bufs[x / 2].base <= a && a + POISON_FILL_LENGTH <= End(bufs[x / 2])
  {
  }

  lemma RegionsApart(bufs: seq<Buf>, memSize: nat)
    requires Separate(bufs, memSize)
    ensures PartsApart(REGION_WORDS, Regions(bufs))
    ensures forall x | 0 <= x < |Regions(bufs)| ::
              Regions(bufs)[x].B + Regions(bufs)[x].offset + 4 * REGION_WORDS <= memSize
  {
    var r := Regions(bufs);
    forall x | 0 <= x < |r| ensures r[x].B + r[x].offset + 4 * REGION_WORDS <= memSize {
      RegionAddresses(bufs, x);
    }
    forall x, y | 0 <= x < y < |r|
      ensures r[x].B + r[x].offset + 4 * REGION_WORDS <= r[y].B + r[y].offset
           || r[y].B + r[y].offset + 4 * REGION_WORDS <= r[x].B + r[x].offset
    {
      RegionAddresses(bufs, x);
      RegionAddresses(bufs, y);
      if x / 2 != y / 2 { assert Apart(bufs[x / 2], bufs[y / 2]); }
    }
  }

  // ----- compaction -----

  function Combine(front: nat, back: nat): nat {
    Min(front, if back < INT_MAX then back + POISON_FILL_LENGTH else INT_MAX)
  }

  /** Folds 2n region results into n buffer results inside the same array: slot i is written when
      slots 2i and 2i+1 have just been read, so no region result is overwritten before its turn. */
  method FormatResultBuff(firstChange: array<nat>, numBuff: nat)
    requires firstChange.Length == POISON_REGIONS * numBuff
    requires forall x | 0 <= x < firstChange.Length :: firstChange[x] <= INT_MAX
    modifies firstChange
    ensures forall i | 0 <= i < numBuff ::
              firstChange[i] == Combine(old(firstChange[2 * i]), old(firstChange[2 * i + 1]))
    ensures forall x | numBuff <= x < firstChange.Length :: firstChange[x] == old(firstChange[x])
  {
    for i := 0 to numBuff
      invariant forall j | 0 <= j < i :: firstChange[j] == Combine(old(firstChange[2 * j]), old(firstChange[2 * j + 1]))
      invariant forall x | i <= x < firstChange.Length :: firstChange[x] == old(firstChange[x])
    {
      var half1 := firstChange[POISON_REGIONS * i];
      var half2 := firstChange[POISON_REGIONS * i + 1];
      if half2 < INT_MAX { half2 := half2 + POISON_FILL_LENGTH; }
      firstChange[i] := if half1 < half2 then half1 else half2;
    }
  }

  lemma HalvesMakeWhole(mem: seq<byte>, buf: Buf)
    requires InMemory(buf, |mem|)
    ensures var f, b := Block(buf.base, POISON_FILL_LENGTH), Block(BackStart(buf), POISON_FILL_LENGTH);
      && AddressesIn(f, |mem|) && AddressesIn(b, |mem|)
      && Combine(FirstBad(Bytes(mem, f)), FirstBad(Bytes(mem, b))) == Expected(mem, buf)
  {
    var f, b := Block(buf.base, POISON_FILL_LENGTH), Block(BackStart(buf), POISON_FILL_LENGTH);
    assert Bytes(mem, f) + Bytes(mem, b) == CanaryBytes(mem, buf);
    FirstBadConcat(Bytes(mem, f), Bytes(mem, b));
  }

  function PartsKernel(bufs: seq<Buf>): Kernel { LocateDiffParts(REGION_WORDS, Regions(bufs)) }

  lemma PartsKernelOk(bufs: seq<Buf>, L: nat, q: nat, memSize: nat)
    requires Separate(bufs, memSize) && L > 0 && q > 0 && q * L == REGION_WORDS
    ensures var l := LaunchOf(PartsKernel(bufs), L, (POISON_REGIONS * |bufs|) * q);
      Launchable(l, memSize, POISON_REGIONS * |bufs|) && Layout(l, PartViews(REGION_WORDS, Regions(bufs)))
  {
    RegionsApart(bufs, memSize);
    PartsLaunchOk(REGION_WORDS, Regions(bufs), L, q, memSize);
  }

  /** Region x of the launch list is half of the canary of buffer x / 2. */
  lemma PartViewAt(bufs: seq<Buf>, x: nat)
    requires x < POISON_REGIONS * |bufs|
    ensures PartViews(REGION_WORDS, Regions(bufs))[x]
         == Block(if x % 2 == 0 then bufs[x / 2].base else BackStart(bufs[x / 2]), POISON_FILL_LENGTH)
  {
    RegionAddresses(bufs, x);
  }

  lemma PartByte(bufs: seq<Buf>, i: nat, a: nat) returns (x: nat, p: nat)
    requires i < |bufs| && InCanary(bufs[i], a)
    ensures IsCanaryByte(PartViews(REGION_WORDS, Regions(bufs)), x, p, a)
  {
    x := if a < bufs[i].base + POISON_FILL_LENGTH then 2 * i else 2 * i + 1;
    p := a - if x == 2 * i then bufs[i].base else BackStart(bufs[i]);
    PartViewAt(bufs, x);
  }

  lemma PartBytes(bufs: seq<Buf>, a: nat)
    ensures (exists b, p :: IsCanaryByte(PartViews(REGION_WORDS, Regions(bufs)), b, p, a)) <==> InSomeCanary(bufs, a)
  {
    var v := PartViews(REGION_WORDS, Regions(bufs));
    if x: nat, p: nat :| IsCanaryByte(v, x, p, a) {
      PartViewAt(bufs, x);
      assert InCanary(bufs[x / 2], a);
    }
    if InSomeCanary(bufs, a) {
      var i :| 0 <= i < |bufs| && InCanary(bufs[i], a);
      var x, p := PartByte(bufs, i, a);
    }
  }

  lemma PartsMended(l: Launch, mem0: seq<byte>, mem: seq<byte>, first: seq<nat>, bufs: seq<Buf>)
    requires |first| == POISON_REGIONS * |bufs| && Launchable(l, |mem0|, |first|) && l.mends
    requires Layout(l, PartViews(REGION_WORDS, Regions(bufs))) && Finished(l, mem0, mem, first)
    ensures Mended(mem0, mem, bufs, 0, 0)
  {
    forall a | 0 <= a < |mem0| ensures mem[a] == if InSomeCanary(bufs, a) then FILL else mem0[a] {
      LaunchMends(l, mem0, mem, first, PartViews(REGION_WORDS, Regions(bufs)), a);
      PartBytes(bufs, a);
    }
  }

  /** The two region results of buffer i combine to the buffer's result. */
  ghost predicate HalvesOk(mem0: seq<byte>, results: seq<nat>, bufs: seq<Buf>, i: nat)
    requires i < |bufs| && InMemory(bufs[i], |mem0|) && |results| == POISON_REGIONS * |bufs|
  {
    && Combine(results[2 * i], results[2 * i + 1]) == Expected(mem0, bufs[i])
    && results[2 * i] <= INT_MAX && results[2 * i + 1] <= INT_MAX
  }

  lemma PartsReport(l: Launch, mem0: seq<byte>, mem: seq<byte>, first: seq<nat>, bufs: seq<Buf>, i: nat)
    requires |first| == POISON_REGIONS * |bufs| && i < |bufs| && Separate(bufs, |mem0|)
    requires Launchable(l, |mem0|, |first|) && Layout(l, PartViews(REGION_WORDS, Regions(bufs)))
      && Finished(l, mem0, mem, first)
    ensures HalvesOk(mem0, first, bufs, i)
  {
    HalvesMakeWhole(mem0, bufs[i]);
    PartReport(l, mem0, mem, first, bufs, 2 * i);
    PartReport(l, mem0, mem, first, bufs, 2 * i + 1);
  }

  lemma PartReport(l: Launch, mem0: seq<byte>, mem: seq<byte>, first: seq<nat>, bufs: seq<Buf>, x: nat)
    requires |first| == POISON_REGIONS * |bufs| && x < |first| && Separate(bufs, |mem0|)
    requires Launchable(l, |mem0|, |first|) && Layout(l, PartViews(REGION_WORDS, Regions(bufs)))
      && Finished(l, mem0, mem, first)
    ensures var v := Block(if x % 2 == 0 then bufs[x / 2].base else BackStart(bufs[x / 2]), POISON_FILL_LENGTH);
      AddressesIn(v, |mem0|) && first[x] == FirstBad(Bytes(mem0, v))
  {
    PartViewAt(bufs, x);
    RegionAddresses(bufs, x);
    SlotReportsFirstBad(l, mem0, mem, first, PartViews(REGION_WORDS, Regions(bufs)), x);
  }

  /** All region launches, overlapping as the device likes. */
  method RunRegionChecks(mem: array<byte>, results: array<nat>, bufs: seq<Buf>, L: nat, q: nat, schedule: seq<Event>)
    requires mem as object != results && results.Length == POISON_REGIONS * |bufs|
    requires Separate(bufs, mem.Length) && L > 0 && q > 0 && q * L == REGION_WORDS
    requires CompleteSchedule(LaunchOf(PartsKernel(bufs), L, (POISON_REGIONS * |bufs|) * q), mem.Length, results.Length, schedule)
    modifies mem, results
    ensures forall i | 0 <= i < |bufs| :: HalvesOk(old(mem[..]), results[..], bufs, i)
    ensures Mended(old(mem[..]), mem[..], bufs, 0, 0)
  {
    ghost var mem0 := mem[..];
    var launches := PerformClBufferChecks(bufs);
    PartsKernelOk(bufs, L, q, mem.Length);
    ghost var l := LaunchOf(PartsKernel(bufs), L, (POISON_REGIONS * |bufs|) * q);
    LaunchCheckKernel(LocateDiffParts(REGION_WORDS, launches), L, (POISON_REGIONS * |bufs|) * q, schedule, mem,
      results);
    PartsMended(l, mem0, mem[..], results[..], bufs);
    forall i | 0 <= i < |bufs| ensures HalvesOk(mem0, results[..], bufs, i) {
      PartsReport(l, mem0, mem[..], results[..], bufs, i);
    }
  }

  /** verify_cl_buffer_single: launch, read back, compact. */
  method VerifyClBufferSingle(mem: array<byte>, firstChange: array<nat>, bufs: seq<Buf>, L: nat, q: nat,
      schedule: seq<Event>)
    requires mem as object != firstChange && firstChange.Length == POISON_REGIONS * |bufs|
    requires Separate(bufs, mem.Length) && L > 0 && q > 0 && q * L == REGION_WORDS
    requires CompleteSchedule(LaunchOf(PartsKernel(bufs), L, (POISON_REGIONS * |bufs|) * q), mem.Length, firstChange.Length, schedule)
    modifies mem, firstChange
    ensures forall i | 0 <= i < |bufs| :: firstChange[i] == Expected(old(mem[..]), bufs[i])
    ensures Mended(old(mem[..]), mem[..], bufs, 0, 0)
  {
    hide Expected, Mended, HalvesOk, CompleteSchedule, Separate;
    ghost var mem0 := mem[..];
    RunRegionChecks(mem, firstChange, bufs, L, q, schedule);
    ghost var results := firstChange[..];
    HalvesBounded(mem0, results, bufs);
    FormatResultBuff(firstChange, |bufs|);
    HalvesCombine(mem0, results, firstChange[..], bufs);
  }

  lemma HalvesBounded(mem0: seq<byte>, results: seq<nat>, bufs: seq<Buf>)
    requires Separate(bufs, |mem0|) && |results| == POISON_REGIONS * |bufs|
    requires forall i | 0 <= i < |bufs| :: HalvesOk(mem0, results, bufs, i)
    ensures forall x | 0 <= x < |results| :: results[x] <= INT_MAX
  {
    forall x | 0 <= x < |results| ensures results[x] <= INT_MAX {
      assert HalvesOk(mem0, results, bufs, x / 2);
    }
  }

  lemma HalvesCombine(mem0: seq<byte>, results: seq<nat>, compact: seq<nat>, bufs: seq<Buf>)
    requires Separate(bufs, |mem0|) && |results| == |compact| == POISON_REGIONS * |bufs|
    requires forall i | 0 <= i < |bufs| :: HalvesOk(mem0, results, bufs, i)
    requires forall i | 0 <= i < |bufs| :: compact[i] == Combine(results[2 * i], results[2 * i + 1])
    ensures forall i | 0 <= i < |bufs| :: compact[i] == Expected(mem0, bufs[i])
  {
    forall i | 0 <= i < |bufs| ensures compact[i] == Expected(mem0, bufs[i]) {
      assert HalvesOk(mem0, results, bufs, i);
    }
  }
}
