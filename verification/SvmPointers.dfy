/** The SVM-pointer strategy: SVM canaries are checked and mended where they lie, through a table
    of pointers; cl_mem canaries are copied first. */
module SvmPointers {
  import opened Canary
  import opened Schedules
  import opened Kernels
  import opened KernelLayouts
  import opened LinearBuffers
  import opened GpuCheck

  function PointerOf(svm: seq<Buf>, x: nat): nat
    requires x < 2 * |svm|
  {
    if x % 2 == 0 then svm[x / 2].base else BackStart(svm[x / 2])
  }

  /** Fills the pointer table: front region then back region of each allocation. */
  method CreateSvmPtrCopies(svm: seq<Buf>) returns (table: seq<nat>)
    ensures |table| == POISON_REGIONS * |svm|
    ensures forall x | 0 <= x < |table| :: table[x] == PointerOf(svm, x)
  {
    table := [];
    for i := 0 to |svm|
      invariant |table| == POISON_REGIONS * i && forall x | 0 <= x < |table| :: table[x] == PointerOf(svm, x)
    {
      var ptrBase := svm[i].base;
      var offset := svm[i].size + POISON_FILL_LENGTH;
      table := table + [ptrBase] + [ptrBase + offset];
    }
  }

  function Table(svm: seq<Buf>): (t: seq<nat>)
    ensures |t| == 2 * |svm| && forall x | 0 <= x < |t| :: t[x] == PointerOf(svm, x)
  {
    seq(2 * |svm|, x requires 0 <= x < 2 * |svm| => PointerOf(svm, x))
  }

  lemma PointerRegion(svm: seq<Buf>, x: nat)
    requires x < 2 * |svm|
    ensures svm[x / 2].base <= PointerOf(svm, x) && PointerOf(svm, x) + POISON_FILL_LENGTH <= End(svm[x / 2])
  {
  }

  lemma PointerApart(bufs: seq<Buf>, n: nat, B: nat, memSize: nat, lo: nat, hi: nat, x: nat)
    requires n <= |bufs| && Separate(bufs, memSize) && ClearOf(bufs, lo, hi) && lo <= B && CopyPos(B, n) <= hi
    requires x < 2 * |bufs[n..]|
    ensures PointerOf(bufs[n..], x) + 4 * REGION_WORDS <= memSize
    ensures PointerOf(bufs[n..], x) + 4 * REGION_WORDS <= B || B + 4 * (n * (2 * REGION_WORDS)) <= PointerOf(bufs[n..], x)
  {
    PointerRegion(bufs[n..], x);
    assert bufs[n..][x / 2] == bufs[n + x / 2];
  }

  lemma PointersApart(bufs: seq<Buf>, n: nat, memSize: nat, x: nat, y: nat)
    requires n <= |bufs| && Separate(bufs, memSize) && x < y < 2 * |bufs[n..]|
    ensures PointerOf(bufs[n..], x) + 4 * REGION_WORDS <= PointerOf(bufs[n..], y)
         || PointerOf(bufs[n..], y) + 4 * REGION_WORDS <= PointerOf(bufs[n..], x)
  {
    var svm := bufs[n..];
    PointerRegion(svm, x);
    PointerRegion(svm, y);
    assert svm[x / 2] == bufs[n + x / 2] && svm[y / 2] == bufs[n + y / 2];
    if x / 2 != y / 2 { assert Apart(bufs[n + x / 2], bufs[n + y / 2]); }
  }

  /** The pointer table of separate allocations names disjoint regions, apart from the copies. */
  lemma PointersDisjoint(bufs: seq<Buf>, n: nat, B: nat, memSize: nat, lo: nat, hi: nat)
    requires n <= |bufs| && Separate(bufs, memSize) && ClearOf(bufs, lo, hi) && lo <= B && CopyPos(B, n) <= hi
    ensures RegionsDisjoint(B, Table(bufs[n..]), REGION_WORDS, n)
    ensures forall x | 0 <= x < |Table(bufs[n..])| :: Table(bufs[n..])[x] + 4 * REGION_WORDS <= memSize
  {
    var table := Table(bufs[n..]);
    forall x | 0 <= x < |table|
      ensures table[x] + 4 * REGION_WORDS <= memSize
      ensures table[x] + 4 * REGION_WORDS <= B || B + 4 * (n * (2 * REGION_WORDS)) <= table[x]
    {
      PointerApart(bufs, n, B, memSize, lo, hi, x);
    }
    forall x, y | 0 <= x < y < |table|
      ensures table[x] + 4 * REGION_WORDS <= table[y] || table[y] + 4 * REGION_WORDS <= table[x]
    {
      PointersApart(bufs, n, memSize, x, y);
    }
  }

  function PtrKernel(n: nat, svm: seq<Buf>, B: nat): Kernel {
    LocateDiffSVMPtr(CANARY_WORDS, n * CANARY_WORDS, (n + |svm|) * CANARY_WORDS, B, Table(svm))
  }

  function Views(bufs: seq<Buf>, n: nat, B: nat): (v: seq<seq<nat>>)
    requires n <= |bufs|
    ensures |v| == |bufs|
  {
    PtrViews(B, Table(bufs[n..]), REGION_WORDS, n, |bufs| - n)
  }

  lemma ViewAt(bufs: seq<Buf>, n: nat, B: nat, b: nat)
    requires n <= |bufs| && b < |bufs|
    ensures Views(bufs, n, B)[b] == if b < n then Block(CopyPos(B, b), CANARY_LENGTH) else CanaryAddrs(bufs[b])
  {
    if b >= n {
      var svm := bufs[n..];
      assert svm[b - n] == bufs[b];
      assert (2 * (b - n)) / 2 == b - n && (2 * (b - n) + 1) / 2 == b - n;
      assert Table(svm)[2 * (b - n)] == bufs[b].base && Table(svm)[2 * (b - n) + 1] == BackStart(bufs[b]);
    }
  }

  lemma PtrKernelOk(bufs: seq<Buf>, n: nat, B: nat, L: nat, q: nat, memSize: nat, lo: nat, hi: nat)
    requires n <= |bufs| && Separate(bufs, memSize) && ClearOf(bufs, lo, hi) && lo <= B
      && CopyPos(B, n) <= hi <= memSize
    requires L > 0 && q > 0 && q * L == CANARY_WORDS
    ensures ArgsOk(PtrKernel(n, bufs[n..], B))
    ensures var l := LaunchOf(PtrKernel(n, bufs[n..], B), L, |bufs| * q);
      Launchable(l, memSize, |bufs|) && Layout(l, Views(bufs, n, B))
  {
    PointersDisjoint(bufs, n, B, memSize, lo, hi);
    PtrLaunchOk(B, Table(bufs[n..]), REGION_WORDS, n, |bufs| - n, L, q, memSize);
  }

  lemma TouchedIsCanary(bufs: seq<Buf>, n: nat, B: nat, lo: nat, hi: nat, b: nat, p: nat, a: nat)
    requires n <= |bufs| && lo <= B && CopyPos(B, n) <= hi && !(lo <= a < hi)
    requires IsCanaryByte(Views(bufs, n, B), b, p, a)
    ensures InSomeCanary(bufs[n..], a)
  {
    ViewAt(bufs, n, B, b);
    if b < n { CopyPosApart(B, b, n); }
    assert bufs[n..][b - n] == bufs[b];
    assert InCanary(bufs[n..][b - n], a);
  }

  lemma CanaryIsTouched(bufs: seq<Buf>, n: nat, B: nat, a: nat) returns (b: nat, p: nat)
    requires n <= |bufs| && InSomeCanary(bufs[n..], a)
    ensures IsCanaryByte(Views(bufs, n, B), b, p, a)
  {
    var i :| 0 <= i < |bufs[n..]| && InCanary(bufs[n..][i], a);
    b := n + i;
    assert bufs[n..][i] == bufs[b];
    p := CanaryPosition(bufs[b], a);
    ViewAt(bufs, n, B, b);
  }

  /** Outside the detector's memory the bytes the launch may touch are exactly the SVM canaries. */
  lemma TouchedBytes(bufs: seq<Buf>, n: nat, B: nat, lo: nat, hi: nat, a: nat)
    requires n <= |bufs| && lo <= B && CopyPos(B, n) <= hi && !(lo <= a < hi)
    ensures (exists b, p :: IsCanaryByte(Views(bufs, n, B), b, p, a)) <==> InSomeCanary(bufs[n..], a)
  {
    if b: nat, p: nat :| IsCanaryByte(Views(bufs, n, B), b, p, a) {
      TouchedIsCanary(bufs, n, B, lo, hi, b, p, a);
    }
    if InSomeCanary(bufs[n..], a) {
      var b, p := CanaryIsTouched(bufs, n, B, a);
    }
  }

  lemma SomeCanarySplit(bufs: seq<Buf>, n: nat, a: nat)
    requires n <= |bufs|
    ensures InSomeCanary(bufs, a) <==> InSomeCanary(bufs[..n], a) || InSomeCanary(bufs[n..], a)
  {
    if InSomeCanary(bufs, a) {
      var i :| 0 <= i < |bufs| && InCanary(bufs[i], a);
      if i < n { assert bufs[..n][i] == bufs[i]; } else { assert bufs[n..][i - n] == bufs[i]; }
    }
    if InSomeCanary(bufs[..n], a) {
      var i :| 0 <= i < n && InCanary(bufs[..n][i], a);
      assert bufs[i] == bufs[..n][i];
    }
    if InSomeCanary(bufs[n..], a) {
      var i :| 0 <= i < |bufs| - n && InCanary(bufs[n..][i], a);
      assert bufs[n + i] == bufs[n..][i];
    }
  }

  lemma PtrMended(l: Launch, mem0: seq<byte>, mem1: seq<byte>, mem: seq<byte>, first: seq<nat>, bufs: seq<Buf>,
                  n: nat, B: nat, lo: nat, hi: nat)
    requires n <= |bufs| == |first| && lo <= B && CopyPos(B, n) <= hi && |mem0| == |mem1| == |mem|
    requires Mended(mem0, mem1, bufs[..n], lo, hi)
    requires Launchable(l, |mem1|, |first|) && l.mends && Layout(l, Views(bufs, n, B)) && Finished(l, mem1, mem, first)
    ensures Mended(mem0, mem, bufs, lo, hi)
  {
    forall a | 0 <= a < |mem0| && !(lo <= a < hi)
      ensures mem[a] == if InSomeCanary(bufs, a) then FILL else mem0[a]
    {
      LaunchMends(l, mem1, mem, first, Views(bufs, n, B), a);
      TouchedBytes(bufs, n, B, lo, hi, a);
      SomeCanarySplit(bufs, n, a);
    }
  }

  lemma PtrReports(l: Launch, mem0: seq<byte>, mem1: seq<byte>, mem: seq<byte>, first: seq<nat>, bufs: seq<Buf>,
                   n: nat, B: nat, lo: nat, hi: nat, b: nat)
    requires n <= |bufs| == |first| && b < |bufs| && |mem0| == |mem1|
    requires Separate(bufs, |mem0|) && ClearOf(bufs, lo, hi)
    requires Mended(mem0, mem1, bufs[..n], lo, hi) && CopiesAt(mem0, mem1, bufs, 0, n, B)
    requires Launchable(l, |mem1|, |first|) && Layout(l, Views(bufs, n, B)) && Finished(l, mem1, mem, first)
    ensures first[b] == Expected(mem0, bufs[b])
  {
    ViewAt(bufs, n, B, b);
    if b < n {
      assert CopiedAt(mem0, mem1, bufs[b], CopyPos(B, b - 0));
      CopyBlockBytes(mem0, mem1, bufs[b], CopyPos(B, b));
    } else {
      LaterCanaryUntouched(mem0, mem1, bufs, n, b, lo, hi);
      CanaryAddrsIn(bufs[b], |mem1|);
      assert Bytes(mem1, CanaryAddrs(bufs[b])) == CanaryBytes(mem0, bufs[b]);
    }
    SlotReportsFirstBad(l, mem1, mem, first, Views(bufs, n, B), b);
  }

  /** verify_cl_buffer_copy with SVM canaries checked in place. */
  method VerifyClBufferSvmPtr(mem: array<byte>, first: array<nat>, bufs: seq<Buf>, n: nat, B: nat,
                              ghost lo: nat, ghost hi: nat, L: nat, q: nat, schedule: seq<Event>)
    requires mem as object != first && n <= |bufs| == first.Length && hi <= mem.Length
    requires Separate(bufs, mem.Length) && ClearOf(bufs, lo, hi) && lo <= B && CopyPos(B, n) <= hi
    requires L > 0 && q > 0 && q * L == CANARY_WORDS
    requires ArgsOk(PtrKernel(n, bufs[n..], B))
    requires CompleteSchedule(LaunchOf(PtrKernel(n, bufs[n..], B), L, |bufs| * q), mem.Length, first.Length, schedule)
    modifies mem, first
    ensures forall b | 0 <= b < |bufs| :: first[b] == Expected(old(mem[..]), bufs[b])
    ensures Mended(old(mem[..]), mem[..], bufs, lo, hi)
  {
    ghost var mem0 := mem[..];
    assert Mended(mem0, mem0, bufs[..0], lo, hi);
    hide Mended, CopiesAt, Launchable, Layout, Finished, ClearOf, CompleteSchedule, Expected;
    CreateCanaryCopies(mem, bufs, 0, n, B, lo, hi, mem0);
    ghost var mem1 := mem[..];
    var table := CreateSvmPtrCopies(bufs[n..]);
    assert table == Table(bufs[n..]);
    PtrKernelOk(bufs, n, B, L, q, mem.Length, lo, hi);
    ghost var l := LaunchOf(PtrKernel(n, bufs[n..], B), L, |bufs| * q);
    LaunchCheckKernel(LocateDiffSVMPtr(CANARY_WORDS, n * CANARY_WORDS, |bufs| * CANARY_WORDS, B, table), L,
      |bufs| * q, schedule, mem, first);
    PtrMended(l, mem0, mem1, mem[..], first[..], bufs, n, B, lo, hi);
    forall b | 0 <= b < |bufs| ensures first[b] == Expected(mem0, bufs[b]) {
      PtrReports(l, mem0, mem1, mem[..], first[..], bufs, n, B, lo, hi, b);
    }
  }
}
