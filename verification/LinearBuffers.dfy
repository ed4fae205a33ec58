/** Linear buffers and SVM allocations in device memory: user bytes between two canary regions. */
module LinearBuffers {
  import opened Canary
  import opened Schedules
  import opened KernelLayouts

  /** An allocation of size user bytes whose main buffer starts at base. */
  datatype Buf = Buf(base: nat, size: nat)

  function End(buf: Buf): nat { buf.base + buf.size + CANARY_LENGTH }

  /** Where the back canary lies in the main buffer. */
  function BackStart(buf: Buf): nat { buf.base + buf.size + POISON_FILL_LENGTH }

  predicate InCanary(buf: Buf, a: nat) {
    buf.base <= a < buf.base + POISON_FILL_LENGTH || BackStart(buf) <= a < End(buf)
  }

  ghost predicate InSomeCanary(bufs: seq<Buf>, a: nat) {
    exists i :: 0 <= i < |bufs| && InCanary(bufs[i], a)
  }

  /** The device addresses of the canary bytes, front region first: the order in which every checker
      numbers them. */
  function CanaryAddrs(buf: Buf): (v: seq<nat>)
    ensures |v| == CANARY_LENGTH && forall p | 0 <= p < CANARY_LENGTH :: v[p] == CanaryAddr(buf, p)
  {
    TwoBlocks(buf.base, BackStart(buf), POISON_FILL_LENGTH)
  }

  /** The address of canary byte p. */
  function CanaryAddr(buf: Buf, p: nat): nat {
    if p < POISON_FILL_LENGTH then buf.base + p else BackStart(buf) + (p - POISON_FILL_LENGTH)
  }

  predicate InMemory(buf: Buf, memSize: nat) { End(buf) <= memSize }

  lemma CanaryAddrsIn(buf: Buf, memSize: nat)
    requires InMemory(buf, memSize)
    ensures AddressesIn(CanaryAddrs(buf), memSize)
    ensures forall p | 0 <= p < CANARY_LENGTH :: InCanary(buf, CanaryAddrs(buf)[p])
  {
  }

  function CanaryBytes(mem: seq<byte>, buf: Buf): (s: seq<byte>)
    requires InMemory(buf, |mem|)
    ensures |s| == CANARY_LENGTH
  {
    CanaryAddrsIn(buf, |mem|);
    Bytes(mem, CanaryAddrs(buf))
  }

  /** Every address of the canary is some canary byte. */
  lemma CanaryPosition(buf: Buf, a: nat) returns (p: nat)
    requires InCanary(buf, a)
    ensures p < CANARY_LENGTH && CanaryAddrs(buf)[p] == a
  {
    p := if a < buf.base + POISON_FILL_LENGTH then a - buf.base else POISON_FILL_LENGTH + (a - BackStart(buf));
  }

  predicate Apart(x: Buf, y: Buf) { End(x) <= y.base || End(y) <= x.base }

  /** Live allocations do not overlap and lie in device memory. */
  ghost predicate Separate(bufs: seq<Buf>, memSize: nat) {
    && (forall i | 0 <= i < |bufs| :: InMemory(bufs[i], memSize))
    && (forall i, j | 0 <= i < j < |bufs| :: Apart(bufs[i], bufs[j]))
  }

  /** No allocation touches the detector's own memory between lo and hi. */
  ghost predicate ClearOf(bufs: seq<Buf>, lo: nat, hi: nat) {
    forall i | 0 <= i < |bufs| :: End(bufs[i]) <= lo || hi <= bufs[i].base
  }

  /** The state every checker leaves: canaries clean, every other byte outside the detector's own
      memory unchanged. */
  ghost predicate Mended(mem0: seq<byte>, mem: seq<byte>, bufs: seq<Buf>, lo: nat, hi: nat) {
    && |mem| == |mem0|
    && forall a | 0 <= a < |mem0| && !(lo <= a < hi) ::
         mem[a] == if InSomeCanary(bufs, a) then FILL else mem0[a]
  }

  /** The result every checker must report for buffer b. */
  function Expected(mem: seq<byte>, buf: Buf): nat
    requires InMemory(buf, |mem|)
  {
    FirstBad(CanaryBytes(mem, buf))
  }

  lemma MendedMore(mem0: seq<byte>, before: seq<byte>, mem: seq<byte>, bufs: seq<Buf>, i: nat, lo: nat, hi: nat)
    requires i < |bufs| && |mem| == |before| && Mended(mem0, before, bufs[..i], lo, hi)
    requires forall a | 0 <= a < |mem| && !(lo <= a < hi) :: mem[a] == if InCanary(bufs[i], a) then FILL else before[a]
    ensures Mended(mem0, mem, bufs[..i + 1], lo, hi)
  {
    forall a | 0 <= a < |mem| && !(lo <= a < hi)
      ensures mem[a] == if InSomeCanary(bufs[..i + 1], a) then FILL else mem0[a] {
      SomeCanaryStep(bufs, i, a);
    }
  }

  lemma SomeCanaryStep(bufs: seq<Buf>, i: nat, a: nat)
    requires i < |bufs|
    ensures InSomeCanary(bufs[..i + 1], a) <==> InSomeCanary(bufs[..i], a) || InCanary(bufs[i], a)
  {
    if InSomeCanary(bufs[..i], a) {
      var j :| 0 <= j < i && InCanary(bufs[..i][j], a);
      assert bufs[..i + 1][j] == bufs[..i][j];
    }
    if InCanary(bufs[i], a) { assert bufs[..i + 1][i] == bufs[i]; }
    if InSomeCanary(bufs[..i + 1], a) {
      var j :| 0 <= j < i + 1 && InCanary(bufs[..i + 1][j], a);
      if j < i { assert bufs[..i][j] == bufs[..i + 1][j]; }
    }
  }

  // ----- driver operations on device memory -----

  method CopyWithin(mem: array<byte>, src: nat, dst: nat, len: nat)
    requires src + len <= mem.Length && dst + len <= mem.Length
    modifies mem
    ensures forall a | 0 <= a < mem.Length ::
              mem[a] == if dst <= a < dst + len then old(mem[src + (a - dst)]) else old(mem[a])
  {
    forall i | 0 <= i < len { mem[dst + i] := mem[src + i]; }
  }

  method FillBuffer(mem: array<byte>, start: nat, len: nat)
    requires start + len <= mem.Length
    modifies mem
    ensures forall a | 0 <= a < mem.Length :: mem[a] == if start <= a < start + len then FILL else old(mem[a])
  {
    forall i | start <= i < start + len { mem[i] := FILL; }
  }

  /** Rewrites both canary regions of a buffer or SVM allocation. */
  method MendCanaryRegion(mem: array<byte>, buf: Buf)
    requires InMemory(buf, mem.Length)
    modifies mem
    ensures forall a | 0 <= a < mem.Length :: mem[a] == if InCanary(buf, a) then FILL else old(mem[a])
  {
    var offset := buf.size + POISON_FILL_LENGTH;
    FillBuffer(mem, buf.base + offset, POISON_FILL_LENGTH);
    FillBuffer(mem, buf.base, POISON_FILL_LENGTH);
  }

  // ----- what a report says about the user's kernel -----

  datatype Position = Underflow(before: nat) | Overflow(past: nat)

  /** The position printed for a reported canary offset. */
  function PositionOf(badByte: nat): Position {
    var pos := badByte - POISON_FILL_LENGTH;
    if pos >= 0 then Overflow(pos + 1) else Underflow(-pos)
  }

  /** The printed position names the corrupted byte relative to the user's data. */
  lemma PositionIsExact(buf: Buf, p: nat)
    requires p < CANARY_LENGTH
    ensures var first, last := buf.base + POISON_FILL_LENGTH, buf.base + POISON_FILL_LENGTH + buf.size - 1;
      match PositionOf(p)
      case Underflow(before) => 1 <= before <= POISON_FILL_LENGTH && CanaryAddrs(buf)[p] == first - before
      case Overflow(past) => 1 <= past <= POISON_FILL_LENGTH && CanaryAddrs(buf)[p] == last + past
  {
  }
}
