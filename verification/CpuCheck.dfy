/** The checker that runs on the host: canaries are read back and scanned word by word. */
module CpuCheck {
  import opened Canary
  import opened Schedules
  import opened Kernels
  import opened LinearBuffers

  function DivideCeiling(a: nat, b: nat): (r: nat)
    requires b > 0
    ensures r * b >= a && (r == 0 || (r - 1) * b < a)
  {
    CeilingBounds(a, b);
    a / b + if a % b != 0 then 1 else 0
  }

  lemma CeilingBounds(a: nat, b: nat)
    requires b > 0
    ensures var r := a / b + (if a % b != 0 then 1 else 0); r * b >= a && (r == 0 || (r - 1) * b < a)
  {
    assert a == (a / b) * b + a % b;
    assert (a / b + 1) * b == (a / b) * b + b;
    assert (a / b - 1) * b == (a / b) * b - b;
  }

  /** Scans a canary array of checkLen bytes (the array is padded to whole words). The scan stops at
      the first word that differs; within it the first differing byte below checkLen is reported. */
  method CpuParseCanary(checkLen: nat, map_: array<byte>) returns (badByte: nat)
    requires checkLen <= INT_MAX && 4 * DivideCeiling(checkLen, 4) <= map_.Length
    ensures badByte == FirstBad(map_[..checkLen])
  {
    badByte := INT_MAX;
    var maxToCheck := DivideCeiling(checkLen, 4);
    var p := 0;
    while p < maxToCheck
      invariant 0 <= p <= maxToCheck && badByte == INT_MAX
      invariant forall a | 0 <= a < 4 * p :: map_[a] == FILL
    {
      WordAtIsPoison(map_[..], 4 * p);
      if Word(map_[4 * p], map_[4 * p + 1], map_[4 * p + 2], map_[4 * p + 3]) != POISON_FILL_32B {
        badByte := FirstByteOfWord(checkLen, map_, p);
        break;
      }
      p := p + 1;
    }
    FirstBadUnique(map_[..checkLen], badByte);
  }

  /** The byte loop inside a differing word. */
  method FirstByteOfWord(checkLen: nat, map_: array<byte>, p: nat) returns (badByte: nat)
    requires 4 * p < checkLen <= INT_MAX && checkLen <= map_.Length && 4 * p + 4 <= map_.Length
    requires forall a | 0 <= a < 4 * p :: map_[a] == FILL
    requires exists a :: 4 * p <= a < 4 * p + 4 && map_[a] != FILL
    ensures badByte != INT_MAX ==> badByte < checkLen && map_[badByte] != FILL && forall a | 0 <= a < badByte ::
              map_[a] == FILL
    ensures badByte == INT_MAX ==> checkLen <= 4 * p + 4 && forall a | 0 <= a < checkLen :: map_[a] == FILL
  {
    badByte := INT_MAX;
    var q := 0;
    while q < 4
      invariant 0 <= q <= 4 && badByte == INT_MAX
      invariant forall a | 0 <= a < 4 * p + q && a < checkLen :: map_[a] == FILL
    {
      if map_[4 * p + q] != FILL && 4 * p + q < checkLen {
        badByte := 4 * p + q;
        break;
      }
      q := q + 1;
    }
  }

  /** Canary array i as it is laid out in the combined host array. */
  ghost predicate Holds(canaries: seq<byte>, mem: seq<byte>, buf: Buf, i: nat)
    requires InMemory(buf, |mem|)
  {
    i * CANARY_LENGTH + CANARY_LENGTH <= |canaries|
    && forall a | i * CANARY_LENGTH <= a < i * CANARY_LENGTH + CANARY_LENGTH ::
         canaries[a] == mem[CanaryAddr(buf, a - i * CANARY_LENGTH)]
  }

  /** clEnqueueReadBuffer into host memory. */
  method ReadBuffer(mem: array<byte>, offset: nat, len: nat, host: array<byte>, at: nat)
    requires offset + len <= mem.Length && at + len <= host.Length && host != mem
    modifies host
    ensures forall a | 0 <= a < host.Length ::
              host[a] == if at <= a < at + len then mem[offset + (a - at)] else old(host[a])
  {
    forall i | 0 <= i < len { host[at + i] := mem[offset + i]; }
  }

  method ReadTheseCanaries(mem: array<byte>, buf: Buf, canaries: array<byte>, i: nat)
    requires InMemory(buf, mem.Length) && i * CANARY_LENGTH + CANARY_LENGTH <= canaries.Length && canaries != mem
    modifies canaries
    ensures Holds(canaries[..], mem[..], buf, i)
    ensures forall a | 0 <= a < i * CANARY_LENGTH :: canaries[a] == old(canaries[a])
  {
    var thisCanary := i * CANARY_LENGTH;
    ReadBuffer(mem, buf.base, POISON_FILL_LENGTH, canaries, thisCanary);
    var offset := buf.size + POISON_FILL_LENGTH;
    ReadBuffer(mem, buf.base + offset, POISON_FILL_LENGTH, canaries, thisCanary + POISON_FILL_LENGTH);
  }

  /** Reads both canary regions of every buffer into one host array, buffer after buffer. */
  method ReadClMemCanaries(mem: array<byte>, bufs: seq<Buf>) returns (canaries: array<byte>)
    requires Separate(bufs, mem.Length)
    ensures fresh(canaries) && forall i | 0 <= i < |bufs| :: Holds(canaries[..], mem[..], bufs[i], i)
  {
    canaries := new byte[|bufs| * CANARY_LENGTH];
    for i := 0 to |bufs|
      invariant fresh(canaries) && canaries.Length == |bufs| * CANARY_LENGTH && mem[..] == old(mem[..])
      invariant forall j | 0 <= j < i :: Holds(canaries[..], mem[..], bufs[j], j)
    {
      ghost var before := canaries[..];
      ReadTheseCanaries(mem, bufs[i], canaries, i);
      forall j | 0 <= j < i ensures Holds(canaries[..], mem[..], bufs[j], j) {
        assert Holds(before, mem[..], bufs[j], j);
      }
    }
  }

  /** Scans canary array i of the combined host array. */
  method ParseThisCanary(canaries: array<byte>, i: nat, ghost mem0: seq<byte>, ghost buf: Buf) returns (badByte: nat)
    requires InMemory(buf, |mem0|) && Holds(canaries[..], mem0, buf, i)
    ensures badByte == Expected(mem0, buf)
  {
    var slice := new byte[CANARY_LENGTH];
    ReadBuffer(canaries, i * CANARY_LENGTH, CANARY_LENGTH, slice, 0);
    assert slice[..CANARY_LENGTH] == CanaryBytes(mem0, buf) by {
      forall p | 0 <= p < CANARY_LENGTH ensures slice[p] == CanaryBytes(mem0, buf)[p] {
        assert slice[p] == canaries[..][i * CANARY_LENGTH + p];
      }
    }
    badByte := CpuParseCanary(CANARY_LENGTH, slice);
  }

  /** A corrupted buffer is mended; a clean one is left alone, with the same effect. */
  method MendIfReported(mem: array<byte>, bufs: seq<Buf>, i: nat, badByte: nat, ghost mem0: seq<byte>)
    requires Separate(bufs, |mem0|) && |mem0| == mem.Length && i < |bufs| && Mended(mem0, mem[..], bufs[..i], 0, 0)
    requires badByte == Expected(mem0, bufs[i])
    modifies mem
    ensures Mended(mem0, mem[..], bufs[..i + 1], 0, 0)
  {
    ghost var before := mem[..];
    if badByte != INT_MAX {
      MendCanaryRegion(mem, bufs[i]);
    } else {
      CleanCanaryNeedsNoMend(mem0, before, bufs, i);
    }
    MendedMore(mem0, before, mem[..], bufs, i, 0, 0);
  }

  /** Checks every buffer on the host and mends those found corrupted. */
  method VerifyClMem(mem: array<byte>, bufs: seq<Buf>) returns (reports: seq<nat>)
    requires Separate(bufs, mem.Length)
    modifies mem
    ensures |reports| == |bufs| && forall i | 0 <= i < |bufs| :: reports[i] == Expected(old(mem[..]), bufs[i])
    ensures Mended(old(mem[..]), mem[..], bufs, 0, 0)
  {
    reports := [];
    var canaries := ReadClMemCanaries(mem, bufs);
    ghost var mem0, got := mem[..], canaries[..];
    NothingMended(mem0, bufs);
    hide Mended, Expected, Holds, Separate;
    for i := 0 to |bufs|
      invariant canaries[..] == got
      invariant |reports| == i && forall j | 0 <= j < i :: reports[j] == Expected(mem0, bufs[j])
      invariant Mended(mem0, mem[..], bufs[..i], 0, 0)
    {
      var badByte := CheckThisBuffer(mem, canaries, bufs, i, mem0);
      reports := reports + [badByte];
    }
    assert bufs[..|bufs|] == bufs;
  }

  lemma NothingMended(mem0: seq<byte>, bufs: seq<Buf>)
    ensures Mended(mem0, mem0, bufs[..0], 0, 0)
  {
  }

  method CheckThisBuffer(mem: array<byte>, canaries: array<byte>, bufs: seq<Buf>, i: nat, ghost mem0: seq<byte>)
    returns (badByte: nat)
    requires canaries != mem && Separate(bufs, |mem0|) && |mem0| == mem.Length && i < |bufs|
    requires Holds(canaries[..], mem0, bufs[i], i) && Mended(mem0, mem[..], bufs[..i], 0, 0)
    modifies mem
    ensures badByte == Expected(mem0, bufs[i])
    ensures Mended(mem0, mem[..], bufs[..i + 1], 0, 0)
  {
    badByte := ParseThisCanary(canaries, i, mem0, bufs[i]);
    MendIfReported(mem, bufs, i, badByte, mem0);
  }

  lemma CleanCanaryNeedsNoMend(mem0: seq<byte>, mem: seq<byte>, bufs: seq<Buf>, i: nat)
    requires Separate(bufs, |mem0|) && i < |bufs| && Mended(mem0, mem, bufs[..i], 0, 0)
    requires Intact(CanaryBytes(mem0, bufs[i]))
    ensures forall a | 0 <= a < |mem| && InCanary(bufs[i], a) :: mem[a] == FILL
  {
    forall a | 0 <= a < |mem| && InCanary(bufs[i], a) ensures mem[a] == FILL {
      var p := CanaryPosition(bufs[i], a);
      assert CanaryBytes(mem0, bufs[i])[p] == mem0[a];
    }
  }
}
