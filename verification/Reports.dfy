/** From check results to what the user is told. */
module Reports {
  import opened Canary
  import opened LinearBuffers

  /** One printed overflow: which object, and where relative to its data. */
  datatype Line = Line(handle: nat, at: Position)

  /** The lines for the first n results. */
  function Lines(firstChange: seq<nat>, argMap: seq<nat>, n: nat): seq<Line>
    requires n <= |firstChange| == |argMap|
  {
    if n == 0 then []
    else Lines(firstChange, argMap, n - 1)
         + if firstChange[n - 1] < INT_MAX then [Line(argMap[n - 1], PositionOf(firstChange[n - 1]))] else []
  }

  class Reporter {
    var printed: seq<Line>
    var bufferOverflowsObserved: nat

    constructor ()
      ensures printed == [] && bufferOverflowsObserved == 0
    {
      printed, bufferOverflowsObserved := [], 0;
    }

    /** overflowError for a linear object. */
    method OverflowError(handle: nat, badByte: nat)
      modifies this
      ensures printed == old(printed) + [Line(handle, PositionOf(badByte))]
      ensures bufferOverflowsObserved == old(bufferOverflowsObserved) + 1
    {
      bufferOverflowsObserved := bufferOverflowsObserved + 1;
      printed := printed + [Line(handle, PositionOf(badByte))];
    }

    /** report_kernel_overflows: every result below INT_MAX is printed, in order, and counted. */
    method ReportKernelOverflows(firstChange: seq<nat>, argMap: seq<nat>) returns (foundAnOverflow: bool)
      requires |firstChange| == |argMap|
      modifies this
      ensures printed == old(printed) + Lines(firstChange, argMap, |argMap|)
      ensures bufferOverflowsObserved == old(bufferOverflowsObserved) + |Lines(firstChange, argMap, |argMap|)|
      ensures foundAnOverflow <==> exists b :: 0 <= b < |firstChange| && firstChange[b] < INT_MAX
    {
      foundAnOverflow := false;
      for i := 0 to |firstChange|
        invariant printed == old(printed) + Lines(firstChange, argMap, i)
        invariant bufferOverflowsObserved == old(bufferOverflowsObserved) + |Lines(firstChange, argMap, i)|
        invariant foundAnOverflow <==> exists b :: 0 <= b < i && firstChange[b] < INT_MAX
      {
        if firstChange[i] < INT_MAX {
          OverflowError(argMap[i], firstChange[i]);
          foundAnOverflow := true;
        }
      }
    }
  }

  lemma {:induction false} LinesAre(firstChange: seq<nat>, argMap: seq<nat>, n: nat, line: Line)
    requires n <= |firstChange| == |argMap|
    ensures line in Lines(firstChange, argMap, n)
       <==> exists b :: 0 <= b < n && firstChange[b] < INT_MAX && line == Line(argMap[b], PositionOf(firstChange[b]))
  {
    if n > 0 { LinesAre(firstChange, argMap, n - 1, line); }
  }

  /** The address a printed position stands for. */
  function AddressOf(buf: Buf, at: Position): int {
    match at
    case Underflow(before) => buf.base + POISON_FILL_LENGTH - before
    case Overflow(past) => buf.base + POISON_FILL_LENGTH + buf.size - 1 + past
  }

  /** When every result is the expected one, the lines name exactly the buffers with a corrupted
      canary, each by the address of the first corrupted byte in canary order. */
  lemma LinesNameCorruptedBytes(mem: seq<byte>, bufs: seq<Buf>, argMap: seq<nat>, firstChange: seq<nat>, b: nat)
    requires |bufs| == |argMap| == |firstChange| && b < |bufs|
    requires forall i | 0 <= i < |bufs| :: InMemory(bufs[i], |mem|) && firstChange[i] == Expected(mem, bufs[i])
    requires forall i, j | 0 <= i < j < |argMap| :: argMap[i] != argMap[j]
    ensures (exists at :: Line(argMap[b], at) in Lines(firstChange, argMap, |argMap|))
       <==> !Intact(CanaryBytes(mem, bufs[b]))
    ensures forall at | Line(argMap[b], at) in Lines(firstChange, argMap, |argMap|) ::
              exists p: nat :: FirstCorrupted(mem, bufs[b], p) && AddressOf(bufs[b], at) == CanaryAddr(bufs[b], p)
  {
    CanaryAddrsIn(bufs[b], |mem|);
    var bytes := CanaryBytes(mem, bufs[b]);
    hide Lines, CanaryAddr;
    if firstChange[b] < INT_MAX {
      LinesAre(firstChange, argMap, |argMap|, Line(argMap[b], PositionOf(firstChange[b])));
      PositionIsExact(bufs[b], firstChange[b]);
      assert FirstCorrupted(mem, bufs[b], firstChange[b]);
    }
    forall at | Line(argMap[b], at) in Lines(firstChange, argMap, |argMap|)
      ensures firstChange[b] < INT_MAX && at == PositionOf(firstChange[b])
    {
      LinesAre(firstChange, argMap, |argMap|, Line(argMap[b], at));
    }
  }

  ghost predicate FirstCorrupted(mem: seq<byte>, buf: Buf, p: nat) {
    && InMemory(buf, |mem|) && p < CANARY_LENGTH && mem[CanaryAddr(buf, p)] != FILL
    && forall q | 0 <= q < p :: mem[CanaryAddr(buf, q)] == FILL
  }
}
