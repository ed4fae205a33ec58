/** The batched image kernel: one work-item per canary byte of all images, owners found by searching
    the prefix sums of the canary lengths. */
module ImageKernel {
  import opened Canary
  import opened Schedules
  import opened Kernels
  import opened KernelLayouts

  function SumTo(lens: seq<nat>, i: nat): nat
    requires i <= |lens|
  {
    if i == 0 then 0 else SumTo(lens, i - 1) + lens[i - 1]
  }

  /** find_canary_ends: running totals of the canary lengths. */
  method FindCanaryEnds(lens: seq<nat>) returns (canaryEnds: seq<nat>, total: nat)
    ensures |canaryEnds| == |lens| && forall i | 0 <= i < |lens| :: canaryEnds[i] == SumTo(lens, i + 1)
    ensures total == SumTo(lens, |lens|)
  {
    canaryEnds := [];
    if |lens| == 0 { return [], 0; }
    for i := 0 to |lens|
      invariant |canaryEnds| == i && forall j | 0 <= j < i :: canaryEnds[j] == SumTo(lens, j + 1)
    {
      if i == 0 {
        canaryEnds := canaryEnds + [lens[i]];
      } else {
        canaryEnds := canaryEnds + [canaryEnds[i - 1] + lens[i]];
      }
    }
    total := canaryEnds[|lens| - 1];
  }

  function Ends(lens: seq<nat>): (e: seq<nat>)
    ensures |e| == |lens| && forall i {:trigger e[i]} | 0 <= i < |lens| :: e[i] == SumTo(lens, i + 1)
  {
    seq(|lens|, i requires 0 <= i < |lens| => SumTo(lens, i + 1))
  }

  lemma {:induction false} SumsGrow(lens: seq<nat>, i: nat, j: nat)
    requires i <= j <= |lens|
    ensures SumTo(lens, i) <= SumTo(lens, j)
    decreases j
  {
    if i < j { SumsGrow(lens, i, j - 1); }
  }

  lemma EndsAscend(lens: seq<nat>)
    ensures Ascending(Ends(lens))
  {
    var e := Ends(lens);
    forall i, j | 0 <= i < j < |e| ensures e[i] <= e[j] {
      SumsGrow(lens, i + 1, j + 1);
    }
  }

  /** Flat position x of image b belongs to image b and to no other. */
  lemma OwnerAt(lens: seq<nat>, b: nat, x: nat)
    requires b < |lens| && x < lens[b]
    ensures SumTo(lens, b) + x < SumTo(lens, |lens|) && IsOwner(Ends(lens), SumTo(lens, b) + x, b)
  {
    SumsGrow(lens, b + 1, |lens|);
    forall i | 0 <= i < b ensures Ends(lens)[i] <= SumTo(lens, b) {
      SumsGrow(lens, i + 1, b);
    }
    assert Ends(lens)[b] == SumTo(lens, b) + lens[b];
  }

  function ImageViews(lens: seq<nat>, B: nat): (v: seq<seq<nat>>)
    ensures |v| == |lens| && forall b {:trigger v[b]} | 0 <= b < |lens| :: v[b] == Block(B + SumTo(lens, b), lens[b])
  {
    seq(|lens|, b requires 0 <= b < |lens| => Block(B + SumTo(lens, b), lens[b]))
  }

  lemma {:induction false} UnitGroups(t: nat)
    ensures GroupId(1, t) == t && GroupStart(1, t) == t
  {
    if t > 0 { UnitGroups(t - 1); }
  }

  lemma EndsBound(lens: seq<nat>, t: nat)
    requires t < SumTo(lens, |lens|)
    ensures |lens| > 0 && Ends(lens)[|lens| - 1] == SumTo(lens, |lens|)
  {
  }

  lemma OwnerInterval(lens: seq<nat>, t: nat, b: nat)
    requires IsOwner(Ends(lens), t, b)
    ensures SumTo(lens, b) <= t < SumTo(lens, b) + lens[b] && StartOf(Ends(lens), b) == SumTo(lens, b)
  {
    if b > 0 { assert Ends(lens)[b - 1] <= t; }
  }

  /** What work-item t of the image kernel looks at. */
  ghost predicate ImageItemIs(lens: seq<nat>, B: nat, it: Item, t: nat) {
    it.slot < |lens| && it.addr == B + t && t == SumTo(lens, it.slot) + it.off && it.off < lens[it.slot]
  }

  lemma ImageItemAt(lens: seq<nat>, B: nat, t: nat)
    requires t < SumTo(lens, |lens|)
    ensures |lens| > 0 && t < Ends(lens)[|lens| - 1] && ImageItemIs(lens, B, ImageItem(Ends(lens), B, t), t)
  {
    EndsBound(lens, t);
    OwnerInterval(lens, t, Owner(Ends(lens), t));
  }

  function ImageLaunch(lens: seq<nat>, B: nat): Launch {
    EndsAscend(lens);
    LaunchOf(FindImageCorruption(Ends(lens), B), 1, SumTo(lens, |lens|))
  }

  lemma ImageLaunchItem(lens: seq<nat>, B: nat, t: nat)
    requires t < SumTo(lens, |lens|)
    ensures |ImageLaunch(lens, B).items| == SumTo(lens, |lens|)
    ensures ImageItemIs(lens, B, ImageLaunch(lens, B).items[t], t)
  {
    EndsAscend(lens);
    ImageItemAt(lens, B, t);
  }

  lemma ImageFaithful(lens: seq<nat>, B: nat, it: Item, t: nat)
    requires ImageItemIs(lens, B, it, t)
    ensures Faithful(it, 1, ImageViews(lens, B))
  {
  }

  lemma ImageCovered(lens: seq<nat>, B: nat, b: nat, p: nat)
    requires b < |lens| && p < lens[b]
    ensures Covered(ImageLaunch(lens, B), b, p)
  {
    var l := ImageLaunch(lens, B);
    EndsAscend(lens);
    OwnerAt(lens, b, p);
    var t := SumTo(lens, b) + p;
    ImageLaunchItem(lens, B, t);
    EndsBound(lens, t);
    OwnerUnique(Ends(lens), t, b, Owner(Ends(lens), t));
    assert Covers(l.items[t], l.width, b, p);
  }

  lemma ImageUniform(l: Launch, t: nat)
    requires l.L == 1 && |l.items| == GroupStart(1, l.groups) && t < |l.items|
    ensures UniformAt(l, t)
  {
    UnitGroups(t);
    GroupInRange(1, t, l.groups);
  }

  lemma ImageLayout(lens: seq<nat>, B: nat, memSize: nat)
    requires B + SumTo(lens, |lens|) <= memSize && SumTo(lens, |lens|) < INT_MAX
    ensures Launchable(ImageLaunch(lens, B), memSize, |lens|) && Layout(ImageLaunch(lens, B), ImageViews(lens, B))
  {
    var l := ImageLaunch(lens, B);
    var total := SumTo(lens, |lens|);
    UnitGroups(total);
    if total > 0 { ImageLaunchItem(lens, B, 0); } else if |lens| > 0 { assert Ends(lens)[|lens| - 1] == 0; }
    assert |l.items| == total;
    forall t | 0 <= t < total
      ensures l.items[t].addr == B + t && Fits(l.items[t], l.width, memSize) && l.items[t].slot < |lens|
      ensures UniformAt(l, t) && Faithful(l.items[t], l.width, ImageViews(lens, B))
    {
      ImageLaunchItem(lens, B, t);
      ImageFaithful(lens, B, l.items[t], t);
      ImageUniform(l, t);
    }
    forall b, p | 0 <= b < |lens| && 0 <= p < lens[b] ensures Covered(l, b, p) {
      ImageCovered(lens, B, b, p);
    }
  }

  /** Where the canary of image b lies among the copies at B. */
  lemma ImageSlice(lens: seq<nat>, B: nat, b: nat)
    requires b < |lens|
    ensures B + SumTo(lens, b) + lens[b] <= B + SumTo(lens, |lens|)
  {
    SumsGrow(lens, b + 1, |lens|);
  }

  /** The schedule runs the launch to its end, and memory is only read. */
  ghost predicate FinishedReading(l: Launch, mem: seq<byte>, views: seq<seq<nat>>, schedule: seq<Event>) {
    && Launchable(l, |mem|, |views|) && Layout(l, views) && Runs(l, Start(mem, |views|), schedule)
    && var d := Outcome(l, Start(mem, |views|), schedule);
    && |d.first| == |views| && d.mem == mem && Finished(l, mem, mem, d.first)
  }

  lemma ReadOnlyFinishes(l: Launch, mem: seq<byte>, views: seq<seq<nat>>, schedule: seq<Event>)
    requires Launchable(l, |mem|, |views|) && Layout(l, views) && CompleteSchedule(l, |mem|, |views|, schedule)
      && !l.mends
    ensures FinishedReading(l, mem, views, schedule)
  {
    CompleteScheduleRuns(l, mem, |views|, schedule);
    hide Launchable, Layout, CompleteSchedule, Complete, Runs, Finished;
    EveryScheduleFinishes(l, mem, |views|, schedule);
    var d := Outcome(l, Start(mem, |views|), schedule);
    ReadOnlyLaunch(l, mem, d.mem, d.first);
  }

  /** Every schedule of the image kernel finishes, and reads only. */
  lemma ImageLaunchFinishes(lens: seq<nat>, B: nat, mem: seq<byte>, schedule: seq<Event>)
    requires B + SumTo(lens, |lens|) <= |mem| && SumTo(lens, |lens|) < INT_MAX
    requires CompleteSchedule(ImageLaunch(lens, B), |mem|, |lens|, schedule)
    ensures FinishedReading(ImageLaunch(lens, B), mem, ImageViews(lens, B), schedule)
  {
    ImageLayout(lens, B, |mem|);
    assert !ImageLaunch(lens, B).mends;
    hide ImageLaunch, Launchable, Layout, CompleteSchedule, FinishedReading, SumTo;
    ReadOnlyFinishes(ImageLaunch(lens, B), mem, ImageViews(lens, B), schedule);
  }

  /** The schedule runs, memory is only read, and slot b ends with the first bad offset of a slice of it. */
  ghost predicate SliceReported(l: Launch, mem: seq<byte>, slots: nat, schedule: seq<Event>, b: nat, start: nat,
      len: nat)
  {
    && Launchable(l, |mem|, slots) && Runs(l, Start(mem, slots), schedule) && b < slots
    && start + len <= |mem| && len <= INT_MAX
    && var d := Outcome(l, Start(mem, slots), schedule);
    && |d.first| == slots && d.mem == mem && d.first[b] == FirstBad(mem[start..start + len])
  }

  lemma OutcomeReportsSlice(l: Launch, mem: seq<byte>, schedule: seq<Event>, views: seq<seq<nat>>,
      b: nat, start: nat, len: nat)
    requires FinishedReading(l, mem, views, schedule)
    requires b < |views| && views[b] == Block(start, len) && start + len <= |mem| && len <= INT_MAX
    ensures SliceReported(l, mem, |views|, schedule, b, start, len)
  {
    hide Launchable, Layout, Runs, Finished, FirstBad, Block;
    SlotReportsSlice(l, mem, mem, Outcome(l, Start(mem, |views|), schedule).first, views, b, start, len);
  }

  /** For every schedule, each image gets the least corrupted offset of its own canary. */
  lemma ImagesReported(lens: seq<nat>, B: nat, mem: seq<byte>, schedule: seq<Event>, b: nat)
    requires B + SumTo(lens, |lens|) <= |mem| && SumTo(lens, |lens|) < INT_MAX && b < |lens|
    requires CompleteSchedule(ImageLaunch(lens, B), |mem|, |lens|, schedule)
    ensures SliceReported(ImageLaunch(lens, B), mem, |lens|, schedule, b, B + SumTo(lens, b), lens[b])
  {
    hide CompleteSchedule, FinishedReading, SliceReported, ImageLaunch, Block, SumTo, ImageViews, Ends;
    ImageLaunchFinishes(lens, B, mem, schedule);
    ImageSlice(lens, B, b);
    OutcomeReportsSlice(ImageLaunch(lens, B), mem, schedule, ImageViews(lens, B), b, B + SumTo(lens, b), lens[b]);
  }

  /** A canary that lies in one piece is reported as the scan of that slice of memory. */
  lemma SlotReportsSlice(l: Launch, mem: seq<byte>, mem': seq<byte>, first: seq<nat>, views: seq<seq<nat>>,
                         b: nat, start: nat, len: nat)
    requires |views| == |first| && b < |first| && views[b] == Block(start, len) && start + len <= |mem|
      && len <= INT_MAX
    requires Launchable(l, |mem|, |first|) && Layout(l, views) && Finished(l, mem, mem', first)
    ensures first[b] == FirstBad(mem[start..start + len])
  {
    hide Launchable, Layout, Finished, FirstBad;
    assert Bytes(mem, views[b]) == mem[start..start + len];
    SlotReportsFirstBad(l, mem, mem', first, views, b);
  }
}
