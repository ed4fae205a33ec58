/** The index arithmetic of the word kernels: which canary byte each work-item reads, for symbolic
    canary length, number of buffers and work-group size. */
module KernelLayouts {
  import opened Arithmetic
  import opened Canary
  import opened Schedules
  import opened Kernels

  /** Word w of result slot b is read, where it lies, by the item with global id b * W + w. */
  ghost predicate ReadsWord(l: Launch, W: nat, view: seq<nat>, b: nat, w: nat)
    requires 4 * w + 4 <= |view|
  {
    b * W + w < |l.items| && l.items[b * W + w] == Item(b, view[4 * w], 4 * w)
  }

  ghost predicate Consecutive(view: seq<nat>, p: nat)
    requires p + 4 <= |view|
  {
    view[p + 1] == view[p] + 1 && view[p + 2] == view[p] + 2 && view[p + 3] == view[p] + 3
  }

  /** A launch with one item per word, W words in each of |views| result slots. */
  ghost predicate WordLaunch(l: Launch, W: nat, views: seq<seq<nat>>) {
    && l.width == 4 && |l.items| == |views| * W && W > 0
    && (forall b | 0 <= b < |views| :: |views[b]| == 4 * W)
    && (forall b, w | 0 <= b < |views| && 0 <= w < W :: ReadsWord(l, W, views[b], b, w) && Consecutive(views[b], 4 * w))
  }

  /** The buffer and the word within it that item t works on. */
  lemma WordItem(l: Launch, W: nat, views: seq<seq<nat>>, t: nat) returns (b: nat, w: nat)
    requires WordLaunch(l, W, views) && t < |l.items|
    ensures b < |views| && w < W && t == b * W + w && b == t / W && |views[b]| == 4 * W
    ensures l.items[t] == Item(b, views[b][4 * w], 4 * w) && Consecutive(views[b], 4 * w)
  {
    b, w := t / W, t % W;
    Split(W, t, |views|);
    assert ReadsWord(l, W, views[b], b, w);
  }

  lemma WordFaithful(views: seq<seq<nat>>, b: nat, w: nat)
    requires b < |views| && 4 * w + 4 <= |views[b]| && Consecutive(views[b], 4 * w)
    ensures Faithful(Item(b, views[b][4 * w], 4 * w), 4, views)
  {
  }

  lemma WordLayout(l: Launch, W: nat, views: seq<seq<nat>>)
    requires WordLaunch(l, W, views)
    ensures Layout(l, views)
  {
    forall t | 0 <= t < |l.items| ensures Faithful(l.items[t], l.width, views) {
      var b, w := WordItem(l, W, views, t);
      WordFaithful(views, b, w);
    }
    forall b, p | 0 <= b < |views| && 0 <= p < |views[b]| ensures Covered(l, b, p) {
      var w := p / 4;
      assert ReadsWord(l, W, views[b], b, w);
      assert Covers(l.items[b * W + w], l.width, b, p);
    }
  }

  /** Slots change only between work-groups when the group size divides the canary length. */
  lemma SameSlot(L: nat, q: nat, t: nat)
    requires L > 0 && q > 0
    ensures var last := GroupStart(L, GroupId(L, t)) + L - 1; t / (q * L) == last / (q * L)
  {
    var g := GroupId(L, t);
    GroupArithmetic(L, g);
    LaneGroup(L, g, t);
    LaneSlot(L, q, g, t - g * L);
    LaneSlot(L, q, g, L - 1);
  }

  lemma LaneSlot(L: nat, q: nat, g: nat, j: nat)
    requires j < L && q > 0
    ensures q * L > 0 && (g * L + j) / (q * L) == g / q
  {
    var r := g % q;
    MulMono(r + 1, q, L);
    assert (r + 1) * L == r * L + L;
    DivOf(g / q, q * L, r * L + j);
    assert g * L == (g / q) * (q * L) + r * L by {
      assert g == (g / q) * q + r;
      Distribute(g / q, q, r, L);
    }
  }

  lemma WordFits(l: Launch, W: nat, views: seq<seq<nat>>, memSize: nat, t: nat)
    requires WordLaunch(l, W, views) && 4 * W <= INT_MAX && t < |l.items|
    requires forall b | 0 <= b < |views| :: AddressesIn(views[b], memSize)
    ensures Fits(l.items[t], 4, memSize) && l.items[t].slot < |views|
  {
    var b, w := WordItem(l, W, views, t);
    assert AddressesIn(views[b], memSize);
    assert views[b][4 * w + 3] == views[b][4 * w] + 3;
  }

  lemma WordOffsets(l: Launch, W: nat, views: seq<seq<nat>>, t: nat, u: nat)
    requires WordLaunch(l, W, views) && t < u < |l.items| && l.items[t].slot == l.items[u].slot
    ensures l.items[t].off + 4 <= l.items[u].off || l.items[u].off + 4 <= l.items[t].off
  {
    var b, w := WordItem(l, W, views, t);
    var c, x := WordItem(l, W, views, u);
  }

  lemma WordUniform(l: Launch, W: nat, views: seq<seq<nat>>, q: nat, t: nat)
    requires WordLaunch(l, W, views) && t < |l.items|
    requires l.L > 0 && q > 0 && W == q * l.L && |l.items| == GroupStart(l.L, l.groups)
    ensures UniformAt(l, t)
  {
    SameSlot(l.L, q, t);
    var g := GroupId(l.L, t);
    GroupInRange(l.L, t, l.groups);
    GroupLanes(l.L, g, l.groups);
    var b, w := WordItem(l, W, views, t);
    var c, x := WordItem(l, W, views, GroupStart(l.L, g) + l.L - 1);
  }

  /** A word launch over distinct canary bytes is race free, and with a work-group size dividing the
      canary length no group straddles two buffers. */
  lemma WordLaunchable(l: Launch, W: nat, views: seq<seq<nat>>, q: nat, memSize: nat)
    requires WordLaunch(l, W, views) && Distinct(views) && 4 * W <= INT_MAX
    requires forall b | 0 <= b < |views| :: AddressesIn(views[b], memSize)
    requires l.L > 0 && q > 0 && W == q * l.L && l.groups == |views| * q
    ensures Launchable(l, memSize, |views|)
  {
    assert |l.items| == GroupStart(l.L, l.groups) by {
      GroupArithmetic(l.L, l.groups);
      Distribute(|views|, q, 0, l.L);
    }
    forall t | 0 <= t < |l.items|
      ensures Fits(l.items[t], l.width, memSize) && l.items[t].slot < |views| && UniformAt(l, t)
    {
      WordFits(l, W, views, memSize, t);
      WordUniform(l, W, views, q, t);
    }
    assert RaceFree(l.items, l.width) by {
      WordLayout(l, W, views);
      forall t, u | 0 <= t < u < |l.items| && l.items[t].slot == l.items[u].slot
        ensures l.items[t].off + l.width <= l.items[u].off || l.items[u].off + l.width <= l.items[t].off
      {
        WordOffsets(l, W, views, t, u);
      }
      LayoutIsRaceFree(l, views);
    }
  }

  // ----- blocks of consecutive addresses -----

  function Block(start: nat, len: nat): (v: seq<nat>)
    ensures |v| == len && forall p | 0 <= p < len :: v[p] == start + p
  {
    seq(len, p requires 0 <= p => start + p)
  }

  /** Two regions read one after the other. */
  function TwoBlocks(front: nat, back: nat, len: nat): (v: seq<nat>)
    ensures |v| == 2 * len
    ensures forall p | 0 <= p < 2 * len :: v[p] == if p < len then front + p else back + (p - len)
  {
    seq(2 * len, p requires 0 <= p => if p < len then front + p else back + (p - len))
  }

  // ----- findCorruption and findCorruptionNoSVM: canaries copied back to back -----

  function CopyStart(B: nat, C: nat, W: nat, n: nat, b: nat): nat {
    if b < n then B + 4 * (b * W) else C + 4 * ((b - n) * W)
  }

  /** n cl_mem canaries at B, then m SVM canaries at C. */
  function CopyViews(B: nat, C: nat, W: nat, n: nat, m: nat): (v: seq<seq<nat>>)
    ensures |v| == n + m
    ensures forall b | 0 <= b < n + m :: v[b] == Block(CopyStart(B, C, W, n, b), 4 * W)
  {
    seq(n + m, b requires 0 <= b => Block(CopyStart(B, C, W, n, b), 4 * W))
  }

  lemma CopyStartsApart(B: nat, C: nat, W: nat, n: nat, m: nat, b: nat, c: nat)
    requires B + 4 * (n * W) <= C || C + 4 * (m * W) <= B
    requires b < c < n + m
    ensures CopyStart(B, C, W, n, b) + 4 * W <= CopyStart(B, C, W, n, c)
         || CopyStart(B, C, W, n, c) + 4 * W <= CopyStart(B, C, W, n, b)
  {
    if c < n {
      NextBlock(b, c, W);
    } else if b >= n {
      NextBlock(b - n, c - n, W);
    } else {
      NextBlock(b, n, W);
      NextBlock(c - n, m, W);
    }
  }

  lemma CopyViewsDistinct(B: nat, C: nat, W: nat, n: nat, m: nat)
    requires B + 4 * (n * W) <= C || C + 4 * (m * W) <= B
    ensures Distinct(CopyViews(B, C, W, n, m))
  {
    var v := CopyViews(B, C, W, n, m);
    forall b: nat, p: nat, c: nat, q: nat, a: nat | IsCanaryByte(v, b, p, a) && IsCanaryByte(v, c, q, a)
      ensures b == c && p == q
    {
      if b < c { CopyStartsApart(B, C, W, n, m, b, c); }
      if c < b { CopyStartsApart(B, C, W, n, m, c, b); }
    }
  }

  lemma FindCorruptionWord(B: nat, C: nat, W: nat, n: nat, m: nat, b: nat, w: nat)
    requires b < n + m && w < W
    ensures b * W + w < n * W + m * W
    ensures ItemOf(FindCorruption(W, n * W, n * W + m * W, B, C), b * W + w)
         == Item(b, CopyStart(B, C, W, n, b) + 4 * w, 4 * w)
  {
    assert (n + m) * W == n * W + m * W;
    NextBlock(b, n + m, W);
    DivOf(b, W, w);
    if b < n {
      NextBlock(b, n, W);
    } else {
      MulMono(n, b, W);
      assert (b - n) * W == b * W - n * W;
    }
  }

  lemma FindCorruptionIsWordLaunch(B: nat, C: nat, W: nat, n: nat, m: nat, L: nat, groups: nat)
    requires W > 0
    ensures WordLaunch(LaunchOf(FindCorruption(W, n * W, n * W + m * W, B, C), L, groups), W, CopyViews(B, C, W, n, m))
  {
    var l := LaunchOf(FindCorruption(W, n * W, n * W + m * W, B, C), L, groups);
    var v := CopyViews(B, C, W, n, m);
    assert (n + m) * W == n * W + m * W;
    forall b, w | 0 <= b < n + m && 0 <= w < W
      ensures ReadsWord(l, W, v[b], b, w) && Consecutive(v[b], 4 * w)
    {
      FindCorruptionWord(B, C, W, n, m, b, w);
    }
  }

  lemma FindCorruptionNoSVMIsWordLaunch(B: nat, C: nat, W: nat, n: nat, L: nat, groups: nat)
    requires W > 0
    ensures WordLaunch(LaunchOf(FindCorruptionNoSVM(W, n * W, n * W, B), L, groups), W, CopyViews(B, C, W, n, 0))
  {
    var k := FindCorruptionNoSVM(W, n * W, n * W, B);
    var l := LaunchOf(k, L, groups);
    var v := CopyViews(B, C, W, n, 0);
    forall b, w | 0 <= b < n && 0 <= w < W
      ensures ReadsWord(l, W, v[b], b, w) && Consecutive(v[b], 4 * w)
    {
      NextBlock(b, n, W);
      DivOf(b, W, w);
    }
  }

  lemma CopyViewsIn(B: nat, C: nat, W: nat, n: nat, m: nat, memSize: nat, b: nat)
    requires B + 4 * (n * W) <= memSize && C + 4 * (m * W) <= memSize && b < n + m
    ensures AddressesIn(CopyViews(B, C, W, n, m)[b], memSize)
  {
    if b < n { NextBlock(b, n, W); } else { NextBlock(b - n, m, W); }
  }

  /** What a launch over copied canaries needs and gives, whatever the kernel variant. */
  lemma CopyLaunchOk(l: Launch, B: nat, C: nat, W: nat, n: nat, m: nat, q: nat, memSize: nat)
    requires WordLaunch(l, W, CopyViews(B, C, W, n, m)) && 4 * W <= INT_MAX
    requires l.L > 0 && q > 0 && W == q * l.L && l.groups == (n + m) * q
    requires B + 4 * (n * W) <= memSize && C + 4 * (m * W) <= memSize
    requires B + 4 * (n * W) <= C || C + 4 * (m * W) <= B
    ensures Launchable(l, memSize, n + m) && Layout(l, CopyViews(B, C, W, n, m))
  {
    var v := CopyViews(B, C, W, n, m);
    forall b | 0 <= b < |v| ensures AddressesIn(v[b], memSize) {
      CopyViewsIn(B, C, W, n, m, memSize, b);
    }
    CopyViewsDistinct(B, C, W, n, m);
    WordLaunchable(l, W, v, q, memSize);
    WordLayout(l, W, v);
  }

  // ----- locateDiffSVMPtr: SVM canaries in place, through two pointers per allocation -----

  function PtrViewOf(B: nat, table: seq<nat>, half: nat, n: nat, b: nat): (v: seq<nat>)
    requires b >= n ==> 2 * (b - n) + 1 < |table|
    ensures |v| == 4 * (2 * half)
  {
    if b < n then Block(B + 4 * (b * (2 * half)), 2 * (4 * half))
    else TwoBlocks(table[2 * (b - n)], table[2 * (b - n) + 1], 4 * half)
  }

  function PtrViews(B: nat, table: seq<nat>, half: nat, n: nat, m: nat): (v: seq<seq<nat>>)
    requires |table| == 2 * m
    ensures |v| == n + m && forall b | 0 <= b < n + m :: v[b] == PtrViewOf(B, table, half, n, b)
  {
    seq(n + m, b requires 0 <= b < n + m => PtrViewOf(B, table, half, n, b))
  }

  /** The regions behind the pointers are disjoint from each other and from the copied canaries. */
  ghost predicate RegionsDisjoint(B: nat, table: seq<nat>, half: nat, n: nat) {
    && (forall i, j | 0 <= i < j < |table| :: table[i] + 4 * half <= table[j] || table[j] + 4 * half <= table[i])
    && (forall i | 0 <= i < |table| :: table[i] + 4 * half <= B || B + 4 * (n * (2 * half)) <= table[i])
  }

  /** Byte p of a pointer view lies in region r of the table. */
  lemma PtrRegion(B: nat, table: seq<nat>, half: nat, n: nat, b: nat, p: nat) returns (r: nat)
    requires b >= n && 2 * (b - n) + 1 < |table| && p < 2 * (4 * half)
    ensures r == 2 * (b - n) + (if p < 4 * half then 0 else 1)
    ensures table[r] <= PtrViewOf(B, table, half, n, b)[p] < table[r] + 4 * half
    ensures PtrViewOf(B, table, half, n, b)[p] == table[r] + (if p < 4 * half then p else p - 4 * half)
  {
    r := 2 * (b - n) + (if p < 4 * half then 0 else 1);
  }

  lemma CopyByte(B: nat, table: seq<nat>, half: nat, n: nat, b: nat, p: nat)
    requires b < n && p < 2 * (4 * half)
    ensures B <= PtrViewOf(B, table, half, n, b)[p] == B + 4 * (b * (2 * half)) + p < B + 4 * (n * (2 * half))
  {
    NextBlock(b, n, 2 * half);
  }

  lemma PtrViewsDistinct(B: nat, table: seq<nat>, half: nat, n: nat, m: nat)
    requires |table| == 2 * m && RegionsDisjoint(B, table, half, n)
    ensures Distinct(PtrViews(B, table, half, n, m))
  {
    var v := PtrViews(B, table, half, n, m);
    forall b: nat, p: nat, c: nat, q: nat, a: nat | IsCanaryByte(v, b, p, a) && IsCanaryByte(v, c, q, a)
      ensures b == c && p == q
    {
      PtrBytesDistinct(B, table, half, n, b, p, c, q);
    }
  }

  lemma PtrBytesDistinct(B: nat, table: seq<nat>, half: nat, n: nat, b: nat, p: nat, c: nat, q: nat)
    requires RegionsDisjoint(B, table, half, n) && p < 2 * (4 * half) && q < 2 * (4 * half)
    requires (b >= n ==> 2 * (b - n) + 1 < |table|) && (c >= n ==> 2 * (c - n) + 1 < |table|)
    requires PtrViewOf(B, table, half, n, b)[p] == PtrViewOf(B, table, half, n, c)[q]
    ensures b == c && p == q
  {
    if b < n { CopyByte(B, table, half, n, b, p); }
    if c < n { CopyByte(B, table, half, n, c, q); }
    if b < n && c < n {
      if b < c { NextBlock(b, c, 2 * half); }
      if c < b { NextBlock(c, b, 2 * half); }
    } else if b < n {
      var r := PtrRegion(B, table, half, n, c, q);
    } else if c < n {
      var r := PtrRegion(B, table, half, n, b, p);
    } else {
      var r := PtrRegion(B, table, half, n, b, p);
      var s := PtrRegion(B, table, half, n, c, q);
      assert r == s;
    }
  }

  /** Item b * W + w of the SVM part goes through pointer 2(b-n) or 2(b-n)+1, at word w mod half. */
  lemma SvmWord(half: nat, n: nat, b: nat, w: nat)
    requires half > 0 && b >= n && w < 2 * half
    ensures var t := b * (2 * half) + w; var r := if w < half then 0 else 1;
      && t >= n * (2 * half)
      && (t - n * (2 * half)) / half == 2 * (b - n) + r
      && t % half == w - r * half
  {
    var t := b * (2 * half) + w;
    var r := if w < half then 0 else 1;
    MulMono(n, b, 2 * half);
    HalfWord(half, b - n, w);
    assert (b - n) * (2 * half) == b * (2 * half) - n * (2 * half);
    DivOf(2 * (b - n) + r, half, w - r * half);
    HalfWord(half, b, w);
    DivOf(2 * b + r, half, w - r * half);
  }

  lemma HalfWord(half: nat, b: nat, w: nat)
    requires half > 0 && w < 2 * half
    ensures var r := if w < half then 0 else 1;
      b * (2 * half) + w == (2 * b + r) * half + (w - r * half)
  {
    var r := if w < half then 0 else 1;
    assert (2 * b + r) * half == (2 * b) * half + r * half;
    assert b * (2 * half) == (2 * b) * half;
  }

  lemma SvmPtrInTable(half: nat, n: nat, m: nat, table: seq<nat>, t: nat)
    requires half > 0 && |table| == 2 * m && n * (2 * half) <= t < (n + m) * (2 * half)
    ensures InTable(half, n * (2 * half), table, t)
  {
    var W := 2 * half;
    Split(W, t, n + m);
    if t / W < n { NextBlock(t / W, n, W); }
    SvmWord(half, n, t / W, t % W);
  }

  lemma LocateDiffSVMPtrWord(B: nat, table: seq<nat>, half: nat, n: nat, m: nat, b: nat, w: nat)
    requires half > 0 && |table| == 2 * m && b < n + m && w < 2 * half
    requires ArgsOk(LocateDiffSVMPtr(2 * half, n * (2 * half), (n + m) * (2 * half), B, table))
    ensures b * (2 * half) + w < (n + m) * (2 * half)
    ensures ItemOf(LocateDiffSVMPtr(2 * half, n * (2 * half), (n + m) * (2 * half), B, table), b * (2 * half) + w)
         == Item(b, PtrViewOf(B, table, half, n, b)[4 * w], 4 * w)
  {
    NextBlock(b, n + m, 2 * half);
    DivOf(b, 2 * half, w);
    assert RegionWords(2 * half) == half;
    if b < n {
      NextBlock(b, n, 2 * half);
    } else {
      SvmWord(half, n, b, w);
    }
  }

  lemma LocateDiffSVMPtrArgs(B: nat, table: seq<nat>, half: nat, n: nat, m: nat)
    requires half > 0 && |table| == 2 * m
    ensures ArgsOk(LocateDiffSVMPtr(2 * half, n * (2 * half), (n + m) * (2 * half), B, table))
  {
    assert RegionWords(2 * half) == half;
    forall t | n * (2 * half) <= t < (n + m) * (2 * half) ensures InTable(half, n * (2 * half), table, t) {
      SvmPtrInTable(half, n, m, table, t);
    }
  }

  lemma LocateDiffSVMPtrIsWordLaunch(B: nat, table: seq<nat>, half: nat, n: nat, m: nat, L: nat, groups: nat)
    requires half > 0 && |table| == 2 * m
    requires ArgsOk(LocateDiffSVMPtr(2 * half, n * (2 * half), (n + m) * (2 * half), B, table))
    ensures WordLaunch(LaunchOf(LocateDiffSVMPtr(2 * half, n * (2 * half), (n + m) * (2 * half), B, table), L, groups),
                       2 * half, PtrViews(B, table, half, n, m))
  {
    hide ItemOf, PtrViewOf, Consecutive, ArgsOk;
    var l := LaunchOf(LocateDiffSVMPtr(2 * half, n * (2 * half), (n + m) * (2 * half), B, table), L, groups);
    var v := PtrViews(B, table, half, n, m);
    forall b, w | 0 <= b < n + m && 0 <= w < 2 * half
      ensures ReadsWord(l, 2 * half, v[b], b, w) && Consecutive(v[b], 4 * w)
    {
      LocateDiffSVMPtrWord(B, table, half, n, m, b, w);
      PtrConsecutive(B, table, half, n, b, w);
    }
  }

  lemma PtrConsecutive(B: nat, table: seq<nat>, half: nat, n: nat, b: nat, w: nat)
    requires half > 0 && w < 2 * half && (b >= n ==> 2 * (b - n) + 1 < |table|)
    ensures Consecutive(PtrViewOf(B, table, half, n, b), 4 * w)
  {
  }

  // ----- locateDiffParts: one region of one buffer per launch -----

  function PartViews(length: nat, regions: seq<Region>): (v: seq<seq<nat>>)
    ensures |v| == |regions|
    ensures forall r | 0 <= r < |v| :: v[r] == Block(regions[r].B + regions[r].offset, 4 * length)
  {
    seq(|regions|, r requires 0 <= r < |regions| => Block(regions[r].B + regions[r].offset, 4 * length))
  }

  lemma LocateDiffPartsIsWordLaunch(length: nat, regions: seq<Region>, L: nat, groups: nat)
    requires length > 0
    ensures WordLaunch(LaunchOf(LocateDiffParts(length, regions), L, groups), length, PartViews(length, regions))
  {
    var l := LaunchOf(LocateDiffParts(length, regions), L, groups);
    var v := PartViews(length, regions);
    forall r, w | 0 <= r < |regions| && 0 <= w < length
      ensures ReadsWord(l, length, v[r], r, w) && Consecutive(v[r], 4 * w)
    {
      NextBlock(r, |regions|, length);
      DivOf(r, length, w);
    }
  }

  ghost predicate PartsApart(length: nat, regions: seq<Region>) {
    forall r, s | 0 <= r < s < |regions| ::
      || regions[r].B + regions[r].offset + 4 * length <= regions[s].B + regions[s].offset
      || regions[s].B + regions[s].offset + 4 * length <= regions[r].B + regions[r].offset
  }

  lemma PartsLaunchOk(length: nat, regions: seq<Region>, L: nat, q: nat, memSize: nat)
    requires length > 0 && L > 0 && q > 0 && length == q * L && 4 * length <= INT_MAX && PartsApart(length, regions)
    requires forall r | 0 <= r < |regions| :: regions[r].B + regions[r].offset + 4 * length <= memSize
    ensures var l := LaunchOf(LocateDiffParts(length, regions), L, |regions| * q);
      Launchable(l, memSize, |regions|) && Layout(l, PartViews(length, regions))
  {
    var l := LaunchOf(LocateDiffParts(length, regions), L, |regions| * q);
    var v := PartViews(length, regions);
    LocateDiffPartsIsWordLaunch(length, regions, L, |regions| * q);
    assert Distinct(v) by {
      forall b: nat, p: nat, c: nat, r: nat, a: nat | IsCanaryByte(v, b, p, a) && IsCanaryByte(v, c, r, a)
        ensures b == c && p == r
      {
      }
    }
    WordLaunchable(l, length, v, q, memSize);
    WordLayout(l, length, v);
  }

  lemma PtrLaunchOk(B: nat, table: seq<nat>, half: nat, n: nat, m: nat, L: nat, q: nat, memSize: nat)
    requires half > 0 && |table| == 2 * m && RegionsDisjoint(B, table, half, n) && 8 * half <= INT_MAX
    requires L > 0 && q > 0 && 2 * half == q * L
    requires B + 4 * (n * (2 * half)) <= memSize
    requires forall i | 0 <= i < |table| :: table[i] + 4 * half <= memSize
    ensures ArgsOk(LocateDiffSVMPtr(2 * half, n * (2 * half), (n + m) * (2 * half), B, table))
    ensures var l := LaunchOf(LocateDiffSVMPtr(2 * half, n * (2 * half), (n + m) * (2 * half), B, table), L, (n + m) * q);
      Launchable(l, memSize, n + m) && Layout(l, PtrViews(B, table, half, n, m))
  {
    LocateDiffSVMPtrArgs(B, table, half, n, m);
    var l := LaunchOf(LocateDiffSVMPtr(2 * half, n * (2 * half), (n + m) * (2 * half), B, table), L, (n + m) * q);
    var v := PtrViews(B, table, half, n, m);
    LocateDiffSVMPtrIsWordLaunch(B, table, half, n, m, L, (n + m) * q);
    PtrViewsDistinct(B, table, half, n, m);
    forall b | 0 <= b < |v| ensures AddressesIn(v[b], memSize) {
      PtrViewIn(B, table, half, n, b, memSize);
    }
    WordLaunchable(l, 2 * half, v, q, memSize);
    WordLayout(l, 2 * half, v);
  }

  lemma PtrViewIn(B: nat, table: seq<nat>, half: nat, n: nat, b: nat, memSize: nat)
    requires b >= n ==> 2 * (b - n) + 1 < |table|
    requires B + 4 * (n * (2 * half)) <= memSize && forall i | 0 <= i < |table| :: table[i] + 4 * half <= memSize
    ensures AddressesIn(PtrViewOf(B, table, half, n, b), memSize)
  {
    if b < n {
      NextBlock(b, n, 2 * half);
    } else {
      assert table[2 * (b - n)] + 4 * half <= memSize && table[2 * (b - n) + 1] + 4 * half <= memSize;
    }
  }
}
