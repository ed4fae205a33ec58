/** Flattening the canary of an image on the device: the copier in front of the batched GPU kernel
    and the reader in front of the CPU scan. Both produce the same array. */
module ImageCopy {
  import opened Arithmetic
  import opened Canary
  import opened ImageGeometry

  /** An image on the device, ds bytes per pixel. */
  ghost predicate ImageOk(m: Dims, ds: nat, pix: array3<seq<byte>>)
    reads pix
  {
    && pix.Length0 == m.iLim && pix.Length1 == m.jLim && pix.Length2 == m.kLim && ds > 0
    && forall x, y, z | 0 <= x < m.iLim && 0 <= y < m.jLim && 0 <= z < m.kLim :: |pix[x, y, z]| == ds
  }

  function ByteAt(m: Dims, ds: nat, pix: array3<seq<byte>>, px: Pixel, b: nat): byte
    requires ImageOk(m, ds, pix) && InImage(m, px) && b < ds
    reads pix
  {
    pix[px.x, px.y, px.z][b]
  }

  /** Byte n of the flattened canary. */
  function FlatByte(p: Pad, m: Dims, ds: nat, pix: array3<seq<byte>>, n: nat): byte
    requires ValidDims(p, m) && ImageOk(m, ds, pix) && n < FlatSize(p, m) * ds
    reads pix
  {
    StridePositive(p, m);
    QuotRange(n, ds, FlatSize(p, m));
    PosOfPixel(p, m, Quot(n, ds));
    ByteAt(m, ds, pix, PixelAt(p, m, Quot(n, ds)), Rem(n, ds))
  }

  lemma QuotRange(n: nat, ds: nat, size: nat)
    requires ds > 0 && n < size * ds
    ensures Quot(n, ds) < size
  {
    Split(ds, n, size);
  }

  lemma QuotShift(q: nat, n: nat, ds: nat)
    requires ds > 0
    ensures Quot(q * ds + n, ds) == q + Quot(n, ds) && Rem(q * ds + n, ds) == Rem(n, ds)
  {
    var i, b := n / ds, n % ds;
    assert n == i * ds + b;
    assert (q + i) * ds == q * ds + i * ds;
    DivOf(q + i, ds, b);
  }

  /** A box of the image, as clEnqueueReadImage and the image-to-buffer copy address it. */
  datatype Box = Box(x: nat, y: nat, z: nat, r0: nat, r1: nat, r2: nat)

  function Count(b: Box): nat { b.r2 * (b.r1 * b.r0) }

  predicate BoxOk(m: Dims, b: Box) {
    b.r0 > 0 && b.r1 > 0 && b.x + b.r0 <= m.iLim && b.y + b.r1 <= m.jLim && b.z + b.r2 <= m.kLim
  }

  function PixelOf(b: Box, i: nat): Pixel
    requires b.r0 > 0 && b.r1 > 0
  {
    BoxPixel(b.x, b.y, b.z, b.r0, b.r1, i)
  }

  lemma PixelOfInImage(m: Dims, b: Box, i: nat)
    requires BoxOk(m, b) && i < Count(b)
    ensures InImage(m, PixelOf(b, i))
  {
    BoxSplit(b.r0, b.r1, b.r2, i);
  }

  function BoxByte(m: Dims, ds: nat, pix: array3<seq<byte>>, b: Box, n: nat): byte
    requires ImageOk(m, ds, pix) && BoxOk(m, b) && n < Count(b) * ds
    reads pix
  {
    QuotRange(n, ds, Count(b));
    PixelOfInImage(m, b, Quot(n, ds));
    ByteAt(m, ds, pix, PixelOf(b, Quot(n, ds)), Rem(n, ds))
  }

  /** The driver's transfer of a box into linear memory. */
  method ReadBox(m: Dims, ds: nat, pix: array3<seq<byte>>, b: Box, dst: array<byte>, segment: nat)
    requires ImageOk(m, ds, pix) && BoxOk(m, b) && segment + Count(b) * ds <= dst.Length
    modifies dst
    ensures forall a | 0 <= a < dst.Length ::
              dst[a] == if segment <= a < segment + Count(b) * ds then BoxByte(m, ds, pix, b, a - segment) else old(dst[a])
  {
    forall a | segment <= a < segment + Count(b) * ds { dst[a] := BoxByte(m, ds, pix, b, a - segment); }
  }

  // ----- segments -----

  /** Flat positions q0, q0+1, ... are the pixels of the box in transfer order. */
  ghost predicate SegmentIs(p: Pad, m: Dims, q0: nat, b: Box)
    requires ValidDims(p, m) && Stride(p, m) > 0 && b.r0 > 0 && b.r1 > 0
  {
    q0 + Count(b) <= FlatSize(p, m) && forall i {:trigger PixelAt(p, m, q0 + i)} {:trigger PixelOf(b, i)} | 0 <= i < Count(b) :: PixelAt(p, m, q0 + i) == PixelOf(b, i)
  }

  function RowBox(p: Pad, m: Dims, k: nat, j: nat): Box { Box(m.iDat, j, k, p.w, 1, 1) }

  function SliceBox(p: Pad, m: Dims, k: nat): Box { Box(0, m.jDat, k, m.iLim, p.h, 1) }

  function DepthBox(p: Pad, m: Dims): Box { Box(0, 0, m.kDat, m.iLim, m.jLim, p.d) }

  lemma RowBoxPixel(p: Pad, m: Dims, k: nat, j: nat, i: nat)
    requires i < p.w
    ensures PixelOf(RowBox(p, m, k, j), i) == Pixel(m.iDat + i, j, k)
  {
    DivOf(0, p.w, i);
  }

  lemma RowIsSegment(p: Pad, m: Dims, k: nat, j: nat)
    requires ValidDims(p, m) && Stride(p, m) > 0 && k < m.kDat && j < m.jDat
    ensures BoxOk(m, RowBox(p, m, k, j)) && SegmentIs(p, m, RowStart(p, m, k, j), RowBox(p, m, k, j))
    ensures Count(RowBox(p, m, k, j)) == p.w
  {
    var b := RowBox(p, m, k, j);
    var q0 := RowStart(p, m, k, j);
    RowSegment(p, m, k, j, p.w - 1);
    forall i | 0 <= i < Count(b) ensures PixelAt(p, m, q0 + i) == PixelOf(b, i) {
      RowSegment(p, m, k, j, i);
      RowBoxPixel(p, m, k, j, i);
    }
  }

  lemma SliceIsSegment(p: Pad, m: Dims, k: nat)
    requires ValidDims(p, m) && Stride(p, m) > 0 && k < m.kDat && m.jLim > 1
    ensures BoxOk(m, SliceBox(p, m, k)) && SegmentIs(p, m, SliceStart(p, m, k), SliceBox(p, m, k))
    ensures Count(SliceBox(p, m, k)) == p.h * m.iLim
  {
    var b := SliceBox(p, m, k);
    assert Count(b) == p.h * m.iLim;
    SliceFits(p, m, k);
    hide SliceStart, Stride, PixelAt, FlatSize, Count;
    forall i | 0 <= i < Count(b) ensures PixelAt(p, m, SliceStart(p, m, k) + i) == PixelOf(b, i) {
      SliceSegment(p, m, k, i);
    }
  }

  lemma SliceFits(p: Pad, m: Dims, k: nat)
    requires ValidDims(p, m) && Stride(p, m) > 0 && k < m.kDat && m.jLim > 1
    ensures SliceStart(p, m, k) + p.h * m.iLim <= FlatSize(p, m)
  {
    MulMono(1, p.h, m.iLim);
    hide SliceStart, Stride, PixelAt;
    SliceSegment(p, m, k, p.h * m.iLim - 1);
  }

  lemma DepthIsSegment(p: Pad, m: Dims)
    requires ValidDims(p, m) && Stride(p, m) > 0 && m.kLim > 1
    ensures BoxOk(m, DepthBox(p, m)) && SegmentIs(p, m, DepthStart(p, m), DepthBox(p, m))
    ensures DepthStart(p, m) + Count(DepthBox(p, m)) == FlatSize(p, m)
  {
    var b := DepthBox(p, m);
    Starts(p, m, 0, 0);
    forall i | 0 <= i < Count(b) ensures PixelAt(p, m, DepthStart(p, m) + i) == PixelOf(b, i) {
      DepthSegment(p, m, i);
    }
  }

  lemma SegmentByte(p: Pad, m: Dims, ds: nat, pix: array3<seq<byte>>, b: Box, q0: nat, n: nat)
    requires ValidDims(p, m) && Stride(p, m) > 0 && ImageOk(m, ds, pix) && BoxOk(m, b) && SegmentIs(p, m, q0, b)
    requires n < Count(b) * ds
    ensures q0 * ds + n < FlatSize(p, m) * ds
    ensures FlatByte(p, m, ds, pix, q0 * ds + n) == BoxByte(m, ds, pix, b, n)
  {
    MulMono(q0 + Count(b), FlatSize(p, m), ds);
    assert (q0 + Count(b)) * ds == q0 * ds + Count(b) * ds;
    QuotShift(q0, n, ds);
    QuotRange(n, ds, Count(b));
    assert PixelAt(p, m, q0 + Quot(n, ds)) == PixelOf(b, Quot(n, ds));
  }

  // ----- the copiers -----

  /** Bytes of a flattened canary. */
  function Span(p: Pad, m: Dims, ds: nat): nat { FlatSize(p, m) * ds }

  ghost predicate OutsideSame(before: seq<byte>, after: seq<byte>, offset: nat, len: nat) {
    |after| == |before| && forall a | 0 <= a < |after| && !(offset <= a < offset + len) :: after[a] == before[a]
  }

  /** The first w canary pixels have been stored from dst[offset] on. */
  ghost predicate Copied(p: Pad, m: Dims, ds: nat, pix: array3<seq<byte>>, dst: array<byte>, offset: nat, w: nat)
    requires ValidDims(p, m) && ImageOk(m, ds, pix)
    reads pix, dst
  {
    && w <= FlatSize(p, m) && offset + Span(p, m, ds) <= dst.Length && w * ds <= Span(p, m, ds)
    && forall a | offset <= a < offset + w * ds :: dst[a] == FlatByte(p, m, ds, pix, a - offset)
  }

  lemma SegmentEnd(p: Pad, m: Dims, ds: nat, b: Box, q0: nat)
    requires ValidDims(p, m) && Stride(p, m) > 0 && BoxOk(m, b) && SegmentIs(p, m, q0, b)
    ensures q0 + Count(b) <= FlatSize(p, m) && (q0 + Count(b)) * ds == q0 * ds + Count(b) * ds <= Span(p, m, ds)
  {
    MulMono(q0 + Count(b), FlatSize(p, m), ds);
  }

  /** Copying the segment at the position reached so far extends the stored part by the segment. */
  method CopySegment(p: Pad, m: Dims, ds: nat, pix: array3<seq<byte>>, b: Box, dst: array<byte>, offset: nat, q0: nat)
    requires ValidDims(p, m) && Stride(p, m) > 0 && ImageOk(m, ds, pix) && BoxOk(m, b) && SegmentIs(p, m, q0, b)
    requires Copied(p, m, ds, pix, dst, offset, q0)
    modifies dst
    ensures Copied(p, m, ds, pix, dst, offset, q0 + Count(b))
    ensures OutsideSame(old(dst[..]), dst[..], offset, Span(p, m, ds))
  {
    hide FlatByte, PixelAt, BoxByte, FlatSize, Stride, SegmentIs, Count;
    SegmentEnd(p, m, ds, b, q0);
    ghost var stored := dst[..];
    ReadBox(m, ds, pix, b, dst, offset + q0 * ds);
    forall a | offset <= a < offset + (q0 + Count(b)) * ds ensures dst[a] == FlatByte(p, m, ds, pix, a - offset) {
      if a < offset + q0 * ds {
        assert dst[a] == stored[a];
      } else {
        SegmentByte(p, m, ds, pix, b, q0, a - (offset + q0 * ds));
      }
    }
  }

  /** Consecutive segments: row after row, then the end of the slice, then the next slice. */
  lemma NextRow(p: Pad, m: Dims, k: nat, j: nat)
    requires ValidDims(p, m) && Stride(p, m) > 0 && k < m.kDat && j < m.jDat
    ensures RowStart(p, m, k, j) + p.w == RowStart(p, m, k, j + 1)
  {
  }

  lemma FirstRow(p: Pad, m: Dims, k: nat)
    requires ValidDims(p, m) && Stride(p, m) > 0 && k < m.kDat
    ensures RowStart(p, m, k, 0) == k * Stride(p, m)
    ensures m.jLim > 1 ==> RowStart(p, m, k, m.jDat) == SliceStart(p, m, k)
    ensures RowStart(p, m, k, m.jDat) + (if m.jLim > 1 then p.h * m.iLim else 0) == (k + 1) * Stride(p, m)
  {
    Starts(p, m, k, 0);
    Starts(p, m, k, m.jDat);
    assert (k + 1) * Stride(p, m) == k * Stride(p, m) + Stride(p, m);
  }

  /** End of a row, if rows have one. */
  method CopyRow(p: Pad, m: Dims, ds: nat, pix: array3<seq<byte>>, dst: array<byte>, offset: nat, k: nat, j: nat)
    requires ValidDims(p, m) && Stride(p, m) > 0 && ImageOk(m, ds, pix) && k < m.kDat && j < m.jDat
    requires Copied(p, m, ds, pix, dst, offset, RowStart(p, m, k, j))
    modifies dst
    ensures Copied(p, m, ds, pix, dst, offset, RowStart(p, m, k, j + 1))
    ensures OutsideSame(old(dst[..]), dst[..], offset, Span(p, m, ds))
  {
    RowIsSegment(p, m, k, j);
    NextRow(p, m, k, j);
    if m.iLim > 1 {
      CopySegment(p, m, ds, pix, RowBox(p, m, k, j), dst, offset, RowStart(p, m, k, j));
    }
  }

  /** The full rows after the data of slice k, if the image has rows. */
  method CopySlice(p: Pad, m: Dims, ds: nat, pix: array3<seq<byte>>, dst: array<byte>, offset: nat, k: nat)
    requires ValidDims(p, m) && Stride(p, m) > 0 && ImageOk(m, ds, pix) && k < m.kDat
    requires Copied(p, m, ds, pix, dst, offset, RowStart(p, m, k, m.jDat))
    modifies dst
    ensures Copied(p, m, ds, pix, dst, offset, (k + 1) * Stride(p, m))
    ensures OutsideSame(old(dst[..]), dst[..], offset, Span(p, m, ds))
  {
    FirstRow(p, m, k);
    if m.jLim > 1 {
      SliceIsSegment(p, m, k);
      CopySegment(p, m, ds, pix, SliceBox(p, m, k), dst, offset, SliceStart(p, m, k));
    }
  }

  /** The slices after the data, if the image has slices. */
  method CopyDepth(p: Pad, m: Dims, ds: nat, pix: array3<seq<byte>>, dst: array<byte>, offset: nat)
    requires ValidDims(p, m) && Stride(p, m) > 0 && ImageOk(m, ds, pix)
    requires Copied(p, m, ds, pix, dst, offset, m.kDat * Stride(p, m))
    modifies dst
    ensures Copied(p, m, ds, pix, dst, offset, FlatSize(p, m))
    ensures OutsideSame(old(dst[..]), dst[..], offset, Span(p, m, ds))
  {
    if m.kLim > 1 {
      DepthIsSegment(p, m);
      Starts(p, m, 0, 0);
      CopySegment(p, m, ds, pix, DepthBox(p, m), dst, offset, DepthStart(p, m));
    }
  }

  /** Number of transfers copy_image_canaries waits for, and the slot of transfer j of slice k. */
  function NumEvents(m: Dims): nat {
    if m.kLim > 1 then m.kDat * m.jDat + m.kDat + 1
    else if m.jLim > 1 then m.kDat * m.jDat + m.kDat
    else m.kDat * m.jDat
  }

  function EventSlot(m: Dims, k: nat, j: nat): nat { k * (m.jDat + 1) + j }

  ghost predicate Signalled(events: array<bool>, n: nat)
    reads events
  {
    n <= events.Length && forall e | 0 <= e < n :: events[e]
  }

  lemma SlotsFit(p: Pad, m: Dims, k: nat)
    requires ValidDims(p, m) && k < m.kDat
    ensures EventSlot(m, k, m.jDat) <= NumEvents(m) && (m.jLim > 1 ==> EventSlot(m, k + 1, 0) <= NumEvents(m))
    ensures m.jLim > 1 ==> EventSlot(m, k, m.jDat) + 1 == EventSlot(m, k + 1, 0)
    ensures EventSlot(m, m.kDat, 0) + (if m.kLim > 1 then 1 else 0) == NumEvents(m) + (if m.jLim > 1 then 0 else 1)
  {
    NextBlock(k, m.kDat, m.jDat + 1);
    Add(m.kDat, m.jDat, 1);
    assert (k + 1) * (m.jDat + 1) == k * (m.jDat + 1) + (m.jDat + 1);
  }

  lemma NextSlot(m: Dims, k: nat, j: nat)
    ensures EventSlot(m, k, j) + 1 == EventSlot(m, k, j + 1)
    ensures EventSlot(m, k, m.jDat) + 1 == EventSlot(m, k + 1, 0)
  {
    assert (k + 1) * (m.jDat + 1) == k * (m.jDat + 1) + (m.jDat + 1);
  }

  lemma SlotInRange(m: Dims, k: nat, j: nat, n: nat)
    requires EventSlot(m, k, m.jDat) <= n && j < m.jDat
    ensures EventSlot(m, k, j) < n
  {
  }

  method Signal(events: array<bool>, slot: nat)
    requires slot < events.Length && Signalled(events, slot)
    modifies events
    ensures Signalled(events, slot + 1)
  {
    events[slot] := true;
  }

  /** The rows of one slice, signalling one event per transfer. */
  method CopyImageRows(p: Pad, m: Dims, ds: nat, pix: array3<seq<byte>>, dst: array<byte>, offset: nat, k: nat,
      events: array<bool>)
    requires events as object != dst && events as object != pix
    requires ValidDims(p, m) && Stride(p, m) > 0 && ImageOk(m, ds, pix) && k < m.kDat
    requires EventSlot(m, k, m.jDat) <= events.Length
    requires Copied(p, m, ds, pix, dst, offset, RowStart(p, m, k, 0)) && Signalled(events, EventSlot(m, k, 0))
    modifies dst, events
    ensures Copied(p, m, ds, pix, dst, offset, RowStart(p, m, k, m.jDat)) && Signalled(events, EventSlot(m, k, m.jDat))
    ensures OutsideSame(old(dst[..]), dst[..], offset, Span(p, m, ds))
  {
    hide Copied, RowStart, Stride, EventSlot, FlatSize, Span;
    var j := 0;
    while j < m.jDat
      invariant 0 <= j <= m.jDat
      invariant Copied(p, m, ds, pix, dst, offset, RowStart(p, m, k, j)) && Signalled(events, EventSlot(m, k, j))
      invariant OutsideSame(old(dst[..]), dst[..], offset, Span(p, m, ds))
    {
      CopyRow(p, m, ds, pix, dst, offset, k, j);
      SlotInRange(m, k, j, events.Length);
      Signal(events, EventSlot(m, k, j));
      NextSlot(m, k, j);
      j := j + 1;
    }
  }

  /** One slice of user data: its row ends, then its full rows. */
  method CopyImageSlice(p: Pad, m: Dims, ds: nat, pix: array3<seq<byte>>, dst: array<byte>, offset: nat, k: nat,
      events: array<bool>)
    requires events as object != dst && events as object != pix
    requires ValidDims(p, m) && Stride(p, m) > 0 && ImageOk(m, ds, pix) && k < m.kDat && events.Length == NumEvents(m)
    requires Copied(p, m, ds, pix, dst, offset, k * Stride(p, m)) && Signalled(events, EventSlot(m, k, 0))
    modifies dst, events
    ensures Copied(p, m, ds, pix, dst, offset, (k + 1) * Stride(p, m))
    ensures Signalled(events, if m.jLim > 1 then EventSlot(m, k + 1, 0) else EventSlot(m, k, m.jDat))
    ensures OutsideSame(old(dst[..]), dst[..], offset, Span(p, m, ds))
  {
    FirstRow(p, m, k);
    SlotsFit(p, m, k);
    NextSlot(m, k, 0);
    hide Copied, RowStart, Stride, EventSlot, FlatSize, Span;
    CopyImageRows(p, m, ds, pix, dst, offset, k, events);
    CopySlice(p, m, ds, pix, dst, offset, k);
    if m.jLim > 1 { Signal(events, EventSlot(m, k, m.jDat)); }
  }

  /** copy_image_canaries: the whole canary of an image, flattened into dst from offset on; every
      event slot is used, every byte outside the canary's part of dst is left alone. */
  method CopyImageCanaries(p: Pad, m: Dims, ds: nat, pix: array3<seq<byte>>, dst: array<byte>, offset: nat)
    returns (events: array<bool>)
    requires ValidDims(p, m) && ImageOk(m, ds, pix) && offset + Span(p, m, ds) <= dst.Length
    modifies dst
    ensures Copied(p, m, ds, pix, dst, offset, FlatSize(p, m))
    ensures OutsideSame(old(dst[..]), dst[..], offset, Span(p, m, ds))
    ensures fresh(events) && events.Length == NumEvents(m) && Signalled(events, NumEvents(m))
  {
    StridePositive(p, m);
    events := new bool[NumEvents(m)](_ => false);
    var k := 0;
    while k < m.kDat
      invariant 0 <= k <= m.kDat
      invariant Copied(p, m, ds, pix, dst, offset, k * Stride(p, m))
      invariant Signalled(events, if m.jLim > 1 || k == 0 then EventSlot(m, k, 0) else NumEvents(m))
      invariant OutsideSame(old(dst[..]), dst[..], offset, Span(p, m, ds))
    {
      SlotsFit(p, m, k);
      CopyImageSlice(p, m, ds, pix, dst, offset, k, events);
      k := k + 1;
    }
    SlotsFit(p, m, 0);
    CopyDepth(p, m, ds, pix, dst, offset);
    if m.kLim > 1 { Signal(events, EventSlot(m, m.kDat, 0)); }
  }

  /** number_of_image_reads: the host reader completes one event per step, used or not. */
  function NumberOfImageReads(m: Dims): nat { m.kDat * m.jDat + m.kDat + 1 }

  method ReadImageSlice(p: Pad, m: Dims, ds: nat, pix: array3<seq<byte>>, canary: array<byte>, k: nat, events: nat)
    returns (events': nat)
    requires ValidDims(p, m) && Stride(p, m) > 0 && ImageOk(m, ds, pix) && k < m.kDat && events == EventSlot(m, k, 0)
    requires Copied(p, m, ds, pix, canary, 0, k * Stride(p, m))
    modifies canary
    ensures Copied(p, m, ds, pix, canary, 0, (k + 1) * Stride(p, m)) && events' == EventSlot(m, k + 1, 0)
  {
    FirstRow(p, m, k);
    hide Copied, RowStart, Stride, EventSlot, FlatSize, Span;
    events' := events;
    var j := 0;
    while j < m.jDat
      invariant 0 <= j <= m.jDat
      invariant Copied(p, m, ds, pix, canary, 0, RowStart(p, m, k, j)) && events' == EventSlot(m, k, j)
    {
      CopyRow(p, m, ds, pix, canary, 0, k, j);
      NextSlot(m, k, j);
      events' := events' + 1;
      j := j + 1;
    }
    CopySlice(p, m, ds, pix, canary, 0, k);
    NextSlot(m, k, 0);
    events' := events' + 1;
  }

  /** read_image_canaries: the same array, in freshly allocated host memory. */
  method ReadImageCanaries(p: Pad, m: Dims, ds: nat, pix: array3<seq<byte>>) returns (canary: array<byte>, events: nat)
    requires ValidDims(p, m) && ImageOk(m, ds, pix)
    ensures fresh(canary) && canary.Length == Span(p, m, ds) && events == NumberOfImageReads(m)
    ensures Copied(p, m, ds, pix, canary, 0, FlatSize(p, m))
  {
    StridePositive(p, m);
    canary := new byte[Span(p, m, ds)];
    events := 0;
    for k := 0 to m.kDat
      invariant Copied(p, m, ds, pix, canary, 0, k * Stride(p, m)) && events == EventSlot(m, k, 0)
    {
      events := ReadImageSlice(p, m, ds, pix, canary, k, events);
    }
    CopyDepth(p, m, ds, pix, canary, 0);
    events := events + 1;
    Add(m.kDat, m.jDat, 1);
  }
}
