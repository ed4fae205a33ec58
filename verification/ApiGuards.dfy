/** The checks in front of API reads and writes: linear, rectangular and image. Sizes are 64-bit and
    wrap around. */
module ApiGuards {
  import opened Arithmetic
  import opened ImageGeometry

  const TWO64: nat := 0x1_0000_0000_0000_0000

  const TWO32: nat := 0x1_0000_0000

  type u64 = x: int | 0 <= x < TWO64

  function AddU(a: u64, b: u64): u64 { (a + b) % TWO64 }

  function SubU(a: u64, b: u64): u64 { (a - b) % TWO64 }

  function MulU(a: u64, b: u64): u64 { (a * b) % TWO64 }

  // ----- linear -----

  /** bytes: how many past the end, as printed. */
  datatype Verdict = Pass | Overflow(bytes: nat)

  /** The first byte of a transfer from offset on that is past the end. */
  function PastEnd(offset: u64, limit: u64): u64 { if offset > limit then offset - limit else 0 }

  /** apiOverflowError: an unsigned number and one more. */
  function Printed(badByte: u64): nat { (badByte % TWO32 + 1) % TWO32 }

  /** apiBufferOverflowCheck. */
  function LinearGuard(dataSize: u64, offset: u64, size: u64): Verdict {
    if AddU(offset, size) > dataSize then Overflow(Printed(PastEnd(offset, dataSize))) else Pass
  }

  /** Exactly the transfers that leave the buffer are flagged, unless offset + size wraps; a wrapped
      transfer slips through only if it wraps back into the buffer. */
  lemma LinearGuardExact(dataSize: u64, offset: u64, size: u64)
    ensures offset + size < TWO64 ==> (LinearGuard(dataSize, offset, size).Overflow? <==> offset + size > dataSize)
    ensures offset + size >= TWO64 ==>
              (LinearGuard(dataSize, offset, size).Pass? <==> offset + size - TWO64 <= dataSize)
  {
  }

  /** The bytes a transfer touches past the end. */
  predicate TouchedPast(dataSize: u64, offset: u64, size: u64, a: nat) { offset <= a < offset + size && a >= dataSize }

  /** The number printed for a flagged transfer stands for the first byte past the end that it touches if
      and only if that byte is less than 2^32 - 1 bytes past the end. */
  lemma LinearGuardReports(dataSize: u64, offset: u64, size: u64) returns (first: nat)
    requires LinearGuard(dataSize, offset, size).Overflow? && 0 < size && offset + size < TWO64
    ensures TouchedPast(dataSize, offset, size, first)
      && forall a: nat | TouchedPast(dataSize, offset, size, a) :: first <= a
    ensures dataSize - 1 + LinearGuard(dataSize, offset, size).bytes == first <==> first - dataSize < TWO32 - 1
  {
    first := dataSize + PastEnd(offset, dataSize);
    PrintedIs(PastEnd(offset, dataSize));
  }

  lemma PrintedIs(badByte: u64)
    ensures Printed(badByte) == badByte + 1 <==> badByte < TWO32 - 1
  {
    if badByte < TWO32 { assert badByte % TWO32 == badByte; }
  }

  /** A one-byte transfer at the last 64-bit offset is let through, however small the buffer. */
  lemma WrappedTransferSlips(dataSize: u64)
    ensures LinearGuard(dataSize, TWO64 - 1, 1) == Pass
  {
    assert AddU(TWO64 - 1, 1) == 0;
  }

  // ----- rectangles -----

  /** A rectangle in a linear buffer: origin, region, and pitches where 0 means tight. */
  datatype Rect = Rect(o0: u64, o1: u64, o2: u64, r0: u64, r1: u64, r2: u64, rowPitch: u64, slicePitch: u64)

  /** apiBufferRectOverflowCheck. */
  function RectGuard(size: u64, t: Rect): Verdict {
    var row := if t.rowPitch == 0 then t.r0 else t.rowPitch;
    var slice := if t.slicePitch == 0 then MulU(row, t.r1) else t.slicePitch;
    var bOff := AddU(AddU(t.o0, MulU(t.o1, row)), MulU(t.o2, slice));
    var bEnd := AddU(MulU(MulU(t.r0, t.r1), t.r2), bOff);
    if bEnd > size then Overflow(Printed(PastEnd(bOff, size))) else Pass
  }

  function Row(t: Rect): nat { if t.rowPitch == 0 then t.r0 else t.rowPitch }

  function Slice(t: Rect): nat { if t.slicePitch == 0 then Row(t) * t.r1 else t.slicePitch }

  function Offset(t: Rect): nat { t.o0 + t.o1 * Row(t) + t.o2 * Slice(t) }

  /** One past the last byte of the rectangle (section 5.2.2 of the OpenCL 1.2 specification). */
  function TrueEnd(t: Rect): int {
    Offset(t) + (t.r2 - 1) * Slice(t) + (t.r1 - 1) * Row(t) + t.r0
  }

  /** A region the API accepts: no empty side, and pitches that hold a row and a slice. */
  ghost predicate RectOk(t: Rect) {
    && t.r0 > 0 && t.r1 > 0 && t.r2 > 0
    && (t.rowPitch == 0 || t.rowPitch >= t.r0)
    && (t.slicePitch == 0 || t.slicePitch >= t.r1 * Row(t))
  }

  /** The bytes the guard overlooks: padding between rows and between slices. */
  function Slack(t: Rect): int { (t.r2 - 1) * (Slice(t) - t.r0 * t.r1) + (t.r1 - 1) * (Row(t) - t.r0) }

  lemma SlackIs(r0: int, r1: int, r2: int, row: int, slice: int)
    ensures (r2 - 1) * slice + (r1 - 1) * row + r0 == r0 * r1 * r2 + ((r2 - 1) * (slice - r0 * r1) + (r1 - 1) * (row - r0))
  {
    assert (r2 - 1) * (slice - r0 * r1) == (r2 - 1) * slice - (r2 - 1) * (r0 * r1);
    assert (r2 - 1) * (r0 * r1) == r0 * r1 * r2 - r0 * r1;
    assert (r1 - 1) * (row - r0) == (r1 - 1) * row - (r1 - 1) * r0;
    assert (r1 - 1) * r0 == r0 * r1 - r0;
  }

  lemma NonNegative(a: int, b: int)
    requires a >= 0 && b >= 0
    ensures a * b >= 0
  {
  }

  lemma SlackSides(t: Rect)
    requires RectOk(t)
    ensures Row(t) >= t.r0 && Slice(t) >= t.r0 * t.r1
    ensures (t.r2 - 1) * (Slice(t) - t.r0 * t.r1) >= 0 && (t.r1 - 1) * (Row(t) - t.r0) >= 0
  {
    MulMono(t.r0, Row(t), t.r1);
    NonNegative(t.r2 - 1, Slice(t) - t.r0 * t.r1);
    NonNegative(t.r1 - 1, Row(t) - t.r0);
  }

  lemma TrueEndIs(t: Rect)
    requires RectOk(t)
    ensures TrueEnd(t) == Offset(t) + t.r0 * t.r1 * t.r2 + Slack(t) && Slack(t) >= 0
  {
    SlackIs(t.r0, t.r1, t.r2, Row(t), Slice(t));
    SlackSides(t);
  }

  /** If the rectangle ends below 2^64, so do the sums the guard needs. */
  lemma NothingWraps(t: Rect)
    requires RectOk(t) && TrueEnd(t) < TWO64
    ensures 0 <= t.o1 * Row(t) && 0 <= t.o2 * Slice(t) && 0 <= t.r0 * t.r1 <= t.r0 * t.r1 * t.r2
    ensures t.o0 + t.o1 * Row(t) + t.o2 * Slice(t) + t.r0 * t.r1 * t.r2 < TWO64
  {
    TrueEndIs(t);
    NonNegative(t.o1, Row(t));
    NonNegative(t.o2, Slice(t));
    NonNegative(t.r0, t.r1);
    MulMono(1, t.r2, t.r0 * t.r1);
    assert t.r2 * (t.r0 * t.r1) == t.r0 * t.r1 * t.r2;
  }

  lemma SmallMod(x: int)
    requires 0 <= x < TWO64
    ensures x % TWO64 == x
  {
  }

  /** A slice can only be too large for 64 bits if the rectangle has none to skip. */
  lemma LargeSlice(t: Rect)
    requires RectOk(t) && TrueEnd(t) < TWO64 && Row(t) * t.r1 >= TWO64
    ensures t.o2 == 0 && t.slicePitch == 0
  {
    NothingWraps(t);
    if t.o2 > 0 { MulMono(1, t.o2, Slice(t)); }
  }

  /** What the guard multiplies the third origin with does not matter then. */
  lemma SliceOffset(t: Rect)
    requires RectOk(t) && TrueEnd(t) < TWO64
    ensures MulU(t.o2, GuardSlice(t)) == t.o2 * Slice(t)
  {
    NothingWraps(t);
    if Row(t) * t.r1 < TWO64 { SliceNoWrap(t); MulExact(t.o2, Slice(t)); } else { LargeSlice(t); MulExact(0, GuardSlice(t)); }
  }

  function GuardSlice(t: Rect): u64 {
    if t.slicePitch == 0 then MulU(if t.rowPitch == 0 then t.r0 else t.rowPitch, t.r1) else t.slicePitch
  }

  lemma GuardSum(o0: nat, x: nat, y: nat, v: nat)
    requires o0 + x + y + v < TWO64
    ensures AddU(v, AddU(AddU(o0, x), y)) == o0 + x + y + v
  {
    AddExact(o0, x);
    AddExact(o0 + x, y);
    AddExact(v, o0 + x + y);
  }

  lemma GuardVolume(t: Rect)
    requires RectOk(t) && TrueEnd(t) < TWO64
    ensures 0 <= t.r0 * t.r1 * t.r2 < TWO64 && MulU(MulU(t.r0, t.r1), t.r2) == t.r0 * t.r1 * t.r2
  {
    NothingWraps(t);
    MulExact(t.r0, t.r1);
    MulExact(t.r0 * t.r1, t.r2);
  }

  lemma RowOffset(t: Rect)
    requires RectOk(t) && TrueEnd(t) < TWO64
    ensures Row(t) < TWO64 && MulU(t.o1, Row(t)) == t.o1 * Row(t)
  {
    NothingWraps(t);
    MulExact(t.o1, Row(t));
  }

  /** Below 2^64 the guard compares Offset plus the region's volume with the size. */
  lemma GuardValue(size: u64, t: Rect)
    requires RectOk(t) && TrueEnd(t) < TWO64
    ensures RectGuard(size, t).Overflow? <==> Offset(t) + t.r0 * t.r1 * t.r2 > size
  {
    hide RectOk, TrueEnd, MulU, AddU, Slice, Row, RectGuard, GuardSlice;
    NothingWraps(t);
    RowOffset(t);
    SliceOffset(t);
    GuardVolume(t);
    GuardUnfolds(size, t);
    GuardSum(t.o0, t.o1 * Row(t), t.o2 * Slice(t), t.r0 * t.r1 * t.r2);
  }

  lemma MulExact(x: nat, y: nat)
    requires x < TWO64 && y < TWO64 && 0 <= x * y < TWO64
    ensures MulU(x, y) == x * y
  {
    SmallMod(x * y);
  }

  lemma AddExact(x: nat, y: nat)
    requires x + y < TWO64
    ensures AddU(x, y) == x + y
  {
    SmallMod(x + y);
  }

  lemma SliceNoWrap(t: Rect)
    requires RectOk(t) && Row(t) * t.r1 < TWO64
    ensures Slice(t) < TWO64 && GuardSlice(t) == Slice(t)
  {
    if t.slicePitch == 0 { MulExact(Row(t), t.r1); }
  }

  lemma GuardUnfolds(size: u64, t: Rect)
    ensures Row(t) < TWO64
    ensures RectGuard(size, t).Overflow?
       <==> AddU(MulU(MulU(t.r0, t.r1), t.r2), AddU(AddU(t.o0, MulU(t.o1, Row(t))), MulU(t.o2, GuardSlice(t)))) > size
  {
    hide MulU, AddU;
  }

  /** Where the guard takes the rectangle to start. */
  function GuardOffset(t: Rect): u64
  {
    var row := if t.rowPitch == 0 then t.r0 else t.rowPitch;
    AddU(AddU(t.o0, MulU(t.o1, row)), MulU(t.o2, GuardSlice(t)))
  }

  lemma OffsetUnfolds(size: u64, t: Rect)
    ensures RectGuard(size, t).Overflow? ==> RectGuard(size, t).bytes == Printed(PastEnd(GuardOffset(t), size))
    ensures Row(t) < TWO64 && GuardOffset(t) == AddU(AddU(t.o0, MulU(t.o1, Row(t))), MulU(t.o2, GuardSlice(t)))
  {
    hide MulU, AddU, Printed, PastEnd;
  }

  /** The number printed for a flagged rectangle that ends below 2^64 stands for its first byte, or the
      first byte past the end if it starts before that, under the same condition as for a transfer. */
  lemma RectGuardReports(size: u64, t: Rect) returns (first: nat)
    requires RectOk(t) && TrueEnd(t) < TWO64 && RectGuard(size, t).Overflow?
    ensures first >= Offset(t) && first >= size && (first == Offset(t) || first == size) && first < TrueEnd(t)
    ensures size - 1 + RectGuard(size, t).bytes == first <==> first - size < TWO32 - 1
  {
    hide *;
    GuardOffsetIs(t);
    OffsetUnfolds(size, t);
    EndsPast(size, t);
    first := FirstPast(Offset(t), size);
    PrintedIs(PastEnd(Offset(t), size));
  }

  lemma FirstPast(offset: u64, size: u64) returns (first: nat)
    ensures first == size + PastEnd(offset, size) && first >= offset && (first == offset || first == size)
  {
    first := size + PastEnd(offset, size);
  }

  lemma GuardOffsetIs(t: Rect)
    requires RectOk(t) && TrueEnd(t) < TWO64
    ensures 0 <= Offset(t) < TWO64 && GuardOffset(t) == Offset(t)
  {
    hide RectOk, TrueEnd, MulU, AddU, Slice, Row, RectGuard, GuardSlice, Offset;
    NothingWraps(t);
    RowOffset(t);
    SliceOffset(t);
    OffsetUnfolds(0, t);
    OffsetIs(t);
    AddExact(t.o0, t.o1 * Row(t));
    AddExact(t.o0 + t.o1 * Row(t), t.o2 * Slice(t));
    VolumePositive(t);
  }

  lemma EndsPast(size: u64, t: Rect)
    requires RectOk(t) && TrueEnd(t) < TWO64 && RectGuard(size, t).Overflow?
    ensures size < TrueEnd(t) && Offset(t) < TrueEnd(t)
  {
    hide RectOk, TrueEnd, RectGuard, Offset, Slack;
    GuardValue(size, t);
    TrueEndIs(t);
    VolumePositive(t);
  }

  lemma VolumePositive(t: Rect)
    requires RectOk(t)
    ensures t.r0 * t.r1 * t.r2 > 0
  {
    PositiveProduct(t.r0, t.r1);
    PositiveProduct(t.r0 * t.r1, t.r2);
  }

  lemma OffsetIs(t: Rect)
    ensures Offset(t) == t.o0 + t.o1 * Row(t) + t.o2 * Slice(t)
  {
  }

  /** An in-bounds rectangle is never rejected. */
  lemma RectGuardAdmitsInBounds(size: u64, t: Rect)
    requires RectOk(t) && TrueEnd(t) <= size
    ensures !RectGuard(size, t).Overflow?
  {
    GuardValue(size, t);
    TrueEndIs(t);
  }

  /** No padding between the rows or slices the rectangle has. */
  predicate Tight(t: Rect) {
    (t.r1 == 1 || Row(t) == t.r0) && (t.r2 == 1 || Slice(t) == t.r0 * t.r1)
  }

  lemma PositiveProduct(a: int, b: int)
    requires a >= 0 && b >= 0
    ensures a * b == 0 <==> a == 0 || b == 0
  {
    if a > 0 && b > 0 { assert a * b >= b by { MulMono(1, a, b); } }
  }

  lemma TightIffNoSlack(t: Rect)
    requires RectOk(t)
    ensures Tight(t) <==> Slack(t) == 0
  {
    SlackSides(t);
    PositiveProduct(t.r2 - 1, Slice(t) - t.r0 * t.r1);
    PositiveProduct(t.r1 - 1, Row(t) - t.r0);
  }

  /** The guard agrees with the specification for every buffer size exactly when the pitches are
      tight and the rectangle ends below 2^64: with padding, one ending in the last bytes is let
      through, and so is, by some buffer, one whose end wraps. */
  lemma RectGuardExact(t: Rect)
    requires RectOk(t)
    ensures (forall size: u64 :: RectGuard(size, t).Overflow? <==> TrueEnd(t) > size) <==> Tight(t) && TrueEnd(t) < TWO64
  {
    TightIffNoSlack(t);
    TrueEndIs(t);
    if TrueEnd(t) >= TWO64 { GuardUnfolds(TWO64 - 1, t); }
    hide RectGuard, Slack, Tight, TrueEnd, Offset;
    if TrueEnd(t) >= TWO64 {
      assert !RectGuard(TWO64 - 1, t).Overflow? && TrueEnd(t) > TWO64 - 1;
    } else if Tight(t) {
      forall size: u64 ensures RectGuard(size, t).Overflow? <==> TrueEnd(t) > size {
        GuardValue(size, t);
      }
    } else {
      var size := LastByte(t);
      GuardValue(size, t);
      assert !RectGuard(size, t).Overflow? && TrueEnd(t) > size;
    }
  }

  /** A tight one-row rectangle at the last 64-bit offset passes for a five-byte buffer. */
  lemma WrappedRectSlips()
    ensures var t := Rect(TWO64 - 1, 0, 0, 2, 1, 1, 0, 0); RectOk(t) && Tight(t) && !RectGuard(5, t).Overflow? && TrueEnd(t) > 5
  {
    var t := Rect(TWO64 - 1, 0, 0, 2, 1, 1, 0, 0);
    assert MulU(2, 1) == 2 && MulU(0, 2) == 0 && AddU(TWO64 - 1, 0) == TWO64 - 1 && AddU(2, TWO64 - 1) == 1;
    assert TrueEnd(t) == TWO64 + 1;
  }

  /** Two one-byte rows ten bytes apart end at byte 11, and a five-byte buffer lets them through. */
  lemma PaddedRectSlips()
    ensures var t := Rect(0, 0, 0, 1, 2, 1, 10, 0); RectOk(t) && !RectGuard(5, t).Overflow? && TrueEnd(t) == 11
  {
    var t := Rect(0, 0, 0, 1, 2, 1, 10, 0);
    hide RectGuard;
    assert TrueEnd(t) == 11;
    GuardValue(5, t);
  }

  lemma LastByte(t: Rect) returns (size: u64)
    requires RectOk(t) && TrueEnd(t) < TWO64
    ensures size == TrueEnd(t) - 1
  {
    NothingWraps(t);
    TrueEndIs(t);
    PositiveProduct(t.r0, t.r1);
    size := TrueEnd(t) - 1;
  }

  // ----- images -----

  datatype ImageVerdict = Inside | Outside(at: Location)

  /** origin and region of an image transfer. */
  datatype ImageBox = ImageBox(o0: u64, o1: u64, o2: u64, r0: u64, r1: u64, r2: u64)

  /** The conversion to int of what apiImageOverflowError is passed. */
  function AsInt(v: u64): (x: int)
    ensures x == v <==> v < TWO32 / 2
  {
    if v % TWO32 < TWO32 / 2 then v % TWO32 else v % TWO32 - TWO32
  }

  /** apiImageOverflowCheck on a description as stored; pad is 0 for an image without canary or for
      the detector's own transfers. */
  function ImageGuard(d: Desc, pad: Pad, b: ImageBox): ImageVerdict
    requires d.width < TWO64 && JLim(d) < TWO64 && KLim(d) < TWO64 && pad.w < TWO64 && pad.h < TWO64 && pad.d < TWO64
  {
    var dl, hl, wl := SubU(KLim(d), pad.d), SubU(JLim(d), pad.h), SubU(d.width, pad.w);
    if AddU(b.o2, b.r2) > dl then Outside(Location(-1, -1, AsInt(PastEnd(b.o2, dl))))
    else if AddU(b.o1, b.r1) > hl then Outside(Location(-1, AsInt(PastEnd(b.o1, hl)), AsInt(b.o2)))
    else if AddU(b.o0, b.r0) > wl then Outside(Location(AsInt(PastEnd(b.o0, wl)), AsInt(b.o1), AsInt(b.o2)))
    else Inside
  }

  ghost predicate Sized(p: Pad, d: Desc) {
    UserDesc(d) && p.w > 0 && p.h > 1 && p.d > 1 && p.w < TWO64 && p.h < TWO64 && p.d < TWO64
    && Expand(p, d).width < TWO64 && JLim(Expand(p, d)) < TWO64 && KLim(Expand(p, d)) < TWO64
  }

  lemma ExpandedLimit(limit: nat, pad: nat, sum: int)
    requires limit + pad < TWO64 && 0 <= sum < TWO64 && pad > 0
    ensures (sum % TWO64 > (limit + pad - pad) % TWO64) <==> sum > limit
  {
    SmallMod(sum);
    SmallMod(limit);
  }

  /** Where a transfer of 64-bit origin and region ends, as the guard adds it up. */
  function WrappedEnd(o: u64, r: u64): nat { if o + r < TWO64 then o + r else o + r - TWO64 }

  lemma WrappedEndIs(o: u64, r: u64)
    ensures AddU(o, r) == WrappedEnd(o, r)
  {
  }

  /** Whether one dimension is flagged: against the user's limit where the dimension was expanded; in
      the others limit - pad wraps to 2^64 + 1 - pad. */
  predicate Flags(limit: nat, pad: nat, expanded: bool, o: u64, r: u64) {
    WrappedEnd(o, r) > if expanded then limit else TWO64 + 1 - pad
  }

  lemma DimensionFlagged(limit: nat, pad: nat, expanded: bool, o: u64, r: u64)
    requires (expanded && limit + pad < TWO64) || (!expanded && limit == 1 && 1 < pad < TWO64)
    ensures AddU(o, r) > SubU(if expanded then limit + pad else limit, pad) <==> Flags(limit, pad, expanded, o, r)
  {
    WrappedEndIs(o, r);
    if expanded { SmallMod(limit); } else { assert (1 - pad) % TWO64 == TWO64 + 1 - pad; }
  }

  /** The guard's answer for every 64-bit box. */
  lemma ImageGuardExact(p: Pad, d: Desc, b: ImageBox)
    requires Sized(p, d)
    ensures ImageGuard(Expand(p, d), p, b).Outside?
       <==> || Flags(d.width, p.w, true, b.o0, b.r0)
            || Flags(JLim(d), p.h, HasRows(d.kind), b.o1, b.r1)
            || Flags(KLim(d), p.d, HasSlices(d.kind), b.o2, b.r2)
  {
    ExpandedDims(p, d);
    hide AddU, SubU, Flags;
    DimensionFlagged(d.width, p.w, true, b.o0, b.r0);
    DimensionFlagged(JLim(d), p.h, HasRows(d.kind), b.o1, b.r1);
    DimensionFlagged(KLim(d), p.d, HasSlices(d.kind), b.o2, b.r2);
  }

  /** The box leaves the user's extent in a dimension the image type has. */
  predicate Leaves(d: Desc, b: ImageBox) {
    || b.o0 + b.r0 > d.width
    || (HasRows(d.kind) && b.o1 + b.r1 > JLim(d))
    || (HasSlices(d.kind) && b.o2 + b.r2 > KLim(d))
  }

  /** An end past 2^64 that wraps back inside the limit. */
  predicate Slips(limit: nat, o: u64, r: u64) { TWO64 <= o + r <= TWO64 + limit }

  /** An end, in a dimension without canary, just below 2^64 after wrapping. */
  predicate Alarms(pad: nat, o: u64, r: u64) { WrappedEnd(o, r) > TWO64 + 1 - pad }

  /** No dimension the image type has shows that the box leaves it. */
  predicate AllSlip(d: Desc, b: ImageBox) {
    && (b.o0 + b.r0 <= d.width || Slips(d.width, b.o0, b.r0))
    && (!HasRows(d.kind) || b.o1 + b.r1 <= JLim(d) || Slips(JLim(d), b.o1, b.r1))
    && (!HasSlices(d.kind) || b.o2 + b.r2 <= KLim(d) || Slips(KLim(d), b.o2, b.r2))
  }

  /** A dimension the image type does not have raises an alarm. */
  predicate SomeAlarm(p: Pad, d: Desc, b: ImageBox) {
    (!HasRows(d.kind) && Alarms(p.h, b.o1, b.r1)) || (!HasSlices(d.kind) && Alarms(p.d, b.o2, b.r2))
  }

  /** The guard is right about a box, for every 64-bit box, unless every dimension in which the box
      leaves the user's extent wraps back inside with no alarm elsewhere, or a box inside raises an
      alarm in a dimension the image does not have. */
  lemma ImageGuardRight(p: Pad, d: Desc, b: ImageBox)
    requires Sized(p, d)
    ensures (ImageGuard(Expand(p, d), p, b).Outside? <==> Leaves(d, b))
       <==> if Leaves(d, b) then !AllSlip(d, b) || SomeAlarm(p, d, b) else !SomeAlarm(p, d, b)
  {
    ImageGuardExact(p, d, b);
    hide ImageGuard;
  }

  /** Both ways of being wrong happen: a two-pixel box at the last origin of an eight-pixel row is let
      through, and an empty box far outside a dimension the image does not have is flagged. */
  lemma WrappedBoxSlips()
    ensures var d := Desc(Image1D, 8, 1, 1, 1); var b := ImageBox(TWO64 - 1, 0, 0, 2, 1, 1);
      ImageGuard(Expand(IMAGE_PAD, d), IMAGE_PAD, b) == Inside && Leaves(d, b)
    ensures var d := Desc(Image1D, 8, 1, 1, 1); var b := ImageBox(0, TWO64 - 1, 0, 1, 0, 1);
      ImageGuard(Expand(IMAGE_PAD, d), IMAGE_PAD, b).Outside? && !Leaves(d, b)
  {
    var d := Desc(Image1D, 8, 1, 1, 1);
    ImageGuardExact(IMAGE_PAD, d, ImageBox(TWO64 - 1, 0, 0, 2, 1, 1));
    ImageGuardExact(IMAGE_PAD, d, ImageBox(0, TWO64 - 1, 0, 1, 0, 1));
  }

  /** A box the guard admits and the driver accepts lies inside the user's extent: an API write can
      not touch a canary pixel. */
  lemma AdmittedBoxIsUser(p: Pad, d: Desc, b: ImageBox)
    requires Sized(p, d) && ImageGuard(Expand(p, d), p, b).Inside?
    requires b.o0 + b.r0 <= Expand(p, d).width && b.o1 + b.r1 <= JLim(Expand(p, d)) && b.o2 + b.r2 <= KLim(Expand(p, d))
    ensures b.o0 + b.r0 <= d.width && b.o1 + b.r1 <= JLim(d) && b.o2 + b.r2 <= KLim(d)
  {
    ExpandedLimit(d.width, p.w, b.o0 + b.r0);
    if HasRows(d.kind) { ExpandedLimit(JLim(d), p.h, b.o1 + b.r1); }
    if HasSlices(d.kind) { ExpandedLimit(KLim(d), p.d, b.o2 + b.r2); }
  }

  /** The detector's own transfers are held to the device extent only, in every dimension. */
  lemma OwnTransfersUseDeviceExtent(p: Pad, d: Desc, b: ImageBox)
    requires Sized(p, d)
    ensures var e := Expand(p, d);
      ImageGuard(e, Pad(0, 0, 0), b).Outside?
      <==> || WrappedEnd(b.o0, b.r0) > e.width
           || WrappedEnd(b.o1, b.r1) > JLim(e)
           || WrappedEnd(b.o2, b.r2) > KLim(e)
  {
    WrappedEndIs(b.o0, b.r0);
    WrappedEndIs(b.o1, b.r1);
    WrappedEndIs(b.o2, b.r2);
  }
}
