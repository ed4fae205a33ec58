/** When the copy loop reads host memory where the OpenCL pitches say the rows are. */
module ImageHostRows {
  import opened Arithmetic
  import opened ImageGeometry
  import opened ImageFill

  /** Bytes from row to row in host memory (section 5.3.1.2 of the OpenCL 1.2 specification):
      a row pitch of 0 means rows of tightly packed pixels. */
  function RowPitch(m: Dims, ds: nat, pitch: Pitch): nat {
    if pitch.row != 0 then pitch.row else m.iDat * ds
  }

  /** Bytes from image to image of a 1D array, or from slice to slice otherwise. */
  function SlicePitch(kind: ImageType, m: Dims, ds: nat, pitch: Pitch): nat {
    if pitch.slice != 0 then pitch.slice
    else if kind.Image1DArray? then RowPitch(m, ds, pitch)
    else m.jDat * RowPitch(m, ds, pitch)
  }

  /** Where the specification puts row j of slice k. */
  function SpecOffset(kind: ImageType, m: Dims, ds: nat, pitch: Pitch, j: nat, k: nat): nat {
    if kind.Image1DArray? then j * SlicePitch(kind, m, ds, pitch)
    else k * SlicePitch(kind, m, ds, pitch) + j * RowPitch(m, ds, pitch)
  }

  ghost predicate ReadsRightRows(kind: ImageType, m: Dims, ds: nat, pitch: Pitch) {
    forall j: nat, k: nat | j < m.jDat && k < m.kDat :: HostOffset(m, pitch, j, k) == SpecOffset(kind, m, ds, pitch, j, k)
  }

  /** The default row pitch is counted in pixels by the loop and in bytes by the specification, and
      the slice pitch is multiplied by the row pitch; either matters only when there is a second row
      or slice to find. */
  predicate PitchesAgree(kind: ImageType, m: Dims, ds: nat, pitch: Pitch) {
    if kind.Image1DArray? then
      m.jDat == 1 || IHostPitch(m, pitch) == SlicePitch(kind, m, ds, pitch)
    else
      && (m.jDat == 1 || pitch.row != 0 || ds == 1)
      && (m.kDat == 1 || if pitch.slice == 0 then pitch.row != 0 || ds == 1 else IHostPitch(m, pitch) == 1)
  }

  lemma SameRowPitch(m: Dims, ds: nat, pitch: Pitch)
    requires m.iDat > 0 && ds > 0
    ensures IHostPitch(m, pitch) == RowPitch(m, ds, pitch) <==> pitch.row != 0 || ds == 1
  {
    if ds > 1 { MulMono(2, ds, m.iDat); }
  }

  lemma SameSlicePitch(m: Dims, ds: nat, pitch: Pitch)
    requires m.iDat > 0 && m.jDat > 0 && ds > 0
    ensures JHostPitch(m, pitch) * IHostPitch(m, pitch) == (if pitch.slice != 0 then pitch.slice else m.jDat * RowPitch(m, ds, pitch))
       <==> (if pitch.slice == 0 then pitch.row != 0 || ds == 1 else IHostPitch(m, pitch) == 1)
  {
    SameRowPitch(m, ds, pitch);
    var ip := IHostPitch(m, pitch);
    if pitch.slice == 0 {
      Cancel(m.jDat, ip, RowPitch(m, ds, pitch));
    } else {
      Cancel(pitch.slice, ip, 1);
    }
  }

  lemma Cancel(a: nat, x: nat, y: nat)
    requires a > 0
    ensures a * x == a * y <==> x == y
  {
    if x < y { NextBlock(x, y, a); }
    if y < x { NextBlock(y, x, a); }
  }

  lemma ReadsRightRowsForced(kind: ImageType, m: Dims, ds: nat, pitch: Pitch)
    requires m.iDat > 0 && m.jDat > 0 && m.kDat > 0 && ds > 0 && (kind.Image1DArray? ==> m.kDat == 1)
    requires ReadsRightRows(kind, m, ds, pitch)
    ensures PitchesAgree(kind, m, ds, pitch)
  {
    SameRowPitch(m, ds, pitch);
    SameSlicePitch(m, ds, pitch);
    if m.jDat > 1 { assert HostOffset(m, pitch, 1, 0) == SpecOffset(kind, m, ds, pitch, 1, 0); }
    if m.kDat > 1 { assert HostOffset(m, pitch, 0, 1) == SpecOffset(kind, m, ds, pitch, 0, 1); }
  }

  /** The loop reads the right host rows for every row and slice if and only if the pitches agree. */
  lemma HostRowsExact(kind: ImageType, m: Dims, ds: nat, pitch: Pitch)
    requires m.iDat > 0 && m.jDat > 0 && m.kDat > 0 && ds > 0 && (kind.Image1DArray? ==> m.kDat == 1)
    ensures ReadsRightRows(kind, m, ds, pitch) <==> PitchesAgree(kind, m, ds, pitch)
  {
    if ReadsRightRows(kind, m, ds, pitch) {
      ReadsRightRowsForced(kind, m, ds, pitch);
    }
    if PitchesAgree(kind, m, ds, pitch) {
      SameRowPitch(m, ds, pitch);
      SameSlicePitch(m, ds, pitch);
      forall j: nat, k: nat | j < m.jDat && k < m.kDat
        ensures HostOffset(m, pitch, j, k) == SpecOffset(kind, m, ds, pitch, j, k)
      {
        assert m.jDat == 1 ==> j == 0;
        assert m.kDat == 1 ==> k == 0;
      }
    }
  }

  /** A two-row image of four-byte pixels with default pitches: its second row is read from byte 8
      of host memory, not from byte 32. */
  lemma DefaultPitchFails()
    ensures var m := Dims(24, 18, 1, 8, 2, 1); var pitch := Pitch(0, 0);
      && HostOffset(m, pitch, 1, 0) == 8 && SpecOffset(Image2D, m, 4, pitch, 1, 0) == 32
      && !ReadsRightRows(Image2D, m, 4, pitch)
  {
    var m, pitch := Dims(24, 18, 1, 8, 2, 1), Pitch(0, 0);
    assert HostOffset(m, pitch, 1, 0) != SpecOffset(Image2D, m, 4, pitch, 1, 0);
  }
}
