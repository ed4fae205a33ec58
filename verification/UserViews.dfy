/** What every operation does to what the user's objects hold, as if there were no canaries. */
module UserViews {
  import opened Canary
  import opened LinearBuffers
  import opened ImageGeometry
  import opened ApiGuards
  import opened KernelArgs
  import opened RunModel
  import opened KernelRuns
  import opened Staging
  import opened StagedRuns
  import opened Runs
  import ImageFill
  import ImageHostRows

  // ----- bytes -----

  /** The object exists. */
  predicate Present(w: World, n: Name) { n in w.dev.lin || (n.Buffer? && n.handle in w.host) }

  /** A write of some bytes into an array; one that does not fit changes nothing. */
  function Written(before: seq<byte>, offset: nat, data: seq<byte>): seq<byte> {
    if offset + |data| <= |before| then before[..offset] + data + before[offset + |data|..] else before
  }

  lemma WrittenAt(before: seq<byte>, offset: nat, data: seq<byte>, i: nat)
    requires i < |before|
    ensures |Written(before, offset, data)| == |before|
    ensures Written(before, offset, data)[i]
         == if offset + |data| <= |before| && offset <= i < offset + |data| then data[i - offset] else before[i]
  {
  }

  /** Addresses from start on hold what a write into the bytes there leaves. */
  lemma WrittenBytes(mem: seq<byte>, after: seq<byte>, start: nat, size: nat, offset: nat, data: seq<byte>)
    requires start + size <= |mem| == |after|
    requires forall i {:trigger after[start + i]} | 0 <= i < size ::
               after[start + i]
               == if offset + |data| <= size && offset <= i < offset + |data| then data[i - offset] else mem[start + i]
    ensures after[start..start + size] == Written(mem[start..start + size], offset, data)
  {
    var before := mem[start..start + size];
    forall i | 0 <= i < size ensures after[start..start + size][i] == Written(before, offset, data)[i] {
      WrittenAt(before, offset, data, i);
      assert after[start + i] == after[start..start + size][i];
    }
    WrittenLength(before, offset, data);
  }

  lemma WrittenLength(before: seq<byte>, offset: nat, data: seq<byte>)
    ensures |Written(before, offset, data)| == |before|
  {
  }

  /** Bytes between equal memories are equal. */
  lemma SameBytes(mem: seq<byte>, after: seq<byte>, start: nat, size: nat)
    requires start + size <= |mem| == |after|
    requires forall a | start <= a < start + size :: after[a] == mem[a]
    ensures after[start..start + size] == mem[start..start + size]
  {
  }

  lemma ContentIs(w: World, n: Name)
    requires WorldInv(w) && Present(w, n)
    ensures Holds(w, n)
    ensures n in w.dev.lin ==> ContentOf(w, n) == UserBytes(w.dev.mem, w.dev.lin[n])
    ensures n !in w.dev.lin ==> ContentOf(w, n) == HostBytes(w.dev.mem, w.host[n.handle])
  {
    hide LinClean, PicClean, PicOk, UnseenOk, HandlesDistinct, UserBytes, HostBytes;
  }

  /** Where the user's bytes of an object start, and how many there are. */
  function StartOf(w: World, n: Name): nat
    requires Present(w, n)
  {
    if n in w.dev.lin then w.dev.lin[n].base + POISON_FILL_LENGTH else w.host[n.handle].start
  }

  function SizeOf(w: World, n: Name): nat
    requires Present(w, n)
  {
    if n in w.dev.lin then w.dev.lin[n].size else w.host[n.handle].size
  }

  lemma ContentAt(w: World, n: Name)
    requires WorldInv(w) && Present(w, n)
    ensures StartOf(w, n) + SizeOf(w, n) <= |w.dev.mem|
    ensures ContentOf(w, n) == w.dev.mem[StartOf(w, n)..StartOf(w, n) + SizeOf(w, n)]
    ensures n in w.dev.lin ==>
              forall a: nat | StartOf(w, n) <= a < StartOf(w, n) + SizeOf(w, n) :: InUserBytes(w.dev.lin[n], a)
  {
    ContentIs(w, n);
    hide WorldInv;
  }

  /** Different objects share no user byte, and no user byte is in another object's storage. */
  lemma BytesApart(w: World, n: Name, m: Name, a: nat)
    requires WorldInv(w) && Present(w, n) && Present(w, m) && n != m
    requires StartOf(w, n) <= a < StartOf(w, n) + SizeOf(w, n)
    ensures !(StartOf(w, m) <= a < StartOf(w, m) + SizeOf(w, m))
    ensures m in w.dev.lin ==> !InStorage(w.dev.lin[m], a)
  {
    hide LinClean, PicClean, PicOk, UnseenOk, HandlesDistinct;
    if n in w.dev.lin && m in w.dev.lin {
      assert Apart(w.dev.lin[n], w.dev.lin[m]);
    } else if n in w.dev.lin {
      assert HostApart(w.host[m.handle], w.dev.lin[n]);
    } else if m in w.dev.lin {
      assert HostApart(w.host[n.handle], w.dev.lin[m]);
    } else {
      assert HostsApart(w.host[n.handle], w.host[m.handle]);
    }
  }

  /** An object that stays where it is and whose bytes stay keeps its content. */
  lemma ContentStays(w: World, t: World, n: Name)
    requires WorldInv(w) && WorldInv(t) && Present(w, n) && Present(t, n) && |t.dev.mem| == |w.dev.mem|
    requires StartOf(t, n) == StartOf(w, n) && SizeOf(t, n) == SizeOf(w, n)
    requires forall a: nat | StartOf(w, n) <= a < StartOf(w, n) + SizeOf(w, n) ::
               a < |t.dev.mem| && t.dev.mem[a] == w.dev.mem[a]
    ensures ContentOf(t, n) == ContentOf(w, n)
  {
    hide WorldInv, ContentOf;
    ContentAt(w, n);
    ContentAt(t, n);
    SameBytes(w.dev.mem, t.dev.mem, StartOf(w, n), SizeOf(w, n));
  }

  // ----- creations -----

  /** New storage is nobody's yet. */
  lemma NewStorageApart(w: World, buf: Buf, n: Name, a: nat)
    requires WorldInv(w) && Places(w.dev, buf) && OutsideHost(w, buf) && Present(w, n)
    requires StartOf(w, n) <= a < StartOf(w, n) + SizeOf(w, n)
    ensures !InStorage(buf, a) && !InCanary(buf, a) && !InUserBytes(buf, a) && a < |w.dev.mem|
  {
    hide LinClean, PicClean, PicOk, UnseenOk, HandlesDistinct, Inv;
    ContentAt(w, n);
  }

  lemma CreateBufferMeans(w: World, h: nat, buf: Buf, content: seq<byte>, t: World, n: Name)
    requires WorldInv(w) && WorldInv(t) && HandleFree(w, h) && OutsideHost(w, buf) && OnDevice(w, t)
      && CreatesBuffer(w.dev, h, buf, content, t.dev) && Present(t, n)
    ensures n == Buffer(h) ==> ContentOf(t, n) == content
    ensures n != Buffer(h) ==> Present(w, n) && ContentOf(t, n) == ContentOf(w, n)
  {
    hide WorldInv, ContentOf, Places, OutsideHost;
    if n == Buffer(h) {
      ContentAt(t, n);
      assert t.dev.mem[StartOf(t, n)..StartOf(t, n) + SizeOf(t, n)] == content;
    } else {
      ContentAt(w, n);
      forall a: nat | StartOf(w, n) <= a < StartOf(w, n) + SizeOf(w, n)
        ensures a < |t.dev.mem| && t.dev.mem[a] == w.dev.mem[a]
      {
        NewStorageApart(w, buf, n, a);
      }
      ContentStays(w, t, n);
    }
  }

  lemma AllocSvmMeans(w: World, h: nat, buf: Buf, internal: bool, position: nat, t: World, n: Name)
    requires WorldInv(w) && WorldInv(t) && OutsideHost(w, buf) && OnDevice(w, t)
      && AllocatesSvm(w.dev, h, buf, internal, position, t.dev) && Present(t, n)
    ensures n == Pointer(h) ==> |ContentOf(t, n)| == buf.size
    ensures n != Pointer(h) ==> Present(w, n) && ContentOf(t, n) == ContentOf(w, n)
  {
    hide WorldInv, ContentOf, Places, OutsideHost;
    if n == Pointer(h) {
      ContentAt(t, n);
    } else {
      ContentAt(w, n);
      forall a: nat | StartOf(w, n) <= a < StartOf(w, n) + SizeOf(w, n)
        ensures a < |t.dev.mem| && t.dev.mem[a] == w.dev.mem[a]
      {
        NewStorageApart(w, buf, n, a);
      }
      ContentStays(w, t, n);
    }
  }

  /** Memory that does not move. */
  lemma SameMemoryMeans(w: World, t: World, n: Name)
    requires WorldInv(w) && WorldInv(t) && t.dev.mem == w.dev.mem && Present(w, n) && Present(t, n)
    requires StartOf(t, n) == StartOf(w, n) && SizeOf(t, n) == SizeOf(w, n)
    ensures ContentOf(t, n) == ContentOf(w, n)
  {
    hide WorldInv, ContentOf;
    ContentAt(w, n);
    ContentStays(w, t, n);
  }

  lemma CreateHostBufferMeans(w: World, h: nat, b: HostBuffer, t: World, n: Name)
    requires WorldInv(w) && WorldInv(t) && CreatesHostBuffer(w, h, b, t) && Present(t, n)
    ensures n == Buffer(h) ==> b.start + b.size <= |w.dev.mem| && ContentOf(t, n) == HostBytes(w.dev.mem, b)
    ensures n != Buffer(h) ==> Present(w, n) && ContentOf(t, n) == ContentOf(w, n)
  {
    hide WorldInv, ContentOf, HostApart, HostsApart;
    if n == Buffer(h) { ContentIs(t, n); } else { SameMemoryMeans(w, t, n); }
  }

  // ----- writes -----

  /** A write through the guard, wherever the buffer's bytes are. */
  lemma AcceptedInRange(size: u64, offset: u64, data: seq<byte>)
    requires |data| < TWO64
    ensures LinearGuard(size, offset, |data|).Pass? && offset + |data| <= size <==> offset + |data| <= size
  {
    LinearGuardExact(size, offset, |data|);
  }

  /** The bytes of buffer h hold what the write leaves of them, and no other byte has changed. */
  ghost predicate WritesAt(w: World, h: nat, offset: nat, data: seq<byte>, t: World) {
    && Present(w, Buffer(h)) && |t.dev.mem| == |w.dev.mem| && t == w.(dev := w.dev.(mem := t.dev.mem))
    && var start, size := StartOf(w, Buffer(h)), SizeOf(w, Buffer(h));
       forall a | 0 <= a < |w.dev.mem| ::
         t.dev.mem[a] == if offset + |data| <= size && start + offset <= a < start + offset + |data|
                         then data[a - (start + offset)] else w.dev.mem[a]
  }

  lemma WritesAreAt(w: World, h: nat, offset: u64, data: seq<byte>, t: World)
    requires WorldInv(w)
    requires (OnDevice(w, t) && WritesBuffer(w.dev, h, offset, data, t.dev)) || WritesHostBuffer(w, h, offset, data, t)
    ensures WritesAt(w, h, offset, data, t)
  {
    assert h in w.host ==> Buffer(h) !in w.dev.lin;
    hide WorldInv, LinearGuard;
    if WritesHostBuffer(w, h, offset, data, t) {
      AcceptedInRange(w.host[h].size, offset, data);
    } else {
      AcceptedInRange(w.dev.lin[Buffer(h)].size, offset, data);
    }
  }

  lemma WriteBufferMeans(w: World, h: nat, offset: u64, data: seq<byte>, t: World, n: Name)
    requires WorldInv(w) && WorldInv(t) && WritesAt(w, h, offset, data, t) && Present(t, n)
    ensures Present(w, n)
    ensures ContentOf(t, n) == if n == Buffer(h) then Written(ContentOf(w, n), offset, data) else ContentOf(w, n)
  {
    hide WorldInv, ContentOf, Written;
    ContentAt(w, Buffer(h));
    ContentAt(w, n);
    ContentAt(t, n);
    if n == Buffer(h) {
      WrittenBytes(w.dev.mem, t.dev.mem, StartOf(w, n), SizeOf(w, n), offset, data);
    } else {
      forall a: nat | StartOf(w, n) <= a < StartOf(w, n) + SizeOf(w, n) ensures t.dev.mem[a] == w.dev.mem[a] {
        BytesApart(w, n, Buffer(h), a);
      }
      ContentStays(w, t, n);
    }
  }

  lemma HostActsMeans(w: World, t: World, n: Name)
    requires WorldInv(w) && WorldInv(t) && HostActed(w, t) && n in t.dev.lin
    ensures Present(w, n) && ContentOf(t, n) == ContentOf(w, n)
  {
    hide WorldInv, ContentOf, UnseenOk;
    ContentAt(w, n);
    forall a: nat | StartOf(w, n) <= a < StartOf(w, n) + SizeOf(w, n) ensures t.dev.mem[a] == w.dev.mem[a] {
      assert InStorage(w.dev.lin[n], a) && InDeviceStorage(w.dev, a);
    }
    ContentStays(w, t, n);
  }

  /** Everything there is stays as it is, if it stays. */
  lemma ForgetsMeans(w: World, t: World, n: Name)
    requires WorldInv(w) && WorldInv(t) && t.dev.mem == w.dev.mem && Present(t, n)
    requires forall k | k in t.dev.lin :: k in w.dev.lin && t.dev.lin[k] == w.dev.lin[k]
    requires forall h | h in t.host :: h in w.host && t.host[h] == w.host[h]
    requires forall h | h in t.host :: Buffer(h) !in w.dev.lin
    ensures Present(w, n) && ContentOf(t, n) == ContentOf(w, n)
  {
    hide WorldInv, ContentOf;
    SameMemoryMeans(w, t, n);
  }

  // ----- every operation but launches, and the host's own writes to its own memory -----

  /** What buffer, host buffer or allocation n holds after the operation. */
  ghost predicate HoldsAfter(w: World, op: Op, t: World, n: Name) {
    var content := ContentOf(t, n);
    match op
    case CreateBuffer(h, _, bytes) => if n == Buffer(h) then content == bytes else Unmoved(w, t, n)
    case CreateHostBuffer(h, b) =>
      if n == Buffer(h) then b.start + b.size <= |w.dev.mem| && content == HostBytes(w.dev.mem, b) else Unmoved(w, t, n)
    case AllocSvm(h, buf, _, _) => if n == Pointer(h) then |content| == buf.size else Unmoved(w, t, n)
    case WriteBuffer(h, offset, data) =>
      Present(w, n) && content == if n == Buffer(h) then Written(ContentOf(w, n), offset, data) else ContentOf(w, n)
    case _ => Unmoved(w, t, n)
  }

  ghost predicate Unmoved(w: World, t: World, n: Name) { Present(w, n) && ContentOf(t, n) == ContentOf(w, n) }

  lemma ForgettingSteps(w: World, op: Op, t: World, r: Reports)
    requires WorldInv(w) && Step(w, op, t, r)
    requires op.CreateImage? || op.CreateHostImage? || op.WriteImage? || op.Release? || op.FreeSvm?
    ensures t.dev.mem == w.dev.mem
    ensures forall k | k in t.dev.lin :: k in w.dev.lin && t.dev.lin[k] == w.dev.lin[k]
    ensures forall h | h in t.host :: h in w.host && t.host[h] == w.host[h] && Buffer(h) !in w.dev.lin
  {
    hide PicOk, HostPicOk, Shaped, At, ImageWriteAccepted, HostWriteAccepted, Inv, HostPlaced, HandleFree;
  }

  lemma StepMeansBytes(w: World, op: Op, t: World, r: Reports, n: Name)
    requires WorldInv(w) && Step(w, op, t, r) && !op.Launch? && Present(t, n) && (op.HostActs? ==> n in t.dev.lin)
    ensures HoldsAfter(w, op, t, n)
  {
    hide WorldInv, CreatesBuffer, CreatesHostBuffer, AllocatesSvm, CreatesImage, CreatesHostImage, WritesBuffer,
         WritesHostBuffer, WritesImage, WritesHostImage, HostActed, Launches, Released, FreesSvm, HandleFree,
         OutsideHost, ContentOf, Present, Written, HostBytes;
    StepKeeps(w, op, t, r);
    match op {
      case CreateBuffer(h, buf, content) => CreateBufferMeans(w, h, buf, content, t, n);
      case CreateHostBuffer(h, b) => CreateHostBufferMeans(w, h, b, t, n);
      case AllocSvm(h, buf, internal, position) => AllocSvmMeans(w, h, buf, internal, position, t, n);
      case WriteBuffer(h, offset, data) =>
        WritesAreAt(w, h, offset, data, t);
        hide WritesAt;
        WriteBufferMeans(w, h, offset, data, t, n);
      case HostActs => HostActsMeans(w, t, n);
      case _ =>
        ForgettingSteps(w, op, t, r);
        ForgetsMeans(w, t, n);
    }
  }

  // ----- pixels -----

  /** The box lies inside the image as the user described it. */
  predicate BoxInside(d: Desc, b: ImageBox) {
    b.o0 + b.r0 <= d.width && b.o1 + b.r1 <= JLim(d) && b.o2 + b.r2 <= KLim(d)
  }

  /** Guard and driver together accept a write of some pixel exactly if its box is inside. */
  lemma AcceptedInside(pic: Picture, b: ImageBox, p: Pixel)
    requires PicOk(pic) && BoxHolds(b, p)
    ensures ImageWriteAccepted(pic, b) <==> BoxInside(pic.desc, b)
  {
    ExpandedDims(IMAGE_PAD, pic.desc);
    ImageGuardExact(IMAGE_PAD, pic.desc, b);
    assert pic.desc.width < TWO64 && JLim(pic.desc) < TWO64 && KLim(pic.desc) < TWO64;
    hide Shaped, ImageGuard;
    if ImageWriteAccepted(pic, b) { AdmittedBoxIsUser(IMAGE_PAD, pic.desc, b); }
  }

  /** The pixel at p of image h, for the user. */
  ghost function PixelFor(w: World, h: nat, p: Pixel): seq<byte> {
    if Covers(PixelsOf(w, h), p) then PixelIn(PixelsOf(w, h), p) else []
  }

  function DescOf(w: World, h: nat): Desc
    requires h in Pictures(w)
  {
    if h in w.dev.imgs then w.dev.imgs[h].desc else w.dev.unseen[h].desc
  }

  function PixelSizeOf(w: World, h: nat): nat
    requires h in Pictures(w)
  {
    if h in w.dev.imgs then w.dev.imgs[h].ds else w.dev.unseen[h].ds
  }

  /** Images have the pixels of their description. */
  lemma PixelsShaped(w: World, h: nat)
    requires WorldInv(w) && h in Pictures(w)
    ensures HoldsPicture(w, h) && Shaped(PixelsOf(w, h), UserDims(DescOf(w, h)), PixelSizeOf(w, h))
  {
    hide LinClean, PicClean, PicOk, HostPicOk, HandlesDistinct, HostPlaced, Shaped, UserPixels;
    if h in w.dev.imgs { assert PicOk(w.dev.imgs[h]); } else { HostPictureShaped(w.dev.unseen[h]); }
  }

  lemma HostPictureShaped(pic: HostPicture)
    requires HostPicOk(pic)
    ensures Shaped(pic.px, UserDims(pic.desc), pic.ds)
  {
  }

  lemma PixelForIs(w: World, h: nat, p: Pixel)
    requires WorldInv(w) && h in Pictures(w) && InImage(UserDims(DescOf(w, h)), p)
    ensures h in w.dev.imgs ==>
              PicOk(w.dev.imgs[h]) && InImage(PicDims(w.dev.imgs[h].desc), p)
              && PixelFor(w, h, p) == At(w.dev.imgs[h].px, PicDims(w.dev.imgs[h].desc), w.dev.imgs[h].ds, p)
    ensures h !in w.dev.imgs ==>
              HostPicOk(w.dev.unseen[h])
              && PixelFor(w, h, p) == At(w.dev.unseen[h].px, UserDims(w.dev.unseen[h].desc), w.dev.unseen[h].ds, p)
  {
    hide WorldInv, PicOk, HostPicOk, Shaped, UserPixels, Covers;
    PixelsShaped(w, h);
    CoversShaped(PixelsOf(w, h), UserDims(DescOf(w, h)), PixelSizeOf(w, h), p);
    if h !in w.dev.imgs { HostPictureShaped(w.dev.unseen[h]); }
  }

  /** What a write leaves at p. */
  ghost predicate PixelAfterWrite(w: World, h: nat, b: ImageBox, data: Pixels3, t: World, p: Pixel)
    requires h in Pictures(w)
  {
    PixelFor(t, h, p)
    == if BoxInside(DescOf(w, h), b) && BoxHolds(b, p) && Covers(data, Pixel(p.x - b.o0, p.y - b.o1, p.z - b.o2))
       then PixelIn(data, Pixel(p.x - b.o0, p.y - b.o1, p.z - b.o2)) else PixelFor(w, h, p)
  }

  lemma DataCovers(b: ImageBox, data: Pixels3, ds: nat, p: Pixel)
    requires Shaped(data, Dims(b.r0, b.r1, b.r2, b.r0, b.r1, b.r2), ds) && BoxHolds(b, p)
    ensures Covers(data, Pixel(p.x - b.o0, p.y - b.o1, p.z - b.o2))
    ensures PixelIn(data, Pixel(p.x - b.o0, p.y - b.o1, p.z - b.o2)) == data[p.z - b.o2][p.y - b.o1][p.x - b.o0]
  {
  }

  lemma WriteImageMeans(w: World, h: nat, b: ImageBox, data: Pixels3, t: World, p: Pixel)
    requires WorldInv(w) && WorldInv(t) && OnDevice(w, t) && WritesImage(w.dev, h, b, data, t.dev)
    requires InImage(UserDims(w.dev.imgs[h].desc), p)
    ensures PixelAfterWrite(w, h, b, data, t, p)
  {
    hide WorldInv, PicOk, Shaped, At, ImageWriteAccepted, Covers, BoxInside, PixelFor;
    PixelForIs(w, h, p);
    PixelForIs(t, h, p);
    if BoxHolds(b, p) {
      DataCovers(b, data, w.dev.imgs[h].ds, p);
      AcceptedInside(w.dev.imgs[h], b, p);
    }
  }

  lemma WriteHostImageMeans(w: World, h: nat, b: ImageBox, data: Pixels3, t: World, p: Pixel)
    requires WorldInv(w) && WorldInv(t) && WritesHostImage(w, h, b, data, t) && h !in w.dev.imgs
    requires InImage(UserDims(w.dev.unseen[h].desc), p)
    ensures PixelAfterWrite(w, h, b, data, t, p)
  {
    hide WorldInv, HostPicOk, Shaped, At, Covers, PixelFor;
    PixelForIs(w, h, p);
    PixelForIs(t, h, p);
    if BoxHolds(b, p) { DataCovers(b, data, w.dev.unseen[h].ds, p); }
  }

  /** A new image shows what it was created from, where the upload reaches: zeros, or the host's bytes at
      the offsets of the specification if the pitches agree. */
  ghost predicate ShowsSource(d: Desc, ds: nat, src: ImageFill.Source, p: Pixel, v: seq<byte>)
    requires UserDesc(d)
  {
    && |v| == ds
    && (src.Zeros? ==> forall b | 0 <= b < ds :: v[b] == 0)
    && (src.HostRows? && ImageHostRows.PitchesAgree(d.kind, PicDims(d), ds, src.pitch) ==>
          forall b: nat {:trigger v[b]} | b < ds ::
            SourceOffset(d, ds, src.pitch, p, b) < |src.host| && v[b] == src.host[SourceOffset(d, ds, src.pitch, p, b)])
  }

  lemma SourceShown(d: Desc, ds: nat, src: ImageFill.Source, p: Pixel, v: seq<byte>)
    requires UserDesc(d) && ds > 0 && ImageFill.SourceOk(PicDims(d), ds, src) && |v| == ds
    requires InImage(PicDims(d), p) && InUser(PicDims(d), p)
    requires forall b: nat | b < ds :: v[b] == ImageFill.PixelContent(PicDims(d), ds, src, p, b)
    ensures ShowsSource(d, ds, src, p, v)
  {
    ExpandedDims(IMAGE_PAD, d);
    if src.HostRows? && ImageHostRows.PitchesAgree(d.kind, PicDims(d), ds, src.pitch) {
      forall b: nat | b < ds
        ensures SourceOffset(d, ds, src.pitch, p, b) < |src.host|
          && v[b] == src.host[SourceOffset(d, ds, src.pitch, p, b)]
      {
        SourceByteShown(d, ds, src, p, b);
      }
    }
    hide ImageHostRows.PitchesAgree, PicDims, ImageFill.SourceOk, IsCanary;
  }

  /** Where the specification puts byte b of the pixel in host memory. */
  function SourceOffset(d: Desc, ds: nat, pitch: ImageFill.Pitch, p: Pixel, b: nat): nat
    requires UserDesc(d)
  {
    ImageHostRows.SpecOffset(d.kind, PicDims(d), ds, pitch, p.y, p.z) + p.x * ds + b
  }

  lemma SourceByteShown(d: Desc, ds: nat, src: ImageFill.Source, p: Pixel, b: nat)
    requires UserDesc(d) && ds > 0 && ImageFill.SourceOk(PicDims(d), ds, src) && src.HostRows? && b < ds
    requires ImageHostRows.PitchesAgree(d.kind, PicDims(d), ds, src.pitch)
    requires InImage(PicDims(d), p) && InUser(PicDims(d), p)
    ensures SourceOffset(d, ds, src.pitch, p, b) < |src.host|
    ensures ImageFill.PixelContent(PicDims(d), ds, src, p, b) == src.host[SourceOffset(d, ds, src.pitch, p, b)]
  {
    var m := PicDims(d);
    UserExtentIs(d);
    ImageHostRows.HostRowsExact(d.kind, m, ds, src.pitch);
    hide ImageHostRows.PitchesAgree, ImageHostRows.SpecOffset, ImageFill.HostOffset, PicDims;
    assert p.y < m.jDat && p.z < m.kDat;
    ImageFill.ColumnBytes(m, ds, p.x, b);
  }

  lemma UserExtentIs(d: Desc)
    requires UserDesc(d)
    ensures var m := PicDims(d);
      m.iDat > 0 && m.jDat > 0 && m.kDat > 0 && (d.kind.Image1DArray? ==> m.kDat == 1)
  {
    ExpandedDims(IMAGE_PAD, d);
  }

  lemma CreateImageMeans(w: World, h: nat, d: Desc, ds: nat, src: ImageFill.Source, t: World, p: Pixel)
    requires WorldInv(t) && CreatesImage(w.dev, h, d, ds, src, t.dev)
    requires InImage(UserDims(d), p) && ImageFill.InRegion(Expand(IMAGE_PAD, d), p)
    ensures UserDesc(d) && ShowsSource(d, ds, src, p, PixelFor(t, h, p))
  {
    hide WorldInv, Shaped, PixelFor;
    PixelForIs(t, h, p);
    UserExtentInside(d);
    hide ImageFill.PixelContent, ShowsSource;
    SourceShown(d, ds, src, p, PixelFor(t, h, p));
  }

  /** The image is the same one as before. */
  ghost predicate SamePicture(w: World, t: World, h: nat) {
    if h in t.dev.imgs then h in w.dev.imgs && t.dev.imgs[h] == w.dev.imgs[h]
    else h in t.dev.unseen ==> h !in w.dev.imgs && h in w.dev.unseen && t.dev.unseen[h] == w.dev.unseen[h]
  }

  lemma SamePictureStays(w: World, t: World, h: nat)
    requires SamePicture(w, t, h) && h in Pictures(t)
    ensures h in Pictures(w) && PixelsOf(t, h) == PixelsOf(w, h) && DescOf(t, h) == DescOf(w, h)
  {
    hide PicOk, HostPicOk, UserPixels;
  }

  lemma OtherImageCreated(w: World, g: nat, d: Desc, ds: nat, src: ImageFill.Source, t: World, h: nat)
    requires OnDevice(w, t) && CreatesImage(w.dev, g, d, ds, src, t.dev) && h != g
    ensures SamePicture(w, t, h)
  {
    hide PicOk, Shaped, At, ImageFill.InRegion;
  }

  lemma OtherImageWritten(w: World, g: nat, b: ImageBox, data: Pixels3, t: World, h: nat)
    requires (OnDevice(w, t) && WritesImage(w.dev, g, b, data, t.dev)) || WritesHostImage(w, g, b, data, t)
    requires h != g
    ensures SamePicture(w, t, h)
  {
    hide PicOk, HostPicOk, Shaped, At, ImageWriteAccepted, HostWriteAccepted;
  }

  lemma OtherHostImageCreated(w: World, g: nat, pic: HostPicture, t: World, h: nat)
    requires CreatesHostImage(w, g, pic, t) && h != g
    ensures SamePicture(w, t, h)
  {
    hide HostPicOk, HandleFree;
  }

  lemma ImagesUntouched(w: World, op: Op, t: World, r: Reports, h: nat)
    requires Step(w, op, t, r) && !op.Launch? && !op.CreateImage? && !op.CreateHostImage? && !op.WriteImage?
    requires h in Pictures(t) && (op.HostActs? ==> h in t.dev.imgs) && (h in w.dev.unseen ==> h !in w.dev.imgs)
    ensures SamePicture(w, t, h)
  {
    hide Places, Filled, OutsideHost, LinearGuard, InDeviceStorage, UnseenOk, HandleFree;
  }

  /** Images that an operation does not name keep their pixels. */
  lemma OtherPixelsStay(w: World, op: Op, t: World, r: Reports, h: nat)
    requires WorldInv(w) && Step(w, op, t, r) && !op.Launch? && h in Pictures(t)
    requires op.HostActs? ==> h in t.dev.imgs
    requires op.CreateImage? || op.CreateHostImage? || op.WriteImage? ==> op.handle != h
    ensures h in Pictures(w) && PixelsOf(t, h) == PixelsOf(w, h) && DescOf(t, h) == DescOf(w, h)
  {
    hide WorldInv, CreatesBuffer, CreatesHostBuffer, AllocatesSvm, CreatesImage, CreatesHostImage, WritesBuffer,
         WritesHostBuffer, WritesImage, WritesHostImage, HostActed, Launches, Released, FreesSvm, HandleFree,
         OutsideHost, SamePicture, PixelsOf, DescOf, Pictures;
    HandleKinds(w, h);
    match op {
      case CreateImage(g, d, ds, src) => OtherImageCreated(w, g, d, ds, src, t, h);
      case CreateHostImage(g, pic) => OtherHostImageCreated(w, g, pic, t, h);
      case WriteImage(g, b, data) => OtherImageWritten(w, g, b, data, t, h);
      case _ => ImagesUntouched(w, op, t, r, h);
    }
    SamePictureStays(w, t, h);
  }

  /** What image h holds at p after the operation. */
  ghost predicate PixelAfter(w: World, op: Op, t: World, h: nat, p: Pixel)
    requires h in Pictures(t)
  {
    match op
    case CreateImage(g, d, ds, src) =>
      if g == h
      then UserDesc(d) && (ImageFill.InRegion(Expand(IMAGE_PAD, d), p) ==> ShowsSource(d, ds, src, p, PixelFor(t, h, p)))
      else PixelUnmoved(w, t, h, p)
    case CreateHostImage(g, pic) =>
      if g == h then Covers(pic.px, p) && PixelFor(t, h, p) == PixelIn(pic.px, p) else PixelUnmoved(w, t, h, p)
    case WriteImage(g, b, data) =>
      if g == h then h in Pictures(w) && PixelAfterWrite(w, h, b, data, t, p) else PixelUnmoved(w, t, h, p)
    case _ => PixelUnmoved(w, t, h, p)
  }

  ghost predicate PixelUnmoved(w: World, t: World, h: nat, p: Pixel) {
    h in Pictures(w) && PixelFor(t, h, p) == PixelFor(w, h, p)
  }

  lemma CreateHostImageMeans(w: World, h: nat, pic: HostPicture, t: World, p: Pixel)
    requires WorldInv(t) && CreatesHostImage(w, h, pic, t) && InImage(UserDims(pic.desc), p)
    ensures Covers(pic.px, p) && PixelFor(t, h, p) == PixelIn(pic.px, p)
  {
    hide WorldInv, HostPicOk, Shaped;
    assert h !in t.dev.imgs && t.dev.unseen[h] == pic;
    PixelForIs(t, h, p);
    HostPictureShaped(pic);
    CoversShaped(pic.px, UserDims(pic.desc), pic.ds, p);
  }

  lemma StepMeansPixels(w: World, op: Op, t: World, r: Reports, h: nat, p: Pixel)
    requires WorldInv(w) && Step(w, op, t, r) && !op.Launch? && h in Pictures(t) && (op.HostActs? ==> h in t.dev.imgs)
    requires InImage(UserDims(DescOf(t, h)), p)
    ensures PixelAfter(w, op, t, h, p)
  {
    hide WorldInv, CreatesImage, CreatesHostImage, WritesImage, WritesHostImage, HandleFree, PixelAfterWrite,
         ShowsSource, PixelFor, PixelsOf, Covers;
    StepKeeps(w, op, t, r);
    if (op.CreateImage? || op.CreateHostImage? || op.WriteImage?) && op.handle == h {
      NamedStepMeans(w, op, t, r, h, p);
    } else {
      OtherPixelsStay(w, op, t, r, h);
      SamePixelFor(w, t, h, p);
    }
  }

  lemma SamePixelFor(w: World, t: World, h: nat, p: Pixel)
    requires PixelsOf(t, h) == PixelsOf(w, h)
    ensures PixelFor(t, h, p) == PixelFor(w, h, p)
  {
    hide PixelsOf;
  }

  lemma NamedStepMeans(w: World, op: Op, t: World, r: Reports, h: nat, p: Pixel)
    requires WorldInv(w) && WorldInv(t) && Step(w, op, t, r) && h in Pictures(t) && InImage(UserDims(DescOf(t, h)), p)
    requires (op.CreateImage? || op.CreateHostImage? || op.WriteImage?) && op.handle == h
    ensures PixelAfter(w, op, t, h, p)
  {
    hide WorldInv, PixelAfterWrite, ShowsSource, PixelFor, PixelsOf, Covers, PicOk, HostPicOk, Shaped, At,
         ImageWriteAccepted, HostWriteAccepted, ImageFill.InRegion;
    match op {
      case CreateImage(_, d, ds, src) =>
        CreatedDesc(w.dev, h, d, ds, src, t.dev);
        if ImageFill.InRegion(Expand(IMAGE_PAD, d), p) { CreateImageMeans(w, h, d, ds, src, t, p); }
      case CreateHostImage(_, pic) => CreateHostImageMeans(w, h, pic, t, p);
      case WriteImage(_, b, data) =>
        HandleKinds(w, h);
        if WritesHostImage(w, h, b, data, t) {
          WriteHostImageMeans(w, h, b, data, t, p);
        } else {
          WriteImageMeans(w, h, b, data, t, p);
        }
    }
  }

  lemma CreatedDesc(s: State, h: nat, d: Desc, ds: nat, src: ImageFill.Source, t: State)
    requires CreatesImage(s, h, d, ds, src, t)
    ensures UserDesc(d)
  {
    hide Shaped;
  }

  lemma HandleKinds(w: World, h: nat)
    requires WorldInv(w)
    ensures h in w.dev.unseen ==> h !in w.dev.imgs
  {
    hide Inv, HostPlaced;
  }

  // ----- every run -----

  /** In every run every operation that is no launch does to the user's objects what its name says and
      nothing else, as if they had no canaries: a buffer holds what it was created with and what was
      written to it since; a write that does not fit changes nothing. */
  lemma EveryStepMeansBytes(states: seq<World>, ops: seq<Op>, reports: seq<Reports>, i: nat, n: Name)
    requires WholeRun(states, ops, reports) && i < |ops| && !ops[i].Launch? && Present(states[i + 1], n)
    requires ops[i].HostActs? ==> n in states[i + 1].dev.lin
    ensures HoldsAfter(states[i], ops[i], states[i + 1], n)
  {
    hide WorldInv, Step, HoldsAfter, Present;
    WholeRunKeeps(states, ops, reports, i);
    StepMeansBytes(states[i], ops[i], states[i + 1], reports[i], n);
  }

  /** ... and an image shows what it was created from, and the boxes written to it since that lie inside
      it. */
  lemma EveryStepMeansPixels(states: seq<World>, ops: seq<Op>, reports: seq<Reports>, i: nat, h: nat, p: Pixel)
    requires WholeRun(states, ops, reports) && i < |ops| && !ops[i].Launch? && h in Pictures(states[i + 1])
    requires ops[i].HostActs? ==> h in states[i + 1].dev.imgs
    requires InImage(UserDims(DescOf(states[i + 1], h)), p)
    ensures PixelAfter(states[i], ops[i], states[i + 1], h, p)
  {
    hide WorldInv, Step, PixelAfter, Pictures, DescOf;
    WholeRunKeeps(states, ops, reports, i);
    StepMeansPixels(states[i], ops[i], states[i + 1], reports[i], h, p);
  }
}
