/** Running a user's kernel on flat device memory and device images, against what it means on separate
    objects. */
module KernelRuns {
  import opened Canary
  import opened ImageGeometry
  import opened KernelArgs
  import opened RunModel

  /** What a work-item does next: read or write a byte through a pointer argument, read or write a
      pixel through an image argument, or nothing more. */
  datatype Action =
    | Load(arg: nat, off: int)
    | Store(arg: nat, off: int, value: byte)
    | Sample(arg: nat, at: Pixel)
    | Paint(arg: nat, at: Pixel, pixel: seq<byte>)
    | Done

  /** A kernel: the next action of work-item t after the answers it has had so far (what a read
      returned, nothing for a write). */
  type Kernel = (nat, seq<seq<byte>>) -> Action

  type Answers = map<nat, seq<seq<byte>>>

  function Heard(hist: Answers, t: nat): seq<seq<byte>> {
    if t in hist then hist[t] else []
  }

  function Hears(hist: Answers, t: nat, answer: seq<byte>): Answers { hist[t := Heard(hist, t) + [answer]] }

  // ----- pixels -----

  predicate Covers(px: Pixels3, p: Pixel) {
    p.z < |px| && p.y < |px[p.z]| && p.x < |px[p.z][p.y]|
  }

  function PixelIn(px: Pixels3, p: Pixel): seq<byte>
    requires Covers(px, p)
  {
    px[p.z][p.y][p.x]
  }

  /** Writing a pixel that is not there, or of another size, is lost. */
  function Painted(px: Pixels3, p: Pixel, v: seq<byte>): Pixels3 {
    if Covers(px, p) && |v| == |PixelIn(px, p)| then px[p.z := px[p.z][p.y := px[p.z][p.y][p.x := v]]] else px
  }

  lemma PaintedAt(px: Pixels3, p: Pixel, v: seq<byte>, q: Pixel)
    ensures Covers(Painted(px, p, v), q) <==> Covers(px, q)
    ensures Covers(px, q) ==>
              PixelIn(Painted(px, p, v), q) == if q == p && |v| == |PixelIn(px, p)| then v else PixelIn(px, q)
  {
  }

  lemma PaintedShape(px: Pixels3, p: Pixel, v: seq<byte>, m: Dims, ds: nat)
    requires Shaped(px, m, ds)
    ensures Shaped(Painted(px, p, v), m, ds)
  {
  }

  // ----- meaning: every object is a separate array; writes outside one are lost -----

  /** The argument is a pointer to an object in linear memory. */
  predicate IsLinear(a: Arg) { a.Svm? || (a.Mem? && !a.isImage) }

  function NameOf(a: Arg): Name
    requires IsLinear(a)
  {
    if a.Mem? then Buffer(a.handle) else Pointer(a.handle)
  }

  /** How far into the object the pointer points. */
  function PointerOffset(a: Arg): nat { if a.Svm? then a.offset else 0 }

  /** The argument is an image, with or without canary. */
  predicate IsImage(a: Arg) { a.Unseen? || (a.Mem? && a.isImage) }

  datatype Ideal = Ideal(contents: map<Name, seq<byte>>, pics: map<nat, Pixels3>, hist: Answers)

  predicate Known(args: seq<Arg>, contents: map<Name, seq<byte>>, i: nat) {
    i < |args| && IsLinear(args[i]) && NameOf(args[i]) in contents
  }

  predicate InRange(args: seq<Arg>, contents: map<Name, seq<byte>>, i: nat, off: int) {
    Known(args, contents, i) && 0 <= PointerOffset(args[i]) + off < |contents[NameOf(args[i])]|
  }

  function ByteAt(args: seq<Arg>, contents: map<Name, seq<byte>>, i: nat, off: int): byte
    requires InRange(args, contents, i, off)
  {
    contents[NameOf(args[i])][PointerOffset(args[i]) + off]
  }

  function Stored(contents: map<Name, seq<byte>>, n: Name, off: int, v: byte): map<Name, seq<byte>>
    requires n in contents
  {
    if 0 <= off < |contents[n]| then contents[n := contents[n][off := v]] else contents
  }

  predicate KnownPic(args: seq<Arg>, pics: map<nat, Pixels3>, i: nat) {
    i < |args| && IsImage(args[i]) && args[i].handle in pics
  }

  function IdealStep(k: Kernel, args: seq<Arg>, s: Ideal, t: nat): Ideal {
    match k(t, Heard(s.hist, t))
    case Done => s
    case Load(i, off) =>
      if InRange(args, s.contents, i, off) then s.(hist := Hears(s.hist, t, [ByteAt(args, s.contents, i, off)])) else s
    case Store(i, off, v) =>
      s.(contents := if Known(args, s.contents, i)
                     then Stored(s.contents, NameOf(args[i]), PointerOffset(args[i]) + off, v) else s.contents,
         hist := Hears(s.hist, t, []))
    case Sample(i, p) =>
      if KnownPic(args, s.pics, i) && Covers(s.pics[args[i].handle], p)
      then s.(hist := Hears(s.hist, t, PixelIn(s.pics[args[i].handle], p))) else s
    case Paint(i, p, v) =>
      s.(pics := if KnownPic(args, s.pics, i) then s.pics[args[i].handle := Painted(s.pics[args[i].handle], p, v)] else s.pics,
         hist := Hears(s.hist, t, []))
  }

  /** The items act in the order of the schedule. */
  function IdealRun(k: Kernel, args: seq<Arg>, s: Ideal, sched: seq<nat>): Ideal
    decreases |sched|
  {
    if sched == [] then s else IdealRun(k, args, IdealStep(k, args, s, sched[0]), sched[1..])
  }

  /** Reads are in range; stores go at most slack bytes outside the object they are aimed at; paints go
      anywhere. */
  predicate GoodStep(k: Kernel, args: seq<Arg>, s: Ideal, t: nat, slack: map<Name, nat>) {
    match k(t, Heard(s.hist, t))
    case Done => true
    case Load(i, off) => InRange(args, s.contents, i, off)
    case Store(i, off, v) =>
      && Known(args, s.contents, i) && NameOf(args[i]) in slack
      && -slack[NameOf(args[i])] <= PointerOffset(args[i]) + off < |s.contents[NameOf(args[i])]| + slack[NameOf(args[i])]
    case Sample(i, p) => KnownPic(args, s.pics, i) && Covers(s.pics[args[i].handle], p)
    case Paint(i, p, v) => KnownPic(args, s.pics, i)
  }

  predicate GoodRun(k: Kernel, args: seq<Arg>, s: Ideal, sched: seq<nat>, slack: map<Name, nat>)
    decreases |sched|
  {
    sched == []
    || (GoodStep(k, args, s, sched[0], slack) && GoodRun(k, args, IdealStep(k, args, s, sched[0]), sched[1..], slack))
  }

  /** More slack allows more. */
  lemma {:induction false} MoreSlack(k: Kernel, args: seq<Arg>, s: Ideal, sched: seq<nat>, less: map<Name, nat>,
      more: map<Name, nat>)
    requires GoodRun(k, args, s, sched, less) && forall n | n in less :: n in more && less[n] <= more[n]
    ensures GoodRun(k, args, s, sched, more)
    decreases |sched|
  {
    if sched != [] {
      MoreSlack(k, args, IdealStep(k, args, s, sched[0]), sched[1..], less, more);
    }
  }

  // ----- the device: one memory and a table of rasters; arguments are addresses and surfaces -----

  datatype Binding = Scalar | Address(base: nat) | Surface(raster: nat)

  datatype Flat = Flat(mem: seq<byte>, rasters: map<nat, Pixels3>, hist: Answers)

  function Bound(binds: seq<Binding>, i: nat): Binding { if i < |binds| then binds[i] else Scalar }

  /** The memory address an access goes to, if it goes to memory at all. */
  predicate Hits(binds: seq<Binding>, i: nat, off: int, memSize: nat) {
    Bound(binds, i).Address? && 0 <= Bound(binds, i).base + off < memSize
  }

  predicate HitsRaster(binds: seq<Binding>, rasters: map<nat, Pixels3>, i: nat) {
    Bound(binds, i).Surface? && Bound(binds, i).raster in rasters
  }

  function FlatStep(k: Kernel, binds: seq<Binding>, s: Flat, t: nat): Flat {
    match k(t, Heard(s.hist, t))
    case Done => s
    case Load(i, off) =>
      var v := if Hits(binds, i, off, |s.mem|) then s.mem[Bound(binds, i).base + off] else 0;
      s.(hist := Hears(s.hist, t, [v]))
    case Store(i, off, v) =>
      s.(mem := if Hits(binds, i, off, |s.mem|) then s.mem[Bound(binds, i).base + off := v] else s.mem,
         hist := Hears(s.hist, t, []))
    case Sample(i, p) =>
      var v := if HitsRaster(binds, s.rasters, i) && Covers(s.rasters[Bound(binds, i).raster], p)
               then PixelIn(s.rasters[Bound(binds, i).raster], p) else [];
      s.(hist := Hears(s.hist, t, v))
    case Paint(i, p, v) =>
      s.(rasters := if HitsRaster(binds, s.rasters, i)
                    then s.rasters[Bound(binds, i).raster := Painted(s.rasters[Bound(binds, i).raster], p, v)] else s.rasters,
         hist := Hears(s.hist, t, []))
  }

  function FlatRun(k: Kernel, binds: seq<Binding>, s: Flat, sched: seq<nat>): Flat
    decreases |sched|
  {
    if sched == [] then s else FlatRun(k, binds, FlatStep(k, binds, s, sched[0]), sched[1..])
  }

  // ----- containment: where a run writes, whatever it reads -----

  /** A store goes into the given addresses or nowhere. */
  ghost predicate ConfinedStep(k: Kernel, binds: seq<Binding>, s: Flat, t: nat, reach: iset<int>) {
    match k(t, Heard(s.hist, t))
    case Store(i, off, v) => Hits(binds, i, off, |s.mem|) ==> Bound(binds, i).base + off in reach
    case _ => true
  }

  ghost predicate Confined(k: Kernel, binds: seq<Binding>, s: Flat, sched: seq<nat>, reach: iset<int>)
    decreases |sched|
  {
    sched == []
    || (ConfinedStep(k, binds, s, sched[0], reach)
        && Confined(k, binds, FlatStep(k, binds, s, sched[0]), sched[1..], reach))
  }

  predicate IsSurface(binds: seq<Binding>, h: nat) { Surface(h) in binds }

  ghost predicate SameRaster(before: Pixels3, after: Pixels3) {
    forall m: Dims, ds: nat | Shaped(before, m, ds) :: Shaped(after, m, ds)
  }

  /** Only the given addresses and the surfaces among the arguments are written; a raster keeps its
      shape. */
  ghost predicate Contained(binds: seq<Binding>, reach: iset<int>, before: Flat, after: Flat) {
    && |after.mem| == |before.mem| && after.rasters.Keys == before.rasters.Keys
    && (forall a | 0 <= a < |before.mem| && a !in reach :: after.mem[a] == before.mem[a])
    && (forall h | h in before.rasters && !IsSurface(binds, h) :: after.rasters[h] == before.rasters[h])
    && (forall h | h in before.rasters :: SameRaster(before.rasters[h], after.rasters[h]))
  }

  lemma ContainedStep(k: Kernel, binds: seq<Binding>, s: Flat, t: nat, reach: iset<int>)
    requires ConfinedStep(k, binds, s, t, reach)
    ensures Contained(binds, reach, s, FlatStep(k, binds, s, t))
  {
    match k(t, Heard(s.hist, t)) {
      case Paint(i, p, v) =>
        if HitsRaster(binds, s.rasters, i) {
          var px := s.rasters[Bound(binds, i).raster];
          forall m: Dims, ds: nat | Shaped(px, m, ds)
            ensures Shaped(Painted(px, p, v), m, ds)
          {
            PaintedShape(px, p, v, m, ds);
          }
          assert binds[i] == Surface(Bound(binds, i).raster);
        }
      case _ =>
    }
    hide Shaped, Painted;
  }

  lemma {:induction false} ContainedRun(k: Kernel, binds: seq<Binding>, s: Flat, sched: seq<nat>, reach: iset<int>)
    requires Confined(k, binds, s, sched, reach)
    ensures Contained(binds, reach, s, FlatRun(k, binds, s, sched))
    decreases |sched|
  {
    hide Shaped, ConfinedStep, FlatStep, IsSurface;
    if sched != [] {
      ContainedStep(k, binds, s, sched[0], reach);
      ContainedRun(k, binds, FlatStep(k, binds, s, sched[0]), sched[1..], reach);
    }
  }

  // ----- the device computes the meaning -----

  /** Where an object's user bytes lie, and how many bytes on both sides are its canary. */
  datatype Obj = Obj(base: nat, size: nat, slack: nat)

  /** Where the kernel finds the objects: in memory, and the images, each on the raster of its handle. */
  datatype Layout = Layout(at: map<Name, Obj>, surf: set<nat>)

  predicate InWindow(o: Obj, a: int) { o.base - o.slack <= a < o.base + o.size + o.slack }

  predicate WindowsApart(x: Obj, y: Obj) {
    x.base + x.size + x.slack <= y.base - y.slack || y.base + y.size + y.slack <= x.base - x.slack
  }

  /** Every object with its slack lies in memory, apart from the others. */
  ghost predicate LaidOut(l: Layout, memSize: nat) {
    && (forall n | n in l.at :: l.at[n].slack <= l.at[n].base && l.at[n].base + l.at[n].size + l.at[n].slack <= memSize)
    && (forall n, k | n in l.at && k in l.at && n != k :: WindowsApart(l.at[n], l.at[k]))
  }

  function Slacks(at: map<Name, Obj>): (s: map<Name, nat>)
    ensures s.Keys == at.Keys && forall n | n in at :: s[n] == at[n].slack
  {
    map n | n in at :: at[n].slack
  }

  ghost predicate HoldsAt(o: Obj, content: seq<byte>, mem: seq<byte>) {
    && |content| == o.size && o.base + o.size <= |mem|
    && forall i {:trigger content[i]} | 0 <= i < o.size :: mem[o.base + i] == content[i]
  }

  /** The raster shows the pixels, and perhaps more around them. */
  ghost predicate Shows(raster: Pixels3, px: Pixels3) {
    forall p: Pixel | Covers(px, p) :: Covers(raster, p) && PixelIn(raster, p) == PixelIn(px, p)
  }

  /** Memory holds the objects' bytes, and the rasters show the images. */
  ghost predicate Agree(l: Layout, s: Ideal, f: Flat) {
    && s.contents.Keys == l.at.Keys && s.pics.Keys == l.surf && s.hist == f.hist
    && (forall n | n in l.at :: HoldsAt(l.at[n], s.contents[n], f.mem))
    && (forall h | h in l.surf :: h in f.rasters && Shows(f.rasters[h], s.pics[h]))
  }

  /** What is bound to an argument. */
  predicate BindingOk(l: Layout, a: Arg, b: Binding) {
    if IsLinear(a) then NameOf(a) in l.at && b == Address(l.at[NameOf(a)].base + PointerOffset(a))
    else if IsImage(a) then a.handle in l.surf && b == Surface(a.handle)
    else b == Scalar
  }

  ghost predicate BindingsOk(l: Layout, args: seq<Arg>, binds: seq<Binding>) {
    |binds| == |args| && forall i | 0 <= i < |args| :: BindingOk(l, args[i], binds[i])
  }

  ghost predicate InArgWindow(l: Layout, args: seq<Arg>, a: int) {
    exists i :: 0 <= i < |args| && IsLinear(args[i]) && NameOf(args[i]) in l.at && InWindow(l.at[NameOf(args[i])], a)
  }

  /** The addresses the arguments' objects and their slack take up. */
  ghost function ArgWindows(l: Layout, args: seq<Arg>): iset<int> { iset a: int | InArgWindow(l, args, a) }

  lemma StoreKeepsOther(o: Obj, content: seq<byte>, mem: seq<byte>, a: nat, v: byte)
    requires HoldsAt(o, content, mem) && a < |mem| && !(o.base <= a < o.base + o.size)
    ensures HoldsAt(o, content, mem[a := v])
  {
  }

  lemma StoreInRange(o: Obj, content: seq<byte>, mem: seq<byte>, off: nat, v: byte)
    requires HoldsAt(o, content, mem) && off < o.size
    ensures HoldsAt(o, content[off := v], mem[o.base + off := v])
  {
  }

  /** What a store does to one object. */
  lemma StoreAt(o: Obj, content: seq<byte>, mem: seq<byte>, off: int, v: byte)
    requires HoldsAt(o, content, mem) && 0 <= o.base + off < |mem|
    ensures HoldsAt(o, if 0 <= off < o.size then content[off := v] else content, mem[o.base + off := v])
  {
    if 0 <= off < o.size {
      StoreInRange(o, content, mem, off, v);
    } else {
      StoreKeepsOther(o, content, mem, o.base + off, v);
    }
  }

  /** ... and to all of them. */
  lemma StoreKeepsAll(l: Layout, contents: map<Name, seq<byte>>, mem: seq<byte>, n: Name, off: int, v: byte)
    requires LaidOut(l, |mem|) && contents.Keys == l.at.Keys && n in l.at
    requires forall m | m in l.at :: HoldsAt(l.at[m], contents[m], mem)
    requires InWindow(l.at[n], l.at[n].base + off)
    ensures var a := l.at[n].base + off;
      && 0 <= a < |mem| && InWindow(l.at[n], a) && |contents[n]| == l.at[n].size
      && forall m | m in l.at ::
           HoldsAt(l.at[m], if m == n && 0 <= off < l.at[n].size then contents[n][off := v] else contents[m], mem[a := v])
  {
    var a := l.at[n].base + off;
    assert HoldsAt(l.at[n], contents[n], mem);
    StoreAt(l.at[n], contents[n], mem, off, v);
    forall m | m in l.at && m != n ensures HoldsAt(l.at[m], contents[m], mem[a := v]) {
      assert WindowsApart(l.at[m], l.at[n]);
      StoreKeepsOther(l.at[m], contents[m], mem, a, v);
    }
    hide LaidOut;
  }

  lemma StoreAgrees(l: Layout, s: Ideal, f: Flat, n: Name, off: int, v: byte, hist: Answers)
    requires LaidOut(l, |f.mem|) && Agree(l, s, f) && n in l.at && InWindow(l.at[n], l.at[n].base + off)
    ensures 0 <= l.at[n].base + off < |f.mem| && |s.contents[n]| == l.at[n].size
    ensures Agree(l, s.(contents := Stored(s.contents, n, off, v), hist := hist),
                  f.(mem := f.mem[l.at[n].base + off := v], hist := hist))
  {
    hide HoldsAt, LaidOut, Shows, InWindow;
    StoreKeepsAll(l, s.contents, f.mem, n, off, v);
  }

  lemma StoreStep(k: Kernel, l: Layout, args: seq<Arg>, binds: seq<Binding>, s: Ideal, f: Flat, t: nat)
    requires LaidOut(l, |f.mem|) && BindingsOk(l, args, binds) && Agree(l, s, f) && k(t, Heard(s.hist, t)).Store?
    requires GoodStep(k, args, s, t, Slacks(l.at))
    ensures Agree(l, IdealStep(k, args, s, t), FlatStep(k, binds, f, t))
    ensures ConfinedStep(k, binds, f, t, ArgWindows(l, args))
  {
    hide LaidOut, Shows, WindowsApart;
    var i, off, v := k(t, Heard(s.hist, t)).arg, k(t, Heard(s.hist, t)).off, k(t, Heard(s.hist, t)).value;
    var n, spot, hist := NameOf(args[i]), PointerOffset(args[i]) + off, Hears(s.hist, t, []);
    assert BindingOk(l, args[i], binds[i]);
    assert HoldsAt(l.at[n], s.contents[n], f.mem);
    assert InWindow(l.at[n], l.at[n].base + spot);
    StoreAgrees(l, s, f, n, spot, v, hist);
    assert IdealStep(k, args, s, t) == s.(contents := Stored(s.contents, n, spot, v), hist := hist);
    assert s.hist == f.hist;
    assert FlatStep(k, binds, f, t) == f.(mem := f.mem[l.at[n].base + spot := v], hist := hist);
  }

  lemma LoadStep(k: Kernel, l: Layout, args: seq<Arg>, binds: seq<Binding>, s: Ideal, f: Flat, t: nat)
    requires BindingsOk(l, args, binds) && Agree(l, s, f) && k(t, Heard(s.hist, t)).Load?
    requires GoodStep(k, args, s, t, Slacks(l.at))
    ensures Agree(l, IdealStep(k, args, s, t), FlatStep(k, binds, f, t))
  {
    var i, off := k(t, Heard(s.hist, t)).arg, k(t, Heard(s.hist, t)).off;
    assert BindingOk(l, args[i], binds[i]) && HoldsAt(l.at[NameOf(args[i])], s.contents[NameOf(args[i])], f.mem);
    var spot := PointerOffset(args[i]) + off;
    assert f.mem[l.at[NameOf(args[i])].base + spot] == s.contents[NameOf(args[i])][spot];
    hide HoldsAt, Shows;
  }

  lemma SampleStep(k: Kernel, l: Layout, args: seq<Arg>, binds: seq<Binding>, s: Ideal, f: Flat, t: nat)
    requires BindingsOk(l, args, binds) && Agree(l, s, f) && k(t, Heard(s.hist, t)).Sample?
    requires GoodStep(k, args, s, t, Slacks(l.at))
    ensures Agree(l, IdealStep(k, args, s, t), FlatStep(k, binds, f, t))
  {
    var i, p := k(t, Heard(s.hist, t)).arg, k(t, Heard(s.hist, t)).at;
    var h := args[i].handle;
    assert BindingOk(l, args[i], binds[i]) && Shows(f.rasters[h], s.pics[h]);
    assert Covers(f.rasters[h], p) && PixelIn(f.rasters[h], p) == PixelIn(s.pics[h], p);
    hide HoldsAt, Shows, Covers;
  }

  lemma PaintShows(raster: Pixels3, px: Pixels3, p: Pixel, v: seq<byte>)
    requires Shows(raster, px)
    ensures Shows(Painted(raster, p, v), Painted(px, p, v))
  {
    forall q: Pixel | Covers(Painted(px, p, v), q)
      ensures Covers(Painted(raster, p, v), q) && PixelIn(Painted(raster, p, v), q) == PixelIn(Painted(px, p, v), q)
    {
      PaintedAt(px, p, v, q);
      PaintedAt(raster, p, v, q);
    }
    hide Painted;
  }

  lemma PaintStep(k: Kernel, l: Layout, args: seq<Arg>, binds: seq<Binding>, s: Ideal, f: Flat, t: nat)
    requires LaidOut(l, |f.mem|) && BindingsOk(l, args, binds) && Agree(l, s, f) && k(t, Heard(s.hist, t)).Paint?
    requires GoodStep(k, args, s, t, Slacks(l.at))
    ensures Agree(l, IdealStep(k, args, s, t), FlatStep(k, binds, f, t))
  {
    var i, p, v := k(t, Heard(s.hist, t)).arg, k(t, Heard(s.hist, t)).at, k(t, Heard(s.hist, t)).pixel;
    var h := args[i].handle;
    assert BindingOk(l, args[i], binds[i]) && Shows(f.rasters[h], s.pics[h]);
    PaintShows(f.rasters[h], s.pics[h], p, v);
    hide HoldsAt, Shows, Painted, WindowsApart;
  }

  /** One action: the device answers as the meaning says, and stores go into the arguments' windows. */
  lemma DeviceStep(k: Kernel, l: Layout, args: seq<Arg>, binds: seq<Binding>, s: Ideal, f: Flat, t: nat)
    requires LaidOut(l, |f.mem|) && BindingsOk(l, args, binds) && Agree(l, s, f)
      && GoodStep(k, args, s, t, Slacks(l.at))
    ensures Agree(l, IdealStep(k, args, s, t), FlatStep(k, binds, f, t))
    ensures ConfinedStep(k, binds, f, t, ArgWindows(l, args)) && |FlatStep(k, binds, f, t).mem| == |f.mem|
  {
    assert s.hist == f.hist;
    if k(t, Heard(s.hist, t)).Store? { StoreStep(k, l, args, binds, s, f, t); }
    if k(t, Heard(s.hist, t)).Load? { LoadStep(k, l, args, binds, s, f, t); }
    if k(t, Heard(s.hist, t)).Sample? { SampleStep(k, l, args, binds, s, f, t); }
    if k(t, Heard(s.hist, t)).Paint? { PaintStep(k, l, args, binds, s, f, t); }
    hide LaidOut, BindingsOk, GoodStep, Agree;
  }

  /** Every run: the device leaves every object with the bytes and pixels the kernel means, and stores
      go into the arguments' windows only. */
  lemma {:induction false} DeviceRun(k: Kernel, l: Layout, args: seq<Arg>, binds: seq<Binding>, s: Ideal, f: Flat,
      sched: seq<nat>)
    requires LaidOut(l, |f.mem|) && BindingsOk(l, args, binds) && Agree(l, s, f)
      && GoodRun(k, args, s, sched, Slacks(l.at))
    ensures Agree(l, IdealRun(k, args, s, sched), FlatRun(k, binds, f, sched))
    ensures Confined(k, binds, f, sched, ArgWindows(l, args))
    decreases |sched|
  {
    hide LaidOut, BindingsOk, Agree, GoodStep, ConfinedStep, IdealStep, FlatStep, ArgWindows;
    if sched != [] {
      DeviceStep(k, l, args, binds, s, f, sched[0]);
      DeviceRun(k, l, args, binds, IdealStep(k, args, s, sched[0]), FlatStep(k, binds, f, sched[0]), sched[1..]);
    }
  }

  /** A run confined to fewer addresses is confined to more. */
  lemma {:induction false} ConfinedMore(k: Kernel, binds: seq<Binding>, f: Flat, sched: seq<nat>, less: iset<int>,
      more: iset<int>)
    requires Confined(k, binds, f, sched, less) && forall a | a in less && 0 <= a < |f.mem| :: a in more
    ensures Confined(k, binds, f, sched, more)
    decreases |sched|
  {
    if sched != [] {
      ConfinedMore(k, binds, FlatStep(k, binds, f, sched[0]), sched[1..], less, more);
    }
  }
}
