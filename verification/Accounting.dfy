/** The memory counters: bytes the user asked for and bytes the detector adds, over every run. */
module Accounting {
  import Arithmetic
  import opened Options
  import opened Canary
  import opened ImageGeometry
  import opened LinearBuffers
  import opened RunModel

  /** A recorded object. For an image, asked is the user's description and desc the stored one,
      expanded when there is a canary; ds is the bytes of a pixel. size is that of the table entry.
      detectorInternal is the mode the creating thread was in; the tool's tables do not keep it. */
  datatype Rec = Rec(isImage: bool, asked: Desc, desc: Desc, ds: nat, size: nat, hasCanary: bool, refs: nat, detectorInternal: bool)

  const NO_DESC := Desc(Image1D, 1, 1, 1, 1)

  /** The handle under which records end up whose handle field is never set. */
  const NULL_NAME := Buffer(0)

  function BufferRec(size: nat, hostPtr: bool, internal: bool): Rec {
    Rec(false, NO_DESC, NO_DESC, 1, size, !hostPtr, 1, internal)
  }

  function SvmRec(size: nat, internal: bool): Rec { Rec(false, NO_DESC, NO_DESC, 1, size, true, 1, internal) }

  function ImageRec(d: Desc, ds: nat, hostPtr: bool, internal: bool): Rec {
    var e := if hostPtr then d else Expand(IMAGE_PAD, d);
    Rec(true, d, e, ds, Pixels(e) * ds, !hostPtr, 1, internal)
  }

  /** Bytes the object stands for in the user's program, whoever asks for it. */
  function Payload(r: Rec): nat { if r.isImage then Pixels(r.asked) * r.ds else r.size }

  /** Bytes to be counted as the user's. */
  function UserBytes(r: Rec): nat { if r.detectorInternal then 0 else Payload(r) }

  /** All the device memory it takes. */
  function AllBytes(r: Rec): nat { if r.isImage || !r.hasCanary then r.size else r.size + CANARY_LENGTH }

  /** Bytes to be counted as the detector's. */
  function OverheadBytes(r: Rec): int { AllBytes(r) - UserBytes(r) }

  /** What a release takes off the user's counter, in the mode of the releasing thread. */
  function TakenUser(r: Rec, internal: bool): nat { if internal then 0 else Payload(r) }

  /** ... and off the detector's counter. An internal release of a buffer always takes off a canary. */
  function TakenOverhead(r: Rec, internal: bool): int {
    if internal then (if r.isImage then r.size else r.size + CANARY_LENGTH) else AllBytes(r) - Payload(r)
  }

  // ----- specification -----

  /** live is the tool's table; hidden are the driver's images that no record names. */
  datatype Stats = Stats(live: map<Name, Rec>, hidden: map<Name, Rec>, totalUser: int, currentUser: int, highUser: int,
                         totalOverhead: int, currentOverhead: int, highOverhead: int)

  const START := Stats(map[], map[], 0, 0, 0, 0, 0, 0)

  /** created: whether the driver came through. internal: the mode the calling thread is in. */
  datatype Op =
    | Create(name: Name, what: Rec, created: bool)
    | Retain(handle: nat)
    | Release(handle: nat, internal: bool)
    | FreeSvm(handle: nat, internal: bool)

  function MaxInt(a: int, b: int): (m: int)
    ensures m >= a && m >= b && (m == a || m == b)
  {
    if a > b then a else b
  }

  function Counted(s: Stats, user: int, overhead: int): Stats {
    s.(totalUser := s.totalUser + user, currentUser := s.currentUser + user, highUser := MaxInt(s.highUser, s.currentUser + user),
       totalOverhead := s.totalOverhead + overhead, currentOverhead := s.currentOverhead + overhead,
       highOverhead := MaxInt(s.highOverhead, s.currentOverhead + overhead))
  }

  function Dropped(s: Stats, n: Name, internal: bool): Stats
    requires n in s.live
  {
    s.(live := s.live - {n}, currentUser := s.currentUser - TakenUser(s.live[n], internal),
       currentOverhead := s.currentOverhead - TakenOverhead(s.live[n], internal))
  }

  /** The handle field of a record is set for buffers, SVM allocations and images with canary; for an
      image over host memory it stays null, even when the driver creates the image. */
  predicate Named(r: Rec) { !r.isImage || r.hasCanary }

  /** The table after a creation. A record without handle is filed under the null handle, unless there
      is an entry already. */
  function Filed(live: map<Name, Rec>, name: Name, what: Rec, created: bool): map<Name, Rec> {
    if created && Named(what) then live[name := what]
    else if what.isImage && NULL_NAME !in live then live[NULL_NAME := what]
    else live
  }

  function Hidden(hidden: map<Name, Rec>, name: Name, what: Rec, created: bool): map<Name, Rec> {
    if created && !Named(what) then hidden[name := what] else hidden
  }

  /** Whether a call removes the table entry n. */
  predicate Drops(s: Stats, op: Op, n: Name) {
    match op
    case Release(h, _) => n == Buffer(h) && n in s.live && s.live[n].refs <= 1
    case FreeSvm(h, _) => n == Pointer(h) && n in s.live
    case _ => false
  }

  /** Whether a call makes an image disappear that no record names. */
  predicate Vanishes(s: Stats, op: Op, n: Name) {
    op.Release? && n == Buffer(op.handle) && n !in s.live && n in s.hidden && s.hidden[n].refs <= 1
  }

  function WithRefs(live: map<Name, Rec>, n: Name, refs: nat): map<Name, Rec>
    requires n in live
  {
    live[n := live[n].(refs := refs)]
  }

  /** Creation counts before the driver is asked; the last release takes off bytes in its own mode, if
      the table has the handle. */
  function Apply(s: Stats, op: Op): Stats {
    match op
    case Create(name, what, created) =>
      Counted(s, UserBytes(what), OverheadBytes(what)).(
        live := Filed(s.live, name, what, created), hidden := Hidden(s.hidden, name, what, created))
    case Retain(h) =>
      if Buffer(h) in s.live then s.(live := WithRefs(s.live, Buffer(h), s.live[Buffer(h)].refs + 1))
      else if Buffer(h) in s.hidden then s.(hidden := WithRefs(s.hidden, Buffer(h), s.hidden[Buffer(h)].refs + 1))
      else s
    case Release(h, internal) =>
      if Drops(s, op, Buffer(h)) then Dropped(s, Buffer(h), internal)
      else if Buffer(h) in s.live then s.(live := WithRefs(s.live, Buffer(h), s.live[Buffer(h)].refs - 1))
      else if Vanishes(s, op, Buffer(h)) then s.(hidden := s.hidden - {Buffer(h)})
      else if Buffer(h) in s.hidden then s.(hidden := WithRefs(s.hidden, Buffer(h), s.hidden[Buffer(h)].refs - 1))
      else s
    case FreeSvm(h, internal) => if Drops(s, op, Pointer(h)) then Dropped(s, Pointer(h), internal) else s
  }

  // ----- the calls, as they count -----

  /** What the creating calls record: proper descriptions and positive references. */
  predicate RecOk(r: Rec) {
    && r.refs > 0
    && (r.isImage ==> UserDesc(r.asked) && r.ds > 0 && r.desc == (if r.hasCanary then Expand(IMAGE_PAD, r.asked) else r.asked)
                      && r.size == Pixels(r.desc) * r.ds)
  }

  /** SVM allocations are never images and always have canaries; buffers of size 0 are rejected; only
      images are filed under the null handle. */
  predicate Fitting(n: Name, r: Rec) {
    && (n.Pointer? ==> !r.isImage && r.hasCanary)
    && (n.Buffer? && !r.isImage ==> r.size > 0)
    && (n == NULL_NAME ==> r.isImage)
  }

  predicate RecordOk(n: Name, r: Rec) { RecOk(r) && Fitting(n, r) && (n != NULL_NAME ==> Named(r)) }

  ghost predicate StatsOk(s: Stats) {
    && (forall n | n in s.live :: RecordOk(n, s.live[n]))
    && (forall n | n in s.hidden :: RecOk(s.hidden[n]) && n.Buffer? && !Named(s.hidden[n]))
    && s.hidden.Keys !! s.live.Keys && NULL_NAME !in s.hidden
  }

  /** What the driver says to the creation of an image. */
  datatype Answer = Made | FormatRejected | Refused

  class MemoryStats {
    var live: map<Name, Rec>
    ghost var hidden: map<Name, Rec>
    var totalUserMem: int
    var currentUserMem: int
    var highUserMem: int
    var totalOverheadMem: int
    var currentOverheadMem: int
    var highOverheadMem: int

    constructor ()
      ensures View() == START
    {
      live, hidden := map[], map[];
      totalUserMem, currentUserMem, highUserMem := 0, 0, 0;
      totalOverheadMem, currentOverheadMem, highOverheadMem := 0, 0, 0;
    }

    ghost function View(): Stats
      reads this
    {
      Stats(live, hidden, totalUserMem, currentUserMem, highUserMem, totalOverheadMem, currentOverheadMem, highOverheadMem)
    }

    method CountUser(bytes: int, internal: bool)
      modifies this
      ensures View() == old(View()).(totalUser := totalUserMem, currentUser := currentUserMem,
                                     totalOverhead := totalOverheadMem, currentOverhead := currentOverheadMem)
      ensures totalUserMem == old(totalUserMem) + (if internal then 0 else bytes)
      ensures currentUserMem == old(currentUserMem) + (if internal then 0 else bytes)
      ensures totalOverheadMem == old(totalOverheadMem) + (if internal then bytes else 0)
      ensures currentOverheadMem == old(currentOverheadMem) + (if internal then bytes else 0)
    {
      if internal {
        totalOverheadMem := totalOverheadMem + bytes;
        currentOverheadMem := currentOverheadMem + bytes;
      } else {
        totalUserMem := totalUserMem + bytes;
        currentUserMem := currentUserMem + bytes;
      }
    }

    method RaiseHighMarks()
      modifies `highUserMem, `highOverheadMem
      ensures highUserMem == MaxInt(old(highUserMem), currentUserMem)
      ensures highOverheadMem == MaxInt(old(highOverheadMem), currentOverheadMem)
    {
      highUserMem := if highUserMem > currentUserMem then highUserMem else currentUserMem;
      highOverheadMem := if highOverheadMem > currentOverheadMem then highOverheadMem else currentOverheadMem;
    }

    /** clCreateBuffer for a size that is not zero. */
    method CreateBuffer(handle: nat, size: nat, hostPtr: bool, internal: bool, created: bool)
      requires size > 0
      modifies this
      ensures View() == Apply(old(View()), Create(Buffer(handle), BufferRec(size, hostPtr, internal), created))
    {
      CountUser(size, internal);
      if !hostPtr {
        totalOverheadMem := totalOverheadMem + POISON_REGIONS * POISON_FILL_LENGTH;
        currentOverheadMem := currentOverheadMem + POISON_REGIONS * POISON_FILL_LENGTH;
      }
      RaiseHighMarks();
      if created { live := live[Buffer(handle) := BufferRec(size, hostPtr, internal)]; }
    }

    /** clCreateImage; with flatApi, clCreateImage2D or clCreateImage3D. Filling the canary of an image
        the driver did not create ends the process, except that the latter two do not try it when the
        format is rejected. */
    method CreateImage(handle: nat, d: Desc, ds: nat, hostPtr: bool, internal: bool, answer: Answer, flatApi: bool)
      returns (exits: bool)
      requires flatApi ==> d.kind.Image2D? || d.kind.Image3D?
      modifies this
      ensures exits <==> !hostPtr && !answer.Made? && !(flatApi && answer.FormatRejected?)
      ensures !exits ==> View() == Apply(old(View()), Create(Buffer(handle), ImageRec(d, ds, hostPtr, internal), answer.Made?))
    {
      exits := false;
      var imgSize := d.width * d.height * d.depth * d.arraySize * ds;
      CountUser(imgSize, internal);
      if !hostPtr {
        var e := Expand(IMAGE_PAD, d);
        var size := e.width * e.height * e.depth * e.arraySize * ds;
        totalOverheadMem := totalOverheadMem + (size - imgSize);
        currentOverheadMem := currentOverheadMem + (size - imgSize);
      }
      RaiseHighMarks();
      var key := 0;
      if !hostPtr {
        if answer.Made? { key := handle; }
        if !answer.Made? && !(flatApi && answer.FormatRejected?) { return true; }
      } else if answer.Made? {
        hidden := hidden[Buffer(handle) := ImageRec(d, ds, hostPtr, internal)];
      }
      if Buffer(key) !in live || (!hostPtr && answer.Made?) {
        live := live[Buffer(key) := ImageRec(d, ds, hostPtr, internal)];
      }
    }

    /** clSVMAlloc. */
    method SvmAlloc(handle: nat, size: nat, internal: bool, created: bool)
      modifies this
      ensures View() == Apply(old(View()), Create(Pointer(handle), SvmRec(size, internal), created))
    {
      if internal {
        totalOverheadMem := totalOverheadMem + (size + POISON_REGIONS * POISON_FILL_LENGTH);
        currentOverheadMem := currentOverheadMem + (size + POISON_REGIONS * POISON_FILL_LENGTH);
      } else {
        totalUserMem := totalUserMem + size;
        currentUserMem := currentUserMem + size;
        totalOverheadMem := totalOverheadMem + POISON_REGIONS * POISON_FILL_LENGTH;
        currentOverheadMem := currentOverheadMem + POISON_REGIONS * POISON_FILL_LENGTH;
      }
      RaiseHighMarks();
      if created { live := live[Pointer(handle) := SvmRec(size, internal)]; }
    }

    /** clRetainMemObject. */
    method RetainMemObject(handle: nat)
      modifies `live, `hidden
      ensures View() == Apply(old(View()), Retain(handle))
    {
      if Buffer(handle) in live {
        var findme := live[Buffer(handle)];
        live := live[Buffer(handle) := findme.(refs := findme.refs + 1)];
      } else if Buffer(handle) in hidden {
        hidden := WithRefs(hidden, Buffer(handle), hidden[Buffer(handle)].refs + 1);
      }
    }

    /** clReleaseMemObject, counting by the calling thread's mode. The user's size of an image is
        recovered by contracting the stored description. */
    method ReleaseMemObject(handle: nat, internal: bool)
      requires StatsOk(View())
      modifies this
      ensures View() == Apply(old(View()), Release(handle, internal))
    {
      if Buffer(handle) in live {
        var findme := live[Buffer(handle)];
        if findme.refs == 1 {
          if internal {
            currentOverheadMem := currentOverheadMem - findme.size;
            if !findme.isImage { currentOverheadMem := currentOverheadMem - POISON_REGIONS * POISON_FILL_LENGTH; }
          } else if !findme.hasCanary {
            currentUserMem := currentUserMem - findme.size;
          } else if findme.isImage {
            var (w, h, d, a) := Contract(IMAGE_PAD, findme.desc);
            ContractExpand(IMAGE_PAD, findme.asked);
            var imgSize := w * h * d * a * findme.ds;
            currentUserMem := currentUserMem - imgSize;
            currentOverheadMem := currentOverheadMem - (findme.size - imgSize);
          } else {
            currentUserMem := currentUserMem - findme.size;
            currentOverheadMem := currentOverheadMem - POISON_REGIONS * POISON_FILL_LENGTH;
          }
          live := live - {Buffer(handle)};
        } else {
          live := live[Buffer(handle) := findme.(refs := findme.refs - 1)];
        }
      } else if Buffer(handle) in hidden {
        hidden := if hidden[Buffer(handle)].refs <= 1 then hidden - {Buffer(handle)}
                  else WithRefs(hidden, Buffer(handle), hidden[Buffer(handle)].refs - 1);
      }
    }

    /** clSVMFree, counting by the calling thread's mode. */
    method SvmFree(handle: nat, internal: bool)
      requires StatsOk(View())
      modifies this
      ensures View() == Apply(old(View()), Op.FreeSvm(handle, internal))
    {
      if Pointer(handle) in live {
        var temp := live[Pointer(handle)];
        if internal {
          currentOverheadMem := currentOverheadMem - (temp.size + POISON_REGIONS * POISON_FILL_LENGTH);
        } else {
          currentUserMem := currentUserMem - temp.size;
          currentOverheadMem := currentOverheadMem - POISON_REGIONS * POISON_FILL_LENGTH;
        }
        live := live - {Pointer(handle)};
      }
    }
  }

  // ----- sums over the live objects -----

  ghost function Total(m: map<Name, int>): int
    decreases |m|
  {
    if m == map[] then 0 else var n :| n in m; m[n] + Total(m - {n})
  }

  /** The sum does not depend on the order in which it is taken. */
  lemma {:induction false} TotalWithout(m: map<Name, int>, n: Name)
    requires n in m
    ensures Total(m) == m[n] + Total(m - {n})
    decreases |m|
  {
    var k :| k in m && Total(m) == m[k] + Total(m - {k});
    if k != n {
      TotalWithout(m - {k}, n);
      TotalWithout(m - {n}, k);
      assert (m - {k}) - {n} == (m - {n}) - {k};
    }
  }

  lemma TotalWith(m: map<Name, int>, n: Name, v: int)
    ensures Total(m[n := v]) == Total(m) + v - (if n in m then m[n] else 0)
  {
    TotalWithout(m[n := v], n);
    if n in m {
      TotalWithout(m, n);
      assert m[n := v] - {n} == m - {n};
    } else {
      assert m[n := v] - {n} == m;
    }
  }

  /** The objects that exist: those in the table but for the null record, and those no record names. */
  function Existing(s: Stats): map<Name, Rec> { Joined(s.live, s.hidden) }

  function Joined(live: map<Name, Rec>, hidden: map<Name, Rec>): map<Name, Rec> { (live - {NULL_NAME}) + hidden }

  ghost function UserOf(m: map<Name, Rec>): map<Name, int> { map n | n in m :: UserBytes(m[n]) }

  ghost function OverheadOf(m: map<Name, Rec>): map<Name, int> { map n | n in m :: OverheadBytes(m[n]) }

  // ----- every run -----

  /** Handles of live objects are not handed out again, the null handle never, and creations record
      what the calls record. */
  ghost predicate OpOk(s: Stats, op: Op) {
    op.Create? ==>
      && op.name !in s.live && op.name !in s.hidden && op.name != NULL_NAME
      && RecOk(op.what) && op.what.refs == 1 && Fitting(op.name, op.what)
      && (!op.created && op.what.isImage && op.what.hasCanary ==> Survives(op.what.asked))
  }

  /** Only clCreateImage2D and clCreateImage3D return when an image with canary was not created. */
  predicate Survives(d: Desc) { d.kind.Image2D? || d.kind.Image3D? }

  /** How far a call moves the user's counter beyond the sum. */
  function DriftUser(s: Stats, op: Op): int {
    match op
    case Create(_, what, created) => if created then 0 else UserBytes(what)
    case Retain(_) => 0
    case Release(h, internal) =>
      if Drops(s, op, Buffer(h)) then DropDriftUser(s, Buffer(h), internal)
      else if Vanishes(s, op, Buffer(h)) then UserBytes(s.hidden[Buffer(h)]) else 0
    case FreeSvm(h, internal) => if Drops(s, op, Pointer(h)) then DropDriftUser(s, Pointer(h), internal) else 0
  }

  function DropDriftUser(s: Stats, n: Name, internal: bool): int
    requires n in s.live
  {
    (if n == NULL_NAME then 0 else UserBytes(s.live[n])) - TakenUser(s.live[n], internal)
  }

  /** ... and the detector's counter. */
  function DriftOverhead(s: Stats, op: Op): int {
    match op
    case Create(_, what, created) => if created then 0 else OverheadBytes(what)
    case Retain(_) => 0
    case Release(h, internal) =>
      if Drops(s, op, Buffer(h)) then DropDriftOverhead(s, Buffer(h), internal)
      else if Vanishes(s, op, Buffer(h)) then OverheadBytes(s.hidden[Buffer(h)]) else 0
    case FreeSvm(h, internal) => if Drops(s, op, Pointer(h)) then DropDriftOverhead(s, Pointer(h), internal) else 0
  }

  function DropDriftOverhead(s: Stats, n: Name, internal: bool): int
    requires n in s.live
  {
    (if n == NULL_NAME then 0 else OverheadBytes(s.live[n])) - TakenOverhead(s.live[n], internal)
  }

  lemma ApplyKeepsOk(s: Stats, op: Op)
    requires StatsOk(s) && OpOk(s, op)
    ensures StatsOk(Apply(s, op))
  {
    hide UserBytes, OverheadBytes, TakenUser, TakenOverhead, Counted, RecordOk;
    match op {
      case Create(name, what, created) => NewRecordOk(name, what);
      case Retain(h) => if Buffer(h) in s.live { CountedRecordOk(Buffer(h), s.live[Buffer(h)], s.live[Buffer(h)].refs + 1); }
      case Release(h, _) =>
        if Buffer(h) in s.live && s.live[Buffer(h)].refs > 1 {
          CountedRecordOk(Buffer(h), s.live[Buffer(h)], s.live[Buffer(h)].refs - 1);
        }
      case FreeSvm(_, _) =>
    }
    hide RecOk, Fitting;
  }

  lemma NewRecordOk(n: Name, r: Rec)
    requires RecOk(r) && Fitting(n, r)
    ensures Named(r) ==> RecordOk(n, r)
    ensures r.isImage ==> RecordOk(NULL_NAME, r)
  {
  }

  lemma CountedRecordOk(n: Name, r: Rec, refs: nat)
    requires RecordOk(n, r) && refs > 0
    ensures RecordOk(n, r.(refs := refs))
  {
  }

  lemma CreateExists(s: Stats, name: Name, what: Rec, created: bool)
    requires StatsOk(s) && OpOk(s, Create(name, what, created))
    ensures name !in Existing(s)
    ensures Existing(Apply(s, Create(name, what, created))) == if created then Existing(s)[name := what] else Existing(s)
  {
    hide RecOk, Fitting, RecordOk, Counted, UserBytes, OverheadBytes;
    var t := Apply(s, Create(name, what, created));
    assert t.live == Filed(s.live, name, what, created) && t.hidden == Hidden(s.hidden, name, what, created);
  }

  lemma RetainExists(s: Stats, h: nat)
    requires StatsOk(s)
    ensures var e, n := Existing(s), Buffer(h);
      Existing(Apply(s, Retain(h))) == if n in e then WithRefs(e, n, e[n].refs + 1) else e
  {
    hide RecOk, Fitting;
  }

  /** The existing objects after a release. */
  function AfterRelease(e: map<Name, Rec>, n: Name, gone: bool): map<Name, Rec> {
    if n !in e then e else if gone then e - {n} else if e[n].refs == 0 then e else WithRefs(e, n, e[n].refs - 1)
  }

  lemma TableChanged(live: map<Name, Rec>, hidden: map<Name, Rec>, n: Name, r: Rec)
    requires n in live && n !in hidden
    ensures Joined(live - {n}, hidden) == Joined(live, hidden) - {n}
    ensures Joined(live[n := r], hidden) == if n == NULL_NAME then Joined(live, hidden) else Joined(live, hidden)[n := r]
    ensures n == NULL_NAME ==> n !in Joined(live, hidden) && Joined(live, hidden) - {n} == Joined(live, hidden)
    ensures n != NULL_NAME ==> n in Joined(live, hidden) && Joined(live, hidden)[n] == live[n]
  {
  }

  lemma TableReleaseExists(s: Stats, h: nat, internal: bool)
    requires StatsOk(s) && Buffer(h) in s.live
    ensures var op := Release(h, internal);
      Existing(Apply(s, op)) == AfterRelease(Existing(s), Buffer(h), Drops(s, op, Buffer(h)))
  {
    hide Fitting, Named, TakenUser, TakenOverhead;
    var n, op := Buffer(h), Release(h, internal);
    assert s.live[n].refs > 0 && n !in s.hidden;
    hide RecOk, StatsOk, Joined;
    TableChanged(s.live, s.hidden, n, s.live[n].(refs := s.live[n].refs - 1));
  }

  lemma HiddenReleaseExists(s: Stats, h: nat, internal: bool)
    requires StatsOk(s) && Buffer(h) !in s.live
    ensures var op := Release(h, internal);
      Existing(Apply(s, op)) == AfterRelease(Existing(s), Buffer(h), Vanishes(s, op, Buffer(h)))
  {
    hide Fitting, Named, TakenUser, TakenOverhead;
    var n, op := Buffer(h), Release(h, internal);
    assert n in s.hidden ==> s.hidden[n].refs > 0;
    hide RecOk;
    var t := Apply(s, op);
    assert t.live == s.live;
  }

  lemma FreeExists(s: Stats, h: nat, internal: bool)
    requires StatsOk(s)
    ensures Existing(Apply(s, Op.FreeSvm(h, internal)))
         == if Drops(s, Op.FreeSvm(h, internal), Pointer(h)) then Existing(s) - {Pointer(h)} else Existing(s)
  {
    hide RecOk, Fitting, TakenUser, TakenOverhead;
  }

  /** How the two sums move, in all four cases. */
  ghost predicate SumsMove(e: map<Name, Rec>, f: map<Name, Rec>, user: int, overhead: int) {
    Total(UserOf(f)) == Total(UserOf(e)) + user && Total(OverheadOf(f)) == Total(OverheadOf(e)) + overhead
  }

  lemma AfterReleaseMoves(e: map<Name, Rec>, n: Name, gone: bool)
    ensures if n in e && gone then SumsMove(e, AfterRelease(e, n, gone), 0 - UserBytes(e[n]), 0 - OverheadBytes(e[n]))
            else SumsMove(e, AfterRelease(e, n, gone), 0, 0)
  {
    hide Total, UserOf, OverheadOf, UserBytes, OverheadBytes;
    if n in e {
      Removed(e, n);
      if e[n].refs > 0 { Recounted(e, n, e[n].refs - 1); }
    }
  }

  lemma ReleaseMoves(s: Stats, h: nat, internal: bool)
    requires StatsOk(s)
    ensures var e, n, op := Existing(s), Buffer(h), Release(h, internal);
      if n in e && (Drops(s, op, n) || Vanishes(s, op, n))
      then SumsMove(e, Existing(Apply(s, op)), 0 - UserBytes(e[n]), 0 - OverheadBytes(e[n]))
      else SumsMove(e, Existing(Apply(s, op)), 0, 0)
  {
    hide SumsMove, UserBytes, OverheadBytes, Apply, Existing, StatsOk, AfterRelease;
    var n, op := Buffer(h), Release(h, internal);
    if n in s.live {
      TableReleaseExists(s, h, internal);
      AfterReleaseMoves(Existing(s), n, Drops(s, op, n));
    } else {
      HiddenReleaseExists(s, h, internal);
      AfterReleaseMoves(Existing(s), n, Vanishes(s, op, n));
    }
  }

  lemma ExistingRefs(s: Stats, n: Name)
    requires StatsOk(s) && n in Existing(s)
    ensures Existing(s)[n].refs > 0
    ensures Existing(s)[n] == if n in s.hidden then s.hidden[n] else s.live[n]
  {
  }

  lemma OtherMoves(s: Stats, op: Op)
    requires StatsOk(s) && OpOk(s, op) && !op.Release?
    ensures var e, f := Existing(s), Existing(Apply(s, op));
      match op
      case Create(_, what, created) => SumsMove(e, f, if created then UserBytes(what) else 0, if created then OverheadBytes(what) else 0)
      case Retain(_) => SumsMove(e, f, 0, 0)
      case Release(_, _) => true
      case FreeSvm(h, _) =>
        var n := Pointer(h);
        if Drops(s, op, n) then n in s.live && SumsMove(e, f, 0 - UserBytes(s.live[n]), 0 - OverheadBytes(s.live[n]))
        else SumsMove(e, f, 0, 0)
  {
    hide Total, UserOf, OverheadOf, UserBytes, OverheadBytes, RecOk, Apply, Fitting;
    var e := Existing(s);
    match op {
      case Create(name, what, created) =>
        CreateExists(s, name, what, created);
        Recorded(e, name, what);
      case Retain(h) =>
        RetainExists(s, h);
        if Buffer(h) in e { Recounted(e, Buffer(h), e[Buffer(h)].refs + 1); }
      case FreeSvm(h, internal) =>
        FreeExists(s, h, internal);
        if Drops(s, op, Pointer(h)) { ExistingPointer(s, h); Removed(e, Pointer(h)); }
      case _ =>
    }
  }

  lemma ExistingPointer(s: Stats, h: nat)
    requires StatsOk(s) && Pointer(h) in s.live
    ensures Pointer(h) in Existing(s) && Existing(s)[Pointer(h)] == s.live[Pointer(h)]
  {
  }

  /** What a call does to a counter less what it does to the sum is its drift. */
  lemma ApplyMoves(s: Stats, op: Op)
    requires StatsOk(s) && OpOk(s, op)
    ensures var e, f := Existing(s), Existing(Apply(s, op)); var t := Apply(s, op);
      && t.currentUser - Total(UserOf(f)) == s.currentUser - Total(UserOf(e)) + DriftUser(s, op)
      && t.currentOverhead - Total(OverheadOf(f)) == s.currentOverhead - Total(OverheadOf(e)) + DriftOverhead(s, op)
  {
    hide Total, UserOf, OverheadOf, UserBytes, OverheadBytes, TakenUser, TakenOverhead, RecOk, Fitting;
    match op {
      case Release(h, internal) =>
        ReleaseMoves(s, h, internal);
        if Buffer(h) in Existing(s) { ExistingRefs(s, Buffer(h)); }
      case _ => OtherMoves(s, op);
    }
  }

  lemma Recorded(m: map<Name, Rec>, n: Name, r: Rec)
    requires n !in m
    ensures Total(UserOf(m[n := r])) == Total(UserOf(m)) + UserBytes(r)
    ensures Total(OverheadOf(m[n := r])) == Total(OverheadOf(m)) + OverheadBytes(r)
  {
    assert UserOf(m[n := r]) == UserOf(m)[n := UserBytes(r)];
    assert OverheadOf(m[n := r]) == OverheadOf(m)[n := OverheadBytes(r)];
    TotalWith(UserOf(m), n, UserBytes(r));
    TotalWith(OverheadOf(m), n, OverheadBytes(r));
  }

  lemma Recounted(m: map<Name, Rec>, n: Name, refs: nat)
    requires n in m
    ensures UserOf(WithRefs(m, n, refs)) == UserOf(m) && OverheadOf(WithRefs(m, n, refs)) == OverheadOf(m)
  {
  }

  lemma Removed(m: map<Name, Rec>, n: Name)
    requires n in m
    ensures Total(UserOf(m - {n})) == Total(UserOf(m)) - UserBytes(m[n])
    ensures Total(OverheadOf(m - {n})) == Total(OverheadOf(m)) - OverheadBytes(m[n])
  {
    assert UserOf(m - {n}) == UserOf(m) - {n};
    assert OverheadOf(m - {n}) == OverheadOf(m) - {n};
    TotalWithout(UserOf(m), n);
    TotalWithout(OverheadOf(m), n);
  }

  /** The state after a run, and the greatest counter values any state of it has had. */
  function Run(s: Stats, ops: seq<Op>): Stats
    decreases |ops|
  {
    if ops == [] then s else Apply(Run(s, ops[..|ops| - 1]), ops[|ops| - 1])
  }

  function MostUser(s: Stats, ops: seq<Op>): int
    decreases |ops|
  {
    if ops == [] then s.currentUser else MaxInt(MostUser(s, ops[..|ops| - 1]), Run(s, ops).currentUser)
  }

  function MostOverhead(s: Stats, ops: seq<Op>): int
    decreases |ops|
  {
    if ops == [] then s.currentOverhead else MaxInt(MostOverhead(s, ops[..|ops| - 1]), Run(s, ops).currentOverhead)
  }

  function DriftUserIn(s: Stats, ops: seq<Op>): int
    decreases |ops|
  {
    if ops == [] then 0
    else DriftUserIn(s, ops[..|ops| - 1]) + DriftUser(Run(s, ops[..|ops| - 1]), ops[|ops| - 1])
  }

  function DriftOverheadIn(s: Stats, ops: seq<Op>): int
    decreases |ops|
  {
    if ops == [] then 0
    else DriftOverheadIn(s, ops[..|ops| - 1]) + DriftOverhead(Run(s, ops[..|ops| - 1]), ops[|ops| - 1])
  }

  ghost predicate RunOk(s: Stats, ops: seq<Op>)
    decreases |ops|
  {
    ops == [] || (RunOk(s, ops[..|ops| - 1]) && OpOk(Run(s, ops[..|ops| - 1]), ops[|ops| - 1]))
  }

  /** Expansion never shrinks an image. */
  lemma PayloadFits(r: Rec)
    requires RecOk(r)
    ensures 0 <= Payload(r) <= AllBytes(r) && OverheadBytes(r) >= 0
  {
    if r.isImage && r.hasCanary {
      var d, e := r.asked, r.desc;
      Arithmetic.MulMono(d.width, e.width, d.height);
      Arithmetic.MulMono(d.height, e.height, e.width);
      Arithmetic.MulMono(d.width * d.height, e.width * e.height, d.depth);
      Arithmetic.MulMono(d.depth, e.depth, e.width * e.height);
      Arithmetic.MulMono(d.width * d.height * d.depth, e.width * e.height * e.depth, d.arraySize);
      Arithmetic.MulMono(d.arraySize, e.arraySize, e.width * e.height * e.depth);
      Arithmetic.MulMono(Pixels(d), Pixels(e), r.ds);
    }
  }

  lemma ImagePayloadPositive(r: Rec)
    requires RecOk(r) && r.isImage
    ensures Payload(r) > 0
  {
    var d := r.asked;
    Arithmetic.MulMono(1, d.width, 1);
    Arithmetic.MulMono(1, d.height, d.width);
    Arithmetic.MulMono(1, d.depth, d.width * d.height);
    Arithmetic.MulMono(1, d.arraySize, d.width * d.height * d.depth);
    Arithmetic.MulMono(1, r.ds, Pixels(d));
  }

  /** The marks follow the counters, which only creation raises. */
  lemma ApplyHigh(s: Stats, op: Op)
    requires StatsOk(s) && OpOk(s, op)
    ensures var t := Apply(s, op);
      if op.Create? then t.highUser == MaxInt(s.highUser, t.currentUser) && t.highOverhead == MaxInt(s.highOverhead, t.currentOverhead)
      else t.highUser == s.highUser && t.currentUser <= s.currentUser
           && t.highOverhead == s.highOverhead && t.currentOverhead <= s.currentOverhead
  {
    match op {
      case Create(_, _, _) =>
      case Retain(_) =>
      case Release(h, _) => if Buffer(h) in s.live { PayloadFits(s.live[Buffer(h)]); }
      case FreeSvm(h, _) => if Pointer(h) in s.live { PayloadFits(s.live[Pointer(h)]); }
    }
  }

  /** Over every run the current counters are the sums over the existing objects plus the drift of the
      calls made, and the high-water marks are the greatest values the counters have had. */
  lemma {:induction false} CountersAreSums(ops: seq<Op>)
    requires RunOk(START, ops)
    ensures var s := Run(START, ops);
      && StatsOk(s)
      && s.currentUser == Total(UserOf(Existing(s))) + DriftUserIn(START, ops)
      && s.currentOverhead == Total(OverheadOf(Existing(s))) + DriftOverheadIn(START, ops)
      && s.highUser == MostUser(START, ops) && s.highOverhead == MostOverhead(START, ops)
    decreases |ops|
  {
    if ops == [] {
      assert Existing(START) == map[] && UserOf(map[]) == map[] && OverheadOf(map[]) == map[];
    } else {
      var before := ops[..|ops| - 1];
      CountersAreSums(before);
      ApplyKeepsOk(Run(START, before), ops[|ops| - 1]);
      ApplyMoves(Run(START, before), ops[|ops| - 1]);
      ApplyHigh(Run(START, before), ops[|ops| - 1]);
    }
  }

  /** After one call the marks bound the counters, and either stay or are the counters. */
  lemma MarksStep(s: Stats, op: Op)
    requires StatsOk(s) && OpOk(s, op) && s.currentUser <= s.highUser && s.currentOverhead <= s.highOverhead
    ensures var t := Apply(s, op);
      && t.currentUser <= t.highUser && (t.highUser == t.currentUser || t.highUser == s.highUser)
      && t.highUser >= s.highUser
      && t.currentOverhead <= t.highOverhead
      && (t.highOverhead == t.currentOverhead || t.highOverhead == s.highOverhead)
      && t.highOverhead >= s.highOverhead
  {
    hide Apply, StatsOk, OpOk;
    ApplyHigh(s, op);
  }

  /** State j of the run, and the states in which the counters reached their marks. */
  ghost predicate MarksOver(ops: seq<Op>, j: nat, a: nat, b: nat)
    requires j <= |ops| && a <= |ops| && b <= |ops|
  {
    var s := Run(START, ops);
    && Run(START, ops[..j]).currentUser <= s.highUser == Run(START, ops[..a]).currentUser
    && Run(START, ops[..j]).currentOverhead <= s.highOverhead == Run(START, ops[..b]).currentOverhead
  }

  /** Over every run the marks bound the counters of all its states, and each is the counter of one. */
  lemma {:induction false} MarksAreMaxima(ops: seq<Op>, j: nat) returns (a: nat, b: nat)
    requires RunOk(START, ops) && j <= |ops|
    ensures a <= |ops| && b <= |ops| && MarksOver(ops, j, a, b)
    decreases |ops|, |ops| - j
  {
    hide RunOk, Run, Apply, StatsOk, OpOk;
    Prefixes(ops, |ops|, 0);
    if ops == [] {
      NothingExists();
      return 0, 0;
    }
    var n := |ops| - 1;
    RunOkBefore(ops);
    var i := if j <= n then j else n;
    a, b := MarksAreMaxima(ops[..n], i);
    var c, d := MarksAreMaxima(ops[..n], n);
    Prefixes(ops, n, i);
    Prefixes(ops, n, a);
    Prefixes(ops, n, b);
    Prefixes(ops, n, n);
    MarksStep(Run(START, ops[..n]), ops[n]);
    RunUnfolds(ops);
    if Run(START, ops).highUser != Run(START, ops[..n]).highUser { a := |ops|; }
    if Run(START, ops).highOverhead != Run(START, ops[..n]).highOverhead { b := |ops|; }
  }

  lemma Prefixes(ops: seq<Op>, n: nat, k: nat)
    requires k <= n <= |ops|
    ensures ops[..n][..k] == ops[..k] && ops[..|ops|] == ops
  {
  }

  lemma RunUnfolds(ops: seq<Op>)
    requires ops != []
    ensures Run(START, ops) == Apply(Run(START, ops[..|ops| - 1]), ops[|ops| - 1])
  {
    hide Apply;
  }

  lemma RunOkBefore(ops: seq<Op>)
    requires RunOk(START, ops) && ops != []
    ensures RunOk(START, ops[..|ops| - 1]) && OpOk(Run(START, ops[..|ops| - 1]), ops[|ops| - 1])
    ensures StatsOk(Run(START, ops[..|ops| - 1]))
  {
    hide StatsOk, OpOk, Total, UserOf, OverheadOf;
    CountersAreSums(ops[..|ops| - 1]);
  }

  /** Bytes asked for by all creations of the run, refused ones included. */
  function AskedUser(ops: seq<Op>): nat
    decreases |ops|
  {
    if ops == [] then 0
    else AskedUser(ops[..|ops| - 1]) + if ops[|ops| - 1].Create? then UserBytes(ops[|ops| - 1].what) else 0
  }

  function AskedAll(ops: seq<Op>): nat
    decreases |ops|
  {
    if ops == [] then 0
    else AskedAll(ops[..|ops| - 1]) + if ops[|ops| - 1].Create? then AllBytes(ops[|ops| - 1].what) else 0
  }

  /** The totals never go down: they are what the run has asked for. */
  lemma {:induction false} TotalsAreAsked(ops: seq<Op>)
    ensures Run(START, ops).totalUser == AskedUser(ops)
    ensures Run(START, ops).totalUser + Run(START, ops).totalOverhead == AskedAll(ops)
    decreases |ops|
  {
    if ops != [] {
      TotalsAreAsked(ops[..|ops| - 1]);
      hide UserBytes, AllBytes, TakenUser, TakenOverhead, Filed, Hidden;
    }
  }

  /** What is counted for a buffer or allocation with canaries is the storage it takes. */
  lemma BufferStorageCounted(buf: Buf, internal: bool)
    ensures var b, a := BufferRec(buf.size, false, internal), SvmRec(buf.size, internal);
      && UserBytes(b) + OverheadBytes(b) == UserBytes(a) + OverheadBytes(a) == End(buf) - buf.base
      && UserBytes(b) == UserBytes(a) == if internal then 0 else buf.size
    ensures var h := BufferRec(buf.size, true, internal);
      UserBytes(h) + OverheadBytes(h) == buf.size && UserBytes(h) == if internal then 0 else buf.size
  {
  }

  /** ... and for an image with canary, the bytes of its expanded extent; the user's are those of his. */
  lemma ImageStorageCounted(d: Desc, ds: nat, internal: bool)
    requires UserDesc(d)
    ensures var m, r := PicDims(d), ImageRec(d, ds, false, internal);
      && UserBytes(r) + OverheadBytes(r) == m.iLim * m.jLim * m.kLim * ds
      && UserBytes(r) == if internal then 0 else m.iDat * m.jDat * m.kDat * ds
    ensures var m, r := PicDims(d), ImageRec(d, ds, true, internal);
      UserBytes(r) + OverheadBytes(r) == m.iDat * m.jDat * m.kDat * ds
  {
    ExpandedDims(IMAGE_PAD, d);
  }

  // ----- what the calls say exists -----

  /** References the user holds to what he created under n: one when created, one more for each retain,
      one less for each release. */
  function References(ops: seq<Op>, n: Name): nat
    decreases |ops|
  {
    if ops == [] then 0
    else
      var before := References(ops[..|ops| - 1], n);
      match ops[|ops| - 1]
      case Create(name, _, created) => if name == n && created then 1 else before
      case Retain(h) => if n == Buffer(h) && before > 0 then before + 1 else before
      case Release(h, _) => if n == Buffer(h) && before > 0 then before - 1 else before
      case FreeSvm(h, _) => if n == Pointer(h) then 0 else before
  }

  /** The last thing created under n. */
  function MadeAs(ops: seq<Op>, n: Name): Option<Rec>
    decreases |ops|
  {
    if ops == [] then None
    else match ops[|ops| - 1]
      case Create(name, what, created) => if name == n && created then Some(what) else MadeAs(ops[..|ops| - 1], n)
      case _ => MadeAs(ops[..|ops| - 1], n)
  }

  /** In every run an object exists, in the table or behind it, while the user holds references to it,
      with that many; the table has it unless it is an image over host memory. */
  lemma {:induction false} ReferencesAreCounted(ops: seq<Op>, n: Name)
    requires RunOk(START, ops) && n != NULL_NAME
    ensures var e := Existing(Run(START, ops));
      && (n in e <==> References(ops, n) > 0)
      && (n in e ==> MadeAs(ops, n).Some? && e[n] == MadeAs(ops, n).value.(refs := References(ops, n)))
      && (n in Run(START, ops).live <==> n in e && Named(e[n]))
    decreases |ops|
  {
    hide Apply, Existing, Run, RunOk, StatsOk, Named, OpOk;
    if ops != [] {
      var before, op := ops[..|ops| - 1], ops[|ops| - 1];
      RunOkBefore(ops);
      ReferencesAreCounted(before, n);
      ObjectAfter(Run(START, before), op, n);
      RunUnfolds(ops);
      ApplyKeepsOk(Run(START, before), op);
      InTableIffNamed(Run(START, ops), n);
    } else {
      NothingExists();
    }
  }

  lemma NothingExists()
    ensures Run(START, []) == START && Existing(START) == map[]
  {
  }

  /** What one call does to the object under n. */
  ghost predicate Follows(e: map<Name, Rec>, op: Op, f: map<Name, Rec>, n: Name) {
    match op
    case Create(name, what, created) =>
      if name == n && created then n !in e && n in f && f[n] == what && what.refs == 1
      else (n in f <==> n in e) && (n in e ==> f[n] == e[n])
    case Retain(h) =>
      (n in f <==> n in e) && (n in e ==> f[n] == if n == Buffer(h) then e[n].(refs := e[n].refs + 1) else e[n])
    case Release(h, _) =>
      if n == Buffer(h) && n in e && e[n].refs == 1 then n !in f
      else (n in f <==> n in e)
           && (n in e ==> if n == Buffer(h) then e[n].refs > 1 && f[n] == e[n].(refs := e[n].refs - 1) else f[n] == e[n])
    case FreeSvm(h, _) =>
      if n == Pointer(h) then n !in f else (n in f <==> n in e) && (n in e ==> f[n] == e[n])
  }

  lemma ObjectAfter(s: Stats, op: Op, n: Name)
    requires StatsOk(s) && OpOk(s, op) && n != NULL_NAME
    ensures Follows(Existing(s), op, Existing(Apply(s, op)), n)
  {
    hide StatsOk, OpOk, RecOk, Fitting, Apply, Existing, Drops, Vanishes;
    match op {
      case Create(name, what, created) => CreateExists(s, name, what, created); CreatedOnce(s, op);
      case Retain(h) => RetainExists(s, h);
      case Release(h, internal) =>
        if n in Existing(s) { ExistingRefs(s, n); }
        if Buffer(h) in s.live { TableReleaseExists(s, h, internal); } else { HiddenReleaseExists(s, h, internal); }
        if n == Buffer(h) && n in Existing(s) { ReleasedRefs(s, h, internal, n); }
      case FreeSvm(h, internal) => FreeExists(s, h, internal); FreedPointer(s, h, internal);
    }
  }

  lemma CreatedOnce(s: Stats, op: Op)
    requires OpOk(s, op) && op.Create?
    ensures op.what.refs == 1
  {
  }

  lemma InTableIffNamed(s: Stats, n: Name)
    requires StatsOk(s) && n != NULL_NAME
    ensures n in s.live <==> n in Existing(s) && Named(Existing(s)[n])
  {
  }

  /** The object goes when its last reference does. */
  lemma ReleasedRefs(s: Stats, h: nat, internal: bool, n: Name)
    requires StatsOk(s) && n != NULL_NAME && n == Buffer(h) && n in Existing(s)
    ensures var gone := if n in s.live then Drops(s, Release(h, internal), n) else Vanishes(s, Release(h, internal), n);
      gone <==> Existing(s)[n].refs == 1
  {
  }

  lemma FreedPointer(s: Stats, h: nat, internal: bool)
    requires StatsOk(s)
    ensures Drops(s, Op.FreeSvm(h, internal), Pointer(h)) <==> Pointer(h) in Existing(s)
  {
  }

  /** References to the null record, and what it describes: the first image without record of its own
      since the last of them went. */
  function NullReferences(ops: seq<Op>): nat
    decreases |ops|
  {
    if ops == [] then 0
    else
      var before := NullReferences(ops[..|ops| - 1]);
      match ops[|ops| - 1]
      case Create(_, what, created) => if before == 0 && Nameless(what, created) then 1 else before
      case Retain(h) => if h == 0 && before > 0 then before + 1 else before
      case Release(h, _) => if h == 0 && before > 0 then before - 1 else before
      case FreeSvm(_, _) => before
  }

  /** An image over host memory, or one the driver did not make. */
  predicate Nameless(what: Rec, created: bool) { what.isImage && !(created && what.hasCanary) }

  function NullMadeAs(ops: seq<Op>): Option<Rec>
    decreases |ops|
  {
    if ops == [] then None
    else match ops[|ops| - 1]
      case Create(_, what, created) =>
        if NullReferences(ops[..|ops| - 1]) == 0 && Nameless(what, created) then Some(what)
        else NullMadeAs(ops[..|ops| - 1])
      case _ => NullMadeAs(ops[..|ops| - 1])
  }

  /** In every run the null record is there while references to it are counted. */
  lemma {:induction false} NullRecordIs(ops: seq<Op>)
    requires RunOk(START, ops)
    ensures var live := Run(START, ops).live;
      && (NULL_NAME in live <==> NullReferences(ops) > 0)
      && (NULL_NAME in live ==>
            NullMadeAs(ops).Some? && live[NULL_NAME] == NullMadeAs(ops).value.(refs := NullReferences(ops)))
    decreases |ops|
  {
    hide Apply, Run, RunOk, StatsOk, OpOk;
    if ops != [] {
      RunOkBefore(ops);
      NullRecordIs(ops[..|ops| - 1]);
      NullRecordAfter(Run(START, ops[..|ops| - 1]), ops[|ops| - 1]);
      RunUnfolds(ops);
    } else {
      NothingExists();
    }
  }

  /** What one call does to the null record. */
  ghost predicate NullFollows(l: map<Name, Rec>, op: Op, m: map<Name, Rec>) {
    var n := NULL_NAME;
    match op
    case Create(_, what, created) =>
      if n !in l && Nameless(what, created) then n in m && m[n] == what && what.refs == 1
      else (n in m <==> n in l) && (n in l ==> m[n] == l[n])
    case Retain(h) => (n in m <==> n in l) && (n in l ==> m[n] == if h == 0 then l[n].(refs := l[n].refs + 1) else l[n])
    case Release(h, _) =>
      if h == 0 && n in l && l[n].refs == 1 then n !in m
      else (n in m <==> n in l)
           && (n in l ==> l[n].refs > 0 && m[n] == if h == 0 then l[n].(refs := l[n].refs - 1) else l[n])
    case FreeSvm(_, _) => (n in m <==> n in l) && (n in l ==> m[n] == l[n])
  }

  lemma NullRecordAfter(s: Stats, op: Op)
    requires StatsOk(s) && OpOk(s, op)
    ensures NullFollows(s.live, op, Apply(s, op).live)
  {
    hide Counted, UserBytes, OverheadBytes, TakenUser, TakenOverhead, Fitting;
    assert NULL_NAME in s.live ==> s.live[NULL_NAME].refs > 0;
    hide StatsOk, RecOk;
  }

  // ----- which calls drift -----

  /** Creations that succeed or ask for nothing, and last releases in the mode of the creation: but not
      of images over host memory, of the detector's own host-pointer buffers, or of the null record. */
  predicate Harmless(s: Stats, op: Op) {
    match op
    case Create(_, what, created) => created || AllBytes(what) == 0
    case Retain(_) => true
    case Release(h, internal) =>
      && !Vanishes(s, op, Buffer(h))
      && (Drops(s, op, Buffer(h)) ==>
        && Buffer(h) != NULL_NAME && s.live[Buffer(h)].detectorInternal == internal
        && (internal ==> s.live[Buffer(h)].hasCanary || s.live[Buffer(h)].isImage))
    case FreeSvm(h, internal) =>
      Drops(s, op, Pointer(h)) ==> s.live[Pointer(h)].detectorInternal == internal || s.live[Pointer(h)].size == 0
  }

  lemma DriftsUnlessHarmless(s: Stats, op: Op)
    requires StatsOk(s) && OpOk(s, op)
    ensures DriftUser(s, op) == 0 && DriftOverhead(s, op) == 0 <==> Harmless(s, op)
  {
    match op {
      case Create(_, what, _) => PayloadFits(what);
      case Retain(_) =>
      case Release(h, internal) =>
        if Buffer(h) in s.live { DropDrifts(s, Buffer(h), internal); }
        if Buffer(h) in s.hidden { ImagePayloadPositive(s.hidden[Buffer(h)]); PayloadFits(s.hidden[Buffer(h)]); }
      case FreeSvm(h, internal) => if Pointer(h) in s.live { DropDrifts(s, Pointer(h), internal); }
    }
  }

  lemma DropDrifts(s: Stats, n: Name, internal: bool)
    requires n in s.live && RecOk(s.live[n]) && Fitting(n, s.live[n])
    ensures DropDriftUser(s, n, internal) == 0 && DropDriftOverhead(s, n, internal) == 0
       <==> && n != NULL_NAME
            && (s.live[n].detectorInternal == internal || (n.Pointer? && s.live[n].size == 0))
            && (internal ==> s.live[n].hasCanary || s.live[n].isImage)
  {
    var r := s.live[n];
    PayloadFits(r);
    if r.isImage { ImagePayloadPositive(r); }
  }

  predicate HarmlessSoFar(s: Stats, ops: seq<Op>)
    decreases |ops|
  {
    ops == [] || (HarmlessSoFar(s, ops[..|ops| - 1]) && Harmless(Run(s, ops[..|ops| - 1]), ops[|ops| - 1]))
  }

  ghost predicate Exact(s: Stats) {
    s.currentUser == Total(UserOf(Existing(s))) && s.currentOverhead == Total(OverheadOf(Existing(s)))
  }

  ghost predicate ExactThroughout(s: Stats, ops: seq<Op>)
    decreases |ops|
  {
    Exact(Run(s, ops)) && (ops == [] || ExactThroughout(s, ops[..|ops| - 1]))
  }

  /** The counters are right after every call of a run if and only if every call is harmless. */
  lemma {:induction false} ExactIffHarmless(ops: seq<Op>)
    requires RunOk(START, ops)
    ensures ExactThroughout(START, ops) <==> HarmlessSoFar(START, ops)
    decreases |ops|
  {
    hide Harmless, DriftUser, DriftOverhead, Total, UserOf, OverheadOf, StatsOk, OpOk, Existing, Apply, MostUser,
         MostOverhead;
    CountersAreSums(ops);
    if ops != [] {
      var before := ops[..|ops| - 1];
      ExactIffHarmless(before);
      CountersAreSums(before);
      DriftsUnlessHarmless(Run(START, before), ops[|ops| - 1]);
    }
  }

  /** One call from the start. */
  lemma RunOne(op: Op)
    ensures Run(START, [op]) == Apply(START, op)
  {
    assert [op][..0] == [];
    assert Run(START, []) == START;
  }

  lemma RunTwo(first: Op, second: Op)
    ensures Run(START, [first, second]) == Apply(Apply(START, first), second)
  {
    assert [first, second][..1] == [first];
    RunOne(first);
  }

  /** An allocation the driver refuses stays counted. */
  lemma FailedAllocationStaysCounted(h: nat, size: nat)
    ensures var s := Run(START, [Create(Pointer(h), SvmRec(size, false), false)]);
      s.live == map[] && s.currentUser == size && s.currentOverhead == CANARY_LENGTH
  {
    RunOne(Create(Pointer(h), SvmRec(size, false), false));
  }

  /** The SVM copies of canaries, made by the checking thread and freed by the driver's callback thread. */
  lemma CallbackFreeDrifts(h: nat, size: nat)
    ensures var s := Run(START, [Create(Pointer(h), SvmRec(size, true), true), Op.FreeSvm(h, false)]);
      s.live == map[] && s.currentUser == 0 - size && s.currentOverhead == size
  {
    RunTwo(Create(Pointer(h), SvmRec(size, true), true), Op.FreeSvm(h, false));
    hide Run;
  }

  /** The host-pointer buffers of a copy between contexts: a canary they never had is taken off. */
  lemma InternalHostBufferDrifts(h: nat, size: nat)
    ensures var s := Run(START, [Create(Buffer(h), BufferRec(size, true, true), true), Release(h, true)]);
      s.live == map[] && s.currentOverhead == 0 - CANARY_LENGTH
  {
    RunTwo(Create(Buffer(h), BufferRec(size, true, true), true), Release(h, true));
    hide Run;
  }

  /** An image over host memory, created and released: no record has its handle, so its bytes stay
      counted though nothing exists any more. */
  lemma HostImageDrifts(h: nat, d: Desc, ds: nat)
    requires h > 0 && UserDesc(d) && ds > 0
    ensures var ops := [Create(Buffer(h), ImageRec(d, ds, true, false), true), Release(h, false)];
      var s := Run(START, ops);
      && RunOk(START, ops) && Existing(s) == map[] && s.currentUser == Pixels(d) * ds > 0
  {
    var first, second := Create(Buffer(h), ImageRec(d, ds, true, false), true), Release(h, false);
    RunTwo(first, second);
    RunOne(first);
    ImagePayloadPositive(ImageRec(d, ds, true, false));
    assert [first, second][..1] == [first] && [first][..0] == [];
    assert RunOk(START, [first]) by { assert RunOk(START, []); }
    hide Run, Pixels;
  }

  /** Releasing the null handle takes off what an image over host memory, created or not, left counted. */
  lemma NullReleaseDriftsBack(h: nat, d: Desc, ds: nat, created: bool)
    ensures var s := Run(START, [Create(Buffer(h), ImageRec(d, ds, true, false), created), Release(0, false)]);
      s.live == map[] && s.currentUser == 0 && s.currentOverhead == 0
  {
    RunTwo(Create(Buffer(h), ImageRec(d, ds, true, false), created), Release(0, false));
    hide Run, Pixels;
  }
}
