/** The list of linear objects a check visits, and what it has to do with the launch's reach. */
module CheckLists {
  import opened Canary
  import opened LinearBuffers
  import opened KernelArgs
  import opened RunModel

  function BufferNames(handles: seq<nat>): (l: seq<Name>)
    ensures |l| == |handles| && forall i | 0 <= i < |l| :: l[i] == Buffer(handles[i])
  {
    seq(|handles|, i requires 0 <= i < |handles| => Buffer(handles[i]))
  }

  function PointerNames(handles: seq<nat>): (l: seq<Name>)
    ensures |l| == |handles| && forall i | 0 <= i < |l| :: l[i] == Pointer(handles[i])
  {
    seq(|handles|, i requires 0 <= i < |handles| => Pointer(handles[i]))
  }

  function SvmPart(args: seq<Arg>, svms: seq<SvmObject>): seq<nat> {
    if AnySvm(args, |args|) then UserSvm(svms, |svms|) else []
  }

  /** buffer_ptrs: the distinct buffers among the arguments, then the SVM allocations. */
  function Names(args: seq<Arg>, dupe: seq<nat>, svms: seq<SvmObject>): seq<Name>
    requires |dupe| == |args|
  {
    BufferNames(Unique(args, dupe, |args|, false)) + PointerNames(SvmPart(args, svms))
  }

  ghost predicate AllDifferent(l: seq<Name>) {
    forall i, j | 0 <= i < j < |l| :: l[i] != l[j]
  }

  /** The list holds exactly the linear objects the launch can reach ... */
  lemma NamesAreReached(s: State, args: seq<Arg>, dupe: seq<nat>, n: Name)
    requires IsDupe(args, dupe) && Consistent(args)
    ensures n in Names(args, dupe, s.svms) <==> Reaches(s, args, n)
  {
    var b, p := Unique(args, dupe, |args|, false), SvmPart(args, s.svms);
    CollectsEachObjectOnce(args, dupe, false, n.handle);
    CollectsUserSvm(s.svms, |s.svms|, n.handle);
    match n {
      case Buffer(h) => if h in b { var i :| 0 <= i < |b| && b[i] == h; assert BufferNames(b)[i] == n; }
      case Pointer(h) => if h in p { var i :| 0 <= i < |p| && p[i] == h; assert PointerNames(p)[i] == n; }
    }
  }

  /** ... each once. */
  lemma NamesDiffer(args: seq<Arg>, dupe: seq<nat>, svms: seq<SvmObject>)
    requires IsDupe(args, dupe) && forall i, j | 0 <= i < j < |svms| :: svms[i].handle != svms[j].handle
    ensures AllDifferent(Names(args, dupe, svms))
  {
    UniqueNoDuplicates(args, dupe, |args|, false);
    UserSvmNoDuplicates(svms, |svms|);
  }

  /** Where the listed objects lie. */
  function BufsOf(lin: map<Name, Buf>, l: seq<Name>): (bufs: seq<Buf>)
    requires forall n | n in l :: n in lin
    ensures |bufs| == |l| && forall i | 0 <= i < |l| :: bufs[i] == lin[l[i]]
  {
    seq(|l|, i requires 0 <= i < |l| => assert l[i] in l; lin[l[i]])
  }

  lemma BufsSeparate(s: State, l: seq<Name>)
    requires Valid(s) && AllDifferent(l) && forall n | n in l :: n in s.lin
    ensures Separate(BufsOf(s.lin, l), |s.mem|)
  {
  }

  /** A canary of the list is a canary the launch can reach. */
  lemma ListedCanary(s: State, args: seq<Arg>, l: seq<Name>, a: nat)
    requires forall n | n in l :: n in s.lin
    requires forall n | n in s.lin :: n in l <==> Reaches(s, args, n)
    ensures InSomeCanary(BufsOf(s.lin, l), a) <==> ReachedCanary(s, args, a)
  {
    var bufs := BufsOf(s.lin, l);
    if ReachedCanary(s, args, a) {
      var n :| n in s.lin && Reaches(s, args, n) && InCanary(s.lin[n], a);
      var i :| 0 <= i < |l| && l[i] == n;
      assert InCanary(bufs[i], a);
    }
    if InSomeCanary(bufs, a) {
      var i :| 0 <= i < |bufs| && InCanary(bufs[i], a);
      assert l[i] in l;
    }
  }

  /** The reports in r, filed under the names in l. */
  ghost predicate Filed<K(!new)>(m: map<K, nat>, l: seq<K>, r: seq<nat>) {
    && |r| == |l| && (forall k | k in m :: exists i :: 0 <= i < |l| && l[i] == k)
    && forall i | 0 <= i < |l| :: l[i] in m && m[l[i]] == r[i]
  }

  method FileReports<K(==, !new)>(l: seq<K>, r: seq<nat>) returns (m: map<K, nat>)
    requires |r| == |l| && forall i, j | 0 <= i < j < |l| :: l[i] != l[j]
    ensures Filed(m, l, r)
  {
    m := map[];
    for i := 0 to |l|
      invariant forall k | k in m :: exists j :: 0 <= j < i && l[j] == k
      invariant forall j | 0 <= j < i :: l[j] in m && m[l[j]] == r[j]
    {
      m := m[l[i] := r[i]];
    }
  }

  /** What lies beyond the objects' memory does not matter to the expected report. */
  lemma ExpectedInPrefix(mem: seq<byte>, k: nat, buf: Buf)
    requires k <= |mem| && InMemory(buf, k)
    ensures Expected(mem[..k], buf) == Expected(mem, buf)
  {
    CanaryAddrsIn(buf, k);
    assert CanaryBytes(mem[..k], buf) == CanaryBytes(mem, buf);
  }

  // ----- images -----

  function PicsOf(imgs: map<nat, Picture>, l: seq<nat>): (pics: seq<Picture>)
    requires forall h | h in l :: h in imgs
    ensures |pics| == |l| && forall i | 0 <= i < |l| :: pics[i] == imgs[l[i]]
  {
    seq(|l|, i requires 0 <= i < |l| => assert l[i] in l; imgs[l[i]])
  }

  /** The table with the listed images replaced. */
  function Replaced(imgs: map<nat, Picture>, l: seq<nat>, after: seq<Picture>): (m: map<nat, Picture>)
    requires |after| == |l| && NoDuplicates(l) && forall h | h in l :: h in imgs
    ensures m.Keys == imgs.Keys
    ensures forall i | 0 <= i < |l| :: m[l[i]] == after[i]
    ensures forall h | h in imgs && h !in l :: m[h] == imgs[h]
  {
    if l == [] then imgs
    else
      var last := |l| - 1;
      assert l == l[..last] + [l[last]];
      Replaced(imgs, l[..last], after[..last])[l[last] := after[last]]
  }

  lemma ImagesListed(args: seq<Arg>, dupe: seq<nat>)
    requires IsDupe(args, dupe) && Consistent(args)
    ensures NoDuplicates(Unique(args, dupe, |args|, true))
    ensures forall h: nat :: h in Unique(args, dupe, |args|, true) <==> Mem(h, true) in args
  {
    UniqueNoDuplicates(args, dupe, |args|, true);
    forall h: nat ensures h in Unique(args, dupe, |args|, true) <==> Mem(h, true) in args {
      CollectsEachObjectOnce(args, dupe, true, h);
    }
  }

  // ----- the two halves of a check make the whole -----

  ghost predicate LinearChecked(before: seq<byte>, lin: map<Name, Buf>, l: seq<Name>, bufs: seq<Buf>,
      after: seq<byte>, reports: seq<nat>)
  {
    && |after| == |before| && |reports| == |bufs| == |l|
    && (forall i | 0 <= i < |l| :: l[i] in lin && bufs[i] == lin[l[i]])
    && (forall i | 0 <= i < |l| :: InMemory(bufs[i], |before|) && reports[i] == Expected(before, bufs[i]))
    && (forall a | 0 <= a < |before| :: after[a] == if InSomeCanary(bufs, a) then FILL else before[a])
  }

  ghost predicate ImagesChecked(before: map<nat, Picture>, l: seq<nat>, after: map<nat, Picture>, reports: seq<nat>) {
    && after.Keys == before.Keys && |reports| == |l|
    && (forall h | h in before && h !in l :: after[h] == before[h])
    && (forall i | 0 <= i < |l| :: l[i] in before && ImageChecked(before[l[i]], after[l[i]], reports[i]))
  }

  lemma ReplacedIsChecked(imgs: map<nat, Picture>, l: seq<nat>, after: seq<Picture>, reports: seq<nat>)
    requires |after| == |reports| == |l| && NoDuplicates(l) && (forall h | h in l :: h in imgs)
    requires forall i | 0 <= i < |l| :: ImageChecked(PicsOf(imgs, l)[i], after[i], reports[i])
    ensures ImagesChecked(imgs, l, Replaced(imgs, l, after), reports)
  {
    hide ImageChecked, NoDuplicates, Replaced;
    forall i | 0 <= i < |l|
      ensures l[i] in imgs && ImageChecked(imgs[l[i]], Replaced(imgs, l, after)[l[i]], reports[i])
    {
      assert PicsOf(imgs, l)[i] == imgs[l[i]] && l[i] in l;
    }
  }

  lemma ReachedListed(ran: State, args: seq<Arg>, dupe: seq<nat>, l: seq<Name>, bufs: seq<Buf>)
    requires Valid(ran) && LaunchOk(ran, args) && IsDupe(args, dupe) && l == Names(args, dupe, ran.svms)
      && |bufs| == |l|
    requires forall i | 0 <= i < |l| :: l[i] in ran.lin && bufs[i] == ran.lin[l[i]]
    ensures forall n :: n in l <==> n in ran.lin && Reaches(ran, args, n)
    ensures forall a {:trigger InSomeCanary(bufs, a)} :: InSomeCanary(bufs, a) <==> ReachedCanary(ran, args, a)
  {
    forall n ensures n in l <==> n in ran.lin && Reaches(ran, args, n) { NamesAreReached(ran, args, dupe, n); }
    assert bufs == BufsOf(ran.lin, l);
    forall a: nat ensures InSomeCanary(bufs, a) <==> ReachedCanary(ran, args, a) {
      ListedCanary(ran, args, l, a);
    }
  }

  lemma LinearHalf(ran: State, args: seq<Arg>, dupe: seq<nat>, l: seq<Name>, bufs: seq<Buf>, t: State,
      reports: seq<nat>, m: map<Name, nat>)
    requires Valid(ran) && LaunchOk(ran, args) && IsDupe(args, dupe) && l == Names(args, dupe, ran.svms)
    requires LinearChecked(ran.mem, ran.lin, l, bufs, t.mem, reports) && t.lin == ran.lin && t.svms == ran.svms
      && Filed(m, l, reports)
    ensures LinVerified(ran, args, t, m)
  {
    hide InSomeCanary, ReachedCanary, Reaches, Expected, LaunchOk, Valid, Names, IsDupe, InMemory;
    ReachedListed(ran, args, dupe, l, bufs);
  }

  lemma ImagesHalf(ran: State, args: seq<Arg>, dupe: seq<nat>, l: seq<nat>, t: State, reports: seq<nat>,
      m: map<nat, nat>)
    requires Consistent(args) && IsDupe(args, dupe) && l == Unique(args, dupe, |args|, true)
    requires ImagesChecked(ran.imgs, l, t.imgs, reports) && Filed(m, l, reports)
    ensures ImgVerified(ran, args, t, m)
  {
    hide ImageChecked, Unique, IsDupe, Consistent, NoDuplicates;
    ImagesListed(args, dupe);
  }

  lemma StaysValid(ran: State, args: seq<Arg>, t: State, m: map<Name, nat>, k: map<nat, nat>)
    requires Valid(ran) && LinVerified(ran, args, t, m) && ImgVerified(ran, args, t, k) && t.unseen == ran.unseen
    ensures Valid(t)
  {
    forall h | h in t.imgs ensures PicOk(t.imgs[h]) {
      if h in k { assert ImageChecked(ran.imgs[h], t.imgs[h], k[h]); }
    }
    hide PicOk, Mended3, Expected, ReachedCanary, Reaches;
  }

  lemma CheckedIsVerified(ran: State, args: seq<Arg>, dupe: seq<nat>, l: seq<Name>, bufs: seq<Buf>,
      images: seq<nat>, t: State,
                          linReports: seq<nat>, imgReports: seq<nat>, r: Reports)
    requires Valid(ran) && LaunchOk(ran, args) && IsDupe(args, dupe)
    requires l == Names(args, dupe, ran.svms) && LinearChecked(ran.mem, ran.lin, l, bufs, t.mem, linReports)
      && t.lin == ran.lin && t.svms == ran.svms && Filed(r.lin, l, linReports)
    requires t.unseen == ran.unseen
    requires images == Unique(args, dupe, |args|, true) && ImagesChecked(ran.imgs, images, t.imgs, imgReports)
      && Filed(r.imgs, images, imgReports)
    ensures Verified(ran, args, t, r)
  {
    hide LinVerified, ImgVerified, Valid, Names, LinearChecked, ImagesChecked, Filed, Unique;
    LinearHalf(ran, args, dupe, l, bufs, t, linReports, r.lin);
    ImagesHalf(ran, args, dupe, images, t, imgReports, r.imgs);
    StaysValid(ran, args, t, r.lin, r.imgs);
  }
}
