/** The cache of fine-grained SVM regions: regions the user frees are kept and handed out again. */
module SvmCache {
  import opened Options

  /** The size is that of the allocation request that created the region. */
  datatype Region = Region(base: nat, flags: nat, size: nat, alignment: nat)

  /** The two tables of one context: live regions are keyed by base address; spare ones ordered by size,
      regions of equal size in the order they were freed. */
  datatype Cache = Cache(live: map<nat, Region>, spare: seq<Region>)

  const EMPTY := Cache(map[], [])

  ghost predicate Sorted(free: seq<Region>) {
    forall i, j | 0 <= i < j < |free| :: free[i].size <= free[j].size
  }

  ghost predicate Apart(free: seq<Region>) {
    forall i, j | 0 <= i < j < |free| :: free[i].base != free[j].base
  }

  /** Every recorded region is in exactly one table, once. */
  ghost predicate Inv(c: Cache) {
    && (forall b | b in c.live :: c.live[b].base == b)
    && Sorted(c.spare)
    && Apart(c.spare)
    && (forall i | 0 <= i < |c.spare| :: c.spare[i].base !in c.live)
  }

  ghost predicate Recorded(c: Cache, r: Region) {
    (r.base in c.live && c.live[r.base] == r) || r in c.spare
  }

  ghost predicate KnownBase(c: Cache, base: nat) {
    base in c.live || exists i :: 0 <= i < |c.spare| && c.spare[i].base == base
  }

  /** cl_svm_fg_alloc: an insert that leaves an existing key alone. */
  function FgAlloc(c: Cache, r: Region): Cache {
    if r.base in c.live then c else c.(live := c.live[r.base := r])
  }

  /** Where a multimap keeps a new element: after all keys not greater than its own. */
  function InsertPos(free: seq<Region>, size: nat): (n: nat)
    ensures n <= |free|
  {
    if free == [] || free[|free| - 1].size <= size then |free| else InsertPos(free[..|free| - 1], size)
  }

  lemma {:induction false} InsertPosSplits(free: seq<Region>, size: nat)
    requires Sorted(free)
    ensures var n := InsertPos(free, size);
      && (forall i | 0 <= i < n :: free[i].size <= size)
      && (forall i | n <= i < |free| :: size < free[i].size)
  {
    if free != [] {
      var last := |free| - 1;
      if free[last].size > size {
        InsertPosSplits(free[..last], size);
        forall i | InsertPos(free, size) <= i < |free| ensures size < free[i].size {
          if i < last { assert free[..last][i] == free[i]; }
        }
      }
    }
  }

  /** cl_svm_fg_free, and whether the context had such a region; if not it is the driver's to free. */
  function FgFree(c: Cache, base: nat): (Cache, bool) {
    if base in c.live then
      var r := c.live[base];
      var n := InsertPos(c.spare, r.size);
      (Cache(c.live - {base}, Inserted(c.spare, n, r)), true)
    else (c, false)
  }

  /** The loop of find_free_svm from position i on. */
  function Search(free: seq<Region>, size: nat, alignment: nat, i: nat): (n: nat)
    requires i <= |free|
    ensures i <= n <= |free|
    ensures n < |free| ==> free[n].size >= size && free[n].alignment == alignment
    ensures forall j | i <= j < n :: !(free[j].size >= size && free[j].alignment == alignment)
    decreases |free| - i
  {
    if i == |free| then i
    else if free[i].size >= size && free[i].alignment == alignment then i
    else Search(free, size, alignment, i + 1)
  }

  /** find_free_svm: the region moves from the free to the allocated table. */
  function FindFree(c: Cache, size: nat, alignment: nat): (Cache, Option<Region>) {
    var n := Search(c.spare, size, alignment, 0);
    if n == |c.spare| then (c, None)
    else (FgAlloc(c.(spare := Removed(c.spare, n)), c.spare[n]), Some(c.spare[n]))
  }

  // ----- the calls -----

  /** The cache of a context, and the main buffers of the allocations the user has: those of the SVM
      table. */
  datatype Books = Books(cache: Cache, owned: set<nat>)

  const START := Books(EMPTY, {})

  /** CL_MEM_READ_WRITE | CL_MEM_SVM_FINE_GRAIN_BUFFER, whatever the user's access flags. */
  const FG_FLAGS: nat := 0x401

  /** An allocation request, with the base address the driver would return if it is asked and succeeds;
      or a free. */
  datatype Op =
    | Alloc(fine: bool, atomics: bool, size: nat, alignment: nat, driverBase: Option<nat>)
    | Free(base: nat)

  /** What a call comes to. Fresh: new from the driver; Reused: from the cache; Kept: put in the cache;
      Returned: the driver is told to free it; Unknown: not an allocation of the user's. */
  datatype Outcome = Fresh(base: nat) | Reused(base: nat) | Refused | Kept | Returned(base: nat) | Unknown

  /** internalSVMAlloc when the cache has nothing. */
  function AskDriver(k: Books, op: Op): (Books, Outcome)
    requires op.Alloc?
  {
    match op.driverBase
    case Some(b) =>
      var r := Region(b, FG_FLAGS, op.size, op.alignment);
      (Books(if op.fine then FgAlloc(k.cache, r) else k.cache, k.owned + {b}), Fresh(b))
    case None => (k, Refused)
  }

  /** clSVMAlloc by internalSVMAlloc, and clSVMFree. */
  function Step(k: Books, op: Op): (Books, Outcome) {
    match op
    case Alloc(fine, atomics, size, alignment, driverBase) =>
      if atomics then (k, Refused)
      else if !fine then AskDriver(k, op)
      else
        var (d, got) := FindFree(k.cache, size, alignment);
        (match got
         case Some(g) => (Books(d, k.owned + {g.base}), Reused(g.base))
         case None => AskDriver(k, op))
    case Free(base) =>
      if base !in k.owned then (k, Unknown)
      else
        var (d, found) := FgFree(k.cache, base);
        (Books(d, k.owned - {base}), if found then Kept else Returned(base))
  }

  // ----- the tables of all contexts, as the tool keeps them -----

  class SvmTables {
    var allocatedFgSvms: map<nat, map<nat, Region>>
    var freeFgSvms: map<nat, seq<Region>>

    /** The main buffers in the SVM table. */
    var svmMem: set<nat>

    constructor ()
      ensures forall ctx :: BooksOf(ctx) == START
    {
      allocatedFgSvms := map[];
      freeFgSvms := map[];
      svmMem := {};
    }

    ghost function BooksOf(ctx: nat): Books
      reads this
    {
      Books(Of(ctx), svmMem)
    }

    ghost function Of(ctx: nat): Cache
      reads this
    {
      Cache(if ctx in allocatedFgSvms then allocatedFgSvms[ctx] else map[],
            if ctx in freeFgSvms then freeFgSvms[ctx] else [])
    }

    method ClSvmFgAlloc(ctx: nat, base: nat, flags: nat, size: nat, alignment: nat)
      modifies `allocatedFgSvms
      ensures Of(ctx) == FgAlloc(old(Of(ctx)), Region(base, flags, size, alignment))
      ensures forall x | x != ctx :: Of(x) == old(Of(x))
    {
      var temp := Region(base, flags, size, alignment);
      var mine := if ctx in allocatedFgSvms then allocatedFgSvms[ctx] else map[];
      if base !in mine { mine := mine[base := temp]; }
      allocatedFgSvms := allocatedFgSvms[ctx := mine];
    }

    method ClSvmFgFree(ctx: nat, base: nat) returns (code: nat)
      modifies `allocatedFgSvms, `freeFgSvms
      ensures Of(ctx) == FgFree(old(Of(ctx)), base).0
      ensures code == if base in old(Of(ctx)).live then 0 else 1
      ensures forall x | x != ctx :: Of(x) == old(Of(x))
    {
      if ctx !in allocatedFgSvms { return 1; }
      var mine := allocatedFgSvms[ctx];
      if base in mine {
        var temp := mine[base];
        var rest: map<nat, Region> := mine - {base};
        allocatedFgSvms := allocatedFgSvms[ctx := rest];
        var spare := if ctx in freeFgSvms then freeFgSvms[ctx] else [];
        var n := InsertPos(spare, temp.size);
        freeFgSvms := freeFgSvms[ctx := spare[..n] + [temp] + spare[n..]];
        return 0;
      }
      code := 1;
    }

    static method LowerBound(spare: seq<Region>, size: nat) returns (i: nat)
      ensures i <= |spare| && (forall j | 0 <= j < i :: spare[j].size < size) && (i < |spare| ==> spare[i].size >= size)
    {
      i := 0;
      while i < |spare| && spare[i].size < size
        invariant 0 <= i <= |spare| && forall j | 0 <= j < i :: spare[j].size < size
      {
        i := i + 1;
      }
    }

    /** lower_bound by size, then forward to the first equal alignment. */
    method FindFreeSvm(ctx: nat, size: nat, alignment: nat) returns (r: Option<nat>)
      requires Sorted(Of(ctx).spare)
      modifies `allocatedFgSvms, `freeFgSvms
      ensures Of(ctx) == FindFree(old(Of(ctx)), size, alignment).0
      ensures r == match FindFree(old(Of(ctx)), size, alignment).1 { case None => None case Some(g) => Some(g.base) }
      ensures forall x | x != ctx :: Of(x) == old(Of(x))
    {
      if ctx !in freeFgSvms { return None; }
      var spare := freeFgSvms[ctx];
      var i := FirstFitting(spare, size, alignment);
      if i < |spare| {
        var temp := spare[i];
        freeFgSvms := freeFgSvms[ctx := spare[..i] + spare[i + 1..]];
        var mine := if ctx in allocatedFgSvms then allocatedFgSvms[ctx] else map[];
        if temp.base !in mine { mine := mine[temp.base := temp]; }
        allocatedFgSvms := allocatedFgSvms[ctx := mine];
        return Some(temp.base);
      }
      r := None;
    }

    /** internalSVMAlloc. */
    method InternalSvmAlloc(ctx: nat, fine: bool, atomics: bool, size: nat, alignment: nat,
        driverBase: Option<nat>)
      returns (ret: Option<nat>)
      requires Sorted(Of(ctx).spare)
      modifies `allocatedFgSvms, `freeFgSvms
      ensures var (k, outcome) := Step(old(BooksOf(ctx)), Alloc(fine, atomics, size, alignment, driverBase));
        && Of(ctx) == k.cache
        && ret == if outcome.Fresh? || outcome.Reused? then Some(outcome.base) else None
      ensures forall x | x != ctx :: Of(x) == old(Of(x))
    {
      if atomics { return None; }
      ret := None;
      if fine { ret := FindFreeSvm(ctx, size, alignment); }
      if ret == None {
        ret := driverBase;
        if ret.Some? && fine { ClSvmFgAlloc(ctx, ret.value, FG_FLAGS, size, alignment); }
      }
    }

    /** The tables' part of clSVMAlloc. */
    method ClSvmAlloc(ctx: nat, fine: bool, atomics: bool, size: nat, alignment: nat,
        driverBase: Option<nat>)
      returns (ret: Option<nat>)
      requires Sorted(Of(ctx).spare)
      modifies this
      ensures var (k, outcome) := Step(old(BooksOf(ctx)), Alloc(fine, atomics, size, alignment, driverBase));
        && BooksOf(ctx) == k
        && ret == if outcome.Fresh? || outcome.Reused? then Some(outcome.base) else None
      ensures forall x | x != ctx :: Of(x) == old(Of(x))
    {
      ret := InternalSvmAlloc(ctx, fine, atomics, size, alignment, driverBase);
      if ret.Some? { svmMem := svmMem + {ret.value}; }
    }

    /** clSVMFree; toDriver: whether it goes on to the driver. */
    method ClSvmFree(ctx: nat, base: nat) returns (toDriver: bool)
      modifies this
      ensures var (k, outcome) := Step(old(BooksOf(ctx)), Free(base));
        BooksOf(ctx) == k && (toDriver <==> outcome == Returned(base))
      ensures forall x | x != ctx :: Of(x) == old(Of(x))
    {
      toDriver := false;
      if base in svmMem {
        svmMem := svmMem - {base};
        var code := ClSvmFgFree(ctx, base);
        toDriver := code != 0;
      }
    }

    /** The forward search from the lower bound. */
    static method FirstFitting(spare: seq<Region>, size: nat, alignment: nat) returns (i: nat)
      requires Sorted(spare)
      ensures i == Search(spare, size, alignment, 0)
    {
      i := LowerBound(spare, size);
      while i < |spare|
        invariant 0 <= i <= |spare| && forall j | i <= j < |spare| :: spare[j].size >= size
        invariant forall j | 0 <= j < i :: !(spare[j].size >= size && spare[j].alignment == alignment)
      {
        if spare[i].alignment == alignment { break; }
        i := i + 1;
      }
      SearchIs(spare, size, alignment, i);
    }
  }

  lemma SearchIs(free: seq<Region>, size: nat, alignment: nat, n: nat)
    requires n <= |free| && (n < |free| ==> free[n].size >= size && free[n].alignment == alignment)
    requires forall j | 0 <= j < n :: !(free[j].size >= size && free[j].alignment == alignment)
    ensures Search(free, size, alignment, 0) == n
  {
  }

  // ----- laws -----

  /** The list with g inserted at n. */
  function Inserted(free: seq<Region>, n: nat, g: Region): (f: seq<Region>)
    requires n <= |free|
    ensures |f| == |free| + 1
    ensures forall i | 0 <= i < |f| :: f[i] == if i < n then free[i] else if i == n then g else free[i - 1]
  {
    free[..n] + [g] + free[n..]
  }

  /** The list without its element n. */
  function Removed(free: seq<Region>, n: nat): (f: seq<Region>)
    requires n < |free|
    ensures |f| == |free| - 1
    ensures forall i | 0 <= i < |f| :: f[i] == if i < n then free[i] else free[i + 1]
  {
    free[..n] + free[n + 1..]
  }

  lemma InsertedElements(free: seq<Region>, n: nat, g: Region, r: Region)
    requires n <= |free|
    ensures r in Inserted(free, n, g) <==> r == g || r in free
  {
    assert free == free[..n] + free[n..];
  }

  lemma RemovedElements(free: seq<Region>, n: nat, r: Region)
    requires n < |free|
    ensures r in free <==> r == free[n] || r in Removed(free, n)
  {
    assert free == free[..n] + [free[n]] + free[n + 1..];
  }

  lemma InsertedApart(free: seq<Region>, n: nat, g: Region)
    requires n <= |free| && Apart(free) && forall i | 0 <= i < |free| :: free[i].base != g.base
    ensures Apart(Inserted(free, n, g))
  {
  }

  lemma InsertedSorted(free: seq<Region>, g: Region)
    requires Sorted(free)
    ensures Sorted(Inserted(free, InsertPos(free, g.size), g))
  {
    InsertPosSplits(free, g.size);
  }

  lemma RemovedKeeps(free: seq<Region>, n: nat)
    requires n < |free| && Sorted(free) && Apart(free)
    ensures Sorted(Removed(free, n)) && Apart(Removed(free, n))
    ensures forall i | 0 <= i < |free| - 1 :: Removed(free, n)[i].base != free[n].base
  {
  }

  /** Freeing moves the region from one table to the other; no region is lost or duplicated. */
  lemma FreeConserves(c: Cache, base: nat, r: Region)
    requires Inv(c)
    ensures Inv(FgFree(c, base).0)
    ensures Recorded(FgFree(c, base).0, r) <==> Recorded(c, r)
    ensures FgFree(c, base).0.live.Keys == c.live.Keys - {base}
  {
    if base in c.live {
      var g := c.live[base];
      var n := InsertPos(c.spare, g.size);
      InsertedSorted(c.spare, g);
      InsertedApart(c.spare, n, g);
      InsertedElements(c.spare, n, g, r);
      hide Sorted, Apart, InsertPos;
    }
  }

  /** Taking element n off the free table and recording it as live. */
  lemma ReuseConserves(c: Cache, n: nat, r: Region)
    requires Inv(c) && n < |c.spare|
    ensures var d := Cache(c.live[c.spare[n].base := c.spare[n]], Removed(c.spare, n));
      Inv(d) && (Recorded(d, r) <==> Recorded(c, r))
  {
    RemovedKeeps(c.spare, n);
    RemovedElements(c.spare, n, r);
    if r in Removed(c.spare, n) {
      var j :| 0 <= j < |c.spare| - 1 && Removed(c.spare, n)[j] == r;
      assert r.base != c.spare[n].base;
    }
    hide Sorted, Apart;
  }

  /** Reuse conserves the regions, hands out one that was not live, and picks the smallest free
      region that is large enough with the requested alignment; it gives up only when there is none. */
  lemma ReuseIsBestFit(c: Cache, size: nat, alignment: nat, r: Region)
    requires Inv(c)
    ensures var (d, got) := FindFree(c, size, alignment);
      && Inv(d)
      && (Recorded(d, r) <==> Recorded(c, r))
      && (got == None ==> d == c && !(r in c.spare && r.size >= size && r.alignment == alignment))
      && (got.Some? ==>
            && got.value in c.spare && got.value.size >= size && got.value.alignment == alignment
            && got.value.base !in c.live && d.live == c.live[got.value.base := got.value]
            && (r in c.spare && r.size >= size && r.alignment == alignment ==> got.value.size <= r.size))
  {
    var n := Search(c.spare, size, alignment, 0);
    if r in c.spare && r.size >= size && r.alignment == alignment {
      var j :| 0 <= j < |c.spare| && c.spare[j] == r;
      assert n <= j && c.spare[n].size <= c.spare[j].size;
    }
    if n < |c.spare| { ReuseConserves(c, n, r); }
    hide Recorded, Search, Sorted, Apart;
  }

  /** Recording a region the driver has just created. */
  lemma AllocRecords(c: Cache, g: Region, r: Region)
    requires Inv(c) && !KnownBase(c, g.base)
    ensures Inv(FgAlloc(c, g)) && g.base in FgAlloc(c, g).live
    ensures Recorded(FgAlloc(c, g), r) <==> Recorded(c, r) || r == g
  {
    if r in c.spare {
      var i :| 0 <= i < |c.spare| && c.spare[i] == r;
      assert r.base != g.base;
    }
  }

  // ----- every run -----

  function Run(ops: seq<Op>): Books
    decreases |ops|
  {
    if ops == [] then START else Step(Run(ops[..|ops| - 1]), ops[|ops| - 1]).0
  }

  /** What the last call came to. */
  function LastOutcome(ops: seq<Op>): Outcome
    requires ops != []
  {
    Step(Run(ops[..|ops| - 1]), ops[|ops| - 1]).1
  }

  /** The memory the driver has given out and not been told to free. */
  function Held(ops: seq<Op>): set<nat>
    decreases |ops|
  {
    if ops == [] then {}
    else
      var before := Held(ops[..|ops| - 1]);
      match LastOutcome(ops)
      case Fresh(b) => before + {b}
      case Returned(b) => before - {b}
      case _ => before
  }

  /** The regions the calls made the driver create for the cache. */
  function CreatedIn(ops: seq<Op>): set<Region>
    decreases |ops|
  {
    if ops == [] then {}
    else
      var op := ops[|ops| - 1];
      CreatedIn(ops[..|ops| - 1])
      + if op.Alloc? && op.fine && LastOutcome(ops).Fresh?
        then {Region(LastOutcome(ops).base, FG_FLAGS, op.size, op.alignment)} else {}
  }

  /** The driver gives out no memory that it has given out already. */
  ghost predicate RunOk(ops: seq<Op>)
    decreases |ops|
  {
    ops == []
    || (RunOk(ops[..|ops| - 1])
        && var op := ops[|ops| - 1];
           op.Alloc? && op.driverBase.Some? ==> op.driverBase.value !in Held(ops[..|ops| - 1]))
  }

  ghost predicate SpareBase(c: Cache, base: nat) { exists i :: 0 <= i < |c.spare| && c.spare[i].base == base }

  /** The tables agree with each other and with the driver: cached live regions are the user's, spare
      ones are not, and the two together are what the driver has given out. */
  ghost predicate BooksOk(k: Books, held: set<nat>) {
    && Inv(k.cache) && k.cache.live.Keys <= k.owned
    && (forall b | SpareBase(k.cache, b) :: b !in k.owned)
    && (forall b :: b in held <==> b in k.owned || SpareBase(k.cache, b))
  }

  /** A base the driver does not hold is in no table. */
  lemma UnheldIsUnknown(k: Books, held: set<nat>, b: nat)
    requires BooksOk(k, held) && b !in held
    ensures !KnownBase(k.cache, b) && b !in k.owned && b !in k.cache.live && !SpareBase(k.cache, b)
  {
    hide Inv;
  }

  lemma FreshStep(k: Books, held: set<nat>, op: Op)
    requires BooksOk(k, held) && op.Alloc? && op.driverBase.Some? && op.driverBase.value !in held
    ensures BooksOk(AskDriver(k, op).0, held + {op.driverBase.value})
    ensures forall r :: Recorded(AskDriver(k, op).0.cache, r)
              <==> Recorded(k.cache, r) || (op.fine && r == Region(op.driverBase.value, FG_FLAGS, op.size, op.alignment))
  {
    var b := op.driverBase.value;
    var g := Region(b, FG_FLAGS, op.size, op.alignment);
    UnheldIsUnknown(k, held, b);
    forall r ensures op.fine ==> (Recorded(FgAlloc(k.cache, g), r) <==> Recorded(k.cache, r) || r == g) {
      AllocRecords(k.cache, g, r);
    }
    AllocRecords(k.cache, g, g);
    hide Inv, KnownBase, Recorded;
  }

  lemma ReusedStep(k: Books, held: set<nat>, size: nat, alignment: nat)
    requires BooksOk(k, held) && FindFree(k.cache, size, alignment).1.Some?
    ensures var (d, got) := FindFree(k.cache, size, alignment);
      && got.value.base in held && got.value.base !in k.owned
      && BooksOk(Books(d, k.owned + {got.value.base}), held)
      && forall r :: Recorded(d, r) <==> Recorded(k.cache, r)
  {
    hide Recorded, FindFree, Inv, SpareBase;
    var (d, got) := FindFree(k.cache, size, alignment);
    forall r ensures Recorded(d, r) <==> Recorded(k.cache, r) { ReuseIsBestFit(k.cache, size, alignment, r); }
    ReuseIsBestFit(k.cache, size, alignment, got.value);
    FoundSpare(k.cache, size, alignment);
  }

  /** What is found leaves the free table. */
  lemma FoundSpare(c: Cache, size: nat, alignment: nat)
    requires Inv(c) && FindFree(c, size, alignment).1.Some?
    ensures var (d, got) := FindFree(c, size, alignment);
      && SpareBase(c, got.value.base) && d.live.Keys == c.live.Keys + {got.value.base}
      && forall b :: SpareBase(d, b) <==> SpareBase(c, b) && b != got.value.base
  {
    var (d, got) := FindFree(c, size, alignment);
    var n := Search(c.spare, size, alignment, 0);
    assert c.spare[n] == got.value && Apart(c.spare) && d.spare == Removed(c.spare, n);
    hide Inv, Search, FindFree, Sorted, Apart, FgAlloc;
    RemovedBases(c, d, n);
  }

  lemma RemovedBases(c: Cache, d: Cache, n: nat)
    requires n < |c.spare| && Apart(c.spare) && d.spare == Removed(c.spare, n)
    ensures forall b :: SpareBase(d, b) <==> SpareBase(c, b) && b != c.spare[n].base
  {
    forall b ensures SpareBase(d, b) <==> SpareBase(c, b) && b != c.spare[n].base {
      if SpareBase(c, b) && b != c.spare[n].base {
        var i :| 0 <= i < |c.spare| && c.spare[i].base == b;
        assert d.spare[if i < n then i else i - 1].base == b;
      }
      if SpareBase(d, b) {
        var i :| 0 <= i < |d.spare| && d.spare[i].base == b;
        assert c.spare[if i < n then i else i + 1].base == b;
      }
    }
  }

  lemma FreedStep(k: Books, held: set<nat>, base: nat)
    requires BooksOk(k, held) && base in k.owned
    ensures var (d, found) := FgFree(k.cache, base);
      && (found <==> base in k.cache.live)
      && BooksOk(Books(d, k.owned - {base}), if found then held else held - {base})
      && forall r :: Recorded(d, r) <==> Recorded(k.cache, r)
  {
    var (d, found) := FgFree(k.cache, base);
    forall r ensures Recorded(d, r) <==> Recorded(k.cache, r) { FreeConserves(k.cache, base, r); }
    FreeConserves(k.cache, base, Region(0, 0, 0, 0));
    if found {
      var g, n := k.cache.live[base], InsertPos(k.cache.spare, k.cache.live[base].size);
      assert g.base == base && d.spare == Inserted(k.cache.spare, n, g);
      hide Inv, Recorded, InsertPos, Inserted;
      InsertedBases(k.cache, d, n, g);
    }
  }

  lemma InsertedBases(c: Cache, d: Cache, n: nat, g: Region)
    requires n <= |c.spare| && d.spare == Inserted(c.spare, n, g)
    ensures forall b :: SpareBase(d, b) <==> SpareBase(c, b) || b == g.base
  {
    forall b ensures SpareBase(d, b) <==> SpareBase(c, b) || b == g.base {
      if SpareBase(c, b) {
        var i :| 0 <= i < |c.spare| && c.spare[i].base == b;
        assert d.spare[if i < n then i else i + 1].base == b;
      }
      if b == g.base { assert d.spare[n].base == b; }
    }
  }

  /** One call: the tables keep agreeing, what is handed out was not the user's, and the driver is told
      to free exactly what is the user's and not the cache's. */
  lemma StepKeeps(k: Books, held: set<nat>, op: Op)
    requires BooksOk(k, held) && (op.Alloc? && op.driverBase.Some? ==> op.driverBase.value !in held)
    ensures var (d, outcome) := Step(k, op);
      match outcome
      case Fresh(b) => BooksOk(d, held + {b}) && b !in k.owned && d.owned == k.owned + {b} && op.Alloc?
      case Reused(b) => BooksOk(d, held) && b in held && b !in k.owned && d.owned == k.owned + {b} && op.Alloc?
      case Refused => d == k && op.Alloc? && (op.atomics || op.driverBase == None)
      case Kept => BooksOk(d, held) && op.Free? && op.base in k.cache.live && d.owned == k.owned - {op.base}
      case Returned(b) =>
        op == Free(b) && b in k.owned && b !in k.cache.live && BooksOk(d, held - {b}) && d.owned == k.owned - {b}
      case Unknown => d == k && op.Free? && op.base !in k.owned
    ensures forall r :: Recorded(Step(k, op).0.cache, r)
              <==> || Recorded(k.cache, r)
                   || (op.Alloc? && op.fine && Step(k, op).1.Fresh?
                       && r == Region(Step(k, op).1.base, FG_FLAGS, op.size, op.alignment))
  {
    hide BooksOk, Recorded, FindFree, FgFree, AskDriver;
    match op {
      case Alloc(fine, atomics, size, alignment, driverBase) =>
        if driverBase.Some? { FreshStep(k, held, op); AskedFresh(k, held, op); } else { AskedNothing(k, op); }
        if FindFree(k.cache, size, alignment).1.Some? { ReusedStep(k, held, size, alignment); }
      case Free(base) =>
        if base in k.owned { FreedStep(k, held, base); }
    }
  }

  lemma AskedFresh(k: Books, held: set<nat>, op: Op)
    requires BooksOk(k, held) && op.Alloc? && op.driverBase.Some? && op.driverBase.value !in held
    ensures AskDriver(k, op).1 == Fresh(op.driverBase.value) && op.driverBase.value !in k.owned
    ensures AskDriver(k, op).0.owned == k.owned + {op.driverBase.value}
  {
  }

  lemma AskedNothing(k: Books, op: Op)
    requires op.Alloc? && op.driverBase == None
    ensures AskDriver(k, op) == (k, Refused)
  {
  }

  /** Over every run what the driver has given out and not been told to free is exactly what a table
      records, as the user's or as spare, and never as both: nothing leaks, and nothing recorded is
      freed behind the tables' back. */
  lemma {:induction false} DriverAgrees(ops: seq<Op>)
    requires RunOk(ops)
    ensures BooksOk(Run(ops), Held(ops))
    decreases |ops|
  {
    hide BooksOk, Step;
    if ops == [] {
      NothingHeld();
    } else {
      DriverAgrees(ops[..|ops| - 1]);
      StepKeeps(Run(ops[..|ops| - 1]), Held(ops[..|ops| - 1]), ops[|ops| - 1]);
    }
  }

  lemma NothingHeld()
    ensures BooksOk(START, {})
  {
  }

  /** In every run the driver is told to free memory exactly when the user frees an allocation of his
      that the cache does not have; the memory is the driver's to free, and afterwards in no table. */
  lemma DriverFreesExactly(ops: seq<Op>, b: nat)
    requires ops != [] && RunOk(ops)
    ensures var k := Run(ops[..|ops| - 1]);
      LastOutcome(ops) == Returned(b) <==> ops[|ops| - 1] == Free(b) && b in k.owned && b !in k.cache.live
    ensures LastOutcome(ops) == Returned(b) ==>
              && b in Held(ops[..|ops| - 1]) && b !in Held(ops)
              && b !in Run(ops).owned && b !in Run(ops).cache.live && !SpareBase(Run(ops).cache, b)
  {
    DriverAgrees(ops[..|ops| - 1]);
    DriverAgrees(ops);
    var k, held := Run(ops[..|ops| - 1]), Held(ops[..|ops| - 1]);
    StepKeeps(k, held, ops[|ops| - 1]);
    if LastOutcome(ops) == Returned(b) { UnheldIsUnknown(Run(ops), Held(ops), b); }
    if ops[|ops| - 1] == Free(b) && b in k.owned && b !in k.cache.live { FreedStep(k, held, b); }
    hide Inv, Recorded, FindFree, FgFree, AskDriver, KnownBase;
  }

  /** Over every run the regions of the cache are exactly those the driver created for it: none is lost,
      none is invented, and all have the flags that make them fit any request. */
  lemma {:induction false} RunKeeps(ops: seq<Op>, r: Region)
    requires RunOk(ops)
    ensures Recorded(Run(ops).cache, r) <==> r in CreatedIn(ops)
    ensures Recorded(Run(ops).cache, r) ==> r.flags == FG_FLAGS
    decreases |ops|
  {
    if ops != [] {
      var before := ops[..|ops| - 1];
      RunKeeps(before, r);
      DriverAgrees(before);
      hide BooksOk, Recorded, Step;
      StepKeeps(Run(before), Held(before), ops[|ops| - 1]);
    }
  }

  /** An allocation stays the user's as long as it is not freed. */
  lemma {:induction false} StaysOwned(ops: seq<Op>, between: seq<Op>, base: nat)
    requires RunOk(ops + between) && base in Run(ops).owned && Free(base) !in between
    ensures base in Run(ops + between).owned
    decreases |between|
  {
    if between == [] {
      assert ops + between == ops;
    } else {
      var n := |between| - 1;
      var all := ops + between;
      assert all[..|all| - 1] == ops + between[..n] && all[|all| - 1] == between[n];
      StaysOwned(ops, between[..n], base);
      DriverAgrees(ops + between[..n]);
      hide BooksOk, Recorded, Step;
      StepKeeps(Run(ops + between[..n]), Held(ops + between[..n]), between[n]);
    }
  }

  predicate HandsOut(o: Outcome, base: nat) { o == Fresh(base) || o == Reused(base) }

  /** Between two requests that receive the same memory, new or from the cache, the user freed it:
      nothing is handed out twice while it is in use. */
  lemma NeverHandedOutTwice(ops: seq<Op>, first: Op, between: seq<Op>, second: Op, base: nat)
    requires RunOk(ops + [first] + between + [second])
    requires HandsOut(LastOutcome(ops + [first]), base)
    requires HandsOut(LastOutcome(ops + [first] + between + [second]), base)
    ensures Free(base) in between
  {
    var a, b := ops + [first], ops + [first] + between;
    var c := b + [second];
    assert a[..|a| - 1] == ops && a[|a| - 1] == first && c[..|c| - 1] == b && c[|c| - 1] == second;
    assert ops + ([first] + between + [second]) == c && a + (between + [second]) == c;
    PrefixOk(ops, [first] + between + [second]);
    PrefixOk(a, between + [second]);
    PrefixOk(b, [second]);
    DriverAgrees(ops);
    DriverAgrees(b);
    hide BooksOk, Recorded, Step;
    StepKeeps(Run(ops), Held(ops), first);
    StepKeeps(Run(b), Held(b), second);
    if Free(base) !in between { StaysOwned(a, between, base); }
  }

  lemma {:induction false} PrefixOk(a: seq<Op>, b: seq<Op>)
    requires RunOk(a + b)
    ensures RunOk(a)
    decreases |b|
  {
    if b == [] {
      assert a + b == a;
    } else {
      assert (a + b)[..|a + b| - 1] == a + b[..|b| - 1];
      PrefixOk(a, b[..|b| - 1]);
    }
  }
}
