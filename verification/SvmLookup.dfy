/** Finding the SVM allocation a pointer belongs to: predecessor search in the ordered table. */
module SvmLookup {
  import opened Canary
  import opened Options

  /** An SVM allocation as the user sees it: size bytes from handle on. */
  datatype Allocation = Allocation(handle: nat, size: nat)

  predicate Holds(a: Allocation, p: nat) { a.handle <= p <= a.handle + a.size }

  /** Ordered by handle, with the canary regions of neighbours between them. */
  ghost predicate Separated(t: seq<Allocation>) {
    forall i, j | 0 <= i < j < |t| :: t[i].handle + t[i].size + 2 * POISON_FILL_LENGTH <= t[j].handle
  }

  /** The answer of a scan over the whole table. */
  function LinearFind(t: seq<Allocation>, p: nat): Option<Allocation> {
    if t == [] then None else if Holds(t[0], p) then Some(t[0]) else LinearFind(t[1..], p)
  }

  lemma {:induction false} LinearFindMeans(t: seq<Allocation>, p: nat)
    ensures LinearFind(t, p) == None ==> forall i | 0 <= i < |t| :: !Holds(t[i], p)
    ensures LinearFind(t, p).Some? ==> LinearFind(t, p).value in t && Holds(LinearFind(t, p).value, p)
  {
    if t != [] && !Holds(t[0], p) {
      LinearFindMeans(t[1..], p);
      if LinearFind(t, p) == None {
        forall i | 0 <= i < |t| ensures !Holds(t[i], p) {
          if i > 0 { assert t[i] == t[1..][i - 1]; }
        }
      }
    }
  }

  /** At most one allocation holds a pointer. */
  lemma HolderUnique(t: seq<Allocation>, p: nat, i: nat, j: nat)
    requires Separated(t) && i < |t| && j < |t| && Holds(t[i], p) && Holds(t[j], p)
    ensures i == j
  {
  }

  /** The table of live allocations, kept in handle order. */
  class SvmTable {
    var entries: seq<Allocation>

    ghost predicate Valid()
      reads this
    {
      Separated(entries)
    }

    constructor ()
      ensures Valid() && entries == []
    {
      entries := [];
    }

    /** The first position whose handle is greater than the key. */
    method UpperBound(key: nat) returns (n: nat)
      requires Valid()
      ensures n <= |entries|
      ensures forall i | 0 <= i < n :: entries[i].handle <= key
      ensures forall i | n <= i < |entries| :: key < entries[i].handle
    {
      var hi := |entries|;
      n := 0;
      while n < hi
        invariant n <= hi <= |entries|
        invariant forall i | 0 <= i < n :: entries[i].handle <= key
        invariant forall i | hi <= i < |entries| :: key < entries[i].handle
      {
        var mid := (n + hi) / 2;
        if entries[mid].handle <= key { n := mid + 1; } else { hi := mid; }
      }
    }

    /** cl_svm_mem_find: one step back from the upper bound, then a range test. */
    method Find(handle: nat) returns (r: Option<Allocation>)
      requires Valid()
      ensures r == LinearFind(entries, handle)
      ensures r == None ==> forall i | 0 <= i < |entries| :: !Holds(entries[i], handle)
      ensures r.Some? ==> r.value in entries && Holds(r.value, handle)
    {
      LinearFindMeans(entries, handle);
      var got := UpperBound(handle);
      if got == 0 { return None; }
      got := got - 1;
      var ret := entries[got];
      if ret.handle > handle { return None; }
      var difference := handle - ret.handle;
      if ret.size < difference {
        NoHolder(entries, handle, got);
        return None;
      }
      HolderFound(entries, handle, got);
      r := Some(ret);
    }

    /** A new allocation, which the driver places apart from the live ones. */
    method Insert(a: Allocation)
      requires Valid()
      requires forall i | 0 <= i < |entries| ::
                 || entries[i].handle + entries[i].size + 2 * POISON_FILL_LENGTH <= a.handle
                 || a.handle + a.size + 2 * POISON_FILL_LENGTH <= entries[i].handle
      modifies this
      ensures Valid()
      ensures multiset(entries) == multiset(old(entries)) + multiset{a}
    {
      var n := UpperBound(a.handle);
      assert entries == entries[..n] + entries[n..];
      entries := entries[..n] + [a] + entries[n..];
    }

    /** Forgets the allocation with exactly this handle, if any. */
    method Remove(handle: nat) returns (r: Option<Allocation>)
      requires Valid()
      modifies this
      ensures Valid()
      ensures r == None ==> entries == old(entries) && forall i | 0 <= i < |entries| :: entries[i].handle != handle
      ensures r.Some? ==> r.value.handle == handle && multiset(old(entries)) == multiset(entries) + multiset{r.value}
    {
      var n := UpperBound(handle);
      if n == 0 || entries[n - 1].handle != handle { return None; }
      r := Some(entries[n - 1]);
      assert entries == entries[..n - 1] + [entries[n - 1]] + entries[n..];
      entries := entries[..n - 1] + entries[n..];
    }
  }

  lemma NoHolder(t: seq<Allocation>, p: nat, i: nat)
    requires Separated(t) && i < |t| && t[i].handle + t[i].size < p
    requires forall j | i < j < |t| :: p < t[j].handle
    ensures LinearFind(t, p) == None
  {
    LinearFindMeans(t, p);
    forall j | 0 <= j < |t| ensures !Holds(t[j], p) {
      if j < i { assert t[j].handle + t[j].size + 2 * POISON_FILL_LENGTH <= t[i].handle; }
    }
  }

  lemma HolderFound(t: seq<Allocation>, p: nat, i: nat)
    requires Separated(t) && i < |t| && Holds(t[i], p)
    ensures LinearFind(t, p) == Some(t[i])
  {
    LinearFindMeans(t, p);
    if LinearFind(t, p).Some? {
      var j :| 0 <= j < |t| && t[j] == LinearFind(t, p).value;
      HolderUnique(t, p, i, j);
    }
  }
}
