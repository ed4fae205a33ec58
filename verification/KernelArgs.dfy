/** Duplicate analysis of kernel arguments and the collection of the objects a check must visit. */
module KernelArgs {

  /** An argument, as the tool files it: a plain value, a cl_mem object of its table (buffer or image),
      or a pointer some bytes into an SVM allocation. Unseen is an image of the driver's that the table
      does not have: for the tool, a plain value. */
  datatype Arg = Plain | Unseen(handle: nat) | Mem(handle: nat, isImage: bool) | Svm(handle: nat, offset: nat)

  predicate SameMem(a: Arg, b: Arg) { a.Mem? && b.Mem? && a.handle == b.handle }

  /** One handle names one object. */
  ghost predicate Consistent(args: seq<Arg>) {
    forall i, j | 0 <= i < |args| && 0 <= j < |args| && SameMem(args[i], args[j]) :: args[i] == args[j]
  }

  /** dupe[i] is the least index holding the same cl_mem object as i, or i itself. */
  ghost predicate LeastSame(args: seq<Arg>, i: nat, d: nat)
    requires i < |args|
  {
    && d <= i && (d == i || SameMem(args[i], args[d]))
    && forall j | 0 <= j < d :: !SameMem(args[i], args[j])
  }

  ghost predicate IsDupe(args: seq<Arg>, dupe: seq<nat>) {
    |dupe| == |args| && forall i | 0 <= i < |args| :: LeastSame(args, i, dupe[i])
  }

  lemma DupeLength(args: seq<Arg>, dupe: seq<nat>)
    requires IsDupe(args, dupe)
    ensures |dupe| == |args|
  {
  }

  /** findDuplicates: one outer loop over the arguments, one inner loop over the earlier ones. */
  method FindDuplicates(args: seq<Arg>) returns (dupe: seq<nat>)
    ensures IsDupe(args, dupe)
  {
    dupe := [];
    for i := 0 to |args|
      invariant |dupe| == i && forall j | 0 <= j < i :: LeastSame(args, j, dupe[j])
    {
      var d := i;
      if args[i].Mem? {
        var j := 0;
        while j < i
          invariant 0 <= j <= i && d == i
          invariant forall l | 0 <= l < j :: !SameMem(args[i], args[l])
        {
          if args[j].Mem? && args[i].handle == args[j].handle {
            d := j;
            break;
          }
          j := j + 1;
        }
      }
      dupe := dupe + [d];
    }
  }

  /** dupe is idempotent, and two cl_mem arguments share a representative exactly when they are the
      same object. */
  lemma DupeIsRepresentative(args: seq<Arg>, dupe: seq<nat>, i: nat, j: nat)
    requires IsDupe(args, dupe) && i < |args| && j < |args|
    ensures dupe[dupe[i]] == dupe[i]
    ensures dupe[i] == dupe[j] <==> i == j || SameMem(args[i], args[j])
  {
    assert LeastSame(args, i, dupe[i]) && LeastSame(args, j, dupe[j]) && LeastSame(args, dupe[i], dupe[dupe[i]]);
    if SameMem(args[i], args[j]) {
      assert !(dupe[i] < dupe[j]) && !(dupe[j] < dupe[i]);
    }
  }

  /** The representative of an argument stands for the same object. */
  lemma DupeSameObject(args: seq<Arg>, dupe: seq<nat>, i: nat)
    requires IsDupe(args, dupe) && Consistent(args) && i < |args|
    ensures args[dupe[i]] == args[i]
  {
    assert LeastSame(args, i, dupe[i]);
  }

  // ----- collection -----

  /** An entry of the SVM table, in table order. */
  datatype SvmObject = SvmObject(handle: nat, detectorInternal: bool)

  predicate Selected(args: seq<Arg>, dupe: seq<nat>, i: nat, images: bool)
    requires |dupe| == |args| && i < |args|
  {
    dupe[i] == i && args[i].Mem? && args[i].isImage == images
  }

  /** Handles of the first k arguments that are their own representative, of the wanted kind. */
  function Unique(args: seq<Arg>, dupe: seq<nat>, k: nat, images: bool): (s: seq<nat>)
    requires |dupe| == |args| && k <= |args|
    ensures |s| <= k
  {
    if k == 0 then []
    else Unique(args, dupe, k - 1, images) + if Selected(args, dupe, k - 1, images) then [args[k - 1].handle] else []
  }

  function UserSvm(table: seq<SvmObject>, k: nat): (s: seq<nat>)
    requires k <= |table|
    ensures |s| <= k
  {
    if k == 0 then []
    else UserSvm(table, k - 1) + if table[k - 1].detectorInternal then [] else [table[k - 1].handle]
  }

  lemma {:induction false} UniqueGrows(args: seq<Arg>, dupe: seq<nat>, k: nat, n: nat, images: bool)
    requires |dupe| == |args| && k <= n <= |args|
    ensures |Unique(args, dupe, k, images)| <= |Unique(args, dupe, n, images)|
    decreases n
  {
    if k < n { UniqueGrows(args, dupe, k, n - 1, images); }
  }

  lemma {:induction false} UserSvmGrows(table: seq<SvmObject>, k: nat, n: nat)
    requires k <= n <= |table|
    ensures |UserSvm(table, k)| <= |UserSvm(table, n)|
    decreases n
  {
    if k < n { UserSvmGrows(table, k, n - 1); }
  }

  predicate AnySvm(args: seq<Arg>, k: nat)
    requires k <= |args|
  {
    exists i | 0 <= i < k :: args[i].Svm?
  }

  /** The counting pass. */
  method CountObjects(args: seq<Arg>, dupe: seq<nat>, svmTable: seq<SvmObject>)
    returns (numBuffs: nat, numSVM: nat, numImgs: nat, hasSVM: bool)
    requires IsDupe(args, dupe)
    ensures numBuffs == |Unique(args, dupe, |args|, false)| && numImgs == |Unique(args, dupe, |args|, true)|
    ensures hasSVM == AnySvm(args, |args|) && numSVM == if hasSVM then |UserSvm(svmTable, |svmTable|)| else 0
  {
    numBuffs, numImgs, hasSVM, numSVM := 0, 0, false, 0;
    for i := 0 to |args|
      invariant numBuffs == |Unique(args, dupe, i, false)| && numImgs == |Unique(args, dupe, i, true)|
      invariant hasSVM == AnySvm(args, i)
    {
      assert LeastSame(args, i, dupe[i]);
      if dupe[i] == i {
        match args[i] {
          case Mem(_, isImage) => if isImage { numImgs := numImgs + 1; } else { numBuffs := numBuffs + 1; }
          case Svm(_, _) => hasSVM := true;
          case _ =>
        }
      }
    }
    if hasSVM {
      for i := 0 to |svmTable|
        invariant numSVM == |UserSvm(svmTable, i)|
      {
        if !svmTable[i].detectorInternal { numSVM := numSVM + 1; }
      }
    }
  }

  /** The filling pass: buffers first, then SVM, images apart. Every slot counted is filled. */
  method CollectObjects(args: seq<Arg>, dupe: seq<nat>, svmTable: seq<SvmObject>)
    returns (bufferPtrs: array<nat>, imagePtrs: array<nat>, totalBuffs: nat)
    requires IsDupe(args, dupe)
    ensures bufferPtrs[..] == Unique(args, dupe, |args|, false)
                              + (if AnySvm(args, |args|) then UserSvm(svmTable, |svmTable|) else [])
    ensures imagePtrs[..] == Unique(args, dupe, |args|, true)
    ensures totalBuffs == |Unique(args, dupe, |args|, false)|
  {
    var totalSVM, totalImgs, hasSVM;
    totalBuffs, totalSVM, totalImgs, hasSVM := CountObjects(args, dupe, svmTable);
    bufferPtrs := new nat[totalBuffs + totalSVM];
    imagePtrs := new nat[totalImgs];
    FillObjects(args, dupe, bufferPtrs, imagePtrs, totalBuffs);
    if hasSVM {
      FillSvm(svmTable, bufferPtrs, totalBuffs);
    }
    assert bufferPtrs[..] == bufferPtrs[..totalBuffs] + bufferPtrs[totalBuffs..];
    assert imagePtrs[..] == imagePtrs[..totalImgs];
  }

  method Append(a: array<nat>, n: nat, handle: nat)
    requires n < a.Length
    modifies a
    ensures a[..n + 1] == old(a[..n]) + [handle]
  {
    a[n] := handle;
  }

  method FillObjects(args: seq<Arg>, dupe: seq<nat>, bufferPtrs: array<nat>, imagePtrs: array<nat>, totalBuffs: nat)
    requires IsDupe(args, dupe) && bufferPtrs != imagePtrs
    requires |Unique(args, dupe, |args|, false)| == totalBuffs <= bufferPtrs.Length
    requires |Unique(args, dupe, |args|, true)| == imagePtrs.Length
    modifies bufferPtrs, imagePtrs
    ensures bufferPtrs[..totalBuffs] == Unique(args, dupe, |args|, false)
      && imagePtrs[..] == Unique(args, dupe, |args|, true)
  {
    var numBuffs, numImgs := 0, 0;
    hide LeastSame;
    for i := 0 to |args|
      invariant numBuffs == |Unique(args, dupe, i, false)| <= totalBuffs
      invariant numImgs == |Unique(args, dupe, i, true)| <= imagePtrs.Length
      invariant bufferPtrs[..numBuffs] == Unique(args, dupe, i, false)
      invariant imagePtrs[..numImgs] == Unique(args, dupe, i, true)
    {
      UniqueGrows(args, dupe, i + 1, |args|, false);
      UniqueGrows(args, dupe, i + 1, |args|, true);
      if dupe[i] == i && args[i].Mem? {
        if args[i].isImage {
          Append(imagePtrs, numImgs, args[i].handle);
          numImgs := numImgs + 1;
        } else {
          Append(bufferPtrs, numBuffs, args[i].handle);
          numBuffs := numBuffs + 1;
        }
      }
    }
  }

  method FillSvm(svmTable: seq<SvmObject>, bufferPtrs: array<nat>, totalBuffs: nat)
    requires bufferPtrs.Length == totalBuffs + |UserSvm(svmTable, |svmTable|)|
    modifies bufferPtrs
    ensures bufferPtrs[..totalBuffs] == old(bufferPtrs[..totalBuffs])
    ensures bufferPtrs[totalBuffs..] == UserSvm(svmTable, |svmTable|)
  {
    var numSVM := 0;
    for i := 0 to |svmTable|
      invariant numSVM == |UserSvm(svmTable, i)| && totalBuffs + numSVM <= bufferPtrs.Length
      invariant bufferPtrs[..totalBuffs] == old(bufferPtrs[..totalBuffs])
      invariant bufferPtrs[totalBuffs..totalBuffs + numSVM] == UserSvm(svmTable, i)
    {
      UserSvmGrows(svmTable, i + 1, |svmTable|);
      if !svmTable[i].detectorInternal {
        bufferPtrs[totalBuffs + numSVM] := svmTable[i].handle;
        numSVM := numSVM + 1;
      }
    }
  }

  // ----- what the lists contain -----

  ghost predicate NoDuplicates(s: seq<nat>) {
    forall a, b | 0 <= a < b < |s| :: s[a] != s[b]
  }

  lemma {:induction false} UniqueContains(args: seq<Arg>, dupe: seq<nat>, k: nat, images: bool, h: nat)
    requires |dupe| == |args| && k <= |args|
    ensures h in Unique(args, dupe, k, images)
       <==> exists i :: 0 <= i < k && Selected(args, dupe, i, images) && args[i].handle == h
  {
    if k > 0 { UniqueContains(args, dupe, k - 1, images, h); }
  }

  lemma {:induction false} UniqueNoDuplicates(args: seq<Arg>, dupe: seq<nat>, k: nat, images: bool)
    requires IsDupe(args, dupe) && k <= |args|
    ensures NoDuplicates(Unique(args, dupe, k, images))
  {
    if k > 0 {
      UniqueNoDuplicates(args, dupe, k - 1, images);
      if Selected(args, dupe, k - 1, images) {
        UniqueContains(args, dupe, k - 1, images, args[k - 1].handle);
        assert LeastSame(args, k - 1, dupe[k - 1]);
        assert args[k - 1].handle !in Unique(args, dupe, k - 1, images);
      }
    }
  }

  /** The collected lists hold every distinct cl_mem object among the arguments exactly once,
      buffers and images apart. */
  lemma CollectsEachObjectOnce(args: seq<Arg>, dupe: seq<nat>, images: bool, h: nat)
    requires IsDupe(args, dupe) && Consistent(args)
    ensures h in Unique(args, dupe, |args|, images) <==> Mem(h, images) in args
    ensures NoDuplicates(Unique(args, dupe, |args|, images))
  {
    UniqueContains(args, dupe, |args|, images, h);
    UniqueNoDuplicates(args, dupe, |args|, images);
    if Mem(h, images) in args {
      var i :| 0 <= i < |args| && args[i] == Mem(h, images);
      DupeIsRepresentative(args, dupe, i, i);
      DupeSameObject(args, dupe, i);
      assert Selected(args, dupe, dupe[i], images);
    }
  }

  /** The SVM part lists every allocation that is not the detector's own, and nothing else. */
  lemma {:induction false} CollectsUserSvm(table: seq<SvmObject>, k: nat, h: nat)
    requires k <= |table|
    ensures h in UserSvm(table, k) <==> exists i :: 0 <= i < k && table[i] == SvmObject(h, false)
  {
    if k > 0 { CollectsUserSvm(table, k - 1, h); }
  }

  lemma {:induction false} UserSvmNoDuplicates(table: seq<SvmObject>, k: nat)
    requires k <= |table| && forall i, j | 0 <= i < j < |table| :: table[i].handle != table[j].handle
    ensures NoDuplicates(UserSvm(table, k))
  {
    if k > 0 {
      UserSvmNoDuplicates(table, k - 1);
      CollectsUserSvm(table, k - 1, table[k - 1].handle);
    }
  }
}
