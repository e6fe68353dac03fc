/** What an accepted source bundle is, whatever the order of its manifest. */
module SourceTheorems {
  import opened Collections
  import opened SourceBundles
  import opened SourceText
  import opened Sorting

  predicate Passes(checks: Checks, f: SourceFile) {
    checks.path(f.path).Ok? && checks.entry(f, checks.path(f.path).value).Ok?
  }

  function ResultOf(checks: Checks, f: SourceFile): ValidatedFile
    requires Passes(checks, f)
  {
    checks.entry(f, checks.path(f.path).value).value
  }

  function Apart(checks: Checks): (SourceFile, SourceFile) -> bool {
    (a: SourceFile, b: SourceFile) => !(checks.path(a.path).Ok? && checks.path(a.path) == checks.path(b.path))
  }

  /** Each output carries the path it was checked under. */
  ghost predicate KeepsPaths(checks: Checks) {
    forall f, path :: checks.entry(f, path).Ok? ==> checks.entry(f, path).value.path == path
  }

  /** Acceptance without reference to a scan: every entry passes and no two share a normalised path. */
  lemma AcceptedMeans(checks: Checks, m: SourceManifest)
    ensures Accepted(checks, m) <==>
      |m.files| <= MAXIMUM_FILES && (forall f :: f in m.files ==> Passes(checks, f)) && Pairwise(m.files, Apart(checks))
  {
    if Accepted(checks, m) {
      forall f | f in m.files ensures Passes(checks, f) {
        var k: nat :| k < |m.files| && m.files[k] == f;
        assert Verdict(checks, m.files, k).Ok?;
      }
      forall i, j | 0 <= i < j < |m.files| ensures Apart(checks)(m.files[i], m.files[j]) {
        assert m.files[i] in m.files[..j];
        assert Verdict(checks, m.files, j).Ok?;
      }
    } else if |m.files| <= MAXIMUM_FILES {
      var k: nat :| k < |m.files| && Verdict(checks, m.files, k).Err?;
      if checks.path(m.files[k].path).Ok? && checks.path(m.files[k].path).value in Paths(checks, m.files[..k]) {
        var f :| f in m.files[..k] && checks.path(f.path) == checks.path(m.files[k].path);
        var i :| 0 <= i < k && m.files[i] == f;
        assert !Apart(checks)(m.files[i], m.files[k]);
      } else {
        assert m.files[k] in m.files && !Passes(checks, m.files[k]);
      }
    }
  }

  lemma OutputsAreResults(checks: Checks, m: SourceManifest)
    requires Accepted(checks, m) && KeepsPaths(checks)
    ensures var r := Outputs(checks, m.files, |m.files|);
      (forall i :: 0 <= i < |r| ==> Passes(checks, m.files[i]) && r[i] == ResultOf(checks, m.files[i]))
      && (forall i, j :: 0 <= i < j < |r| ==> r[i].path != r[j].path)
  {
    AcceptedMeans(checks, m);
    var r := Outputs(checks, m.files, |m.files|);
    forall i | 0 <= i < |r| ensures Passes(checks, m.files[i]) && r[i] == ResultOf(checks, m.files[i]) {
      assert Verdict(checks, m.files, i).Ok?;
    }
    forall i, j | 0 <= i < j < |r| ensures r[i].path != r[j].path {
      assert Apart(checks)(m.files[i], m.files[j]);
    }
  }

  /** The order of the manifest affects neither the verdict nor the bundle. */
  lemma SourceOrderIsIrrelevant(checks: Checks, a: SourceManifest, b: SourceManifest)
    requires KeepsPaths(checks) && multiset(a.files) == multiset(b.files) && a.sourceDigest == b.sourceDigest
    ensures Accepted(checks, a) <==> Accepted(checks, b)
    ensures Accepted(checks, a) ==> BundleOf(checks, a) == BundleOf(checks, b)
  {
    SameMultisetSameElements(a.files, b.files);
    assert forall f :: f in a.files <==> f in ToSet(a.files);
    assert forall f :: f in b.files <==> f in ToSet(b.files);
    AcceptedMeans(checks, a);
    AcceptedMeans(checks, b);
    if Pairwise(a.files, Apart(checks)) {
      PairwisePermutation(a.files, b.files, Apart(checks));
    }
    if Pairwise(b.files, Apart(checks)) {
      PairwisePermutation(b.files, a.files, Apart(checks));
    }
    if Accepted(checks, a) {
      SameOutputs(checks, a, b);
    }
  }

  lemma SameOutputs(checks: Checks, a: SourceManifest, b: SourceManifest)
    requires KeepsPaths(checks) && ToSet(a.files) == ToSet(b.files)
    requires Accepted(checks, a) && Accepted(checks, b)
    ensures Sort(Outputs(checks, a.files, |a.files|), PathLe) == Sort(Outputs(checks, b.files, |b.files|), PathLe)
  {
    var r, s := Outputs(checks, a.files, |a.files|), Outputs(checks, b.files, |b.files|);
    OutputsAreResults(checks, a);
    OutputsAreResults(checks, b);
    forall v ensures v in r <==> v in s {
      if v in r {
        OutputShared(checks, a, b, v);
      }
      if v in s {
        OutputShared(checks, b, a, v);
      }
    }
    assert ToSet(r) == ToSet(s);
    DistinctSameSet(r, s);
    StrLeIsTotalOrder();
    assert NoTies(r, PathLe);
    SortPermutation(r, s, PathLe);
  }

  lemma OutputShared(checks: Checks, a: SourceManifest, b: SourceManifest, v: ValidatedFile)
    requires KeepsPaths(checks) && ToSet(a.files) == ToSet(b.files)
    requires Accepted(checks, a) && Accepted(checks, b) && v in Outputs(checks, a.files, |a.files|)
    ensures v in Outputs(checks, b.files, |b.files|)
  {
    OutputsAreResults(checks, a);
    OutputsAreResults(checks, b);
    var i :| 0 <= i < |a.files| && Outputs(checks, a.files, |a.files|)[i] == v;
    assert a.files[i] in ToSet(a.files);
    var j :| 0 <= j < |b.files| && b.files[j] == a.files[i];
    assert Outputs(checks, b.files, |b.files|)[j] == v;
  }

  // ---------------------------------------------------------------- the bundle

  /** `v` is the normalised form of the file the tree holds at its path. */
  ghost predicate Faithful(host: Host, tree: Tree, v: ValidatedFile) {
    && ContractPath(v.path) && v.path in tree && tree[v.path].Regular? && tree[v.path].insideRoot
    && v.mediaType in TYPES
    && NormalizeContent(v.mediaType, tree[v.path].content) == Some(v.content)
    && v.digest == host.sha(v.content)
  }

  /** `v` stands for the entry `f`: the file at the normalised path is the reviewed one, and `v` its normal form. */
  ghost predicate StandsFor(host: Host, tree: Tree, maximum: int, f: SourceFile, v: ValidatedFile) {
    && NormalizePath(f.path) == Ok(v.path) && v.mediaType == f.mediaType
    && Reviewed(host, tree, maximum, f, v.path) && Faithful(host, tree, v)
  }

  ghost predicate StrictlyByPath(files: seq<ValidatedFile>) {
    forall i, j :: 0 <= i < j < |files| ==> StrLess(files[i].path, files[j].path)
  }

  lemma ChecksKeepPaths(host: Host, tree: Tree, maximum: int)
    ensures KeepsPaths(ChecksOf(host, tree, maximum))
  {
  }

  lemma PassedStandsFor(host: Host, tree: Tree, maximum: int, f: SourceFile)
    requires Passes(ChecksOf(host, tree, maximum), f)
    ensures StandsFor(host, tree, maximum, f, ResultOf(ChecksOf(host, tree, maximum), f))
  {
    NormalizedIsContractPath(f.path);
    EntryMeans(host, tree, maximum, f, NormalizePath(f.path).value);
  }

  /** `v` is the result of an entry of the manifest. */
  ghost predicate ComesFrom(checks: Checks, m: SourceManifest, v: ValidatedFile) {
    exists f :: f in m.files && Passes(checks, f) && v == ResultOf(checks, f)
  }

  lemma BundleHoldsResults(checks: Checks, m: SourceManifest)
    requires Accepted(checks, m) && KeepsPaths(checks)
    ensures var files := BundleOf(checks, m).files;
      && |files| == |m.files| && StrictlyByPath(files)
      && (forall v :: v in files ==> ComesFrom(checks, m, v))
      && (forall f :: f in m.files ==> Passes(checks, f) && ResultOf(checks, f) in files)
  {
    var outputs := Outputs(checks, m.files, |m.files|);
    var files := BundleOf(checks, m).files;
    OutputsAreResults(checks, m);
    SortedOutputs(outputs);
    SameMultisetSameElements(outputs, files);
    forall v | v in files ensures ComesFrom(checks, m, v) {
      assert v in ToSet(outputs);
      var i :| 0 <= i < |outputs| && outputs[i] == v;
      assert m.files[i] in m.files;
    }
    forall f | f in m.files ensures Passes(checks, f) && ResultOf(checks, f) in files {
      var i :| 0 <= i < |m.files| && m.files[i] == f;
      assert outputs[i] in ToSet(files);
      assert outputs[i] in files;
    }
  }

  /**
    An accepted bundle lists, strictly by path, the normal form of the reviewed file of every entry and nothing else,
    with the reviewed source digest and the total size of what it lists.
   */
  lemma BundleIsFaithful(host: Host, tree: Tree, maximum: int, m: SourceManifest)
    requires Accepted(ChecksOf(host, tree, maximum), m)
    ensures var bundle := BundleOf(ChecksOf(host, tree, maximum), m);
      && |bundle.files| == |m.files| <= MAXIMUM_FILES && StrictlyByPath(bundle.files)
      && (forall v :: v in bundle.files ==> exists f :: f in m.files && StandsFor(host, tree, maximum, f, v))
      && (forall f :: f in m.files ==> exists v :: v in bundle.files && StandsFor(host, tree, maximum, f, v))
      && bundle.sourceDigest == m.sourceDigest && bundle.totalSize == TotalSize(bundle.files)
  {
    var checks := ChecksOf(host, tree, maximum);
    var files := BundleOf(checks, m).files;
    ChecksKeepPaths(host, tree, maximum);
    BundleHoldsResults(checks, m);
    forall v | v in files ensures exists f :: f in m.files && StandsFor(host, tree, maximum, f, v) {
      var f :| f in m.files && Passes(checks, f) && v == ResultOf(checks, f);
      PassedStandsFor(host, tree, maximum, f);
    }
    forall f | f in m.files ensures exists v :: v in files && StandsFor(host, tree, maximum, f, v) {
      PassedStandsFor(host, tree, maximum, f);
      assert ResultOf(checks, f) in files;
    }
  }

  lemma SortedOutputs(outputs: seq<ValidatedFile>)
    requires forall i, j :: 0 <= i < j < |outputs| ==> outputs[i].path != outputs[j].path
    ensures StrictlyByPath(Sort(outputs, PathLe))
  {
    var files := Sort(outputs, PathLe);
    StrLeIsTotalOrder();
    SortSorts(outputs, PathLe);
    forall i, j | 0 <= i < j < |files| ensures StrLess(files[i].path, files[j].path) {
      assert PathLe(files[i], files[j]);
      if files[i].path == files[j].path {
        SamePathTwice(outputs, files, i, j);
      }
    }
  }

  lemma SamePathTwice(outputs: seq<ValidatedFile>, files: seq<ValidatedFile>, i: nat, j: nat)
    requires forall p, q :: 0 <= p < q < |outputs| ==> outputs[p].path != outputs[q].path
    requires multiset(outputs) == multiset(files) && i < j < |files|
    ensures files[i].path != files[j].path
  {
    SameMultisetSameElements(outputs, files);
    assert files[i] in ToSet(outputs) && files[j] in ToSet(outputs);
    if files[i] == files[j] {
      CountedTwice(files, i, j);
      var p, q := TwoPositions(outputs, files[i]);
      assert false;
    }
    var p :| 0 <= p < |outputs| && outputs[p] == files[i];
    var q :| 0 <= q < |outputs| && outputs[q] == files[j];
    assert p != q;
  }

  /** The ordering rule of the contract model. */
  ghost predicate ContractManifest(m: SourceManifest) {
    && (forall f :: f in m.files ==> ContractPath(f.path))
    && (forall i, j :: 0 <= i < j < |m.files| ==> StrLess(m.files[i].path, m.files[j].path))
  }

  /** For a manifest the contract model accepts, the bundle keeps the declared paths in the declared order. */
  lemma ContractManifestKeepsOrder(host: Host, tree: Tree, maximum: int, m: SourceManifest)
    requires Accepted(ChecksOf(host, tree, maximum), m) && ContractManifest(m)
    ensures var files := BundleOf(ChecksOf(host, tree, maximum), m).files;
      |files| == |m.files| && forall i :: 0 <= i < |files| ==> files[i].path == m.files[i].path
  {
    var checks := ChecksOf(host, tree, maximum);
    var outputs := Outputs(checks, m.files, |m.files|);
    ChecksKeepPaths(host, tree, maximum);
    OutputsAreResults(checks, m);
    forall i | 0 <= i < |outputs| ensures outputs[i].path == m.files[i].path {
      assert m.files[i] in m.files;
      NormalizePathFixedPoints(m.files[i].path);
    }
    forall i, j | 0 <= i < j < |outputs| ensures StrLess(outputs[i].path, outputs[j].path) {
      assert outputs[i].path == m.files[i].path && outputs[j].path == m.files[j].path;
    }
    AscendingIsSorted(outputs);
  }

  lemma AscendingIsSorted(files: seq<ValidatedFile>)
    requires forall i, j :: 0 <= i < j < |files| ==> StrLess(files[i].path, files[j].path)
    ensures Sort(files, PathLe) == files
  {
    StrLeIsTotalOrder();
    forall i, j | 0 <= i < |files| && 0 <= j < |files| && PathLe(files[i], files[j]) && PathLe(files[j], files[i])
      ensures files[i] == files[j]
    {
      StrLessIrreflexive(files[i].path);
    }
    SortIdentity(files, PathLe);
  }
}
