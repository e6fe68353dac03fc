/** Assembly of a static site from a validated bundle, and the identity of the result. */
module StaticBuilder {
  import opened Collections
  import opened Sorting
  import opened SourceBundles
  import opened SourceText
  import opened Text

  /** Regular files by relative path; directories exist as the prefixes of the paths. */
  type Files = map<string, Bytes>

  /** `inner` lies below the directory or file `outer`. */
  predicate Under(outer: string, inner: string) {
    outer + "/" <= inner
  }

  /** Lying below is having the components of the other path as a proper prefix. */
  lemma UnderByComponents(outer: string, inner: string)
    ensures Under(outer, inner) <==> Split(outer, '/') < Split(inner, '/')
  {
    ExtendsByComponents(outer, inner, '/');
    JoinSplit(outer, '/');
    JoinSplit(inner, '/');
  }

  predicate Overlaps(a: string, b: string) {
    Under(a, b) || Under(b, a)
  }

  /** A write to `path` fails: an ancestor is a file, or `path` itself is a directory. */
  predicate Obstructs(files: Files, path: string) {
    exists q :: q in files && Overlaps(q, path)
  }

  /** No path lies below another. */
  ghost predicate PrefixFree(paths: set<string>) {
    forall p, q :: p in paths && q in paths ==> !Under(p, q)
  }

  datatype BuildSpec = BuildSpec(entryDocument: string, maximumFileCount: int, maximumOutputBytes: int)

  datatype Revision = Revision(
    applicationId: string,
    revision: string,
    applicationType: string,
    sourceBundleRef: string,
    sourceDigest: string,
    buildSpec: BuildSpec)

  datatype Policy = Policy(maximumFiles: int, maximumOutputBytes: int)

  datatype Record = Record(path: string, digest: string, mediaType: string, size: nat)

  datatype Output = Output(files: seq<Record>, entryDocument: string, totalSize: nat)

  datatype BuildError =
    | UnsupportedType
    | TooManyFiles
    | TooManyBytes
    | OutputExists
    | TooLate(item: nat)
    | Unwritable(item: nat)
    | EntryMissing

  function Min(a: int, b: int): int {
    if a <= b then a else b
  }

  function RecordOf(f: ValidatedFile): Record {
    Record(f.path, f.digest, f.mediaType, |f.content|)
  }

  function Records(files: seq<ValidatedFile>): (r: seq<Record>)
    ensures |r| == |files| && forall i :: 0 <= i < |files| ==> r[i] == RecordOf(files[i])
  {
    seq(|files|, i requires 0 <= i < |files| => RecordOf(files[i]))
  }

  function SizeSum(records: seq<Record>): nat {
    if records == [] then 0 else SizeSum(records[..|records| - 1]) + records[|records| - 1].size
  }

  /** The sum is over all records, each once. */
  lemma {:induction false} SizesAdd(a: seq<Record>, b: seq<Record>)
    ensures SizeSum(a + b) == SizeSum(a) + SizeSum(b)
    ensures forall r :: SizeSum([r]) == r.size
  {
    assert forall r: Record :: [r][..0] == [];
    if b == [] {
      assert a + b == a;
    } else {
      assert (a + b)[..|a + b| - 1] == a + b[..|b| - 1];
      SizesAdd(a, b[..|b| - 1]);
    }
  }

  /** Tuple order on records. */
  predicate RecordLe(a: Record, b: Record) {
    StrLess(a.path, b.path)
    || (a.path == b.path && (StrLess(a.digest, b.digest)
    || (a.digest == b.digest && (StrLess(a.mediaType, b.mediaType)
    || (a.mediaType == b.mediaType && a.size <= b.size)))))
  }

  /** Records are ordered by path, then digest, then media type, and then by size. */
  lemma RecordOrderMeans(a: Record, b: Record)
    ensures var s, t := [a.path, a.digest, a.mediaType], [b.path, b.digest, b.mediaType];
      RecordLe(a, b) <==> if s == t then a.size <= b.size else KeysInOrder(s, t)
  {
    var s, t := [a.path, a.digest, a.mediaType], [b.path, b.digest, b.mediaType];
    forall k: nat | k < 3 ensures StrLess(s[k], t[k]) <==> ByCodePoint(s[k], t[k]) {
      StrLessMeans(s[k], t[k]);
    }
    assert s[0] == a.path && s[1] == a.digest && s[2] == a.mediaType;
    assert t[0] == b.path && t[1] == b.digest && t[2] == b.mediaType;
    var k := if s[0] != t[0] then 0 else if s[1] != t[1] then 1 else 2;
    assert forall i: nat :: SmallerAt(s, t, i) ==> i == k;
    assert SmallerAt(s, t, k) <==> ByCodePoint(s[k], t[k]);
  }

  /** What writing the files one after the other leaves behind; a repeated path is overwritten. */
  function Written(files: seq<ValidatedFile>): Files {
    if files == [] then map[]
    else
      var last := files[|files| - 1];
      Written(files[..|files| - 1])[last.path := last.content]
  }

  ghost predicate FewEnough(revision: Revision, source: Bundle, policy: Policy) {
    |source.files| <= policy.maximumFiles && |source.files| <= revision.buildSpec.maximumFileCount
  }

  ghost predicate InPolicy(revision: Revision, source: Bundle, policy: Policy) {
    && FewEnough(revision, source, policy)
    && source.totalSize <= policy.maximumOutputBytes && source.totalSize <= revision.buildSpec.maximumOutputBytes
  }

  ghost predicate WritableUpTo(files: seq<ValidatedFile>, n: nat)
    requires n <= |files|
  {
    forall k :: 0 <= k < n ==> !Obstructs(Written(files[..k]), files[k].path)
  }

  /** The loop gets past the first `n` items: none late, none unwritable. */
  ghost predicate Progress(files: seq<ValidatedFile>, late: nat -> bool, n: nat)
    requires n <= |files|
  {
    (forall k :: 0 <= k < n ==> !late(k)) && WritableUpTo(files, n)
  }

  ghost predicate Lists(files: seq<ValidatedFile>, path: string) {
    exists f :: f in files && f.path == path
  }

  ghost predicate Buildable(revision: Revision, source: Bundle, policy: Policy, rootExists: bool, late: nat -> bool) {
    && revision.applicationType == "static_web" && InPolicy(revision, source, policy) && !rootExists
    && Progress(source.files, late, |source.files|)
    && Lists(source.files, revision.buildSpec.entryDocument)
  }

  function OutputOf(revision: Revision, source: Bundle): Output {
    Output(Sort(Records(source.files), RecordLe), revision.buildSpec.entryDocument, SizeSum(Records(source.files)))
  }

  predicate Recorded(records: seq<Record>, path: string) {
    exists record :: record in records && record.path == path
  }

  lemma RecordsListFiles(files: seq<ValidatedFile>, path: string)
    ensures Recorded(Records(files), path) <==> Lists(files, path)
  {
    var records := Records(files);
    if Recorded(records, path) {
      var i :| 0 <= i < |records| && records[i].path == path;
      assert files[i] in files;
    }
    if Lists(files, path) {
      var i :| 0 <= i < |files| && files[i].path == path;
      assert records[i] in records;
    }
  }

  lemma NextWritten(files: seq<ValidatedFile>, i: nat)
    requires i < |files|
    ensures Written(files[..i + 1]) == Written(files[..i])[files[i].path := files[i].content]
    ensures Records(files[..i + 1]) == Records(files[..i]) + [RecordOf(files[i])]
  {
    assert files[..i + 1][..i] == files[..i];
  }

  /** Item `k` is the first one late, or the first one a file is in the way of; the items before it are written. */
  ghost predicate StopsAt(files: seq<ValidatedFile>, late: nat -> bool, k: nat, blocked: bool, root: Files) {
    && k < |files| && Progress(files, late, k) && root == Written(files[..k])
    && (if blocked then !late(k) && Obstructs(root, files[k].path) else late(k))
  }

  lemma StopIsNoProgress(files: seq<ValidatedFile>, late: nat -> bool, k: nat, blocked: bool, root: Files)
    requires StopsAt(files, late, k, blocked, root)
    ensures !Progress(files, late, |files|)
  {
  }

  lemma Advance(files: seq<ValidatedFile>, late: nat -> bool, i: nat)
    requires i < |files| && Progress(files, late, i) && !late(i)
    requires !Obstructs(Written(files[..i]), files[i].path)
    ensures Progress(files, late, i + 1)
  {
  }

  /** The writing loop of `build`. */
  method WriteAll(files: seq<ValidatedFile>, late: nat -> bool)
      returns (stopped: Option<BuildError>, root: Files, records: seq<Record>)
    ensures stopped.None? <==> Progress(files, late, |files|)
    ensures stopped.None? ==> root == Written(files) && records == Records(files)
    ensures stopped.Some? ==> stopped.value.TooLate? || stopped.value.Unwritable?
    ensures stopped.Some? ==> StopsAt(files, late, stopped.value.item, stopped.value.Unwritable?, root)
  {
    root, records := map[], [];
    for i := 0 to |files|
      invariant Progress(files, late, i)
      invariant root == Written(files[..i]) && records == Records(files[..i])
    {
      if late(i) {
        StopIsNoProgress(files, late, i, false, root);
        return Some(TooLate(i)), root, records;
      }
      if Obstructs(root, files[i].path) {
        StopIsNoProgress(files, late, i, true, root);
        return Some(Unwritable(i)), root, records;
      }
      NextWritten(files, i);
      Advance(files, late, i);
      root := root[files[i].path := files[i].content];
      records := records + [RecordOf(files[i])];
    }
    assert files[..|files|] == files;
    stopped := None;
  }

  /**
    `StaticWebBuilder.build`. `late(k)` says that the clock passed the limit before item `k`;
    `root` is the content of the output directory afterwards, None when it was not created.
   */
  method Build(revision: Revision, source: Bundle, policy: Policy, rootExists: bool, late: nat -> bool)
    returns (r: Result<Output, BuildError>, root: Option<Files>)
    ensures r.Ok? <==> Buildable(revision, source, policy, rootExists, late)
    ensures r.Ok? ==> r.value == OutputOf(revision, source) && root == Some(Written(source.files))
    ensures r == Err(UnsupportedType) <==> revision.applicationType != "static_web"
    ensures r == Err(BuildError.TooManyFiles) <==>
      revision.applicationType == "static_web" && !FewEnough(revision, source, policy)
    ensures r == Err(TooManyBytes) <==>
      revision.applicationType == "static_web" && FewEnough(revision, source, policy) &&
        !InPolicy(revision, source, policy)
    ensures r == Err(OutputExists) <==>
      revision.applicationType == "static_web" && InPolicy(revision, source, policy) && rootExists
    ensures root.None? <==>
      r.Err? && (r.error.UnsupportedType? || r.error.TooManyFiles? || r.error.TooManyBytes? || r.error.OutputExists?)
    ensures r.Err? && r.error.TooLate? ==>
      var k := r.error.item;
      k < |source.files| && Progress(source.files, late, k) && late(k) && root == Some(Written(source.files[..k]))
    ensures r.Err? && r.error.Unwritable? ==>
      var k := r.error.item;
      k < |source.files| && Progress(source.files, late, k) && !late(k)
      && Obstructs(Written(source.files[..k]), source.files[k].path) && root == Some(Written(source.files[..k]))
    ensures r == Err(EntryMissing) ==>
      Progress(source.files, late, |source.files|) && !Lists(source.files, revision.buildSpec.entryDocument)
      && root == Some(Written(source.files))
  {
    if revision.applicationType != "static_web" {
      return Err(UnsupportedType), None;
    }
    if |source.files| > Min(policy.maximumFiles, revision.buildSpec.maximumFileCount) {
      return Err(BuildError.TooManyFiles), None;
    }
    if source.totalSize > Min(policy.maximumOutputBytes, revision.buildSpec.maximumOutputBytes) {
      return Err(TooManyBytes), None;
    }
    if rootExists {
      return Err(OutputExists), None;
    }
    var stopped, files, records := WriteAll(source.files, late);
    if stopped.Some? {
      return Err(stopped.value), Some(files);
    }
    var entry := revision.buildSpec.entryDocument;
    RecordsListFiles(source.files, entry);
    if !Recorded(records, entry) {
      return Err(EntryMissing), Some(files);
    }
    r, root := Ok(Output(Sort(records, RecordLe), entry, SizeSum(records))), Some(files);
  }
}
