/** From a reviewed source bundle to a stored artifact. */
module ArtifactPipeline {
  import opened ArtifactIdentity
  import opened ArtifactStore
  import opened Collections
  import opened SourceBundles
  import opened SourceText
  import opened SourceTheorems
  import opened Sorting
  import opened StaticBuilder
  import StoreSafety

  /** Hash functions print digests in the agreed form. */
  ghost predicate PrintsDigests(digests: Digests) {
    && (forall x :: IsDigest(digests.sha(x)))
    && (forall x :: IsDigest(digests.identity(x)))
    && (forall x :: IsDigest(digests.spec(x)))
  }

  /** No regular file lies below another, as in any file system. */
  ghost predicate TreeLike(tree: Tree) {
    forall p, q :: p in tree && q in tree && tree[p].Regular? && tree[q].Regular? ==> !Under(p, q)
  }

  /** What is known of a validated bundle. */
  ghost predicate Sound(digests: Digests, files: seq<ValidatedFile>) {
    && StrictlyByPath(files) && |files| <= MAXIMUM_FILES
    && (forall f :: f in files ==> ContractPath(f.path) && f.mediaType in TYPES && f.digest == digests.sha(f.content))
    && (forall f, g :: f in files && g in files ==> !Under(f.path, g.path))
  }

  lemma AcceptedIsSound(digests: Digests, guess: string -> string, tree: Tree, maximum: int, m: SourceManifest)
    requires TreeLike(tree) && Accepted(ChecksOf(Host(digests.sha, guess), tree, maximum), m)
    ensures Sound(digests, BundleOf(ChecksOf(Host(digests.sha, guess), tree, maximum), m).files)
  {
    var host := Host(digests.sha, guess);
    var files := BundleOf(ChecksOf(host, tree, maximum), m).files;
    BundleIsFaithful(host, tree, maximum, m);
    forall v | v in files ensures Faithful(host, tree, v) {
      var f :| f in m.files && StandsFor(host, tree, maximum, f, v);
    }
  }

  // ---------------------------------------------------------------- the built files

  ghost predicate Holds(files: Files, f: ValidatedFile) {
    f.path in files && files[f.path] == f.content
  }

  lemma {:induction false} WrittenHolds(files: seq<ValidatedFile>, i: nat)
    requires StrictlyByPath(files) && i < |files|
    ensures Holds(Written(files), files[i])
  {
    var before, last := files[..|files| - 1], files[|files| - 1];
    if i < |before| {
      WrittenHolds(before, i);
      LessIsStrict(files[i].path, last.path);
    }
  }

  lemma {:induction false} WrittenLists(files: seq<ValidatedFile>, p: string)
    requires p in Written(files)
    ensures Lists(files, p)
  {
    var before, last := files[..|files| - 1], files[|files| - 1];
    assert files == before + [last];
    if p != last.path {
      WrittenLists(before, p);
    }
  }

  /** Writing a bundle leaves exactly its files. */
  lemma WrittenIsBundle(files: seq<ValidatedFile>)
    requires StrictlyByPath(files)
    ensures forall f :: f in files ==> Holds(Written(files), f)
    ensures forall p :: p in Written(files) ==> Lists(files, p)
  {
    forall f | f in files ensures Holds(Written(files), f) {
      var i :| 0 <= i < |files| && files[i] == f;
      WrittenHolds(files, i);
    }
    forall p | p in Written(files) ensures Lists(files, p) {
      WrittenLists(files, p);
    }
  }

  lemma {:induction false} SizesAgree(files: seq<ValidatedFile>)
    ensures SizeSum(Records(files)) == TotalSize(files)
  {
    if files != [] {
      SizesAgree(files[..|files| - 1]);
      assert Records(files)[..|files| - 1] == Records(files[..|files| - 1]);
    }
  }

  lemma RecordOrderIsTotal()
    ensures Total(RecordLe)
  {
    forall a, b ensures RecordLe(a, b) || RecordLe(b, a) {
      StrTrichotomy(a.path, b.path);
      StrTrichotomy(a.digest, b.digest);
      StrTrichotomy(a.mediaType, b.mediaType);
    }
    forall a, b, c | RecordLe(a, b) && RecordLe(b, c) ensures RecordLe(a, c) {
      LessChain(a.path, b.path, c.path);
      LessChain(a.digest, b.digest, c.digest);
      LessChain(a.mediaType, b.mediaType, c.mediaType);
    }
  }

  lemma LessIsStrict(a: string, b: string)
    requires StrLess(a, b)
    ensures a != b && !StrLess(b, a)
  {
    StrLessIrreflexive(a);
    LessChain(a, b, a);
  }

  /** The records of a bundle are already in tuple order. */
  lemma RecordsInOrder(files: seq<ValidatedFile>)
    requires StrictlyByPath(files)
    ensures Sort(Records(files), RecordLe) == Records(files)
  {
    var records := Records(files);
    RecordOrderIsTotal();
    forall i, j | 0 <= i < |records| && 0 <= j < |records| && RecordLe(records[i], records[j]) &&
      RecordLe(records[j], records[i])
      ensures records[i] == records[j]
    {
      if i < j {
        LessIsStrict(files[i].path, files[j].path);
      } else if j < i {
        LessIsStrict(files[j].path, files[i].path);
      }
    }
    SortIdentity(records, RecordLe);
  }

  lemma SoundIsWritable(digests: Digests, files: seq<ValidatedFile>)
    requires Sound(digests, files)
    ensures WritableUpTo(files, |files|)
  {
    forall k | 0 <= k < |files| ensures !Obstructs(Written(files[..k]), files[k].path) {
      assert StrictlyByPath(files[..k]);
      WrittenIsBundle(files[..k]);
      forall q | q in Written(files[..k]) ensures !Overlaps(q, files[k].path) {
        assert Lists(files[..k], q);
        var f :| f in files[..k] && f.path == q;
        assert f in files && files[k] in files;
      }
    }
  }

  /** For a validated bundle the build fails only for a stated reason: type, limits, root, clock or entry document. */
  lemma BuildableMeans(digests: Digests, revision: Revision, source: Bundle, policy: Policy, rootExists: bool,
      late: nat -> bool)
    requires Sound(digests, source.files)
    ensures Buildable(revision, source, policy, rootExists, late) <==>
      && revision.applicationType == "static_web" && InPolicy(revision, source, policy) && !rootExists
      && (forall k :: 0 <= k < |source.files| ==> !late(k)) && Lists(source.files, revision.buildSpec.entryDocument)
  {
    SoundIsWritable(digests, source.files);
  }

  // ---------------------------------------------------------------- the manifest

  lemma TypesAreBounded()
    ensures forall t :: t in TYPES ==> 3 <= |t| <= 128
  {
  }

  lemma RecordsAreContract(digests: Digests, files: seq<ValidatedFile>)
    requires Sound(digests, files) && PrintsDigests(digests)
    ensures Ascending(Records(files)) && forall r :: r in Records(files) ==> ContractRecord(r)
  {
    TypesAreBounded();
    forall r | r in Records(files) ensures ContractRecord(r) {
      var i :| 0 <= i < |files| && Records(files)[i] == r;
      assert files[i] in files;
    }
  }

  lemma EntryIsDeclared(m: Manifest, files: seq<ValidatedFile>)
    requires m.stable.files == Records(files) && Lists(files, m.stable.entryDocument)
    requires forall r :: r in Records(files) ==> ContractRecord(r)
    ensures |m.stable.files| >= 1 && m.stable.entryDocument in Declared(m) && ContractPath(m.stable.entryDocument)
  {
    var i :| 0 <= i < |files| && files[i].path == m.stable.entryDocument;
    assert m.stable.files[i] in m.stable.files;
  }

  /** The display name of the manifest fits the bound of the metadata. */
  predicate NameFits(revision: Revision) {
    |revision.applicationId| + 1 + |revision.revision| <= MAXIMUM_NAME
  }

  /**
    The manifest of a successful build is accepted by its contract model if and only if the name made of application
    id and revision fits; it lists the bundle in order under a consistent digest.
   */
  lemma BuildHasManifest(digests: Digests, revision: Revision, source: Bundle)
    requires Sound(digests, source.files) && PrintsDigests(digests) && IsDigest(revision.sourceDigest)
    requires Lists(source.files, revision.buildSpec.entryDocument)
    ensures var draft := Draft(digests, revision, OutputOf(revision, source));
      && ArtifactManifest(digests, revision, OutputOf(revision, source)) ==
          (if NameFits(revision) then Some(draft) else None)
      && draft.stable.files == Records(source.files) && ContentDigest(digests, draft) == draft.artifactDigest
      && draft.stable.totalSize == TotalSize(source.files)
  {
    var draft := Draft(digests, revision, OutputOf(revision, source));
    RecordsInOrder(source.files);
    SizesAgree(source.files);
    RecordsAreContract(digests, source.files);
    assert draft.stable.files == Records(source.files);
    EntryIsDeclared(draft, source.files);
  }

  // ---------------------------------------------------------------- end to end

  ghost function RecordPaths(records: seq<Record>): set<string> {
    set r | r in records :: r.path
  }

  lemma WrittenMatches(digests: Digests, files: seq<ValidatedFile>, r: Record)
    requires Sound(digests, files) && r in Records(files)
    ensures r.path in Written(files) && Matches(digests, r, Written(files)[r.path])
  {
    WrittenIsBundle(files);
    var i :| 0 <= i < |files| && Records(files)[i] == r;
    assert files[i] in files;
    assert Holds(Written(files), files[i]);
  }

  lemma WrittenKeys(files: seq<ValidatedFile>)
    requires StrictlyByPath(files)
    ensures Written(files).Keys == RecordPaths(Records(files))
  {
    WrittenIsBundle(files);
    var records := Records(files);
    forall p ensures p in Written(files) <==> p in RecordPaths(records) {
      if p in Written(files) {
        assert Lists(files, p);
        var i :| 0 <= i < |files| && files[i].path == p;
        assert records[i] in records;
      }
      if p in RecordPaths(records) {
        var i :| 0 <= i < |records| && records[i].path == p;
        assert files[i] in files;
        assert Holds(Written(files), files[i]);
      }
    }
  }

  lemma WrittenIsPrefixFree(digests: Digests, files: seq<ValidatedFile>)
    requires Sound(digests, files)
    ensures PrefixFree(Written(files).Keys)
  {
    WrittenIsBundle(files);
    forall p, q | p in Written(files) && q in Written(files) ensures !Under(p, q) {
      assert Lists(files, p) && Lists(files, q);
    }
  }

  lemma KeysSelectAll(records: seq<Record>, root: Files)
    requires root.Keys == RecordPaths(records) && PrefixFree(root.Keys)
    ensures Copyable(records, root) && Selected(records, root) == root
  {
    assert RecordPaths(records) == set r | r in records :: r.path;
    assert forall r :: r in records ==> r.path in RecordPaths(records);
  }

  /** The output directory of a build is exactly what its records describe. */
  lemma BuiltFilesAreCopied(digests: Digests, files: seq<ValidatedFile>)
    requires Sound(digests, files)
    ensures Copyable(Records(files), Written(files)) && Selected(Records(files), Written(files)) == Written(files)
  {
    WrittenKeys(files);
    WrittenIsPrefixFree(digests, files);
    KeysSelectAll(Records(files), Written(files));
  }

  lemma BuiltArtifactIsClean(digests: Digests, revision: Revision, source: Bundle)
    requires Sound(digests, source.files) && PrintsDigests(digests) && IsDigest(revision.sourceDigest) &&
      NameFits(revision)
    requires Lists(source.files, revision.buildSpec.entryDocument)
    ensures var draft := Draft(digests, revision, OutputOf(revision, source));
      Clean(digests, draft.artifactDigest, Artifact(draft, Written(source.files)))
  {
    var draft := Draft(digests, revision, OutputOf(revision, source));
    BuildHasManifest(digests, revision, source);
    WrittenKeys(source.files);
    assert Declared(draft) == RecordPaths(Records(source.files));
    forall r | r in draft.stable.files
      ensures r.path in Written(source.files) && Matches(digests, r, Written(source.files)[r.path])
    {
      WrittenMatches(digests, source.files, r);
    }
  }

  /** The manifest of the artifact a build of the bundle yields. */
  function BuiltManifest(digests: Digests, revision: Revision, source: Bundle): Manifest {
    Draft(digests, revision, OutputOf(revision, source))
  }

  /**
    For every validated bundle whose build succeeds and whose name fits, putting the artifact returns if and only if
    the digest is new or already stored clean; a new one is stored with exactly the built files, and verification
    finds nothing.
   */
  lemma BuiltArtifactIsStored(digests: Digests, revision: Revision, source: Bundle, published: Published)
    requires Sound(digests, source.files) && PrintsDigests(digests) && IsDigest(revision.sourceDigest) &&
      NameFits(revision)
    requires Lists(source.files, revision.buildSpec.entryDocument)
    ensures var m, root := BuiltManifest(digests, revision, source), Written(source.files);
      var after := AfterPut(digests, published, m, root);
      var d := m.artifactDigest;
      && (PutReturns(digests, published, m, root) <==> (d in published ==> Clean(digests, d, published[d])))
      && (d !in published ==>
          after == published[d := Artifact(m, root)] && Readable(after, d) && Clean(digests, d, after[d]))
  {
    BuildHasManifest(digests, revision, source);
    BuiltFilesAreCopied(digests, source.files);
    BuiltArtifactIsClean(digests, revision, source);
  }

  /** The bytes served for a source file are the normal form of the very content that was reviewed. */
  ghost predicate ServesSource(digests: Digests, tree: Tree, m: SourceManifest, a: Artifact) {
    forall f :: f in m.files ==> Served(digests, tree, f, a)
  }

  ghost predicate Served(digests: Digests, tree: Tree, f: SourceFile, a: Artifact) {
    && NormalizePath(f.path).Ok?
    && var path := NormalizePath(f.path).value;
      && path in tree && tree[path].Regular? && path in Declared(a.manifest) && path in a.files
      && digests.sha(tree[path].content) == f.contentDigest
      && NormalizeContent(f.mediaType, tree[path].content) == Some(a.files[path])
  }

  /** The stored artifact is serving the reviewed sources: each declared file, normalised, under its own path. */
  lemma StoredServesSource(digests: Digests, guess: string -> string, tree: Tree, maximum: int, m: SourceManifest,
      a: Artifact)
    requires TreeLike(tree) && Accepted(ChecksOf(Host(digests.sha, guess), tree, maximum), m)
    requires var files := BundleOf(ChecksOf(Host(digests.sha, guess), tree, maximum), m).files;
      a.files == Written(files) && Declared(a.manifest) == RecordPaths(Records(files))
    ensures ServesSource(digests, tree, m, a)
  {
    var host := Host(digests.sha, guess);
    var files := BundleOf(ChecksOf(host, tree, maximum), m).files;
    BundleIsFaithful(host, tree, maximum, m);
    WrittenIsBundle(files);
    WrittenKeys(files);
    forall f | f in m.files ensures Served(digests, tree, f, a) {
      var v :| v in files && StandsFor(host, tree, maximum, f, v);
      assert Holds(Written(files), v);
    }
  }

  const MAXIMUM_FILE_SIZE := 4_194_304
  const DEFAULT_POLICY := Policy(4096, 134_217_728)

  ghost function Validated(digests: Digests, guess: string -> string, tree: Tree, m: SourceManifest): Bundle
    requires Accepted(ChecksOf(Host(digests.sha, guess), tree, MAXIMUM_FILE_SIZE), m)
  {
    BundleOf(ChecksOf(Host(digests.sha, guess), tree, MAXIMUM_FILE_SIZE), m)
  }

  /** The record carries the normal form of the file under its normalised path and its declared type. */
  ghost predicate RecordsFile(digests: Digests, tree: Tree, f: SourceFile, r: Record) {
    && NormalizePath(f.path) == Ok(r.path) && r.mediaType == f.mediaType && r.path in tree && tree[r.path].Regular?
    && var content := NormalizeContent(f.mediaType, tree[r.path].content);
       content.Some? && r.digest == digests.sha(content.value) && r.size == |content.value|
  }

  /** One record for each reviewed file, and no others. */
  ghost predicate Itemises(digests: Digests, tree: Tree, m: SourceManifest, manifest: Manifest) {
    && |manifest.stable.files| == |m.files|
    && (forall f :: f in m.files ==> exists r :: r in manifest.stable.files && RecordsFile(digests, tree, f, r))
    && forall r :: r in manifest.stable.files ==> exists f :: f in m.files && RecordsFile(digests, tree, f, r)
  }

  /** The manifest of a build describes the revision and itemises the reviewed files. */
  lemma ManifestOfSource(digests: Digests, guess: string -> string, tree: Tree, m: SourceManifest, revision: Revision)
    requires TreeLike(tree) && PrintsDigests(digests) && IsDigest(revision.sourceDigest)
    requires Accepted(ChecksOf(Host(digests.sha, guess), tree, MAXIMUM_FILE_SIZE), m)
    requires Lists(Validated(digests, guess, tree, m).files, revision.buildSpec.entryDocument)
    ensures var manifest := Built(digests, guess, tree, m, revision);
      && Describes(digests, revision, OutputOf(revision, Validated(digests, guess, tree, m)), manifest)
      && manifest.stable.entryDocument == revision.buildSpec.entryDocument && Itemises(digests, tree, m, manifest)
  {
    var source := Validated(digests, guess, tree, m);
    AcceptedIsSound(digests, guess, tree, MAXIMUM_FILE_SIZE, m);
    BuildHasManifest(digests, revision, source);
    DraftMeans(digests, revision, OutputOf(revision, source));
    BundleIsFaithful(Host(digests.sha, guess), tree, MAXIMUM_FILE_SIZE, m);
    RecordsItemise(digests, guess, tree, m.files, source.files);
  }

  lemma RecordsItemise(digests: Digests, guess: string -> string, tree: Tree, sources: seq<SourceFile>,
      files: seq<ValidatedFile>)
    requires var host := Host(digests.sha, guess);
      && (forall v :: v in files ==> exists f :: f in sources && StandsFor(host, tree, MAXIMUM_FILE_SIZE, f, v))
      && (forall f :: f in sources ==> exists v :: v in files && StandsFor(host, tree, MAXIMUM_FILE_SIZE, f, v))
    ensures forall f :: f in sources ==> exists r :: r in Records(files) && RecordsFile(digests, tree, f, r)
    ensures forall r :: r in Records(files) ==> exists f :: f in sources && RecordsFile(digests, tree, f, r)
  {
    var host, records := Host(digests.sha, guess), Records(files);
    forall f | f in sources ensures exists r :: r in records && RecordsFile(digests, tree, f, r) {
      var v :| v in files && StandsFor(host, tree, MAXIMUM_FILE_SIZE, f, v);
      var i :| 0 <= i < |files| && files[i] == v;
      FileRecorded(digests, guess, tree, f, v);
      assert records[i] in records;
    }
    forall r | r in records ensures exists f :: f in sources && RecordsFile(digests, tree, f, r) {
      var i :| 0 <= i < |records| && records[i] == r;
      assert files[i] in files;
      var f :| f in sources && StandsFor(host, tree, MAXIMUM_FILE_SIZE, f, files[i]);
      FileRecorded(digests, guess, tree, f, files[i]);
    }
  }

  lemma FileRecorded(digests: Digests, guess: string -> string, tree: Tree, f: SourceFile, v: ValidatedFile)
    requires StandsFor(Host(digests.sha, guess), tree, MAXIMUM_FILE_SIZE, f, v)
    ensures RecordsFile(digests, tree, f, RecordOf(v))
  {
  }

  /** Validation and build both succeed, in a new output directory. */
  ghost predicate Builds(digests: Digests, guess: string -> string, tree: Tree, m: SourceManifest, revision: Revision,
      late: nat -> bool) {
    && Accepted(ChecksOf(Host(digests.sha, guess), tree, MAXIMUM_FILE_SIZE), m)
    && Buildable(revision, Validated(digests, guess, tree, m), DEFAULT_POLICY, false, late)
  }

  ghost function Built(digests: Digests, guess: string -> string, tree: Tree, m: SourceManifest,
      revision: Revision): Manifest
    requires Accepted(ChecksOf(Host(digests.sha, guess), tree, MAXIMUM_FILE_SIZE), m)
  {
    BuiltManifest(digests, revision, Validated(digests, guess, tree, m))
  }

  /** The digest is unknown to the store, or names a directory that verifies. */
  ghost predicate Usable(digests: Digests, published: Published, d: string) {
    d in published ==> Clean(digests, d, published[d])
  }

  /** What putting a built manifest and its files achieves. */
  ghost predicate EndsWell(digests: Digests, tree: Tree, m: SourceManifest, manifest: Manifest, root: Files,
      published: Published) {
    var d := manifest.artifactDigest;
    var after := AfterPut(digests, published, manifest, root);
    && (PutReturns(digests, published, manifest, root) <==> Usable(digests, published, d))
    && d in after && (d in published ==> after == published)
    && (Usable(digests, published, d) ==> Readable(after, d) && Clean(digests, d, after[d]))
    && (d !in published ==> ServesSource(digests, tree, m, after[d]))
    && (d in published && Usable(digests, published, d) ==>
      || ServesSource(digests, tree, m, after[d])
      || StoreSafety.Colliding(digests, Artifact(manifest, root), published[d]))
  }

  /**
    End to end: a bundle that builds has a manifest if and only if its name fits. Its artifact is then stored unless
    the digest already names a directory that does not verify; once stored it verifies, and it serves exactly the
    normalised sources: always on a first publication, and on a later one unless the stored artifact and the built
    one are themselves a hash collision.
   */
  lemma EndToEnd(digests: Digests, guess: string -> string, tree: Tree, m: SourceManifest, revision: Revision,
      late: nat -> bool, published: Published)
    requires PrintsDigests(digests) && TreeLike(tree) && IsDigest(revision.sourceDigest)
    requires Builds(digests, guess, tree, m, revision, late)
    ensures var source := Validated(digests, guess, tree, m);
      var manifest := Built(digests, guess, tree, m, revision);
      && ArtifactManifest(digests, revision, OutputOf(revision, source)) ==
          (if NameFits(revision) then Some(manifest) else None)
      && (NameFits(revision) ==> EndsWell(digests, tree, m, manifest, Written(source.files), published))
  {
    var source := Validated(digests, guess, tree, m);
    AcceptedIsSound(digests, guess, tree, MAXIMUM_FILE_SIZE, m);
    BuildHasManifest(digests, revision, source);
    if NameFits(revision) {
      FittingBuildEndsWell(digests, guess, tree, m, revision, published);
    }
  }

  lemma FittingBuildEndsWell(digests: Digests, guess: string -> string, tree: Tree, m: SourceManifest,
      revision: Revision, published: Published)
    requires PrintsDigests(digests) && TreeLike(tree) && IsDigest(revision.sourceDigest) && NameFits(revision)
    requires Accepted(ChecksOf(Host(digests.sha, guess), tree, MAXIMUM_FILE_SIZE), m)
    requires Lists(Validated(digests, guess, tree, m).files, revision.buildSpec.entryDocument)
    ensures var source := Validated(digests, guess, tree, m);
      EndsWell(digests, tree, m, Built(digests, guess, tree, m, revision), Written(source.files), published)
  {
    var source := Validated(digests, guess, tree, m);
    var manifest := Built(digests, guess, tree, m, revision);
    var d := manifest.artifactDigest;
    var built := Artifact(manifest, Written(source.files));
    AcceptedIsSound(digests, guess, tree, MAXIMUM_FILE_SIZE, m);
    BuiltArtifactIsStored(digests, revision, source, published);
    BuiltArtifactIsClean(digests, revision, source);
    BuildHasManifest(digests, revision, source);
    assert Declared(manifest) == RecordPaths(Records(source.files));
    StoredServesSource(digests, guess, tree, MAXIMUM_FILE_SIZE, m, built);
    if d in published && Clean(digests, d, published[d]) {
      StoreSafety.DigestDeterminesContent(digests, d, built, published[d]);
      if !StoreSafety.Colliding(digests, built, published[d]) {
        StoredServesSource(digests, guess, tree, MAXIMUM_FILE_SIZE, m, published[d]);
      }
    }
  }

  function Repeat(c: char, n: nat): (r: string)
    ensures |r| == n
  {
    if n == 0 then "" else [c] + Repeat(c, n - 1)
  }

  /** An application id of 115 letters is within its own bound of 128, and its builds succeed without a manifest. */
  lemma LongNameHasNoManifest(digests: Digests, source: Bundle, spec: BuildSpec, sourceDigest: string)
    requires Sound(digests, source.files) && PrintsDigests(digests) && IsDigest(sourceDigest) &&
      Lists(source.files, spec.entryDocument)
    ensures var revision := Revision(Repeat('a', 115), "1.0.0", "static_web", "ref", sourceDigest, spec);
      && (forall policy: Policy :: InPolicy(revision, source, policy) ==>
          Buildable(revision, source, policy, false, _ => false))
      && ArtifactManifest(digests, revision, OutputOf(revision, source)) == None
  {
    var revision := Revision(Repeat('a', 115), "1.0.0", "static_web", "ref", sourceDigest, spec);
    BuildHasManifest(digests, revision, source);
    SoundIsWritable(digests, source.files);
  }

  datatype Failure =
    | SourceFailed(source: SourceError)
    | BuildFailed(build: BuildError)
    | ManifestRejected
    | StoreFailed(store: StoreError)

  /** The validate, build and identify steps of `build_application`. */
  method BuildSource(digests: Digests, guess: string -> string, tree: Tree, m: SourceManifest, revision: Revision,
      late: nat -> bool)
    returns (r: Result<Manifest, Failure>, root: Files)
    requires PrintsDigests(digests) && TreeLike(tree) && IsDigest(revision.sourceDigest)
    ensures r.Ok? <==> Builds(digests, guess, tree, m, revision, late) && NameFits(revision)
    ensures r == Err(ManifestRejected) <==> Builds(digests, guess, tree, m, revision, late) && !NameFits(revision)
    ensures r.Ok? ==> r.value == Built(digests, guess, tree, m, revision) && ContractValid(r.value)
    ensures r.Ok? ==> root == Written(Validated(digests, guess, tree, m).files)
    ensures r.Ok? ==>
      && Describes(digests, revision, OutputOf(revision, Validated(digests, guess, tree, m)), r.value)
      && r.value.stable.entryDocument == revision.buildSpec.entryDocument && Itemises(digests, tree, m, r.value)
    ensures r.Err? ==> !r.error.StoreFailed?
  {
    root := map[];
    var source := ValidateSource(Host(digests.sha, guess), tree, m, MAXIMUM_FILE_SIZE);
    if source.Err? {
      return Err(SourceFailed(source.error)), root;
    }
    var output, written := Build(revision, source.value, DEFAULT_POLICY, false, late);
    if output.Err? {
      return Err(BuildFailed(output.error)), root;
    }
    AcceptedIsSound(digests, guess, tree, MAXIMUM_FILE_SIZE, m);
    BuildHasManifest(digests, revision, source.value);
    var manifest := ArtifactManifest(digests, revision, output.value);
    if manifest.None? {
      return Err(ManifestRejected), root;
    }
    ManifestOfSource(digests, guess, tree, m, revision);
    r, root := Ok(manifest.value), written.value;
  }

  /** The pipeline up to `put_artifact`; a failure leaves the store as it was, so it never spoils a digest. */
  method BuildApplication(store: FileArtifactStore, guess: string -> string, tree: Tree, m: SourceManifest,
      revision: Revision, late: nat -> bool) returns (r: Result<Manifest, Failure>)
    requires PrintsDigests(store.digests) && TreeLike(tree) && IsDigest(revision.sourceDigest)
    modifies store`published
    ensures r.Ok? <==>
      Builds(store.digests, guess, tree, m, revision, late) && NameFits(revision)
      && Usable(store.digests, old(store.published), Built(store.digests, guess, tree, m, revision).artifactDigest)
    ensures r.Ok? ==>
      r.value == Built(store.digests, guess, tree, m, revision)
      && store.published == AfterPut(store.digests, old(store.published), r.value,
          Written(Validated(store.digests, guess, tree, m).files))
    ensures r.Ok? ==>
      var d := r.value.artifactDigest;
      Readable(store.published, d) && Clean(store.digests, d, store.published[d])
      && (d !in old(store.published) ==> ServesSource(store.digests, tree, m, store.published[d]))
    ensures r.Err? ==> store.published == old(store.published)
  {
    var built, root := BuildSource(store.digests, guess, tree, m, revision, late);
    if built.Err? {
      return Err(built.error);
    }
    EndToEnd(store.digests, guess, tree, m, revision, late, store.published);
    var put := store.PutArtifact(built.value, root);
    if put.Err? {
      return Err(StoreFailed(put.error));
    }
    r := Ok(built.value);
  }
}
