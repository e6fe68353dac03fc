/** Immutability of the store over every run of puts. */
module StoreSafety {
  import opened ArtifactIdentity
  import opened ArtifactStore
  import opened Collections
  import opened SourceBundles
  import opened Sorting
  import opened SourceText
  import opened StaticBuilder
  import opened Text

  datatype Put = Put(manifest: Manifest, source: Files)

  /** A run of puts; each may return or raise. */
  ghost function RunPuts(digests: Digests, published: Published, puts: seq<Put>): Published
    decreases |puts|
  {
    if puts == [] then published
    else RunPuts(digests, AfterPut(digests, published, puts[0].manifest, puts[0].source), puts[1..])
  }

  /** What is published stays, manifest and files, whatever is put later. */
  lemma {:induction false} RunKeepsArtifacts(digests: Digests, published: Published, puts: seq<Put>, d: string)
    requires d in published
    ensures d in RunPuts(digests, published, puts) && RunPuts(digests, published, puts)[d] == published[d]
    decreases |puts|
  {
    if puts != [] {
      RunKeepsArtifacts(digests, AfterPut(digests, published, puts[0].manifest, puts[0].source), puts[1..], d);
    }
  }

  /**
    Once a put has returned, after any further puts the artifact is the same, verifies as valid, is listed,
    and every consistent put of its digest returns.
   */
  lemma ReturnedDigestIsForGood(digests: Digests, before: Published, m: Manifest, source: Files, puts: seq<Put>)
    requires ContractValid(m) && PutReturns(digests, before, m, source)
    ensures var after := AfterPut(digests, before, m, source);
      var later := RunPuts(digests, after, puts);
      var d := m.artifactDigest;
      && d in after && d in later && later[d] == after[d]
      && Readable(later, d) && Clean(digests, d, later[d])
      && d in SortedSet(set x | x in later && Readable(later, x))
      && forall n: Manifest, s :: n.artifactDigest == d && ContentDigest(digests, n) == d ==>
          PutReturns(digests, later, n, s)
  {
    var after := AfterPut(digests, before, m, source);
    var later := RunPuts(digests, after, puts);
    var d := m.artifactDigest;
    RunKeepsArtifacts(digests, after, puts, d);
    var readable := set x | x in later && Readable(later, x);
    assert d in readable && ToSet(SortedSet(readable)) == readable;
  }

  /** The first publication decides for ever: a digest whose files failed verification is refused from then on. */
  lemma FirstPublicationDecides(digests: Digests, published: Published, puts: seq<Put>, m: Manifest, source: Files)
    requires m.artifactDigest in published
    ensures PutReturns(digests, RunPuts(digests, published, puts), m, source) <==>
      ContentDigest(digests, m) == m.artifactDigest && Clean(digests, m.artifactDigest, published[m.artifactDigest])
  {
    RunKeepsArtifacts(digests, published, puts, m.artifactDigest);
  }

  /** What puts alone establish about every published directory. */
  ghost predicate WellKept(digests: Digests, d: string, a: Artifact) {
    && IsDigest(d) && ContractValid(a.manifest) && a.manifest.artifactDigest == d
    && ContentDigest(digests, a.manifest) == d && a.files.Keys == Declared(a.manifest)
  }

  ghost predicate StoreKept(digests: Digests, published: Published) {
    forall d :: d in published ==> WellKept(digests, d, published[d])
  }

  lemma PutKeepsStore(digests: Digests, published: Published, m: Manifest, source: Files)
    requires StoreKept(digests, published) && ContractValid(m)
    ensures StoreKept(digests, AfterPut(digests, published, m, source))
  {
    if Publishes(digests, published, m, source) {
      assert Copy(m, source).files.Keys == Declared(m);
      assert WellKept(digests, m.artifactDigest, Copy(m, source));
    }
  }

  lemma {:induction false} RunKeepsStore(digests: Digests, published: Published, puts: seq<Put>)
    requires StoreKept(digests, published) && forall p :: p in puts ==> ContractValid(p.manifest)
    ensures StoreKept(digests, RunPuts(digests, published, puts))
    decreases |puts|
  {
    if puts != [] {
      var m, source := puts[0].manifest, puts[0].source;
      assert puts[0] in puts;
      PutKeepsStore(digests, published, m, source);
      RunKeepsStore(digests, AfterPut(digests, published, m, source), puts[1..]);
    }
  }

  /** In every state puts can reach, wrong bytes are the only thing verification can complain about. */
  lemma OnlyBytesCanBeWrong(digests: Digests, puts: seq<Put>, d: string)
    requires forall p :: p in puts ==> ContractValid(p.manifest)
    requires d in RunPuts(digests, map[], puts)
    ensures var a := RunPuts(digests, map[], puts)[d];
      && Readable(RunPuts(digests, map[], puts), d)
      && Declared(a.manifest) == a.files.Keys && ContentDigest(digests, a.manifest) == d
      && (Clean(digests, d, a) <==> Mismatched(digests, a) == {})
  {
    var reached := RunPuts(digests, map[], puts);
    RunKeepsStore(digests, map[], puts);
    assert WellKept(digests, d, reached[d]);
    NothingWrongMeansClean(digests, d, reached[d]);
    EmptyListing(Declared(reached[d].manifest) - reached[d].files.Keys);
    EmptyListing(reached[d].files.Keys - Declared(reached[d].manifest));
    EmptyListing(Mismatched(digests, reached[d]));
  }

  // ---------------------------------------------------------------- content addressing

  /** The two artifacts themselves exhibit two inputs that a hash function does not tell apart. */
  ghost predicate Colliding(digests: Digests, a: Artifact, b: Artifact) {
    || (a.manifest.stable != b.manifest.stable &&
        digests.identity(a.manifest.stable) == digests.identity(b.manifest.stable))
    || exists p :: p in a.files && p in b.files && a.files[p] != b.files[p] &&
        digests.sha(a.files[p]) == digests.sha(b.files[p])
  }

  /** Two clean artifacts under one digest have the same content, or are themselves a collision of a hash function. */
  lemma DigestDeterminesContent(digests: Digests, d: string, a: Artifact, b: Artifact)
    requires Clean(digests, d, a) && Clean(digests, d, b)
    ensures (a.manifest.stable == b.manifest.stable && a.files == b.files) || Colliding(digests, a, b)
  {
    if !Colliding(digests, a, b) {
      forall p | p in a.files ensures a.files[p] == b.files[p] {
        var r :| r in a.manifest.stable.files && r.path == p;
        assert Matches(digests, r, a.files[p]) && Matches(digests, r, b.files[p]);
      }
    }
  }

  // ---------------------------------------------------------------- a spoiled digest

  const SOME_DIGEST: string := "sha256:" + seq(64, _ => '0')

  lemma SomeDigestIsOne()
    ensures IsDigest(SOME_DIGEST)
  {
  }

  /** A manifest of one file with one byte. */
  function OneFile(digests: Digests): Manifest {
    var stable := Stable("app", "1.0.0", BUILDER_ID, BUILDER_REVISION, SOME_DIGEST, "a",
                         [Record("a", digests.sha([1]), "text/plain", 1)], REPRODUCIBILITY, SOME_DIGEST, 1);
    Manifest("app 1.0.0", stable, "artifact.a", digests.identity(stable),
             Provenance("ref", SOME_DIGEST, SOME_DIGEST, BUILDER_ID, BUILDER_REVISION))
  }

  lemma OneFileIsValid(digests: Digests)
    requires IsDigest(digests.sha([1])) && IsDigest(digests.identity(OneFile(digests).stable))
    ensures ContractValid(OneFile(digests)) && Declared(OneFile(digests)) == {"a"}
  {
    var m := OneFile(digests);
    SomeDigestIsOne();
    SplitWhole("a", '/');
    assert ContractPath("a");
    assert m.stable.files[..0] == [] && SizeSum(m.stable.files) == 1;
    assert m.stable.files[0] in m.stable.files;
  }

  lemma OneFileCopies(digests: Digests, content: Bytes)
    ensures var m, source := OneFile(digests), map["a" := content];
      Copyable(m.stable.files, source) && Selected(m.stable.files, source) == source
  {
    var m := OneFile(digests);
    assert m.stable.files[0] in m.stable.files;
    assert (set r | r in m.stable.files :: r.path) == {"a"};
    assert |"a" + "/"| > |"a"|;
  }

  /**
    Publishing before verifying is harmful: with the right files the put of this manifest returns, but once it has
    been put with a truncated file, which raises, the put with the right files raises for ever.
   */
  lemma WrongSourceSpoilsDigest(digests: Digests, puts: seq<Put>)
    requires IsDigest(digests.sha([1])) && IsDigest(digests.identity(OneFile(digests).stable))
    ensures var m, good, bad := OneFile(digests), map["a" := [1]], map["a" := []];
      && ContractValid(m) && PutReturns(digests, map[], m, good) && !PutReturns(digests, map[], m, bad)
      && !PutReturns(digests, RunPuts(digests, AfterPut(digests, map[], m, bad), puts), m, good)
  {
    var m, good, bad := OneFile(digests), map["a" := [1]], map["a" := []];
    OneFileIsValid(digests);
    OneFileCopies(digests, [1]);
    OneFileCopies(digests, []);
    assert m.stable.files[0] in m.stable.files;
    var after := AfterPut(digests, map[], m, bad);
    FirstPublicationDecides(digests, after, puts, m, good);
  }
}
