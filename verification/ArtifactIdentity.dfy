/** The content-addressed identity of a built artifact and the contract of its manifest. */
module ArtifactIdentity {
  import opened Collections
  import opened Sorting
  import opened SourceBundles
  import opened SourceText
  import opened StaticBuilder

  const BUILDER_ID := "static-web-builder"
  const BUILDER_REVISION := "1.0.0"
  const REPRODUCIBILITY := "reproducible"

  /** The fields the artifact digest covers. */
  datatype Stable = Stable(
    applicationId: string,
    applicationRevision: string,
    builderId: string,
    builderRevision: string,
    buildSpecDigest: string,
    entryDocument: string,
    files: seq<Record>,
    reproducibility: string,
    sourceDigest: string,
    totalSize: nat)

  datatype Provenance = Provenance(
    sourceManifestRef: string,
    sourceDigest: string,
    buildSpecDigest: string,
    builderId: string,
    builderRevision: string)

  datatype Manifest = Manifest(name: string, stable: Stable, artifactId: string, artifactDigest: string,
      provenance: Provenance)

  /** SHA-256 of bytes, of the canonical JSON of the stable fields, and of the build specification. */
  datatype Digests = Digests(sha: Bytes -> string, identity: Stable -> string, spec: BuildSpec -> string)

  predicate IsHex(c: char) {
    '0' <= c <= '9' || 'a' <= c <= 'f'
  }

  /** "sha256:" and 64 lower-case hexadecimal digits. */
  predicate IsDigest(d: string) {
    |d| == 71 && d[..7] == "sha256:" && forall i :: 7 <= i < 71 ==> IsHex(d[i])
  }

  predicate ContractRecord(r: Record) {
    ContractPath(r.path) && IsDigest(r.digest) && 3 <= |r.mediaType| <= 128
  }

  predicate Ascending(records: seq<Record>) {
    forall i, j :: 0 <= i < j < |records| ==> StrLess(records[i].path, records[j].path)
  }

  function Declared(m: Manifest): set<string> {
    set r | r in m.stable.files :: r.path
  }

  const MAXIMUM_NAME := 120

  /** The validators of the manifest contract model and of its metadata. */
  predicate ContractValid(m: Manifest) {
    && 1 <= |m.name| <= MAXIMUM_NAME
    && 1 <= |m.stable.files| <= 4096
    && (forall r :: r in m.stable.files ==> ContractRecord(r))
    && Ascending(m.stable.files)
    && m.stable.entryDocument in Declared(m) && ContractPath(m.stable.entryDocument)
    && SizeSum(m.stable.files) == m.stable.totalSize
    && IsDigest(m.artifactDigest) && IsDigest(m.stable.sourceDigest) && IsDigest(m.stable.buildSpecDigest)
    && IsDigest(m.provenance.sourceDigest) && IsDigest(m.provenance.buildSpecDigest)
  }

  // ---------------------------------------------------------------- what a valid manifest is

  /** The algorithm's name and 64 digits of the hexadecimal alphabet. */
  ghost predicate NamesHash(d: string) {
    exists hex :: d == "sha256:" + hex && |hex| == 64 && forall i :: 0 <= i < |hex| ==> hex[i] in "0123456789abcdef"
  }

  lemma DigestMeans(d: string)
    ensures IsDigest(d) <==> NamesHash(d)
  {
    if IsDigest(d) {
      var hex := d[7..];
      assert d == "sha256:" + hex && forall i :: 0 <= i < 64 ==> hex[i] == d[i + 7];
      forall i | 0 <= i < 64 ensures hex[i] in "0123456789abcdef" {
        assert IsHex(hex[i]);
        HexAlphabet(hex[i]);
      }
    }
    if hex :| d == "sha256:" + hex && |hex| == 64 && forall i :: 0 <= i < |hex| ==> hex[i] in "0123456789abcdef" {
      forall i | 7 <= i < 71 ensures IsHex(d[i]) {
        assert d[i] == hex[i - 7];
        HexAlphabet(d[i]);
      }
    }
  }

  lemma HexAlphabet(c: char)
    ensures IsHex(c) <==> c in "0123456789abcdef"
  {
    var digits := "0123456789abcdef";
    if '0' <= c <= '9' {
      assert digits[c as int - '0' as int] == c;
    } else if 'a' <= c <= 'f' {
      assert digits[10 + (c as int - 'a' as int)] == c;
    }
  }

  /** One declared file: a contract path under a digest, of a named type. */
  ghost predicate ProperRecord(r: Record) {
    ContractPath(r.path) && NamesHash(r.digest) && |r.mediaType| >= 3 && |r.mediaType| <= 128
  }

  /** The declared paths are listed in order, and none twice. */
  ghost predicate ListedOnce(records: seq<Record>) {
    && (forall i, j :: 0 <= i < j < |records| ==> records[i].path != records[j].path)
    && forall i :: 0 < i < |records| ==> StrLe(records[i - 1].path, records[i].path)
  }

  lemma {:induction false} NeighboursAscend(records: seq<Record>, i: nat, j: nat)
    requires ListedOnce(records) && i < j < |records|
    ensures StrLess(records[i].path, records[j].path)
    decreases j - i
  {
    if i + 1 < j {
      NeighboursAscend(records, i, j - 1);
      assert StrLe(records[j - 1].path, records[j].path);
      LessChain(records[i].path, records[j - 1].path, records[j].path);
    }
  }

  lemma AscendingMeans(records: seq<Record>)
    ensures Ascending(records) <==> ListedOnce(records)
  {
    if Ascending(records) {
      forall i, j | 0 <= i < j < |records| ensures records[i].path != records[j].path {
        StrLessIrreflexive(records[i].path);
      }
    }
    if ListedOnce(records) {
      forall i, j | 0 <= i < j < |records| ensures StrLess(records[i].path, records[j].path) {
        NeighboursAscend(records, i, j);
      }
    }
  }

  /**
    A manifest of one to 4096 proper files, listed once each and in order, that add up to the total size and include
    the entry document, with digests where digests belong and a name that fits.
   */
  ghost predicate Proper(m: Manifest) {
    && m.name != "" && |m.name| <= 120
    && m.stable.files != [] && |m.stable.files| <= 4096 && ListedOnce(m.stable.files)
    && (forall i :: 0 <= i < |m.stable.files| ==> ProperRecord(m.stable.files[i]))
    && (exists i :: 0 <= i < |m.stable.files| && m.stable.files[i].path == m.stable.entryDocument)
    && m.stable.totalSize == SizeSum(m.stable.files)
    && NamesHash(m.artifactDigest)
    && NamesHash(m.stable.sourceDigest) && NamesHash(m.provenance.sourceDigest)
    && NamesHash(m.stable.buildSpecDigest) && NamesHash(m.provenance.buildSpecDigest)
  }

  /** The contract model accepts exactly the proper manifests. */
  lemma ContractMeans(m: Manifest)
    ensures ContractValid(m) <==> Proper(m)
  {
    DigestMeans(m.artifactDigest);
    DigestMeans(m.stable.sourceDigest);
    DigestMeans(m.stable.buildSpecDigest);
    DigestMeans(m.provenance.sourceDigest);
    DigestMeans(m.provenance.buildSpecDigest);
    AscendingMeans(m.stable.files);
    RecordsMean(m);
  }

  lemma RecordsMean(m: Manifest)
    ensures (forall r :: r in m.stable.files ==> ContractRecord(r)) <==>
      forall i :: 0 <= i < |m.stable.files| ==> ProperRecord(m.stable.files[i])
    ensures (forall r :: r in m.stable.files ==> ContractRecord(r)) ==>
      (m.stable.entryDocument in Declared(m) && ContractPath(m.stable.entryDocument) <==>
       exists i :: 0 <= i < |m.stable.files| && m.stable.files[i].path == m.stable.entryDocument)
  {
    var files := m.stable.files;
    forall i | 0 <= i < |files| ensures ContractRecord(files[i]) <==> ProperRecord(files[i]) {
      DigestMeans(files[i].digest);
    }
    assert forall i :: 0 <= i < |files| ==> files[i] in files;
  }

  function StableOf(digests: Digests, revision: Revision, output: Output): Stable {
    Stable(revision.applicationId, revision.revision, BUILDER_ID, BUILDER_REVISION, digests.spec(revision.buildSpec),
           output.entryDocument, output.files, REPRODUCIBILITY, revision.sourceDigest, output.totalSize)
  }

  function RemovePrefix(s: string, prefix: string): string {
    if prefix <= s then s[|prefix|..] else s
  }

  function Truncate(s: string, n: nat): string {
    if |s| <= n then s else s[..n]
  }

  function ArtifactId(digest: string): string {
    "artifact." + Truncate(RemovePrefix(digest, "sha256:"), 32)
  }

  function Draft(digests: Digests, revision: Revision, output: Output): Manifest {
    var stable := StableOf(digests, revision, output);
    var name := revision.applicationId + " " + revision.revision;
    var digest := digests.identity(stable);
    var provenance := Provenance(
      revision.sourceBundleRef, revision.sourceDigest, stable.buildSpecDigest, BUILDER_ID, BUILDER_REVISION);
    Manifest(name, stable, ArtifactId(digest), digest, provenance)
  }

  /** The manifest describes this build of the revision, under its own digest and an id made of the digest. */
  ghost predicate Describes(digests: Digests, revision: Revision, output: Output, m: Manifest) {
    && m.name == revision.applicationId + " " + revision.revision
    && m.stable.applicationId == revision.applicationId && m.stable.applicationRevision == revision.revision
    && m.stable.builderId == "static-web-builder" && m.stable.builderRevision == "1.0.0"
    && m.stable.reproducibility == "reproducible"
    && m.stable.buildSpecDigest == digests.spec(revision.buildSpec) && m.stable.sourceDigest == revision.sourceDigest
    && m.stable.entryDocument == output.entryDocument && m.stable.files == output.files
    && m.stable.totalSize == output.totalSize
    && m.artifactDigest == digests.identity(m.stable)
    && m.provenance.sourceManifestRef == revision.sourceBundleRef
    && m.provenance.sourceDigest == revision.sourceDigest
    && m.provenance.buildSpecDigest == digests.spec(revision.buildSpec)
    && m.provenance.builderId == "static-web-builder" && m.provenance.builderRevision == "1.0.0"
    && (NamesHash(m.artifactDigest) ==> m.artifactId == "artifact." + m.artifactDigest[7..39])
  }

  lemma DraftMeans(digests: Digests, revision: Revision, output: Output)
    ensures Describes(digests, revision, output, Draft(digests, revision, output))
  {
    var digest := Draft(digests, revision, output).artifactDigest;
    if NamesHash(digest) {
      assert RemovePrefix(digest, "sha256:") == digest[7..];
      assert digest[7..][..32] == digest[7..39];
    }
  }

  /** `artifact_manifest`; None is the contract model's validation error. */
  function ArtifactManifest(digests: Digests, revision: Revision, output: Output): Option<Manifest> {
    var draft := Draft(digests, revision, output);
    if ContractValid(draft) then Some(draft) else None
  }

  /** `manifest_content_digest`. */
  function ContentDigest(digests: Digests, m: Manifest): string {
    digests.identity(m.stable)
  }
}
