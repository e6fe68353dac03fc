/** The content-addressed artifact store. */
module ArtifactStore {
  import opened ArtifactIdentity
  import opened Collections
  import opened PosixPath
  import opened Sorting
  import opened SourceBundles
  import opened SourceText
  import opened StaticBuilder
  import opened Text

  /** One published directory: its manifest document and the files beside it. */
  datatype Artifact = Artifact(manifest: Manifest, files: Files)

  type Published = map<string, Artifact>

  datatype StoreError =
    | IdentityInconsistent
    | InvalidDigest
    | ExistingInconsistent
    | CopyFailed(path: string)
    | PublishedInvalid
    | NotFound
    | ManifestInvalid
    | UnsafePath
    | NotDeclared
    | FileMissing

  datatype Complaint = Unreadable(why: StoreError) | ManifestDigestMismatch | TotalSizeMismatch

  datatype Verification = Verification(
    valid: bool,
    digest: string,
    verified: seq<string>,
    missing: seq<string>,
    unexpected: seq<string>,
    mismatches: seq<string>,
    errors: seq<Complaint>)

  // ---------------------------------------------------------------- what a stored artifact should be

  /** `get_manifest` returns. */
  predicate Readable(published: Published, d: string) {
    IsDigest(d) && d in published && ContractValid(published[d].manifest)
  }

  function ReadError(published: Published, d: string): StoreError
    requires !Readable(published, d)
  {
    if !IsDigest(d) then InvalidDigest else if d !in published then NotFound else ManifestInvalid
  }

  predicate Matches(digests: Digests, r: Record, content: Bytes) {
    digests.sha(content) == r.digest && |content| == r.size
  }

  /** The files are exactly those declared, byte for byte, and the digest names the manifest. */
  ghost predicate Clean(digests: Digests, d: string, a: Artifact) {
    && ContractValid(a.manifest) && ContentDigest(digests, a.manifest) == d
    && a.files.Keys == Declared(a.manifest)
    && forall r :: r in a.manifest.stable.files ==>
         digests.sha(a.files[r.path]) == r.digest && |a.files[r.path]| == r.size
  }

  /** The paths whose stored bytes differ from what the manifest says. */
  ghost function Mismatched(digests: Digests, a: Artifact): set<string> {
    set r | r in a.manifest.stable.files && r.path in a.files
      && (digests.sha(a.files[r.path]) != r.digest || |a.files[r.path]| != r.size) :: r.path
  }

  ghost function ReadableAmong(published: Published, ds: set<string>): set<string> {
    set d | d in ds && Readable(published, d)
  }

  lemma NextReadable(published: Published, seen: set<string>, d: string)
    requires d !in seen
    ensures ReadableAmong(published, seen + {d}) ==
      ReadableAmong(published, seen) + (if Readable(published, d) then {d} else {})
    ensures d !in ReadableAmong(published, seen)
  {
  }

  // ---------------------------------------------------------------- copying

  /** Every path is in the source and none is in the way of another. */
  ghost predicate Copyable(records: seq<Record>, source: Files) {
    (forall r :: r in records ==> r.path in source) && PrefixFree(set r | r in records :: r.path)
  }

  /** The part of the source that the records name. */
  function Selected(records: seq<Record>, source: Files): Files {
    map p | p in source && p in (set r | r in records :: r.path) :: source[p]
  }

  /** The directory of `path` is itself a file: `mkdir` raises `FileExistsError`. */
  predicate ParentIsFile(files: Files, path: string) {
    exists q :: q in files && Under(q, path) && '/' !in path[|q| + 1..]
  }

  /** Item `i` is the first that cannot be copied. */
  ghost predicate StopsAt(records: seq<Record>, source: Files, i: nat) {
    i < |records| && Copyable(records[..i], source) && !Copyable(records[..i + 1], source)
  }

  /** `q` is the directory of `path`. */
  ghost predicate DirectoryOf(q: string, path: string) {
    exists name :: path == q + "/" + name && '/' !in name
  }

  lemma ParentIsDirectory(files: Files, path: string)
    ensures ParentIsFile(files, path) <==> exists q :: q in files && DirectoryOf(q, path)
  {
    forall q ensures DirectoryOf(q, path) <==> Under(q, path) && '/' !in path[|q| + 1..] {
      DirectoryMeans(q, path);
    }
  }

  lemma DirectoryMeans(q: string, path: string)
    ensures DirectoryOf(q, path) <==> Under(q, path) && '/' !in path[|q| + 1..]
  {
    if Under(q, path) {
      assert path == q + "/" + path[|q| + 1..];
    }
    if DirectoryOf(q, path) {
      var name :| path == q + "/" + name && '/' !in name;
      assert name == path[|q| + 1..];
    }
  }

  /** Copying stops at an item whose directory is a file; `put_artifact` takes that for a concurrent publication. */
  ghost predicate Swallowed(records: seq<Record>, source: Files) {
    exists i: nat :: StopsAt(records, source, i) && DirectoryIsFile(Selected(records[..i], source), records[i].path)
  }

  ghost predicate DirectoryIsFile(files: Files, path: string) {
    exists q :: q in files && DirectoryOf(q, path)
  }

  datatype CopyStop = FileExists(item: nat) | OtherError(item: nat)

  /** The copying loop of `put_artifact`: the directory is made first, then the file is copied. */
  method CopyFiles(records: seq<Record>, source: Files) returns (stop: Option<CopyStop>, files: Files)
    ensures stop.None? <==> Copyable(records, source)
    ensures stop.None? ==> files == Selected(records, source)
    ensures stop.Some? ==> StopsAt(records, source, stop.value.item)
    ensures stop.Some? ==> (stop.value.FileExists? <==> Swallowed(records, source))
  {
    files := map[];
    for i := 0 to |records|
      invariant Copyable(records[..i], source)
      invariant files == Selected(records[..i], source)
    {
      var path := records[i].path;
      if ParentIsFile(files, path) {
        ParentObstructs(files, path);
        StopsHere(records, source, i);
        StopIsExact(records, source, i);
        return Some(FileExists(i)), files;
      }
      if path !in source || Obstructs(files, path) {
        StopsHere(records, source, i);
        StopIsExact(records, source, i);
        return Some(OtherError(i)), files;
      }
      NextCopy(records, source, i);
      files := files[path := source[path]];
    }
    assert records[..|records|] == records;
    stop := None;
  }

  lemma ParentObstructs(files: Files, path: string)
    requires ParentIsFile(files, path)
    ensures Obstructs(files, path)
  {
    var q :| q in files && Under(q, path);
    assert Overlaps(q, path);
  }

  lemma CopyablePrefix(records: seq<Record>, source: Files, i: nat, j: nat)
    requires i <= j <= |records|
    ensures Copyable(records[..j], source) ==> Copyable(records[..i], source)
  {
    assert records[..j][..i] == records[..i];
    assert forall r :: r in records[..i] ==> r in records[..j];
  }

  /** Where copying stops the records cannot all be copied, and it stops there only. */
  lemma StopIsExact(records: seq<Record>, source: Files, i: nat)
    requires StopsAt(records, source, i)
    ensures !Copyable(records, source)
    ensures Swallowed(records, source) <==> ParentIsFile(Selected(records[..i], source), records[i].path)
  {
    ParentIsDirectory(Selected(records[..i], source), records[i].path);
    forall j: nat | i < j <= |records| ensures !Copyable(records[..j], source) {
      CopyablePrefix(records, source, i + 1, j);
    }
    forall j: nat | j < i ensures !StopsAt(records, source, j) {
      CopyablePrefix(records, source, j + 1, i);
    }
    assert records[..|records|] == records;
    assert forall j: nat :: StopsAt(records, source, j) ==> j == i;
  }

  /** A missing file, or one in the way, stops the copying. */
  lemma StopsHere(records: seq<Record>, source: Files, i: nat)
    requires i < |records| && Copyable(records[..i], source)
    requires records[i].path !in source || Obstructs(Selected(records[..i], source), records[i].path)
    ensures StopsAt(records, source, i)
  {
    var more := records[..i + 1];
    assert more[i] == records[i] && records[i] in more;
    if records[i].path in source {
      assert more[..i] == records[..i];
      BlockedIsUncopyable(more, source, i);
    }
  }

  lemma BlockedIsUncopyable(records: seq<Record>, source: Files, i: nat)
    requires i < |records| && Obstructs(Selected(records[..i], source), records[i].path)
    ensures !Copyable(records, source)
  {
    var q :| q in Selected(records[..i], source) && Overlaps(q, records[i].path);
    var r :| r in records[..i] && r.path == q;
    assert r in records && records[i] in records;
  }

  lemma NextCopy(records: seq<Record>, source: Files, i: nat)
    requires i < |records| && Copyable(records[..i], source) && records[i].path in source
    requires !Obstructs(Selected(records[..i], source), records[i].path)
    ensures Copyable(records[..i + 1], source)
    ensures Selected(records[..i + 1], source) ==
      Selected(records[..i], source)[records[i].path := source[records[i].path]]
  {
    var path := records[i].path;
    assert records[..i + 1] == records[..i] + [records[i]];
    var before, after := (set r | r in records[..i] :: r.path), (set r | r in records[..i + 1] :: r.path);
    assert after == before + {path};
    forall p, q | p in after && q in after ensures !Under(p, q) {
      if p == path && q == path {
        assert |p + "/"| > |q|;
      } else if p == path {
        assert q in Selected(records[..i], source) && !Overlaps(q, path);
      } else if q == path {
        assert p in Selected(records[..i], source) && !Overlaps(p, path);
      }
    }
  }

  // ---------------------------------------------------------------- the effect of a put

  /** The copy that would be published. */
  function Copy(m: Manifest, source: Files): Artifact {
    Artifact(m, Selected(m.stable.files, source))
  }

  ghost predicate Publishes(digests: Digests, published: Published, m: Manifest, source: Files) {
    && ContentDigest(digests, m) == m.artifactDigest && m.artifactDigest !in published
    && Copyable(m.stable.files, source)
  }

  ghost function AfterPut(digests: Digests, published: Published, m: Manifest, source: Files): Published {
    if Publishes(digests, published, m, source) then published[m.artifactDigest := Copy(m, source)] else published
  }

  /** `put_artifact` returns the digest instead of raising. */
  ghost predicate PutReturns(digests: Digests, published: Published, m: Manifest, source: Files) {
    && ContentDigest(digests, m) == m.artifactDigest
    && (m.artifactDigest !in published ==> Copyable(m.stable.files, source))
    && var served := if m.artifactDigest in published then published[m.artifactDigest] else Copy(m, source);
       Clean(digests, m.artifactDigest, served)
  }

  // ---------------------------------------------------------------- the store

  class FileArtifactStore {
    const digests: Digests
    var published: Published

    constructor (digests: Digests)
      ensures this.digests == digests && published == map[]
    {
      this.digests := digests;
      published := map[];
    }

    method GetManifest(d: string) returns (r: Result<Manifest, StoreError>)
      ensures r.Ok? <==> Readable(published, d)
      ensures r.Ok? ==> r.value == published[d].manifest
      ensures r.Err? ==> r.error == ReadError(published, d)
      ensures r == Err(InvalidDigest) <==> !NamesHash(d)
      ensures r == Err(NotFound) <==> NamesHash(d) && d !in published
      ensures r == Err(ManifestInvalid) <==> NamesHash(d) && d in published && !Proper(published[d].manifest)
      ensures r.Ok? <==> NamesHash(d) && d in published && Proper(published[d].manifest)
    {
      DigestMeans(d);
      if d in published {
        ContractMeans(published[d].manifest);
      }
      if !IsDigest(d) {
        return Err(InvalidDigest);
      }
      if d !in published {
        return Err(NotFound);
      }
      if !ContractValid(published[d].manifest) {
        return Err(ManifestInvalid);
      }
      r := Ok(published[d].manifest);
    }

    /** `verify_artifact` reports exactly what is wrong, and nothing if and only if the artifact is clean. */
    method VerifyArtifact(d: string) returns (v: Verification)
      ensures v.digest == d &&
        (v.valid <==> v.missing == [] && v.unexpected == [] && v.mismatches == [] && v.errors == [])
      ensures v.valid <==> Readable(published, d) && Clean(digests, d, published[d])
      ensures !Readable(published, d) ==>
        v == Verification(false, d, [], [], [], [], [Unreadable(ReadError(published, d))])
      ensures Readable(published, d) ==>
        var a := published[d];
        && v.missing == SortedSet(Declared(a.manifest) - a.files.Keys)
        && v.unexpected == SortedSet(a.files.Keys - Declared(a.manifest))
        && v.mismatches == SortedSet(Mismatched(digests, a))
        && v.verified == SortedSet(Declared(a.manifest) * a.files.Keys - Mismatched(digests, a))
        && v.errors == if ContentDigest(digests, a.manifest) != d then [ManifestDigestMismatch] else []
    {
      var manifest := GetManifest(d);
      if manifest.Err? {
        return Verification(false, d, [], [], [], [], [Unreadable(manifest.error)]);
      }
      var a := published[d];
      var declared, actual := Declared(a.manifest), a.files.Keys;
      var missing, unexpected := SortedSet(declared - actual), SortedSet(actual - declared);
      var mismatches, verified := Compare(digests, a);
      var errors: seq<Complaint> := [];
      if ContentDigest(digests, a.manifest) != d {
        errors := errors + [ManifestDigestMismatch];
      }
      if SizeSum(a.manifest.stable.files) != a.manifest.stable.totalSize {
        errors := errors + [TotalSizeMismatch];
      }
      var valid := missing == [] && unexpected == [] && mismatches == [] && errors == [];
      NothingWrongMeansClean(digests, d, a);
      v := Verification(valid, d, verified, missing, unexpected, mismatches, errors);
    }

    method Verifies(d: string) returns (valid: bool)
      ensures valid <==> Readable(published, d) && Clean(digests, d, published[d])
    {
      var verification := VerifyArtifact(d);
      valid := verification.valid;
    }

    method ListArtifacts() returns (listing: seq<string>)
      ensures listing == SortedSet(set d | d in published && Readable(published, d))
    {
      var left := published.Keys;
      listing := [];
      while left != {}
        invariant left <= published.Keys && Distinct(listing)
        invariant ToSet(listing) == ReadableAmong(published, published.Keys - left)
        decreases |left|
      {
        var d :| d in left;
        ghost var seen := published.Keys - left;
        left := left - {d};
        assert published.Keys - left == seen + {d};
        NextReadable(published, seen, d);
        var manifest := GetManifest(d);
        if manifest.Ok? {
          AppendNew(listing, d);
          listing := listing + [d];
        }
      }
      assert published.Keys - left == published.Keys;
      assert ReadableAmong(published, published.Keys) == set d | d in published && Readable(published, d);
      SortListsSet(listing, set d | d in published && Readable(published, d));
      listing := Sort(listing, StrLe);
    }

    /** `open_file`: the stored bytes of a declared path, and the reason when there are none. */
    method OpenFile(d: string, relative: string) returns (r: Result<Bytes, StoreError>)
      ensures r.Ok? <==>
        Readable(published, d) && relative in Declared(published[d].manifest) && relative in published[d].files
      ensures r.Ok? ==> r.value == published[d].files[relative]
      ensures r == Err(StoreError.UnsafePath) <==> Root(relative) != "" || ".." in Components(relative)
      ensures r.Err? && r.error.InvalidDigest? ==> !IsDigest(d)
      ensures r.Err? && (r.error.NotFound? || r.error.ManifestInvalid?) ==>
        !Readable(published, d) && r.error == ReadError(published, d)
      ensures r == Err(NotDeclared) ==> Readable(published, d) && relative !in Declared(published[d].manifest)
      ensures r == Err(FileMissing) ==>
        Readable(published, d) && relative in Declared(published[d].manifest) && relative !in published[d].files
    {
      ghost var served := Readable(published, d) && relative in Declared(published[d].manifest);
      assert served ==> ContractPath(relative);
      if served {
        ContractPathIsNormal(relative);
      }
      if Root(relative) != "" || ".." in Components(relative) {
        return Err(StoreError.UnsafePath);
      }
      var manifest := GetManifest(d);
      if manifest.Err? {
        return Err(manifest.error);
      }
      if relative !in Declared(manifest.value) {
        return Err(NotDeclared);
      }
      var target := Join(Components(relative), '/');
      if target !in published[d].files {
        return Err(FileMissing);
      }
      r := Ok(published[d].files[target]);
    }

    /**
      `put_artifact`. A first publication stays even when its verification then fails; when a `FileExistsError` is
      swallowed, verification finds nothing published and fails as well.
     */
    method PutArtifact(m: Manifest, source: Files) returns (r: Result<string, StoreError>)
      requires ContractValid(m)
      modifies this`published
      ensures published == AfterPut(digests, old(published), m, source)
      ensures r.Ok? <==> PutReturns(digests, old(published), m, source)
      ensures r.Ok? ==> r.value == m.artifactDigest
      ensures r == Err(IdentityInconsistent) <==> ContentDigest(digests, m) != m.artifactDigest
      ensures r == Err(ExistingInconsistent) <==>
        ContentDigest(digests, m) == m.artifactDigest && m.artifactDigest in old(published)
        && !Clean(digests, m.artifactDigest, old(published)[m.artifactDigest])
      ensures (r.Err? && r.error.CopyFailed?) <==>
        ContentDigest(digests, m) == m.artifactDigest && m.artifactDigest !in old(published) &&
          !Copyable(m.stable.files, source) && !Swallowed(m.stable.files, source)
      ensures r == Err(PublishedInvalid) <==>
        ContentDigest(digests, m) == m.artifactDigest && m.artifactDigest !in old(published) &&
          if Copyable(m.stable.files, source) then !Clean(digests, m.artifactDigest, Copy(m, source))
          else Swallowed(m.stable.files, source)
    {
      if ContentDigest(digests, m) != m.artifactDigest {
        return Err(IdentityInconsistent);
      }
      var d := m.artifactDigest;
      if d in published {
        var valid := Verifies(d);
        if !valid {
          return Err(ExistingInconsistent);
        }
        return Ok(d);
      }
      var stop, files := CopyFiles(m.stable.files, source);
      if stop.Some? && stop.value.OtherError? {
        return Err(CopyFailed(m.stable.files[stop.value.item].path));
      }
      if stop.None? {
        published := published[d := Artifact(m, files)];
      }
      var valid := Verifies(d);
      if !valid {
        return Err(PublishedInvalid);
      }
      r := Ok(d);
    }
  }

  // ---------------------------------------------------------------- comparing files

  function RecordAt(m: Manifest, path: string): (r: Record)
    requires path in Declared(m) && Ascending(m.stable.files)
    ensures r in m.stable.files && r.path == path
  {
    OneRecord(m, path);
    var r :| r in m.stable.files && r.path == path;
    r
  }

  lemma OneRecord(m: Manifest, path: string)
    requires path in Declared(m) && Ascending(m.stable.files)
    ensures exists r :: r in m.stable.files && r.path == path
    ensures forall r, s :: r in m.stable.files && s in m.stable.files && r.path == path == s.path ==> r == s
  {
    StrLessIrreflexive(path);
    forall r, s | r in m.stable.files && s in m.stable.files && r.path == path == s.path ensures r == s {
      var i :| 0 <= i < |m.stable.files| && m.stable.files[i] == r;
      var j :| 0 <= j < |m.stable.files| && m.stable.files[j] == s;
      assert !StrLess(m.stable.files[i].path, m.stable.files[j].path);
      assert !StrLess(m.stable.files[j].path, m.stable.files[i].path);
    }
  }

  lemma MismatchOf(digests: Digests, a: Artifact, r: Record)
    requires Ascending(a.manifest.stable.files) && r in a.manifest.stable.files && r.path in a.files
    ensures r.path in Mismatched(digests, a) <==> !Matches(digests, r, a.files[r.path])
  {
    assert r.path in Declared(a.manifest);
    OneRecord(a.manifest, r.path);
  }

  /** The entries of `s` that are in `kept`, in order. */
  ghost function Pick(s: seq<string>, kept: set<string>): (r: seq<string>)
    ensures forall p :: p in r <==> p in s && p in kept
  {
    if s == [] then []
    else
      var last := s[|s| - 1];
      assert s == s[..|s| - 1] + [last];
      Pick(s[..|s| - 1], kept) + if last in kept then [last] else []
  }

  lemma {:induction false} PickIsSorted(s: seq<string>, kept: set<string>)
    requires Sorted(s, StrLe) && Distinct(s)
    ensures Sorted(Pick(s, kept), StrLe) && Distinct(Pick(s, kept))
  {
    if s != [] {
      var before, last := s[..|s| - 1], s[|s| - 1];
      PickIsSorted(before, kept);
      var part := Pick(before, kept);
      forall k | 0 <= k < |part| ensures StrLe(part[k], last) && part[k] != last {
        assert part[k] in before;
      }
    }
  }

  /** Picking from the sorted listing of a set lists the intersection. */
  lemma PickLists(s: set<string>, kept: set<string>)
    ensures Pick(SortedSet(s), kept) == SortedSet(s * kept)
  {
    var part := Pick(SortedSet(s), kept);
    PickIsSorted(SortedSet(s), kept);
    assert ToSet(SortedSet(s)) == s;
    assert forall p :: p in SortedSet(s) <==> p in ToSet(SortedSet(s));
    assert ToSet(part) == s * kept;
    StrLeIsTotalOrder();
    SortIdentity(part, StrLe);
    SortListsSet(part, s * kept);
  }

  lemma PickNext(s: seq<string>, i: nat, kept: set<string>)
    requires i < |s|
    ensures Pick(s[..i + 1], kept) == Pick(s[..i], kept) + if s[i] in kept then [s[i]] else []
  {
    assert s[..i + 1][..i] == s[..i];
  }

  /** The comparison loop of `verify_artifact`. */
  method Partition(common: seq<string>, matches: string -> bool, ghost good: set<string>, ghost bad: set<string>)
    returns (mismatches: seq<string>, verified: seq<string>)
    requires forall p :: p in common ==> (p in good <==> matches(p)) && (p in bad <==> !matches(p))
    ensures mismatches == Pick(common, bad) && verified == Pick(common, good)
  {
    mismatches, verified := [], [];
    for i := 0 to |common|
      invariant mismatches == Pick(common[..i], bad) && verified == Pick(common[..i], good)
    {
      PickNext(common, i, bad);
      PickNext(common, i, good);
      if matches(common[i]) {
        verified := verified + [common[i]];
      } else {
        mismatches := mismatches + [common[i]];
      }
    }
    assert common[..|common|] == common;
  }

  /** A declared file that is present has the size and digest its record gives. */
  predicate PathMatches(digests: Digests, a: Artifact, path: string)
    requires Ascending(a.manifest.stable.files) && path in Declared(a.manifest) && path in a.files
  {
    Matches(digests, RecordAt(a.manifest, path), a.files[path])
  }

  lemma MismatchedPath(digests: Digests, a: Artifact, path: string)
    requires Ascending(a.manifest.stable.files) && path in Declared(a.manifest) && path in a.files
    ensures path in Mismatched(digests, a) <==> !PathMatches(digests, a, path)
  {
    MismatchOf(digests, a, RecordAt(a.manifest, path));
  }

  method Compare(digests: Digests, a: Artifact) returns (mismatches: seq<string>, verified: seq<string>)
    requires Ascending(a.manifest.stable.files)
    ensures mismatches == SortedSet(Mismatched(digests, a))
    ensures verified == SortedSet(Declared(a.manifest) * a.files.Keys - Mismatched(digests, a))
  {
    var both := Declared(a.manifest) * a.files.Keys;
    var common := SortedSet(both);
    ghost var bad := Mismatched(digests, a);
    ghost var good := both - bad;
    var matches := (path: string) => path in both && PathMatches(digests, a, path);
    forall p | p in common ensures p in both && (p in good <==> matches(p)) && (p in bad <==> !matches(p)) {
      assert p in ToSet(common);
      MismatchedPath(digests, a, p);
    }
    mismatches, verified := Partition(common, matches, good, bad);
    PickLists(both, bad);
    PickLists(both, good);
    assert both * bad == bad && both * good == good;
  }

  lemma EmptyListing(s: set<string>)
    ensures SortedSet(s) == [] <==> s == {}
  {
    assert ToSet(SortedSet(s)) == s;
    assert ToSet<string>([]) == {};
  }

  lemma NothingWrongMeansClean(digests: Digests, d: string, a: Artifact)
    requires ContractValid(a.manifest)
    ensures Clean(digests, d, a) <==>
      && SortedSet(Declared(a.manifest) - a.files.Keys) == [] && SortedSet(a.files.Keys - Declared(a.manifest)) == []
      && SortedSet(Mismatched(digests, a)) == [] && ContentDigest(digests, a.manifest) == d
  {
    EmptyListing(Declared(a.manifest) - a.files.Keys);
    EmptyListing(a.files.Keys - Declared(a.manifest));
    EmptyListing(Mismatched(digests, a));
    if a.files.Keys == Declared(a.manifest) {
      NoneMismatched(digests, a);
    }
  }

  lemma NoneMismatched(digests: Digests, a: Artifact)
    requires Ascending(a.manifest.stable.files) && a.files.Keys == Declared(a.manifest)
    ensures Mismatched(digests, a) == {} <==>
      forall r :: r in a.manifest.stable.files ==> r.path in a.files && Matches(digests, r, a.files[r.path])
  {
    forall r | r in a.manifest.stable.files
      ensures r.path in a.files && (r.path in Mismatched(digests, a) <==> !Matches(digests, r, a.files[r.path]))
    {
      assert r.path in Declared(a.manifest);
      MismatchOf(digests, a, r);
    }
  }
}
