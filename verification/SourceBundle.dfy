/** Path rules and validation of a reviewed source bundle. */
module SourceBundles {
  import opened Collections
  import opened PosixPath
  import opened Sorting
  import opened SourceText
  import opened Text

  /**
    SHA-256 in its printed form, and the media type registry, which answers "application/octet-stream" when it knows
    none.
   */
  datatype Host = Host(sha: Bytes -> string, guess: string -> string)

  // ---------------------------------------------------------------- paths

  datatype PathError = UnsafePath | NoFirstComponent

  predicate HasDoubleSlash(v: string) {
    exists k :: 0 <= k < |v| - 1 && v[k] == '/' && v[k + 1] == '/'
  }

  predicate Bounded(parts: seq<string>) {
    forall p :: p in parts ==> |p| <= 128
  }

  /** The tests on the raw string. */
  predicate Refused(v: string) {
    v == "" || '\0' in v || '\\' in v || HasDoubleSlash(v) || v[0] == '/'
  }

  /** `normalize_path`; a path such as "." has no first component to look at, which is an `IndexError`. */
  function NormalizePath(v: string): (r: Result<string, PathError>) {
    if Refused(v) then Err(UnsafePath)
    else
      var parts := Components(v);
      if ".." in parts then Err(UnsafePath)
      else if parts == [] then Err(NoFirstComponent)
      else if ':' in parts[0] || |v| > 512 || !Bounded(parts) then Err(UnsafePath)
      else Ok(AsPosix(v))
  }

  /** What the path validator of the contract models lets through; it has already turned `\` into `/`. */
  predicate ContractPath(v: string) {
    var parts := Split(v, '/');
    && v != "" && |v| <= 512 && '\0' !in v && '\\' !in v && ':' !in parts[0]
    && (forall p :: p in parts ==> Kept(p) && p != "..")
    && Bounded(parts)
  }

  /** Joining non-empty parts yields no leading and no doubled separator. */
  lemma {:induction false} JoinedPartsAreClean(parts: seq<string>)
    requires parts != [] && forall p :: p in parts ==> p != "" && '/' !in p
    ensures var v := Join(parts, '/'); v != "" && v[0] != '/' && !HasDoubleSlash(v)
  {
    var v := Join(parts, '/');
    var head := parts[0];
    assert head in parts && forall k :: 0 <= k < |head| ==> head[k] in head;
    if |parts| > 1 {
      var tail := Join(parts[1..], '/');
      assert forall p :: p in parts[1..] ==> p in parts;
      JoinedPartsAreClean(parts[1..]);
      assert v == head + ['/'] + tail;
      forall k | 0 <= k < |v| - 1 && v[k] == '/' ensures v[k + 1] != '/' {
        assert k >= |head|;
        if k > |head| {
          assert v[k] == tail[k - |head| - 1] && v[k + 1] == tail[k - |head|];
        }
      }
    }
  }

  lemma {:induction false} SignificantIsShorter(parts: seq<string>)
    ensures |Join(Significant(parts), '/')| <= |Join(parts, '/')|
  {
    if parts != [] {
      SignificantIsShorter(parts[1..]);
      var rest := Significant(parts[1..]);
      if Kept(parts[0]) {
        var kept := [parts[0]] + rest;
        assert kept[1..] == rest && Significant(parts) == kept;
        if rest == [] {
          assert Join(kept, '/') == parts[0];
        } else {
          assert parts[1..] != [];
        }
      } else {
        assert Significant(parts) == rest;
        if |parts| == 1 {
          assert rest == [];
        }
      }
    }
  }

  lemma {:induction false} JoinChars(parts: seq<string>, c: char)
    requires c in Join(parts, '/')
    ensures c == '/' || exists p :: p in parts && c in p
  {
    if |parts| == 1 {
      assert c in parts[0];
    } else {
      if c in Join(parts[1..], '/') {
        JoinChars(parts[1..], c);
      } else {
        assert c == '/' || c in parts[0];
      }
    }
  }

  lemma {:induction false} SplitChars(s: string, part: string, c: char)
    requires part in Split(s, '/') && c in part
    ensures c in s
  {
    if s != [] {
      var rest := Split(s[1..], '/');
      if part in rest {
        SplitChars(s[1..], part, c);
      } else {
        assert s[0] != '/' && part == [s[0]] + rest[0];
        if c in rest[0] {
          SplitChars(s[1..], rest[0], c);
        }
      }
    }
  }

  /** A contract path is its own normal form, component by component. */
  lemma ContractPathIsNormal(v: string)
    requires ContractPath(v)
    ensures Components(v) == Split(v, '/') != []
    ensures Root(v) == "" && Join(Components(v), '/') == v && ".." !in Components(v)
    ensures !HasDoubleSlash(v) && AsPosix(v) == v
  {
    JoinSplit(v, '/');
    JoinedPartsAreClean(Split(v, '/'));
  }

  /** The components of a normalised path are those the path library kept. */
  lemma NormalizedComponents(v: string)
    requires NormalizePath(v).Ok?
    ensures Split(NormalizePath(v).value, '/') == Components(v)
    ensures NormalizePath(v).value == Join(Components(v), '/')
  {
    var parts := Components(v);
    assert Root(v) == "" && parts != [];
    assert AsPosix(v) == Join(parts, '/');
    SplitJoin(parts, '/');
  }

  /** Whatever is accepted comes out as a path the contract models accept. */
  lemma NormalizedIsContractPath(v: string)
    requires NormalizePath(v).Ok?
    ensures ContractPath(NormalizePath(v).value)
  {
    var w := NormalizePath(v).value;
    NormalizedComponents(v);
    JoinedPartsAreClean(Components(v));
    SignificantIsShorter(Split(v, '/'));
    JoinSplit(v, '/');
    forall c | c in w && c != '/' ensures c in v {
      JoinChars(Components(v), c);
      var p :| p in Components(v) && c in p;
      SplitChars(v, p, c);
    }
  }

  /** The builder and the contract models agree on which paths are already in normal form. */
  lemma NormalizePathFixedPoints(v: string)
    ensures NormalizePath(v) == Ok(v) <==> ContractPath(v)
  {
    if ContractPath(v) {
      ContractPathIsNormal(v);
    }
    if NormalizePath(v) == Ok(v) {
      NormalizedIsContractPath(v);
    }
  }

  /** What `normalize_path` demands of the raw string, component by component. */
  ghost predicate SafePath(v: string) {
    SafeCharacters(v) && |v| <= 512 && SafeComponents(Split(v, '/'))
  }

  ghost predicate SafeCharacters(v: string) {
    && v != "" && v[0] != '/'
    && (forall c :: c in v ==> c as int != 0 && c != '\\')
    && (forall k: nat :: k + 1 < |v| ==> v[k] != '/' || v[k + 1] != '/')
  }

  ghost predicate SafeComponents(parts: seq<string>) {
    && (forall part :: part in parts ==> part != ".." && (part == "." || |part| <= 128))
    && exists k: nat :: FirstNamed(parts, k) && ':' !in parts[k]
  }

  /** Component `k` is the first that is neither empty nor ".". */
  ghost predicate FirstNamed(parts: seq<string>, k: nat) {
    && k < |parts| && parts[k] != "" && parts[k] != "."
    && forall i :: 0 <= i < k ==> parts[i] == "" || parts[i] == "."
  }

  /** The paths let through are the safe ones, and each comes out as its named components joined. */
  lemma NormalizePathMeans(v: string)
    ensures NormalizePath(v).Ok? <==> SafePath(v)
    ensures NormalizePath(v).Ok? ==> NormalizePath(v).value == Join(Significant(Split(v, '/')), '/')
  {
    SafeCharactersMean(v);
    SafeComponentsMean(Split(v, '/'));
    if NormalizePath(v).Ok? {
      NormalizedComponents(v);
    }
  }

  lemma SafeCharactersMean(v: string)
    ensures Refused(v) <==> !SafeCharacters(v)
  {
    assert forall c :: c in v ==> (c as int == 0 <==> c == '\0');
  }

  lemma SafeComponentsMean(parts: seq<string>)
    ensures var named := Significant(parts);
      SafeComponents(parts) <==> ".." !in named && named != [] && ':' !in named[0] && Bounded(named)
  {
    SignificantMembers(parts);
    assert forall k: nat :: k < |parts| ==> parts[k] in parts;
    if Significant(parts) != [] {
      SignificantHead(parts);
    }
  }

  lemma {:induction false} SignificantMembers(parts: seq<string>)
    ensures forall p :: p in Significant(parts) <==> p in parts && p != "" && p != "."
  {
    if parts != [] {
      SignificantMembers(parts[1..]);
      assert parts == [parts[0]] + parts[1..];
    }
  }

  lemma {:induction false} SignificantHead(parts: seq<string>)
    requires Significant(parts) != []
    ensures exists k: nat :: FirstNamed(parts, k) && parts[k] == Significant(parts)[0]
    ensures forall k: nat :: FirstNamed(parts, k) ==> parts[k] == Significant(parts)[0]
  {
    if parts[0] != "" && parts[0] != "." {
      assert FirstNamed(parts, 0);
    } else {
      SignificantHead(parts[1..]);
      var k: nat :| FirstNamed(parts[1..], k);
      assert FirstNamed(parts, k + 1);
      forall k: nat | FirstNamed(parts, k) ensures parts[k] == Significant(parts)[0] {
        assert FirstNamed(parts[1..], k - 1);
      }
    }
  }

  /** All parts are empty or ".". */
  ghost predicate OnlyDots(parts: seq<string>) {
    forall p :: p in parts ==> p == "" || p == "."
  }

  lemma {:induction false} NothingKept(parts: seq<string>)
    ensures Significant(parts) == [] <==> OnlyDots(parts)
  {
    if parts != [] {
      NothingKept(parts[1..]);
      if OnlyDots(parts) {
        assert parts[0] in parts && forall p :: p in parts[1..] ==> p in parts;
      } else if parts[0] == "" || parts[0] == "." {
        var p :| p in parts && p != "" && p != ".";
        assert p in parts[1..];
      }
    }
  }

  /** The wrong exception is raised exactly for paths whose components are all empty or ".". */
  lemma NoComponentExactly(v: string)
    ensures NormalizePath(v) == Err(NoFirstComponent) <==> !Refused(v) && OnlyDots(Split(v, '/'))
  {
    NothingKept(Split(v, '/'));
  }

  lemma DotHasNoComponent()
    ensures NormalizePath(".") == NormalizePath("./") == NormalizePath("./.") == Err(NoFirstComponent)
  {
    SplitWhole("", '/');
    SplitWhole(".", '/');
    SplitPiece(".", "", '/');
    SplitPiece(".", ".", '/');
    assert "." + ['/'] + "" == "./" && "." + ['/'] + "." == "./.";
    assert Split(".", '/') == ["."] && Split("./", '/') == [".", ""] && Split("./.", '/') == [".", "."];
    forall v | v in {".", "./", "./."} ensures NormalizePath(v) == Err(NoFirstComponent) {
      NoComponentExactly(v);
    }
  }

  /** The contract models let no such path through. */
  lemma ContractPathHasComponent(v: string)
    requires ContractPath(v)
    ensures NormalizePath(v) != Err(NoFirstComponent)
  {
    NormalizePathFixedPoints(v);
  }

  // ---------------------------------------------------------------- validate_source

  const TYPES: set<string> := TEXT_TYPES + {"image/png", "image/jpeg", "image/webp", "image/x-icon", "font/woff",
    "font/woff2"}
  const MAXIMUM_FILES := 4096

  datatype Entry = Regular(content: Bytes, insideRoot: bool) | Irregular

  /** What the source root holds, by relative path. */
  type Tree = map<string, Entry>

  datatype SourceFile = SourceFile(path: string, contentDigest: string, mediaType: string)

  datatype SourceManifest = SourceManifest(sourceDigest: string, files: seq<SourceFile>)

  datatype ValidatedFile = ValidatedFile(path: string, mediaType: string, content: Bytes, digest: string)

  datatype Bundle = Bundle(files: seq<ValidatedFile>, sourceDigest: string, totalSize: nat)

  datatype SourceError =
    | TooManyFiles
    | BadPath(why: PathError)
    | DuplicatePath
    | FileNotFound
    | NotRegular
    | EscapesRoot
    | TooLarge
    | BadMediaType
    | DigestMismatch
    | NotUtf8

  function MediaType(host: Host, path: string): string {
    var guessed := host.guess(path);
    if guessed == "text/javascript" then "application/javascript" else guessed
  }

  function CheckContent(host: Host, item: SourceFile, path: string, content: Bytes,
      maximum: int): Result<ValidatedFile, SourceError> {
    var mediaType := MediaType(host, path);
    if |content| > maximum then Err(TooLarge)
    else if mediaType !in TYPES || mediaType != item.mediaType then Err(BadMediaType)
    else if host.sha(content) != item.contentDigest then Err(DigestMismatch)
    else
      match NormalizeContent(mediaType, content)
      case None => Err(NotUtf8)
      case Some(normalized) => Ok(ValidatedFile(path, mediaType, normalized, host.sha(normalized)))
  }

  function CheckEntry(host: Host, tree: Tree, maximum: int, item: SourceFile,
      path: string): (r: Result<ValidatedFile, SourceError>)
    ensures r.Ok? ==> r.value.path == path
  {
    if path !in tree then Err(FileNotFound)
    else
      match tree[path]
      case Irregular => Err(NotRegular)
      case Regular(content, insideRoot) =>
        if !insideRoot then Err(EscapesRoot) else CheckContent(host, item, path, content, maximum)
  }

  /** The two checks the loop makes of an entry: its path, then the file the path names. */
  datatype Checks = Checks(
    path: string -> Result<string, PathError>,
    entry: (SourceFile, string) -> Result<ValidatedFile, SourceError>)

  function ChecksOf(host: Host, tree: Tree, maximum: int): Checks {
    Checks(NormalizePath, (item, path) => CheckEntry(host, tree, maximum, item, path))
  }

  /** The normalised paths of the entries. */
  ghost function Paths(checks: Checks, files: seq<SourceFile>): set<string> {
    set f | f in files && checks.path(f.path).Ok? :: checks.path(f.path).value
  }

  /** What becomes of entry `k`. */
  ghost function Verdict(checks: Checks, files: seq<SourceFile>, k: nat): Result<ValidatedFile, SourceError>
    requires k < |files|
  {
    match checks.path(files[k].path)
    case Err(why) => Err(BadPath(why))
    case Ok(path) => if path in Paths(checks, files[..k]) then Err(DuplicatePath) else checks.entry(files[k], path)
  }

  ghost predicate Unobstructed(checks: Checks, files: seq<SourceFile>, n: nat)
    requires n <= |files|
  {
    forall k: nat :: k < n ==> Verdict(checks, files, k).Ok?
  }

  ghost predicate Accepted(checks: Checks, m: SourceManifest) {
    |m.files| <= MAXIMUM_FILES && Unobstructed(checks, m.files, |m.files|)
  }

  ghost function Outputs(checks: Checks, files: seq<SourceFile>, n: nat): (r: seq<ValidatedFile>)
    requires n <= |files| && Unobstructed(checks, files, n)
    ensures |r| == n && forall i: nat :: i < n ==> Verdict(checks, files, i) == Ok(r[i])
  {
    seq(n, i requires 0 <= i < n => Verdict(checks, files, i).value)
  }

  predicate PathLe(a: ValidatedFile, b: ValidatedFile) {
    StrLe(a.path, b.path)
  }

  function TotalSize(files: seq<ValidatedFile>): nat {
    if files == [] then 0 else TotalSize(files[..|files| - 1]) + |files[|files| - 1].content|
  }

  ghost function BundleOf(checks: Checks, m: SourceManifest): Bundle
    requires Accepted(checks, m)
  {
    var files := Sort(Outputs(checks, m.files, |m.files|), PathLe);
    Bundle(files, m.sourceDigest, TotalSize(files))
  }

  /** The first obstacle in manifest order. */
  ghost predicate StoppedBy(checks: Checks, files: seq<SourceFile>, e: SourceError) {
    exists k: nat :: k < |files| && Unobstructed(checks, files, k) && Verdict(checks, files, k) == Err(e)
  }

  // ---------------------------------------------------------------- what an entry has to be

  /** The type registry answers `mediaType` for the path, "text/javascript" counting as "application/javascript". */
  ghost predicate GuessedAs(host: Host, path: string, mediaType: string) {
    if host.guess(path) == "text/javascript" then mediaType == "application/javascript"
    else mediaType == host.guess(path)
  }

  /** A regular file inside the root, small enough. */
  ghost predicate Fetchable(tree: Tree, maximum: int, path: string) {
    path in tree && tree[path].Regular? && tree[path].insideRoot && |tree[path].content| <= maximum
  }

  ghost predicate Typed(host: Host, f: SourceFile, path: string) {
    f.mediaType in TYPES && GuessedAs(host, path, f.mediaType)
  }

  /** The tree holds at `path` the very file that was reviewed, of the declared and allowed type, text being UTF-8. */
  ghost predicate Reviewed(host: Host, tree: Tree, maximum: int, f: SourceFile, path: string) {
    && Fetchable(tree, maximum, path) && Typed(host, f, path)
    && host.sha(tree[path].content) == f.contentDigest
    && (f.mediaType in TEXT_TYPES ==> DecodeSig(tree[path].content).Some?)
  }

  /** The tests before the one that `e` reports pass, and that one fails. */
  ghost predicate FileFault(host: Host, tree: Tree, maximum: int, f: SourceFile, path: string, e: SourceError) {
    match e
    case FileNotFound => path !in tree
    case NotRegular => path in tree && tree[path].Irregular?
    case EscapesRoot => path in tree && tree[path].Regular? && !tree[path].insideRoot
    case TooLarge => path in tree && tree[path].Regular? && tree[path].insideRoot && |tree[path].content| > maximum
    case BadMediaType => Fetchable(tree, maximum, path) && !Typed(host, f, path)
    case DigestMismatch =>
      Fetchable(tree, maximum, path) && Typed(host, f, path) && host.sha(tree[path].content) != f.contentDigest
    case NotUtf8 =>
      && Fetchable(tree, maximum, path) && Typed(host, f, path) && host.sha(tree[path].content) == f.contentDigest
      && f.mediaType in TEXT_TYPES && DecodeSig(tree[path].content).None?
    case _ => false
  }

  /** An entry is checked successfully exactly when it is the reviewed file, and otherwise its fault is reported. */
  lemma EntryMeans(host: Host, tree: Tree, maximum: int, f: SourceFile, path: string)
    ensures var r := CheckEntry(host, tree, maximum, f, path);
      && (r.Ok? <==> Reviewed(host, tree, maximum, f, path))
      && (r.Err? ==> FileFault(host, tree, maximum, f, path, r.error))
      && (r.Ok? ==>
          && r.value.path == path && r.value.mediaType == f.mediaType
          && NormalizeContent(f.mediaType, tree[path].content) == Some(r.value.content)
          && r.value.digest == host.sha(r.value.content))
  {
    if path in tree && tree[path].Regular? {
      var content := tree[path].content;
      assert f.mediaType in TYPES && GuessedAs(host, path, f.mediaType) <==>
        MediaType(host, path) in TYPES && MediaType(host, path) == f.mediaType;
      assert NormalizeContent(f.mediaType, content).None? <==>
        f.mediaType in TEXT_TYPES && DecodeSig(content).None?;
    }
  }

  /** Entry `j` and an earlier one have the same normalised path. */
  ghost predicate Repeats(files: seq<SourceFile>, j: nat) {
    && j < |files| && NormalizePath(files[j].path).Ok?
    && exists i :: 0 <= i < j && NormalizePath(files[i].path) == NormalizePath(files[j].path)
  }

  /** Nothing is wrong with entry `j`: its path is safe and new, and the file is the reviewed one. */
  ghost predicate Clear(host: Host, tree: Tree, maximum: int, files: seq<SourceFile>, j: nat) {
    && j < |files| && NormalizePath(files[j].path).Ok? && !Repeats(files, j)
    && Reviewed(host, tree, maximum, files[j], NormalizePath(files[j].path).value)
  }

  ghost predicate Obstacle(host: Host, tree: Tree, maximum: int, files: seq<SourceFile>, j: nat, e: SourceError) {
    && j < |files|
    && match NormalizePath(files[j].path)
       case Err(why) => e == BadPath(why)
       case Ok(path) =>
         if Repeats(files, j) then e == DuplicatePath else FileFault(host, tree, maximum, files[j], path, e)
  }

  ghost predicate FirstObstacle(host: Host, tree: Tree, maximum: int, files: seq<SourceFile>, j: nat, e: SourceError) {
    Obstacle(host, tree, maximum, files, j, e) && forall i: nat :: i < j ==> Clear(host, tree, maximum, files, i)
  }

  /** Acceptance in terms of the manifest and the tree. */
  ghost predicate Acceptable(host: Host, tree: Tree, maximum: int, m: SourceManifest) {
    |m.files| <= MAXIMUM_FILES && forall j: nat :: j < |m.files| ==> Clear(host, tree, maximum, m.files, j)
  }

  lemma VerdictMeans(host: Host, tree: Tree, maximum: int, files: seq<SourceFile>, j: nat)
    requires j < |files|
    ensures var r := Verdict(ChecksOf(host, tree, maximum), files, j);
      && (r.Ok? <==> Clear(host, tree, maximum, files, j))
      && (r.Err? ==> Obstacle(host, tree, maximum, files, j, r.error))
  {
    var checks := ChecksOf(host, tree, maximum);
    var normal := NormalizePath(files[j].path);
    if normal.Ok? {
      RepeatsMeans(host, tree, maximum, files, j);
      EntryMeans(host, tree, maximum, files[j], normal.value);
    }
  }

  lemma RepeatsMeans(host: Host, tree: Tree, maximum: int, files: seq<SourceFile>, j: nat)
    requires j < |files| && NormalizePath(files[j].path).Ok?
    ensures Repeats(files, j) <==>
      NormalizePath(files[j].path).value in Paths(ChecksOf(host, tree, maximum), files[..j])
  {
    var path := NormalizePath(files[j].path).value;
    if Repeats(files, j) {
      var i :| 0 <= i < j && NormalizePath(files[i].path) == NormalizePath(files[j].path);
      assert files[i] in files[..j];
    }
    if path in Paths(ChecksOf(host, tree, maximum), files[..j]) {
      var f :| f in files[..j] && NormalizePath(f.path) == Ok(path);
      var i :| 0 <= i < j && files[i] == f;
    }
  }

  /** `validate_source`, in terms of the manifest and the tree; the bundle is described in BundleIsFaithful. */
  method ValidateSource(host: Host, tree: Tree, m: SourceManifest, maximum: int)
      returns (r: Result<Bundle, SourceError>)
    ensures r.Ok? <==> Acceptable(host, tree, maximum, m)
    ensures r.Err? && |m.files| > MAXIMUM_FILES ==> r.error == TooManyFiles
    ensures r.Err? && |m.files| <= MAXIMUM_FILES ==>
      exists j: nat :: FirstObstacle(host, tree, maximum, m.files, j, r.error)
    ensures r.Ok? <==> Accepted(ChecksOf(host, tree, maximum), m)
    ensures r.Ok? ==> r.value == BundleOf(ChecksOf(host, tree, maximum), m)
  {
    r := ValidateFiles(ChecksOf(host, tree, maximum), m);
    AcceptableMeans(host, tree, maximum, m);
    if r.Err? && |m.files| <= MAXIMUM_FILES {
      FirstObstacleMeans(host, tree, maximum, m.files, r.error);
    }
  }

  lemma AcceptableMeans(host: Host, tree: Tree, maximum: int, m: SourceManifest)
    ensures Accepted(ChecksOf(host, tree, maximum), m) <==> Acceptable(host, tree, maximum, m)
  {
    forall j: nat | j < |m.files|
      ensures Verdict(ChecksOf(host, tree, maximum), m.files, j).Ok? <==> Clear(host, tree, maximum, m.files, j)
    {
      VerdictMeans(host, tree, maximum, m.files, j);
    }
  }

  lemma FirstObstacleMeans(host: Host, tree: Tree, maximum: int, files: seq<SourceFile>, e: SourceError)
    requires StoppedBy(ChecksOf(host, tree, maximum), files, e)
    ensures exists j: nat :: FirstObstacle(host, tree, maximum, files, j, e)
  {
    var checks := ChecksOf(host, tree, maximum);
    var k: nat :| k < |files| && Unobstructed(checks, files, k) && Verdict(checks, files, k) == Err(e);
    VerdictMeans(host, tree, maximum, files, k);
    forall i: nat | i < k ensures Clear(host, tree, maximum, files, i) {
      VerdictMeans(host, tree, maximum, files, i);
    }
    assert FirstObstacle(host, tree, maximum, files, k, e);
  }

  method ValidateFiles(checks: Checks, m: SourceManifest) returns (r: Result<Bundle, SourceError>)
    ensures r.Ok? <==> Accepted(checks, m)
    ensures r.Ok? ==> r.value == BundleOf(checks, m)
    ensures r.Err? && |m.files| > MAXIMUM_FILES ==> r.error == TooManyFiles
    ensures r.Err? && |m.files| <= MAXIMUM_FILES ==> StoppedBy(checks, m.files, r.error)
  {
    if |m.files| > MAXIMUM_FILES {
      return Err(TooManyFiles);
    }
    var output: seq<ValidatedFile> := [];
    var seen: set<string> := {};
    for i := 0 to |m.files|
      invariant Unobstructed(checks, m.files, i)
      invariant output == Outputs(checks, m.files, i)
      invariant seen == Paths(checks, m.files[..i])
    {
      var item := m.files[i];
      assert m.files[..i + 1] == m.files[..i] + [item];
      ghost var verdict := Verdict(checks, m.files, i);
      var relative := checks.path(item.path);
      if relative.Err? {
        assert verdict == Err(BadPath(relative.error));
        return Err(BadPath(relative.error));
      }
      if relative.value in seen {
        return Err(DuplicatePath);
      }
      seen := seen + {relative.value};
      var checked := checks.entry(item, relative.value);
      if checked.Err? {
        return Err(checked.error);
      }
      output := output + [checked.value];
    }
    output := Sort(output, PathLe);
    r := Ok(Bundle(output, m.sourceDigest, TotalSize(output)));
  }
}
