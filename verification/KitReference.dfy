/** Exact framework-kit references: their printed form and its parser. */
module KitReferences {
  import opened Collections
  import opened Text

  /** The Unicode classes behind `str.strip`, `\d` and `\w`. */
  datatype CharClasses = CharClasses(space: char -> bool, digit: char -> bool, word: char -> bool)

  /** What the parser relies on: the classes agree with ASCII and white space is no word character. */
  ghost predicate Standard(cc: CharClasses) {
    && (forall c :: '0' <= c <= '9' ==> cc.digit(c))
    && (forall c :: 'a' <= c <= 'z' ==> cc.word(c) && !cc.digit(c))
    && (forall c :: cc.digit(c) ==> cc.word(c))
    && (forall c :: cc.word(c) ==> !cc.space(c))
    && !cc.space('-') && !cc.word('-') && !cc.word('.')
    && cc.space(' ')
  }

  datatype KitReference = KitReference(kitId: string, version: string)

  datatype KitError = MissingSeparator | InvalidKitId | NoVersion

  const SEPARATOR := " @ServiceFabric/"
  const ROOT := "portfolio"
  const MIDDLE := "/applications" + "/revisions"
  const NAME := "/examples.hello"
  const FOLDER := ROOT + MIDDLE + NAME
  const STEM := FOLDER + "-static-"
  const SUFFIX := ".json"

  predicate IdChar(c: char) {
    'a' <= c <= 'z' || '0' <= c <= '9'
  }

  predicate All(s: string, p: char -> bool) {
    forall i :: 0 <= i < |s| ==> p(s[i])
  }

  predicate NonEmptyOf(s: string, p: char -> bool) {
    s != [] && All(s, p)
  }

  /** `[a-z][a-z0-9]*(?:-[a-z0-9]+)*` */
  predicate IsKitId(s: string) {
    s != [] && 'a' <= s[0] <= 'z' && forall part :: part in Split(s, '-') ==> NonEmptyOf(part, IdChar)
  }

  /** `\d+(?:-\w+)?` */
  predicate IsPatch(cc: CharClasses, s: string) {
    NonEmptyOf(s, cc.digit)
    || exists k :: 0 <= k < |s| && s[k] == '-' && NonEmptyOf(s[..k], cc.digit) && NonEmptyOf(s[k + 1..], cc.word)
  }

  /** `\d+\.\d+\.\d+(?:-\w+)?` */
  predicate IsVersion(cc: CharClasses, s: string) {
    var parts := Split(s, '.');
    |parts| == 3 && NonEmptyOf(parts[0], cc.digit) && NonEmptyOf(parts[1], cc.digit) && IsPatch(cc, parts[2])
  }

  ghost predicate Valid(cc: CharClasses, r: KitReference) {
    IsKitId(r.kitId) && IsVersion(cc, r.version)
  }

  function Print(r: KitReference): string {
    r.kitId + SEPARATOR + STEM + r.version + SUFFIX
  }

  function LStrip(cc: CharClasses, s: string): string {
    if s != [] && cc.space(s[0]) then LStrip(cc, s[1..]) else s
  }

  function Strip(cc: CharClasses, s: string): string {
    if s != [] && cc.space(s[|s| - 1]) then Strip(cc, s[..|s| - 1]) else LStrip(cc, s)
  }

  /** The first position at or after `i` where `pattern` occurs. */
  function Find(s: string, pattern: string, i: nat): (r: Option<nat>)
    ensures r.Some? ==> i <= r.value && r.value + |pattern| <= |s| && pattern == s[r.value..r.value + |pattern|]
    ensures forall k :: i <= k < (if r.Some? then r.value else |s| + 1) ==> k > |s| || !(pattern <= s[k..])
    decreases |s| - i
  {
    if i + |pattern| > |s| then None
    else if s[i..i + |pattern|] == pattern then Some(i)
    else
      var r := Find(s, pattern, i + 1);
      assert !(pattern <= s[i..]);
      r
  }

  /** A match of `[-_](version)\.json$` that starts at `i`. */
  predicate VersionAt(cc: CharClasses, path: string, i: nat) {
    && i + 1 + |SUFFIX| <= |path| && (path[i] == '-' || path[i] == '_')
    && path[|path| - |SUFFIX|..] == SUFFIX
    && IsVersion(cc, path[i + 1..|path| - |SUFFIX|])
  }

  /** `re.search`: the leftmost match; a stripped path does not end in a newline, so `$` is the end. */
  function SearchVersion(cc: CharClasses, path: string, i: nat): (r: Option<string>)
    ensures r.Some? ==> IsVersion(cc, r.value)
    decreases |path| - i
  {
    if i >= |path| then None
    else if VersionAt(cc, path, i) then Some(path[i + 1..|path| - |SUFFIX|])
    else SearchVersion(cc, path, i + 1)
  }

  function Parse(cc: CharClasses, text: string): (r: Result<KitReference, KitError>)
    ensures r.Ok? ==> Valid(cc, r.value)
  {
    match Find(text, SEPARATOR, 0)
    case None => Err(MissingSeparator)
    case Some(i) =>
      var kitId := Strip(cc, text[..i]);
      var path := Strip(cc, text[i + |SEPARATOR|..]);
      if !IsKitId(kitId) then Err(InvalidKitId)
      else
        match SearchVersion(cc, path, 0)
        case None => Err(NoVersion)
        case Some(version) => Ok(KitReference(kitId, version))
  }

  // ---------------------------------------------------------------- round trips

  lemma {:induction false} SplitMembers(s: string, sep: char, i: nat)
    requires i < |s| && s[i] != sep
    ensures exists part :: part in Split(s, sep) && s[i] in part
  {
    var rest := Split(s[1..], sep);
    if i == 0 {
      var head := [s[0]] + rest[0];
      assert Split(s, sep)[0] == head && s[0] in head;
    } else {
      SplitMembers(s[1..], sep, i - 1);
      var part :| part in rest && s[i] in part;
      if s[0] == sep {
        assert part in Split(s, sep);
      } else if part == rest[0] {
        var head := [s[0]] + rest[0];
        assert Split(s, sep)[0] == head && s[i] in head;
      } else {
        assert part in rest[1..];
        assert part in Split(s, sep);
      }
    }
  }

  /** Kit ids are made of lower-case letters, digits and hyphens. */
  lemma KitIdChars(s: string, i: nat)
    requires IsKitId(s) && i < |s|
    ensures IdChar(s[i]) || s[i] == '-'
  {
    if s[i] != '-' {
      SplitMembers(s, '-', i);
    }
  }

  lemma {:induction false} StripIdentity(cc: CharClasses, s: string)
    requires s != [] ==> !cc.space(s[0]) && !cc.space(s[|s| - 1])
    ensures Strip(cc, s) == s
  {
  }

  lemma {:induction false} FindFirst(s: string, pattern: string, i: nat, at: nat)
    requires i <= at && at + |pattern| <= |s| && s[at..at + |pattern|] == pattern && pattern != []
    requires forall k :: i <= k < at ==> s[k] != pattern[0]
    ensures Find(s, pattern, i) == Some(at)
    decreases at - i
  {
    if i < at {
      assert s[i..i + |pattern|][0] == s[i];
      FindFirst(s, pattern, i + 1, at);
    }
  }

  lemma {:induction false} SearchFirst(cc: CharClasses, path: string, i: nat, at: nat)
    requires i <= at < |path| && VersionAt(cc, path, at)
    requires forall k :: i <= k < at ==> !VersionAt(cc, path, k)
    ensures SearchVersion(cc, path, i) == Some(path[at + 1..|path| - |SUFFIX|])
    decreases at - i
  {
    if i < at {
      SearchFirst(cc, path, i + 1, at);
    }
  }

  lemma VersionStartsWithDigit(cc: CharClasses, s: string)
    requires IsVersion(cc, s)
    ensures s != [] && cc.digit(s[0])
  {
    var parts := Split(s, '.');
    var rest := Split(s[1..], '.');
    assert s[0] != '.' && parts[0][0] == s[0];
  }

  lemma PrintedPath(cc: CharClasses, version: string)
    requires Standard(cc) && IsVersion(cc, version)
    ensures Strip(cc, STEM + version + SUFFIX) == STEM + version + SUFFIX
    ensures SearchVersion(cc, STEM + version + SUFFIX, 0) == Some(version)
  {
    var path := STEM + version + SUFFIX;
    assert path[0] == FOLDER[0] == ROOT[0] == 'p' && path[|path| - 1] == SUFFIX[|SUFFIX| - 1] == 'n';
    StripIdentity(cc, path);
    var at := |STEM| - 1;
    assert path[at] == '-' && path[at + 1..|path| - |SUFFIX|] == version && path[|path| - |SUFFIX|..] == SUFFIX;
    forall k | 0 <= k < at ensures !VersionAt(cc, path, k) {
      assert path[k] == STEM[k] && path[k + 1] == STEM[k + 1];
      if VersionAt(cc, path, k) {
        StemHasNoVersion(k);
        VersionStartsWithDigit(cc, path[k + 1..|path| - |SUFFIX|]);
      }
    }
    SearchFirst(cc, path, 0, at);
  }

  lemma NoSeparator(c: char)
    requires c == '-' || c == '_'
    ensures c !in FOLDER
  {
    assert c !in ROOT;
    assert c !in "/applications" && c !in "/revisions";
    assert c !in MIDDLE;
    assert c !in NAME;
  }

  /** Before its last character the stem has one separator, and a letter follows it. */
  lemma StemHasNoVersion(k: nat)
    requires k < |STEM| - 1 && (STEM[k] == '-' || STEM[k] == '_')
    ensures STEM[k + 1] == 's'
  {
    assert k < |FOLDER| ==> STEM[k] == FOLDER[k] && FOLDER[k] in FOLDER;
    NoSeparator('-');
    NoSeparator('_');
  }

  lemma KitIdStripped(cc: CharClasses, s: string)
    requires Standard(cc) && IsKitId(s)
    ensures Strip(cc, s) == s
    ensures forall k :: 0 <= k < |s| ==> s[k] != ' '
  {
    forall k | 0 <= k < |s| ensures s[k] != ' ' && !cc.space(s[k]) {
      KitIdChars(s, k);
    }
    StripIdentity(cc, s);
  }

  /** The separator of a printed reference is found right behind the kit id. */
  lemma PrintedSeparator(kitId: string, path: string)
    requires forall k :: 0 <= k < |kitId| ==> kitId[k] != ' '
    ensures Find(kitId + SEPARATOR + path, SEPARATOR, 0) == Some(|kitId|)
    ensures (kitId + SEPARATOR + path)[..|kitId|] == kitId
    ensures (kitId + SEPARATOR + path)[|kitId| + |SEPARATOR|..] == path
  {
    var text := kitId + SEPARATOR + path;
    assert SEPARATOR[0] == ' ';
    assert text[|kitId|..|kitId| + |SEPARATOR|] == SEPARATOR;
    FindFirst(text, SEPARATOR, 0, |kitId|);
  }

  /** Printing then parsing gives the reference back exactly when it is valid. */
  lemma PrintParse(cc: CharClasses, r: KitReference)
    requires Standard(cc)
    ensures Parse(cc, Print(r)) == Ok(r) <==> Valid(cc, r)
  {
    if Valid(cc, r) {
      var path := STEM + r.version + SUFFIX;
      assert Print(r) == r.kitId + SEPARATOR + path;
      KitIdStripped(cc, r.kitId);
      PrintedSeparator(r.kitId, path);
      PrintedPath(cc, r.version);
    }
  }

  /** For every accepted string, parsing, printing and parsing again changes nothing. */
  lemma ParsePrintParse(cc: CharClasses, text: string)
    requires Standard(cc) && Parse(cc, text).Ok?
    ensures Parse(cc, Print(Parse(cc, text).value)) == Parse(cc, text)
  {
    PrintParse(cc, Parse(cc, text).value);
  }

  // ---------------------------------------------------------------- what is parsed

  /** ASCII letters `a` to `z` and digits. */
  ghost predicate Letter(c: char) {
    97 <= c as int <= 122
  }

  ghost predicate Digit(c: char) {
    48 <= c as int <= 57
  }

  /** `s` is the groups joined by hyphens; each has characters, all of them letters and digits. */
  ghost predicate Groups(s: string, groups: seq<string>) {
    && groups != [] && s == Join(groups, '-')
    && forall g :: g in groups ==> g != "" && forall i :: 0 <= i < |g| ==> Letter(g[i]) || Digit(g[i])
  }

  /** A kit id is hyphenated groups of letters and digits, beginning with a letter. */
  lemma KitIdMeans(s: string)
    ensures IsKitId(s) <==> s != "" && Letter(s[0]) && exists groups :: Groups(s, groups)
  {
    JoinSplit(s, '-');
    if IsKitId(s) {
      assert Groups(s, Split(s, '-'));
    }
    if groups :| Groups(s, groups) {
      forall g | g in groups ensures '-' !in g {
        assert forall i :: 0 <= i < |g| ==> Letter(g[i]) || Digit(g[i]);
      }
      SplitJoin(groups, '-');
    }
  }

  ghost predicate Digits(cc: CharClasses, s: string) {
    s != "" && forall i :: 0 <= i < |s| ==> cc.digit(s[i])
  }

  ghost predicate Word(cc: CharClasses, s: string) {
    s != "" && forall i :: 0 <= i < |s| ==> cc.word(s[i])
  }

  /** Three numbers with dots between them, and possibly a hyphen and a word after them. */
  ghost predicate Numbers(cc: CharClasses, s: string, a: string, b: string, c: string, tail: string) {
    && s == a + "." + b + "." + c + tail && Digits(cc, a) && Digits(cc, b) && Digits(cc, c)
    && (tail == "" || (tail[0] == '-' && Word(cc, tail[1..])))
  }

  /** A number, and possibly a hyphen and a word after it. */
  ghost predicate Numbered(cc: CharClasses, s: string, c: string, tail: string) {
    s == c + tail && Digits(cc, c) && (tail == "" || (tail[0] == '-' && Word(cc, tail[1..])))
  }

  ghost predicate NumberedSomehow(cc: CharClasses, s: string) {
    exists c, tail :: Numbered(cc, s, c, tail)
  }

  lemma PatchMeans(cc: CharClasses, s: string)
    ensures IsPatch(cc, s) <==> NumberedSomehow(cc, s)
  {
    if IsPatch(cc, s) {
      var c, tail := PatchIsNumbered(cc, s);
    }
    if NumberedSomehow(cc, s) {
      var c, tail :| Numbered(cc, s, c, tail);
      NumberedIsPatch(cc, s, c, tail);
    }
  }

  lemma PatchIsNumbered(cc: CharClasses, s: string) returns (c: string, tail: string)
    requires IsPatch(cc, s)
    ensures Numbered(cc, s, c, tail)
  {
    if NonEmptyOf(s, cc.digit) {
      c, tail := s, "";
    } else {
      var k :| 0 <= k < |s| && s[k] == '-' && NonEmptyOf(s[..k], cc.digit) && NonEmptyOf(s[k + 1..], cc.word);
      c, tail := s[..k], s[k..];
      assert tail[1..] == s[k + 1..];
    }
  }

  lemma NumberedIsPatch(cc: CharClasses, s: string, c: string, tail: string)
    requires Numbered(cc, s, c, tail)
    ensures IsPatch(cc, s)
  {
    assert s[..|c|] == c && s[|c|..] == tail;
    if tail != "" {
      assert s[|c|] == '-' && s[|c| + 1..] == tail[1..];
    }
  }

  lemma VersionMeans(cc: CharClasses, s: string)
    requires Standard(cc)
    ensures IsVersion(cc, s) <==> exists a, b, c, tail :: Numbers(cc, s, a, b, c, tail)
  {
    if IsVersion(cc, s) {
      var parts := Split(s, '.');
      JoinSplit(s, '.');
      JoinThree(parts);
      PatchMeans(cc, parts[2]);
      var c, tail :| Numbered(cc, parts[2], c, tail);
      assert Numbers(cc, s, parts[0], parts[1], c, tail);
    }
    if a, b, c, tail :| Numbers(cc, s, a, b, c, tail) {
      NumbersAreVersion(cc, s, a, b, c, tail);
    }
  }

  lemma NumbersAreVersion(cc: CharClasses, s: string, a: string, b: string, c: string, tail: string)
    requires Standard(cc) && Numbers(cc, s, a, b, c, tail)
    ensures IsVersion(cc, s)
  {
    var three := [a, b, c + tail];
    NoDot(cc, a, c, tail);
    NoDot(cc, b, c, tail);
    JoinThree(three);
    assert s == Join(three, '.');
    SplitJoin(three, '.');
    assert Numbered(cc, c + tail, c, tail);
    PatchMeans(cc, c + tail);
  }

  lemma NoDot(cc: CharClasses, a: string, c: string, tail: string)
    requires Standard(cc) && Digits(cc, a) && Numbered(cc, c + tail, c, tail)
    ensures '.' !in a && '.' !in c + tail
  {
    assert !cc.digit('.');
    forall i | 0 <= i < |tail| ensures tail[i] != '.' {
      assert i > 0 ==> tail[i] == tail[1..][i - 1];
    }
  }

  lemma JoinThree(parts: seq<string>)
    requires |parts| == 3
    ensures Join(parts, '.') == parts[0] + "." + parts[1] + "." + parts[2]
  {
    assert Join(parts[1..], '.') == parts[1] + "." + Join(parts[2..], '.');
  }

  /** `stripped` is `s` without the white space at its ends. */
  ghost predicate Strips(cc: CharClasses, s: string, stripped: string) {
    exists before, after :: StripsWith(cc, s, stripped, before, after)
  }

  ghost predicate StripsWith(cc: CharClasses, s: string, stripped: string, before: string, after: string) {
    && s == before + stripped + after && Blank(cc, before) && Blank(cc, after)
    && (stripped != "" ==> !cc.space(stripped[0]) && !cc.space(stripped[|stripped| - 1]))
  }

  ghost predicate Blank(cc: CharClasses, s: string) {
    forall i :: 0 <= i < |s| ==> cc.space(s[i])
  }

  /** The separator stands between the two parts, and nowhere before. */
  ghost predicate CutAt(text: string, before: string, after: string) {
    text == before + SEPARATOR + after && forall k :: 0 <= k < |before| ==> !(SEPARATOR <= text[k..])
  }

  /** A hyphen or underscore at `i` is followed by the version and the suffix, which end the path. */
  ghost predicate VersionFollows(cc: CharClasses, path: string, i: nat, version: string) {
    && i < |path| && (path[i] == '-' || path[i] == '_') && path[i + 1..] == version + ".json"
    && IsVersion(cc, version)
  }

  /** The leftmost version of the path. */
  ghost predicate NamesVersion(cc: CharClasses, path: string, version: string) {
    exists i: nat :: FirstVersion(cc, path, 0, i, version)
  }

  ghost predicate FirstVersion(cc: CharClasses, path: string, start: nat, i: nat, version: string) {
    VersionFollows(cc, path, i, version) && forall k: nat, v :: start <= k < i ==> !VersionFollows(cc, path, k, v)
  }

  lemma {:induction false} LStripMeans(cc: CharClasses, s: string) returns (before: string)
    ensures s == before + LStrip(cc, s) && Blank(cc, before)
    ensures LStrip(cc, s) != "" ==> !cc.space(LStrip(cc, s)[0])
  {
    before := "";
    if s != "" && cc.space(s[0]) {
      var more := LStripMeans(cc, s[1..]);
      before := [s[0]] + more;
      assert s == [s[0]] + s[1..];
    }
  }

  lemma {:induction false} StripMeans(cc: CharClasses, s: string)
    ensures Strips(cc, s, Strip(cc, s))
  {
    if s != "" && cc.space(s[|s| - 1]) {
      var last := |s| - 1;
      StripMeans(cc, s[..last]);
      var before, after :| StripsWith(cc, s[..last], Strip(cc, s), before, after);
      assert s == s[..last] + [s[last]];
      assert StripsWith(cc, s, Strip(cc, s), before, after + [s[last]]);
    } else {
      var before := LStripMeans(cc, s);
      assert StripsWith(cc, s, Strip(cc, s), before, "");
    }
  }

  lemma {:induction false} SearchMeans(cc: CharClasses, path: string, i: nat)
    ensures var r := SearchVersion(cc, path, i);
      && (r.None? ==> forall k: nat, v :: k >= i ==> !VersionFollows(cc, path, k, v))
      && (r.Some? ==> exists k: nat :: k >= i && FirstVersion(cc, path, i, k, r.value))
    decreases |path| - i
  {
    if i < |path| {
      forall v
        ensures VersionFollows(cc, path, i, v) <==> VersionAt(cc, path, i) && v == path[i + 1..|path| - |SUFFIX|]
      {
        FollowsAt(cc, path, i, v);
      }
      if VersionAt(cc, path, i) {
        assert FirstVersion(cc, path, i, i, path[i + 1..|path| - |SUFFIX|]);
      } else {
        SearchMeans(cc, path, i + 1);
        var r := SearchVersion(cc, path, i + 1);
        if r.Some? {
          var k: nat :| k >= i + 1 && FirstVersion(cc, path, i + 1, k, r.value);
          assert FirstVersion(cc, path, i, k, r.value);
        }
      }
    }
  }

  lemma FollowsAt(cc: CharClasses, path: string, i: nat, v: string)
    requires i < |path|
    ensures VersionFollows(cc, path, i, v) <==> VersionAt(cc, path, i) && v == path[i + 1..|path| - |SUFFIX|]
  {
    var end := |path| - |SUFFIX|;
    if VersionFollows(cc, path, i, v) {
      var rest := path[i + 1..];
      assert rest == v + SUFFIX && |rest| == |v| + |SUFFIX|;
      assert path[end..] == rest[|v|..] && path[i + 1..end] == rest[..|v|];
    }
    if VersionAt(cc, path, i) && v == path[i + 1..end] {
      assert path[i + 1..] == path[i + 1..end] + path[end..];
    }
  }

  /**
    What parsing yields: the text is cut at the first separator; the part before it is a kit id and the leftmost
    version of the part behind it is the version, white space at their ends aside.
   */
  ghost predicate ParsesTo(cc: CharClasses, text: string, before: string, after: string, id: string, path: string,
      r: Result<KitReference, KitError>) {
    && CutAt(text, before, after) && Strips(cc, before, id) && Strips(cc, after, path)
    && match r
       case Ok(reference) => IsKitId(id) && reference.kitId == id && NamesVersion(cc, path, reference.version)
       case Err(e) =>
         match e
         case MissingSeparator => false
         case InvalidKitId => !IsKitId(id)
         case NoVersion => IsKitId(id) && forall i: nat, v :: !VersionFollows(cc, path, i, v)
  }

  ghost predicate Reads(cc: CharClasses, text: string, r: Result<KitReference, KitError>) {
    exists before, after, id, path :: ParsesTo(cc, text, before, after, id, path, r)
  }

  lemma CutHere(text: string, at: nat)
    requires Find(text, SEPARATOR, 0) == Some(at)
    ensures CutAt(text, text[..at], text[at + |SEPARATOR|..])
  {
    assert text == text[..at] + SEPARATOR + text[at + |SEPARATOR|..];
  }

  ghost predicate Separated(text: string) {
    exists k: nat :: k <= |text| && SEPARATOR <= text[k..]
  }

  lemma FoundMeans(text: string)
    ensures Separated(text) <==> Find(text, SEPARATOR, 0).Some?
  {
    var at := Find(text, SEPARATOR, 0);
    if at.Some? {
      assert SEPARATOR <= text[at.value..];
    }
  }

  lemma CutParse(cc: CharClasses, text: string, at: nat)
    requires Find(text, SEPARATOR, 0) == Some(at) && CutAt(text, text[..at], text[at + |SEPARATOR|..])
    ensures var before, after := text[..at], text[at + |SEPARATOR|..];
      ParsesTo(cc, text, before, after, Strip(cc, before), Strip(cc, after), Parse(cc, text))
  {
    var before, after := text[..at], text[at + |SEPARATOR|..];
    StripMeans(cc, before);
    StripMeans(cc, after);
    SearchMeans(cc, Strip(cc, after), 0);
  }

  lemma OneReading(cc: CharClasses, text: string, before: string, after: string, id: string, path: string,
      r: Result<KitReference, KitError>)
    requires ParsesTo(cc, text, before, after, id, path, r)
    ensures Reads(cc, text, r)
  {
  }

  /** A reference parses to what its one reading says; the only other error is a text without a separator. */
  lemma ParseMeans(cc: CharClasses, text: string)
    ensures var r := Parse(cc, text);
      if r == Err(MissingSeparator) then !Separated(text) else Reads(cc, text, r)
  {
    FoundMeans(text);
    if Separated(text) {
      var at := Find(text, SEPARATOR, 0).value;
      var before, after := text[..at], text[at + |SEPARATOR|..];
      CutHere(text, at);
      CutParse(cc, text, at);
      OneReading(cc, text, before, after, Strip(cc, before), Strip(cc, after), Parse(cc, text));
    }
  }
}
