/** Path ownership of agent lanes: the overlap check of the verifier and the allow-list check at completion. */
module PathOwnership {
  import opened Collections
  import opened Text

  datatype Lane = Lane(name: string, branch: string, allowed: Option<seq<string>>)

  datatype OwnershipError =
    | UnexpectedBranch(lane: string)
    | MissingPaths(lane: string)
    | PathsOverlap(lane: string, other: string)

  datatype Code = PathNotAllowed | FrozenOrForbidden

  datatype Diagnostic = Diagnostic(code: Code, path: string)

  /** `paths_overlap` */
  predicate Overlap(left: string, right: string) {
    var l, r := RStrip(left, '/'), RStrip(right, '/');
    l == r || r + "/" <= l || l + "/" <= r
  }

  /** One turn of the `path_matches` loop. */
  predicate MatchesOne(path: string, pattern: string) {
    var p, item := RStrip(path, '/'), RStrip(pattern, '/');
    p == item || item + "/" <= p
  }

  /** An entry matches exactly the paths whose components begin with its own, trailing slashes aside. */
  lemma MatchesByComponents(path: string, pattern: string)
    ensures MatchesOne(path, pattern) <==> Split(RStrip(pattern, '/'), '/') <= Split(RStrip(path, '/'), '/')
  {
    ExtendsByComponents(RStrip(pattern, '/'), RStrip(path, '/'), '/');
  }

  /** `path_matches` */
  method PathMatches(path: string, patterns: seq<string>) returns (matched: bool)
    ensures matched <==> Owned(path, patterns)
  {
    for i := 0 to |patterns|
      invariant forall k :: 0 <= k < i ==> !MatchesOne(path, patterns[k])
    {
      if MatchesOne(path, patterns[i]) {
        return true;
      }
    }
    matched := false;
  }

  ghost predicate Owned(path: string, patterns: seq<string>) {
    exists k :: 0 <= k < |patterns| && MatchesOne(path, patterns[k])
  }

  // ---------------------------------------------------------------- overlap means a shared path

  /** Two prefixes of one string are prefixes of one another. */
  lemma PrefixesComparable(a: string, b: string, s: string)
    requires a <= s && b <= s && |a| <= |b|
    ensures a <= b
  {
  }

  lemma SharedPathOverlaps(left: string, right: string, path: string)
    requires MatchesOne(path, left) && MatchesOne(path, right)
    ensures Overlap(left, right)
  {
    var l, r, p := RStrip(left, '/'), RStrip(right, '/'), RStrip(path, '/');
    if l != p && r != p {
      if |l| < |r| {
        PrefixesComparable(l + "/", r, p);
      } else if |r| < |l| {
        PrefixesComparable(r + "/", l, p);
      } else {
        assert p[..|l|] == l && p[..|r|] == r;
      }
    }
  }

  lemma OverlapSharesPath(left: string, right: string)
    requires Overlap(left, right)
    ensures exists path :: MatchesOne(path, left) && MatchesOne(path, right)
  {
    var l, r := RStrip(left, '/'), RStrip(right, '/');
    RStripIdentity(l, '/');
    RStripIdentity(r, '/');
    if r + "/" <= l {
      assert MatchesOne(l, left) && MatchesOne(l, right);
    } else {
      assert MatchesOne(r, left) && MatchesOne(r, right);
    }
  }

  /** The syntactic check is exact: entries overlap if and only if some path is matched by both. */
  lemma OverlapIsSharing(left: string, right: string)
    ensures Overlap(left, right) <==> exists path :: MatchesOne(path, left) && MatchesOne(path, right)
  {
    if Overlap(left, right) {
      OverlapSharesPath(left, right);
    }
    if path :| MatchesOne(path, left) && MatchesOne(path, right) {
      SharedPathOverlaps(left, right, path);
    }
  }

  // ---------------------------------------------------------------- the verifier's pairwise loop

  datatype Claim = Claim(path: string, lane: string)

  ghost predicate LaneOk(lane: Lane) {
    lane.branch == "agent/w10-" + lane.name && lane.allowed.Some? && lane.allowed.value != []
  }

  function LaneClaims(lane: Lane): (r: seq<Claim>)
    requires lane.allowed.Some?
    ensures |r| == |lane.allowed.value|
    ensures forall i :: 0 <= i < |r| ==> r[i] == Claim(lane.allowed.value[i], lane.name)
  {
    seq(|lane.allowed.value|, i requires 0 <= i < |lane.allowed.value| => Claim(lane.allowed.value[i], lane.name))
  }

  ghost function Claims(lanes: seq<Lane>): seq<Claim> {
    if lanes == [] then []
    else
      var last := lanes[|lanes| - 1];
      Claims(lanes[..|lanes| - 1]) + if last.allowed.Some? then LaneClaims(last) else []
  }

  ghost predicate Apart(a: Claim, b: Claim) {
    !Overlap(b.path, a.path)
  }

  /** No two claims, of one lane or of two, overlap. */
  ghost predicate AllApart(claims: seq<Claim>) {
    Pairwise(claims, Apart)
  }

  /** The innermost loop: a new path against everything owned so far. */
  method FindOverlap(path: string, owned: seq<Claim>) returns (other: Option<string>)
    ensures other.None? <==> forall k :: 0 <= k < |owned| ==> !Overlap(path, owned[k].path)
    ensures other.Some? ==> exists k :: 0 <= k < |owned| && Overlap(path, owned[k].path) && owned[k].lane == other.value
  {
    for k := 0 to |owned|
      invariant forall j :: 0 <= j < k ==> !Overlap(path, owned[j].path)
    {
      if Overlap(path, owned[k].path) {
        return Some(owned[k].lane);
      }
    }
    other := None;
  }

  /** A claim of `lane` overlaps an earlier claim of `other`. */
  ghost predicate Clash(claims: seq<Claim>, lane: string, other: string) {
    exists p, q :: 0 <= p < q < |claims| && claims[q].lane == lane && claims[p].lane == other &&
      !Apart(claims[p], claims[q])
  }

  method ClaimPaths(lane: Lane, owned0: seq<Claim>) returns (e: Option<OwnershipError>, owned: seq<Claim>)
    requires LaneOk(lane) && AllApart(owned0)
    ensures e.None? <==> AllApart(owned0 + LaneClaims(lane))
    ensures e.None? ==> owned == owned0 + LaneClaims(lane)
    ensures e.Some? ==> e.value.PathsOverlap? && e.value.lane == lane.name
    ensures e.Some? ==> Clash(owned0 + LaneClaims(lane), lane.name, e.value.other)
  {
    owned := owned0;
    ghost var goal := owned0 + LaneClaims(lane);
    for i := 0 to |lane.allowed.value|
      invariant owned == goal[..|owned0| + i] && AllApart(owned)
    {
      var path := lane.allowed.value[i];
      assert goal[|owned0| + i] == Claim(path, lane.name);
      var other := FindOverlap(path, owned);
      if other.Some? {
        ghost var k :| 0 <= k < |owned| && Overlap(path, owned[k].path) && owned[k].lane == other.value;
        assert goal[k] == owned[k] && !Apart(goal[k], goal[|owned0| + i]);
        return Some(PathsOverlap(lane.name, other.value)), owned;
      }
      owned := owned + [Claim(path, lane.name)];
    }
    e := None;
  }

  ghost predicate Accepted(lanes: seq<Lane>) {
    (forall i :: 0 <= i < |lanes| ==> LaneOk(lanes[i])) && AllApart(Claims(lanes))
  }

  lemma {:induction false} ClaimsPrefix(lanes: seq<Lane>, i: nat)
    requires i <= |lanes|
    ensures Claims(lanes[..i]) <= Claims(lanes)
    decreases |lanes| - i
  {
    if i < |lanes| {
      assert lanes[..i + 1][..i] == lanes[..i];
      assert Claims(lanes[..i]) <= Claims(lanes[..i + 1]);
      ClaimsPrefix(lanes, i + 1);
    } else {
      assert lanes[..i] == lanes;
    }
  }

  lemma ApartPrefix(part: seq<Claim>, whole: seq<Claim>)
    requires part <= whole && AllApart(whole)
    ensures AllApart(part)
  {
    forall i, j | 0 <= i < j < |part| ensures Apart(part[i], part[j]) {
      assert Apart(whole[i], whole[j]);
    }
  }

  /** Lane `i` is the first one at fault, and `e` says how: its branch, its missing paths, or an overlap. */
  ghost predicate Faults(lanes: seq<Lane>, i: nat, e: OwnershipError) {
    && i < |lanes| && Accepted(lanes[..i])
    && match e
       case UnexpectedBranch(lane) => lane == lanes[i].name && lanes[i].branch != "agent/w10-" + lane
       case MissingPaths(lane) =>
         lane == lanes[i].name && lanes[i].branch == "agent/w10-" + lane &&
           (lanes[i].allowed.None? || lanes[i].allowed.value == [])
       case PathsOverlap(lane, other) =>
         lane == lanes[i].name && LaneOk(lanes[i]) && Clash(Claims(lanes[..i + 1]), lane, other)
  }

  /** The lane loop of the boundary verifier. */
  method VerifyOwnership(lanes: seq<Lane>) returns (e: Option<OwnershipError>)
    ensures e.None? <==> Accepted(lanes)
    ensures e.Some? ==> exists i: nat :: Faults(lanes, i, e.value)
  {
    var owned: seq<Claim> := [];
    for i := 0 to |lanes|
      invariant owned == Claims(lanes[..i]) && Accepted(lanes[..i])
    {
      var lane := lanes[i];
      if lane.branch != "agent/w10-" + lane.name {
        assert Faults(lanes, i, UnexpectedBranch(lane.name));
        FaultRejects(lanes, i, UnexpectedBranch(lane.name));
        return Some(UnexpectedBranch(lane.name));
      }
      if lane.allowed.None? || lane.allowed.value == [] {
        assert Faults(lanes, i, MissingPaths(lane.name));
        FaultRejects(lanes, i, MissingPaths(lane.name));
        return Some(MissingPaths(lane.name));
      }
      assert lanes[..i + 1][..i] == lanes[..i];
      e, owned := ClaimPaths(lane, owned);
      if e.Some? {
        assert Faults(lanes, i, e.value);
        FaultRejects(lanes, i, e.value);
        return;
      }
      NextLane(lanes, i);
    }
    assert lanes[..|lanes|] == lanes;
    e := None;
  }

  lemma NextLane(lanes: seq<Lane>, i: nat)
    requires i < |lanes| && Accepted(lanes[..i]) && LaneOk(lanes[i]) &&
      AllApart(Claims(lanes[..i]) + LaneClaims(lanes[i]))
    ensures Accepted(lanes[..i + 1]) && Claims(lanes[..i + 1]) == Claims(lanes[..i]) + LaneClaims(lanes[i])
  {
    var before, more := lanes[..i], lanes[..i + 1];
    assert more[..i] == before;
    forall k | 0 <= k < |more| ensures LaneOk(more[k]) {
      assert k < i ==> more[k] == before[k] && LaneOk(before[k]);
    }
  }

  /** One lane at fault is enough to reject the list. */
  lemma FaultRejects(lanes: seq<Lane>, i: nat, e: OwnershipError)
    requires Faults(lanes, i, e)
    ensures !Accepted(lanes)
  {
    if !e.PathsOverlap? {
      assert !LaneOk(lanes[i]);
    } else if AllApart(Claims(lanes)) {
      ClaimsPrefix(lanes, i + 1);
      ApartPrefix(Claims(lanes[..i + 1]), Claims(lanes));
    }
  }

  // ---------------------------------------------------------------- disjoint ownership

  lemma {:induction false} ClaimPosition(lanes: seq<Lane>, i: nat, k: nat) returns (at: nat)
    requires i < |lanes| && lanes[i].allowed.Some? && k < |lanes[i].allowed.value|
    ensures |Claims(lanes[..i])| <= at < |Claims(lanes[..i + 1])|
    ensures |Claims(lanes[..i + 1])| <= |Claims(lanes)| &&
      Claims(lanes)[at] == Claim(lanes[i].allowed.value[k], lanes[i].name)
  {
    assert lanes[..i + 1][..i] == lanes[..i];
    at := |Claims(lanes[..i])| + k;
    ClaimsPrefix(lanes, i + 1);
    assert Claims(lanes[..i + 1])[at] == LaneClaims(lanes[i])[k];
  }

  /** If the verifier accepts, no path is matched by the allowed paths of two lanes. */
  lemma AcceptedLanesDisjoint(lanes: seq<Lane>, i: nat, j: nat, path: string)
    requires Accepted(lanes) && i < j < |lanes|
    ensures lanes[i].allowed.Some? && lanes[j].allowed.Some?
    ensures !(Owned(path, lanes[i].allowed.value) && Owned(path, lanes[j].allowed.value))
  {
    assert LaneOk(lanes[i]) && LaneOk(lanes[j]);
    var a, b := lanes[i].allowed.value, lanes[j].allowed.value;
    forall k, l | 0 <= k < |a| && 0 <= l < |b| ensures !(MatchesOne(path, a[k]) && MatchesOne(path, b[l])) {
      ClaimsApart(lanes, i, j, k, l);
      if MatchesOne(path, a[k]) && MatchesOne(path, b[l]) {
        SharedPathOverlaps(b[l], a[k], path);
      }
    }
  }

  lemma ClaimsApart(lanes: seq<Lane>, i: nat, j: nat, k: nat, l: nat)
    requires AllApart(Claims(lanes)) && i < j < |lanes| && lanes[i].allowed.Some? && lanes[j].allowed.Some?
    requires k < |lanes[i].allowed.value| && l < |lanes[j].allowed.value|
    ensures !Overlap(lanes[j].allowed.value[l], lanes[i].allowed.value[k])
  {
    var p := ClaimPosition(lanes, i, k);
    var q := ClaimPosition(lanes, j, l);
    assert lanes[..j][..i + 1] == lanes[..i + 1];
    ClaimsPrefix(lanes[..j], i + 1);
    assert Apart(Claims(lanes)[p], Claims(lanes)[q]);
  }

  /** A rejection for overlap names a lane and an earlier claimant, and some path really is claimed by both. */
  lemma RejectedLanesShare(lanes: seq<Lane>, i: nat, lane: string, other: string)
    requires Faults(lanes, i, PathsOverlap(lane, other))
    ensures exists p, q, path :: Claimed(lanes, i, p, other, path) && Claimed(lanes, i, q, lane, path)
  {
    var claims := Claims(lanes[..i + 1]);
    var p, q :| 0 <= p < q < |claims| && claims[q].lane == lane && claims[p].lane == other &&
      !Apart(claims[p], claims[q]);
    OverlapSharesPath(claims[q].path, claims[p].path);
    var path :| MatchesOne(path, claims[q].path) && MatchesOne(path, claims[p].path);
    assert Claimed(lanes, i, claims[p], other, path) && Claimed(lanes, i, claims[q], lane, path);
  }

  /** `c` is a claim of the lane, within the first lanes up to `i`, and covers the path. */
  ghost predicate Claimed(lanes: seq<Lane>, i: nat, c: Claim, lane: string, path: string)
    requires i < |lanes|
  {
    c in Claims(lanes[..i + 1]) && c.lane == lane && MatchesOne(path, c.path)
  }

  // ---------------------------------------------------------------- completion

  datatype Task = Task(allowed: seq<string>, forbidden: seq<string>)

  ghost predicate Blocks(d: Diagnostic, task: Task, frozen: seq<string>) {
    match d.code
    case PathNotAllowed => !Owned(d.path, task.allowed)
    case FrozenOrForbidden => Owned(d.path, task.forbidden) || Owned(d.path, frozen)
  }

  /** The changed-file loop of `inspect`. */
  method InspectPaths(files: seq<string>, task: Task, frozen: seq<string>) returns (diagnostics: seq<Diagnostic>)
    ensures forall d :: d in diagnostics <==> d.path in files && Blocks(d, task, frozen)
  {
    diagnostics := [];
    for i := 0 to |files|
      invariant forall d :: d in diagnostics <==> d.path in files[..i] && Blocks(d, task, frozen)
    {
      var path := files[i];
      assert files[..i + 1] == files[..i] + [path];
      var allowed := PathMatches(path, task.allowed);
      if !allowed {
        diagnostics := diagnostics + [Diagnostic(PathNotAllowed, path)];
      }
      var forbidden := PathMatches(path, task.forbidden);
      var frozenPath := PathMatches(path, frozen);
      if forbidden || frozenPath {
        diagnostics := diagnostics + [Diagnostic(FrozenOrForbidden, path)];
      }
    }
    assert files[..|files|] == files;
  }

  ghost predicate Completes(files: seq<string>, task: Task, frozen: seq<string>) {
    forall path :: path in files ==> !Blocks(Diagnostic(PathNotAllowed, path), task, frozen)
  }

  /**
    Two accepted lanes that both finish without a path_not_allowed diagnostic have changed
    disjoint sets of files.
   */
  lemma CompletedLanesDisjoint(lanes: seq<Lane>, i: nat, j: nat, a: Task, b: Task, frozen: seq<string>,
      filesA: seq<string>, filesB: seq<string>)
    requires Accepted(lanes) && i < j < |lanes|
    requires lanes[i].allowed == Some(a.allowed) && lanes[j].allowed == Some(b.allowed)
    requires Completes(filesA, a, frozen) && Completes(filesB, b, frozen)
    ensures ToSet(filesA) !! ToSet(filesB)
  {
    forall path | path in filesA ensures path !in filesB {
      AcceptedLanesDisjoint(lanes, i, j, path);
      assert !Blocks(Diagnostic(PathNotAllowed, path), a, frozen);
      assert path in filesB ==> !Blocks(Diagnostic(PathNotAllowed, path), b, frozen);
    }
  }
}
