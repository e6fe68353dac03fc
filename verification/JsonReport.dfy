/** Which error the validator reports, and when it raises something else. */
module JsonReport {
  import opened Collections
  import opened JsonSchema
  import opened Sorting

  // ---------------------------------------------------------------- the demands before the one on the kind of value

  ghost predicate ConstHolds(r: Rules, v: Json, s: Json)
    requires s.Obj?
  {
    "const" in s.members ==> r.same(v, s.members["const"])
  }

  ghost predicate EnumHolds(r: Rules, v: Json, s: Json)
    requires s.Obj?
  {
    "enum" in s.members ==> s.members["enum"].Arr? && exists c :: c in s.members["enum"].items && r.same(v, c)
  }

  ghost predicate Combined(r: Rules, v: Json, s: Json, keyword: string)
    requires s.Obj?
  {
    keyword in s.members ==> ListHolds(r, v, s.members[keyword], keyword)
  }

  ghost predicate TypeHolds(v: Json, s: Json)
    requires s.Obj?
  {
    "type" in s.members && !s.members["type"].Null? ==> TypeMatches(v, s.members["type"])
  }

  /** Required properties are listed, and `properties` is an object. */
  ghost predicate RequiredListed(s: Json)
    requires s.Obj?
  {
    "required" in s.members ==> s.members["required"].Arr?
  }

  ghost predicate RequiredPresent(v: Json, s: Json)
    requires v.Obj? && s.Obj? && RequiredListed(s)
  {
    "required" in s.members ==> forall n :: n in s.members["required"].items ==> n.Str? && n.text in v.members
  }

  ghost predicate PatternHolds(r: Rules, v: Json, s: Json)
    requires v.Str? && s.Obj?
  {
    "pattern" in s.members ==> s.members["pattern"].Str? && r.search(s.members["pattern"].text, v.text)
  }

  // ---------------------------------------------------------------- the first unmet demand

  /** The member `n` is the first, by code point, whose demands are not met. */
  ghost predicate FirstMember(r: Rules, v: Json, s: Json, n: string)
    requires v.Obj? && s.Obj? && PropertiesOf(s).Obj?
  {
    && n in v.members && !MemberHolds(r, v, s, n)
    && forall m :: m in v.members && ByCodePoint(m, n) ==> MemberHolds(r, v, s, m)
  }

  ghost predicate FirstItem(r: Rules, v: Json, s: Json, i: nat)
    requires v.Arr? && s.Obj? && "items" in s.members
  {
    && i < |v.items| && !Satisfies(r, v.items[i], s.members["items"])
    && forall j :: 0 <= j < i ==> Satisfies(r, v.items[j], s.members["items"])
  }

  /** `reason`, raised at `q`, reports the first demand of `s` that `v` at `p` does not meet. */
  ghost predicate Explains(r: Rules, v: Json, s: Json, p: Path, q: Path, reason: Reason)
    decreases s, 2
  {
    if !s.Obj? then q == p && reason == SchemaNotObject
    else if !ConstHolds(r, v, s) then q == p && reason == NotTheConstant
    else if !EnumHolds(r, v, s) then q == p && reason == NotInEnum
    else if !Combined(r, v, s, "allOf") then q == p && reason == ListReason(s, "allOf")
    else if !Combined(r, v, s, "anyOf") then q == p && reason == ListReason(s, "anyOf")
    else if !Combined(r, v, s, "oneOf") then q == p && reason == ListReason(s, "oneOf")
    else if !TypeHolds(v, s) then q == p && reason == WrongType
    else
      match v
      case Obj(_) => ExplainsObject(r, v, s, p, q, reason)
      case Arr(_) => ExplainsArray(r, v, s, p, q, reason)
      case Str(text) =>
        && q == p
        && if !IntBoundHolds(s, "minLength", |text|, true) then reason == BoundViolated("minLength")
           else if !IntBoundHolds(s, "maxLength", |text|, false) then reason == BoundViolated("maxLength")
           else !PatternHolds(r, v, s) && reason == PatternMismatch
      case Int(n) => q == p && ExplainsNumber(s, n as real, reason)
      case Float(x) => q == p && ExplainsNumber(s, x, reason)
      case _ => false
  }

  ghost predicate ExplainsNumber(s: Json, x: real, reason: Reason)
    requires s.Obj?
  {
    if !NumberBoundHolds(s, "minimum", x, true) then reason == BoundViolated("minimum")
    else !NumberBoundHolds(s, "maximum", x, false) && reason == BoundViolated("maximum")
  }

  /** A combinator is no list of alternatives, or it is one and not satisfied. */
  ghost function ListReason(s: Json, keyword: string): Reason
    requires s.Obj? && keyword in s.members
  {
    if NonEmptyList(s.members[keyword]) then CombinatorUnsatisfied(keyword) else CombinatorNotList(keyword)
  }

  ghost predicate ExplainsObject(r: Rules, v: Json, s: Json, p: Path, q: Path, reason: Reason)
    requires v.Obj? && s.Obj?
    decreases s, 1
  {
    if !RequiredListed(s) then q == p && reason == RequiredNotList
    else if !RequiredPresent(v, s) then q == p && reason == MissingProperty
    else if !PropertiesOf(s).Obj? then q == p && reason == PropertiesNotObject
    else exists n :: FirstMember(r, v, s, n) && ExplainsMember(r, v, s, n, p + [Member(n)], q, reason)
  }

  ghost predicate ExplainsMember(r: Rules, v: Json, s: Json, n: string, child: Path, q: Path, reason: Reason)
    requires v.Obj? && s.Obj? && PropertiesOf(s).Obj? && n in v.members
    decreases s, 0
  {
    if "properties" in s.members && n in s.members["properties"].members then
      Explains(r, v.members[n], s.members["properties"].members[n], child, q, reason)
    else
      && "additionalProperties" in s.members
      && if s.members["additionalProperties"] == Bool(false) then q == child && reason == AdditionalProperty
         else
           s.members["additionalProperties"].Obj? &&
             Explains(r, v.members[n], s.members["additionalProperties"], child, q, reason)
  }

  ghost predicate ExplainsArray(r: Rules, v: Json, s: Json, p: Path, q: Path, reason: Reason)
    requires v.Arr? && s.Obj?
    decreases s, 1
  {
    if !IntBoundHolds(s, "minItems", |v.items|, true) then q == p && reason == BoundViolated("minItems")
    else if !IntBoundHolds(s, "maxItems", |v.items|, false) then q == p && reason == BoundViolated("maxItems")
    else
      && "items" in s.members
      && exists i: nat ::
           FirstItem(r, v, s, i) && Explains(r, v.items[i], s.members["items"], p + [Index(i)], q, reason)
  }

  // ---------------------------------------------------------------- keyword by keyword

  lemma ChoiceExplained(r: Rules, v: Json, s: Json, p: Path)
    requires s.Obj?
    ensures match CheckChoice(r, v, s, p)
      case Valid => ConstHolds(r, v, s) && EnumHolds(r, v, s)
      case Invalid(q, reason) =>
        && q == p
        && if !ConstHolds(r, v, s) then reason == NotTheConstant else !EnumHolds(r, v, s) && reason == NotInEnum
      case Fault => false
  {
  }

  lemma CombinatorExplained(r: Rules, v: Json, s: Json, keyword: string, p: Path)
    requires s.Obj?
    ensures match CheckCombinator(r, v, s, keyword, p)
      case Valid => Combined(r, v, s, keyword)
      case Invalid(q, reason) => !Combined(r, v, s, keyword) && q == p && reason == ListReason(s, keyword)
      case Fault => true
  {
    CombinatorAgrees(r, v, s, keyword, p);
  }

  lemma TypeExplained(v: Json, s: Json, p: Path)
    requires s.Obj?
    ensures match CheckType(v, s, p)
      case Valid => TypeHolds(v, s)
      case Invalid(q, reason) => !TypeHolds(v, s) && q == p && reason == WrongType
      case Fault => true
  {
    CheckTypeAgrees(v, s, p);
  }

  lemma {:induction false} RequiredExplained(v: Json, required: seq<Json>, p: Path)
    requires v.Obj? && CheckRequired(v, required, p).Invalid?
    ensures CheckRequired(v, required, p) == Invalid(p, MissingProperty)
  {
    if required[0].Str? && required[0].text in v.members {
      RequiredExplained(v, required[1..], p);
    }
  }

  lemma {:induction false} MembersExplained(r: Rules, v: Json, s: Json, names: seq<string>, p: Path)
    requires v.Obj? && s.Obj? && PropertiesOf(s).Obj? && forall n :: n in names ==> n in v.members
    requires ValidateMembers(r, v, s, names, p).Invalid?
    ensures var found := ValidateMembers(r, v, s, names, p);
      exists k: nat :: k < |names| && StopsAtMember(r, v, s, names, k, p, found.at, found.why)
    decreases s, 0, |names| + 1
  {
    var here := ValidateMember(r, v, s, names[0], p);
    var found := ValidateMembers(r, v, s, names, p);
    MemberAgrees(r, v, s, names[0], p);
    if here.Invalid? {
      MemberExplained(r, v, s, names[0], p);
      assert StopsAtMember(r, v, s, names, 0, p, found.at, found.why);
    } else {
      var rest := names[1..];
      MembersExplained(r, v, s, rest, p);
      var k: nat :| k < |rest| && StopsAtMember(r, v, s, rest, k, p, found.at, found.why);
      assert forall j :: 0 < j < |names| ==> names[j] == rest[j - 1];
      assert StopsAtMember(r, v, s, names, k + 1, p, found.at, found.why);
    }
  }

  ghost predicate StopsAtMember(r: Rules, v: Json, s: Json, names: seq<string>, k: nat, p: Path, q: Path,
      reason: Reason)
    requires v.Obj? && s.Obj? && PropertiesOf(s).Obj? && forall n :: n in names ==> n in v.members
    requires k < |names|
  {
    && (forall j :: 0 <= j < k ==> MemberHolds(r, v, s, names[j])) && !MemberHolds(r, v, s, names[k])
    && ExplainsMember(r, v, s, names[k], p + [Member(names[k])], q, reason)
  }

  lemma MemberExplained(r: Rules, v: Json, s: Json, n: string, p: Path)
    requires v.Obj? && s.Obj? && PropertiesOf(s).Obj? && n in v.members && ValidateMember(r, v, s, n, p).Invalid?
    ensures var found := ValidateMember(r, v, s, n, p);
      ExplainsMember(r, v, s, n, p + [Member(n)], found.at, found.why)
    decreases s, 0, 0
  {
    if "properties" in s.members && n in s.members["properties"].members {
      ReportExplained(r, v.members[n], s.members["properties"].members[n], p + [Member(n)]);
    } else if "additionalProperties" in s.members && s.members["additionalProperties"].Obj? {
      ReportExplained(r, v.members[n], s.members["additionalProperties"], p + [Member(n)]);
    }
  }

  lemma ObjectExplained(r: Rules, v: Json, s: Json, p: Path)
    requires v.Obj? && s.Obj? && ValidateObject(r, v, s, p).Invalid?
    ensures var found := ValidateObject(r, v, s, p); ExplainsObject(r, v, s, p, found.at, found.why)
    decreases s, 1, 0
  {
    if RequiredListed(s) {
      var required := if "required" in s.members then s.members["required"].items else [];
      RequiredAgrees(v, required, p);
      if CheckRequired(v, required, p).Invalid? {
        RequiredExplained(v, required, p);
      } else if PropertiesOf(s).Obj? {
        var names := SortedSet(v.members.Keys);
        assert forall n :: n in names <==> n in ToSet(names);
        MembersExplained(r, v, s, names, p);
        var found := ValidateObject(r, v, s, p);
        var k: nat :| k < |names| && StopsAtMember(r, v, s, names, k, p, found.at, found.why);
        FirstInOrder(r, v, s, names, k);
      }
    }
  }

  lemma FirstInOrder(r: Rules, v: Json, s: Json, names: seq<string>, k: nat)
    requires v.Obj? && s.Obj? && PropertiesOf(s).Obj? && names == SortedSet(v.members.Keys) && k < |names|
    requires forall n :: n in names <==> n in v.members
    requires (forall j :: 0 <= j < k ==> MemberHolds(r, v, s, names[j])) && !MemberHolds(r, v, s, names[k])
    ensures FirstMember(r, v, s, names[k])
  {
    forall m | m in v.members && ByCodePoint(m, names[k]) ensures MemberHolds(r, v, s, m) {
      var j :| 0 <= j < |names| && names[j] == m;
      StrLessMeans(m, names[k]);
      EarlierName(v.members.Keys, j, k);
    }
  }

  lemma EarlierName(keys: set<string>, j: nat, k: nat)
    requires j < |SortedSet(keys)| && k < |SortedSet(keys)| && StrLess(SortedSet(keys)[j], SortedSet(keys)[k])
    ensures j < k
  {
    var names := SortedSet(keys);
    StrLessIrreflexive(names[j]);
    LessChain(names[j], names[k], names[j]);
    assert k < j ==> StrLe(names[k], names[j]);
  }

  lemma {:induction false} ItemsExplained(r: Rules, v: Json, s: Json, i: nat, p: Path)
    requires v.Arr? && s.Obj? && "items" in s.members && i <= |v.items| && ValidateItems(r, v, s, i, p).Invalid?
    requires forall j :: 0 <= j < i ==> Satisfies(r, v.items[j], s.members["items"])
    ensures var found := ValidateItems(r, v, s, i, p);
      exists k: nat :: FirstItem(r, v, s, k) &&
        Explains(r, v.items[k], s.members["items"], p + [Index(k)], found.at, found.why)
    decreases s, 0, |v.items| - i
  {
    var here := Validate(r, v.items[i], s.members["items"], p + [Index(i)]);
    Agreement(r, v.items[i], s.members["items"], p + [Index(i)]);
    if here.Invalid? {
      ReportExplained(r, v.items[i], s.members["items"], p + [Index(i)]);
      assert FirstItem(r, v, s, i);
    } else {
      ItemsExplained(r, v, s, i + 1, p);
    }
  }

  lemma ByTypeExplained(r: Rules, v: Json, s: Json, p: Path)
    requires s.Obj? && ValidateByType(r, v, s, p).Invalid?
    requires ConstHolds(r, v, s) && EnumHolds(r, v, s) && TypeHolds(v, s)
    requires Combined(r, v, s, "allOf") && Combined(r, v, s, "anyOf") && Combined(r, v, s, "oneOf")
    ensures var found := ValidateByType(r, v, s, p); Explains(r, v, s, p, found.at, found.why)
    decreases s, 2, 0
  {
    match v
    case Obj(_) => ObjectExplained(r, v, s, p);
    case Arr(items) =>
      if IntBoundHolds(s, "minItems", |items|, true) && IntBoundHolds(s, "maxItems", |items|, false) {
        ItemsExplained(r, v, s, 0, p);
      }
    case _ =>
  }

  /**
    Whatever the validator rejects, it reports the first demand that is not met, in the order constant, choices,
    combinators, type, and the demands on the kind of value; inside an object or array, that of the first member by
    name or the first item at fault.
   */
  lemma ReportExplained(r: Rules, v: Json, s: Json, p: Path)
    requires Validate(r, v, s, p).Invalid?
    ensures var found := Validate(r, v, s, p); Explains(r, v, s, p, found.at, found.why)
    decreases s, 3, 0
  {
    if s.Obj? {
      ChoiceExplained(r, v, s, p);
      CombinatorExplained(r, v, s, "allOf", p);
      CombinatorExplained(r, v, s, "anyOf", p);
      CombinatorExplained(r, v, s, "oneOf", p);
      TypeExplained(v, s, p);
      if CheckChoice(r, v, s, p).Valid? && CheckCombinators(r, v, s, p).Valid? && CheckType(v, s, p).Valid? {
        ByTypeExplained(r, v, s, p);
      }
    }
  }

  // ---------------------------------------------------------------- exceptions that are no validation errors

  /** The names a `type` keyword gives. */
  ghost function TypeNamesOf(expected: Json): seq<Json> {
    if expected.Arr? then expected.items else [expected]
  }

  /** The lookup meets a list or an object before a type of the value. */
  ghost predicate LookupFaults(v: Json, names: seq<Json>) {
    exists i: nat :: UnhashableAt(names, i) && forall j :: 0 <= j < i ==> !NamesIt(v, names[j])
  }

  ghost predicate UnhashableAt(names: seq<Json>, i: nat) {
    i < |names| && (names[i].Arr? || names[i].Obj?)
  }

  ghost predicate NamesIt(v: Json, name: Json) {
    name.Str? && NamesTypeOf(name.text, v)
  }

  /** The lookup fails, or no type is the value's and the message cannot join the names. */
  ghost predicate TypeFaults(v: Json, s: Json)
    requires s.Obj?
  {
    && "type" in s.members && !s.members["type"].Null?
    && var expected := s.members["type"];
       || LookupFaults(v, TypeNamesOf(expected))
       || (!TypeMatches(v, expected) && expected.Arr? && exists name :: name in expected.items && !name.Str?)
  }

  ghost predicate ListFaults(r: Rules, v: Json, s: Json, keyword: string)
    requires s.Obj?
    decreases s, 1
  {
    keyword in s.members && NonEmptyList(s.members[keyword]) && SomeFaults(r, v, s.members[keyword], 0)
  }

  ghost predicate SomeFaults(r: Rules, v: Json, list: Json, i: nat)
    requires list.Arr?
    decreases list, 3
  {
    exists j :: i <= j < |list.items| && Faults(r, v, list.items[j])
  }

  ghost predicate MemberFaults(r: Rules, v: Json, s: Json, n: string)
    requires v.Obj? && s.Obj? && PropertiesOf(s).Obj? && n in v.members
    decreases s, 0, 0
  {
    if "properties" in s.members && n in s.members["properties"].members then
      Faults(r, v.members[n], s.members["properties"].members[n])
    else
      "additionalProperties" in s.members && s.members["additionalProperties"].Obj? &&
        Faults(r, v.members[n], s.members["additionalProperties"])
  }

  ghost predicate KindFaults(r: Rules, v: Json, s: Json)
    requires s.Obj?
    decreases s, 1
  {
    match v
    case Obj(_) =>
      RequiredListed(s) && RequiredPresent(v, s) && PropertiesOf(s).Obj? && SomeMemberFaults(r, v, s)
    case Arr(items) =>
      && IntBoundHolds(s, "minItems", |items|, true) && IntBoundHolds(s, "maxItems", |items|, false)
      && "items" in s.members && SomeItemFaults(r, v, s, 0)
    case Str(text) =>
      && IntBoundHolds(s, "minLength", |text|, true) && IntBoundHolds(s, "maxLength", |text|, false)
      && "pattern" in s.members && s.members["pattern"].Str? && !r.compiles(s.members["pattern"].text)
    case _ => false
  }

  /** Some member raises, and those before it by name meet their demands. */
  ghost predicate SomeMemberFaults(r: Rules, v: Json, s: Json)
    requires v.Obj? && s.Obj? && PropertiesOf(s).Obj?
    decreases s, 0, 1
  {
    exists n :: n in v.members && MemberFaults(r, v, s, n) && HoldsBefore(r, v, s, n)
  }

  /** An item from `i` on raises, and those before it satisfy their schema. */
  ghost predicate SomeItemFaults(r: Rules, v: Json, s: Json, i: nat)
    requires v.Arr? && s.Obj? && "items" in s.members
    decreases s, 0, 1
  {
    exists k: nat :: i <= k && FaultsAtItem(r, v, s, k)
  }

  ghost predicate HoldsBefore(r: Rules, v: Json, s: Json, n: string)
    requires v.Obj? && s.Obj? && PropertiesOf(s).Obj?
  {
    forall m :: m in v.members && ByCodePoint(m, n) ==> MemberHolds(r, v, s, m)
  }

  /** Item `i` raises, and the items before it satisfy their schema. */
  ghost predicate FaultsAtItem(r: Rules, v: Json, s: Json, i: nat)
    requires v.Arr? && s.Obj? && "items" in s.members
    decreases s, 0, 0
  {
    i < |v.items| && Faults(r, v.items[i], s.members["items"]) && HoldsUpTo(r, v, s, i)
  }

  ghost predicate HoldsUpTo(r: Rules, v: Json, s: Json, i: nat)
    requires v.Arr? && s.Obj? && "items" in s.members && i <= |v.items|
  {
    forall j :: 0 <= j < i ==> Satisfies(r, v.items[j], s.members["items"])
  }

  /** With every earlier demand met, the checks come to a type or a pattern that Python cannot handle. */
  ghost predicate Faults(r: Rules, v: Json, s: Json)
    decreases s, 2
  {
    && s.Obj? && ConstHolds(r, v, s) && EnumHolds(r, v, s)
    && (|| ListFaults(r, v, s, "allOf")
        || (Combined(r, v, s, "allOf") && ListFaults(r, v, s, "anyOf"))
        || (Combined(r, v, s, "allOf") && Combined(r, v, s, "anyOf") && ListFaults(r, v, s, "oneOf"))
        || (AllCombined(r, v, s) && (TypeFaults(v, s) || (TypeHolds(v, s) && KindFaults(r, v, s)))))
  }

  ghost predicate AllCombined(r: Rules, v: Json, s: Json)
    requires s.Obj?
  {
    Combined(r, v, s, "allOf") && Combined(r, v, s, "anyOf") && Combined(r, v, s, "oneOf")
  }

  lemma {:induction false} LookupMeans(v: Json, names: seq<Json>)
    ensures ScanTypes(v, names).None? <==> LookupFaults(v, names)
  {
    if names != [] {
      var rest := names[1..];
      LookupMeans(v, rest);
      assert forall j :: 0 < j < |names| ==> names[j] == rest[j - 1];
      assert forall i: nat :: UnhashableAt(rest, i) <==> UnhashableAt(names, i + 1);
      if names[0].Arr? || names[0].Obj? {
        assert UnhashableAt(names, 0);
      } else if !NamesIt(v, names[0]) {
        LookupShifts(v, names);
      }
    }
  }

  lemma LookupShifts(v: Json, names: seq<Json>)
    requires names != [] && !UnhashableAt(names, 0) && !NamesIt(v, names[0])
    ensures LookupFaults(v, names) <==> LookupFaults(v, names[1..])
  {
    var rest := names[1..];
    assert forall j :: 0 < j < |names| ==> names[j] == rest[j - 1];
    if i: nat :| UnhashableAt(names, i) && forall j :: 0 <= j < i ==> !NamesIt(v, names[j]) {
      assert UnhashableAt(rest, i - 1);
    }
    if i: nat :| UnhashableAt(rest, i) && forall j :: 0 <= j < i ==> !NamesIt(v, rest[j]) {
      assert UnhashableAt(names, i + 1);
    }
  }

  lemma TypeFaultsMean(v: Json, s: Json, p: Path)
    requires s.Obj?
    ensures CheckType(v, s, p).Fault? <==> TypeFaults(v, s)
  {
    if "type" in s.members {
      LookupMeans(v, TypeNamesOf(s.members["type"]));
      TypesAgree(v, TypeNamesOf(s.members["type"]));
    }
  }

  lemma {:induction false} CountFaults(r: Rules, v: Json, list: Json, i: nat, p: Path)
    requires list.Arr? && i <= |list.items|
    ensures CountMatches(r, v, list, i, p).None? <==> SomeFaults(r, v, list, i)
    decreases list, 0, |list.items| - i
  {
    if i < |list.items| {
      FaultMeans(r, v, list.items[i], p);
      CountFaults(r, v, list, i + 1, p);
    }
  }

  lemma CombinatorFaults(r: Rules, v: Json, s: Json, keyword: string, p: Path)
    requires s.Obj?
    ensures CheckCombinator(r, v, s, keyword, p).Fault? <==> ListFaults(r, v, s, keyword)
    decreases s, 1, 0
  {
    if keyword in s.members && NonEmptyList(s.members[keyword]) {
      CountFaults(r, v, s.members[keyword], 0, p);
    }
  }

  lemma MemberFaultsMean(r: Rules, v: Json, s: Json, n: string, p: Path)
    requires v.Obj? && s.Obj? && PropertiesOf(s).Obj? && n in v.members
    ensures ValidateMember(r, v, s, n, p).Fault? <==> MemberFaults(r, v, s, n)
    decreases s, 0, 0
  {
    if "properties" in s.members && n in s.members["properties"].members {
      FaultMeans(r, v.members[n], s.members["properties"].members[n], p + [Member(n)]);
    } else if "additionalProperties" in s.members && s.members["additionalProperties"].Obj? {
      FaultMeans(r, v.members[n], s.members["additionalProperties"], p + [Member(n)]);
    }
  }

  ghost predicate FaultsAtMember(r: Rules, v: Json, s: Json, names: seq<string>, k: nat)
    requires v.Obj? && s.Obj? && PropertiesOf(s).Obj? && forall n :: n in names ==> n in v.members
  {
    && k < |names| && MemberFaults(r, v, s, names[k])
    && forall j :: 0 <= j < k ==> MemberHolds(r, v, s, names[j])
  }

  ghost predicate FaultsAmong(r: Rules, v: Json, s: Json, names: seq<string>)
    requires v.Obj? && s.Obj? && PropertiesOf(s).Obj? && forall n :: n in names ==> n in v.members
  {
    exists k: nat :: FaultsAtMember(r, v, s, names, k)
  }

  lemma {:induction false} MembersFault(r: Rules, v: Json, s: Json, names: seq<string>, p: Path)
    requires v.Obj? && s.Obj? && PropertiesOf(s).Obj? && forall n :: n in names ==> n in v.members
    ensures ValidateMembers(r, v, s, names, p).Fault? <==> FaultsAmong(r, v, s, names)
    decreases s, 0, |names| + 1
  {
    if names != [] {
      var rest := names[1..];
      MemberFaultsMean(r, v, s, names[0], p);
      MemberAgrees(r, v, s, names[0], p);
      MembersFault(r, v, s, rest, p);
      FaultsShift(r, v, s, names);
    }
  }

  lemma FaultsShift(r: Rules, v: Json, s: Json, names: seq<string>)
    requires v.Obj? && s.Obj? && PropertiesOf(s).Obj? && names != [] && forall n :: n in names ==> n in v.members
    ensures FaultsAmong(r, v, s, names) <==>
      MemberFaults(r, v, s, names[0]) || (MemberHolds(r, v, s, names[0]) && FaultsAmong(r, v, s, names[1..]))
  {
    var rest := names[1..];
    assert forall j :: 0 < j < |names| ==> names[j] == rest[j - 1];
    if k: nat :| FaultsAtMember(r, v, s, names, k) {
      assert k > 0 ==> FaultsAtMember(r, v, s, rest, k - 1);
    }
    if MemberFaults(r, v, s, names[0]) {
      assert FaultsAtMember(r, v, s, names, 0);
    }
    if k: nat :| MemberHolds(r, v, s, names[0]) && FaultsAtMember(r, v, s, rest, k) {
      assert FaultsAtMember(r, v, s, names, k + 1);
    }
  }

  /** The loop over the sorted names goes by code point. */
  lemma MemberOrder(r: Rules, v: Json, s: Json)
    requires v.Obj? && s.Obj? && PropertiesOf(s).Obj?
    requires forall n :: n in SortedSet(v.members.Keys) <==> n in v.members
    ensures FaultsAmong(r, v, s, SortedSet(v.members.Keys)) <==> SomeMemberFaults(r, v, s)
  {
    var names := SortedSet(v.members.Keys);
    forall k: nat | k < |names|
      ensures HoldsBefore(r, v, s, names[k]) <==> forall j :: 0 <= j < k ==> MemberHolds(r, v, s, names[j])
    {
      NamesBefore(r, v, s, k);
    }
    if FaultsAmong(r, v, s, names) {
      var k: nat :| FaultsAtMember(r, v, s, names, k);
      assert HoldsBefore(r, v, s, names[k]);
    }
    if SomeMemberFaults(r, v, s) {
      var n :| n in v.members && MemberFaults(r, v, s, n) && HoldsBefore(r, v, s, n);
      var k :| 0 <= k < |names| && names[k] == n;
      assert FaultsAtMember(r, v, s, names, k);
    }
  }

  lemma NamesBefore(r: Rules, v: Json, s: Json, k: nat)
    requires v.Obj? && s.Obj? && PropertiesOf(s).Obj? && k < |SortedSet(v.members.Keys)|
    requires forall n :: n in SortedSet(v.members.Keys) <==> n in v.members
    ensures var names := SortedSet(v.members.Keys);
      HoldsBefore(r, v, s, names[k]) <==> forall j :: 0 <= j < k ==> MemberHolds(r, v, s, names[j])
  {
    var names := SortedSet(v.members.Keys);
    forall j | 0 <= j < |names| ensures names[j] in v.members && (ByCodePoint(names[j], names[k]) <==> j < k) {
      StrLessMeans(names[j], names[k]);
      if StrLess(names[j], names[k]) {
        EarlierName(v.members.Keys, j, k);
      }
      assert j < k ==> StrLe(names[j], names[k]) && names[j] != names[k];
    }
  }

  lemma ObjectFaults(r: Rules, v: Json, s: Json, p: Path)
    requires v.Obj? && s.Obj?
    ensures ValidateObject(r, v, s, p).Fault? <==> KindFaults(r, v, s)
    decreases s, 1, 0
  {
    if RequiredListed(s) {
      RequiredAgrees(v, if "required" in s.members then s.members["required"].items else [], p);
      if PropertiesOf(s).Obj? {
        var names := SortedSet(v.members.Keys);
        assert forall n :: n in names <==> n in ToSet(names);
        MembersFault(r, v, s, names, p);
        MemberOrder(r, v, s);
      }
    }
  }

  lemma {:induction false} ItemsFault(r: Rules, v: Json, s: Json, i: nat, p: Path)
    requires v.Arr? && s.Obj? && "items" in s.members && i <= |v.items| && HoldsUpTo(r, v, s, i)
    ensures ValidateItems(r, v, s, i, p).Fault? <==> SomeItemFaults(r, v, s, i)
    decreases s, 0, |v.items| - i
  {
    assert SomeItemFaults(r, v, s, i) <==> FaultsAtItem(r, v, s, i) || SomeItemFaults(r, v, s, i + 1);
    if i < |v.items| {
      var here := Validate(r, v.items[i], s.members["items"], p + [Index(i)]);
      FaultMeans(r, v.items[i], s.members["items"], p + [Index(i)]);
      Agreement(r, v.items[i], s.members["items"], p + [Index(i)]);
      assert here.Fault? <==> FaultsAtItem(r, v, s, i);
      if here.Valid? {
        ItemsFault(r, v, s, i + 1, p);
      } else if here.Invalid? {
        assert forall k: nat :: i < k && k <= |v.items| ==> !HoldsUpTo(r, v, s, k);
        assert !SomeItemFaults(r, v, s, i + 1);
      }
    }
  }

  lemma ArrayFaults(r: Rules, v: Json, s: Json, p: Path)
    requires v.Arr? && s.Obj?
    ensures ValidateArray(r, v, s, p).Fault? <==> KindFaults(r, v, s)
    decreases s, 1, 0
  {
    if "items" in s.members {
      ItemsFault(r, v, s, 0, p);
    }
  }

  /** The validator raises something other than a validation error exactly when `Faults` says so. */
  lemma FaultMeans(r: Rules, v: Json, s: Json, p: Path)
    ensures Validate(r, v, s, p).Fault? <==> Faults(r, v, s)
    decreases s, 3, 0
  {
    if s.Obj? {
      ChoiceExplained(r, v, s, p);
      CombinatorExplained(r, v, s, "allOf", p);
      CombinatorExplained(r, v, s, "anyOf", p);
      CombinatorExplained(r, v, s, "oneOf", p);
      CombinatorFaults(r, v, s, "allOf", p);
      CombinatorFaults(r, v, s, "anyOf", p);
      CombinatorFaults(r, v, s, "oneOf", p);
      TypeExplained(v, s, p);
      TypeFaultsMean(v, s, p);
      if v.Obj? {
        ObjectFaults(r, v, s, p);
      } else if v.Arr? {
        ArrayFaults(r, v, s, p);
      }
    }
  }
}
