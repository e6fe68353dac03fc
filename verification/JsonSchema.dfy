/** `validate_json_schema`: the reviewed subset of JSON Schema, run on untyped schema values. */
module JsonSchema {
  import opened Collections
  import opened Sorting

  datatype Json =
    | Null
    | Bool(flag: bool)
    | Int(n: int)
    | Float(x: real)
    | Str(text: string)
    | Arr(items: seq<Json>)
    | Obj(members: map<string, Json>)

  datatype Step = Member(name: string) | Index(i: nat)

  type Path = seq<Step>

  datatype Reason =
    | SchemaNotObject | NotTheConstant | NotInEnum
    | CombinatorNotList(keyword: string) | CombinatorUnsatisfied(keyword: string)
    | WrongType
    | RequiredNotList | MissingProperty | PropertiesNotObject | AdditionalProperty
    | BoundViolated(keyword: string) | PatternMismatch

  /** `Fault` stands for the exceptions that are not validation errors: `TypeError` and `re.error`. */
  datatype Outcome = Valid | Invalid(at: Path, why: Reason) | Fault

  /** Value equality and regular expressions are Python's own. */
  datatype Rules = Rules(same: (Json, Json) -> bool, compiles: string -> bool, search: (string, string) -> bool)

  /** `isinstance(x, int)` lets booleans through, as 0 and 1. */
  function IntBound(bound: Json): Option<int> {
    match bound
    case Int(n) => Some(n)
    case Bool(b) => Some(if b then 1 else 0)
    case _ => None
  }

  function NumberOf(v: Json): Option<real> {
    match v
    case Int(n) => Some(n as real)
    case Float(x) => Some(x)
    case _ => None
  }

  predicate NamesTypeOf(name: string, v: Json) {
    || (name == "null" && v.Null?)
    || (name == "boolean" && v.Bool?)
    || (name == "object" && v.Obj?)
    || (name == "array" && v.Arr?)
    || (name == "string" && v.Str?)
    || (name == "number" && (v.Int? || v.Float?))
    || (name == "integer" && v.Int?)
  }

  // ---------------------------------------------------------------- the validator

  /** `any(table.get(name, False) for name in names)`: stops at the first hit, fails on an unhashable name. */
  function ScanTypes(v: Json, names: seq<Json>): Option<bool> {
    if names == [] then Some(false)
    else if names[0].Arr? || names[0].Obj? then None
    else if names[0].Str? && NamesTypeOf(names[0].text, v) then Some(true)
    else ScanTypes(v, names[1..])
  }

  /** A later check matters only when the earlier ones passed. */
  function Then(first: Outcome, second: Outcome): Outcome {
    if first.Valid? then second else first
  }

  function CheckType(v: Json, s: Json, p: Path): Outcome
    requires s.Obj?
  {
    if "type" !in s.members || s.members["type"].Null? then Valid
    else
      var expected := s.members["type"];
      match ScanTypes(v, if expected.Arr? then expected.items else [expected])
      case None => Fault
      case Some(true) => Valid
      case Some(false) =>
        if expected.Arr? && exists name :: name in expected.items && !name.Str? then Fault else Invalid(p, WrongType)
  }

  function CheckConst(r: Rules, v: Json, s: Json, p: Path): Outcome
    requires s.Obj?
  {
    if "const" in s.members && !r.same(v, s.members["const"]) then Invalid(p, NotTheConstant) else Valid
  }

  function CheckEnum(r: Rules, v: Json, s: Json, p: Path): Outcome
    requires s.Obj?
  {
    if "enum" in s.members
       && (!s.members["enum"].Arr? || !exists c :: c in s.members["enum"].items && r.same(v, c)) then
      Invalid(p, NotInEnum)
    else Valid
  }

  function CheckIntBound(s: Json, keyword: string, size: int, lower: bool, p: Path): Outcome
    requires s.Obj?
  {
    if keyword !in s.members then Valid
    else
      match IntBound(s.members[keyword])
      case None => Invalid(p, BoundViolated(keyword))
      case Some(bound) =>
        if (if lower then size < bound else size > bound) then Invalid(p, BoundViolated(keyword))
        else Valid
  }

  function CheckNumberBound(s: Json, keyword: string, x: real, lower: bool, p: Path): Outcome
    requires s.Obj?
  {
    if keyword !in s.members then Valid
    else
      match NumberOf(s.members[keyword])
      case None => Invalid(p, BoundViolated(keyword))
      case Some(bound) => if (if lower then x < bound else x > bound) then Invalid(p, BoundViolated(keyword)) else Valid
  }

  function ValidateString(r: Rules, v: Json, s: Json, p: Path): Outcome
    requires v.Str? && s.Obj?
  {
    var low := CheckIntBound(s, "minLength", |v.text|, true, p);
    if !low.Valid? then low
    else
      var high := CheckIntBound(s, "maxLength", |v.text|, false, p);
      if !high.Valid? then high
      else if "pattern" !in s.members then Valid
      else if !s.members["pattern"].Str? then Invalid(p, PatternMismatch)
      else if !r.compiles(s.members["pattern"].text) then Fault
      else if !r.search(s.members["pattern"].text, v.text) then Invalid(p, PatternMismatch)
      else Valid
  }

  function ValidateNumber(v: Json, s: Json, p: Path): Outcome
    requires NumberOf(v).Some? && s.Obj?
  {
    var low := CheckNumberBound(s, "minimum", NumberOf(v).value, true, p);
    if !low.Valid? then low else CheckNumberBound(s, "maximum", NumberOf(v).value, false, p)
  }

  predicate CountAccepted(keyword: string, matches: nat, size: nat) {
    if keyword == "allOf" then matches == size
    else if keyword == "anyOf" then matches >= 1
    else matches == 1
  }

  /** `sum(_matches(value, candidate, path) for candidate in alternatives)`, from position `i`. */
  function CountMatches(r: Rules, v: Json, alternatives: Json, i: nat, p: Path): Option<nat>
    requires alternatives.Arr? && i <= |alternatives.items|
    decreases alternatives, 0, |alternatives.items| - i
  {
    if i == |alternatives.items| then Some(0)
    else
      var here := Validate(r, v, alternatives.items[i], p);
      if here.Fault? then None
      else
        var rest := CountMatches(r, v, alternatives, i + 1, p);
        if rest.None? then None else Some(rest.value + if here.Valid? then 1 else 0)
  }

  function CheckCombinator(r: Rules, v: Json, s: Json, keyword: string, p: Path): Outcome
    requires s.Obj?
    decreases s, 1, 0
  {
    if keyword !in s.members then Valid
    else
      var alternatives := s.members[keyword];
      if !alternatives.Arr? || alternatives.items == [] then Invalid(p, CombinatorNotList(keyword))
      else
        match CountMatches(r, v, alternatives, 0, p)
        case None => Fault
        case Some(matches) =>
          if CountAccepted(keyword, matches, |alternatives.items|) then Valid
          else Invalid(p, CombinatorUnsatisfied(keyword))
  }

  function PropertiesOf(s: Json): Json
    requires s.Obj?
  {
    if "properties" in s.members then s.members["properties"] else Obj(map[])
  }

  function ValidateMember(r: Rules, v: Json, s: Json, name: string, p: Path): Outcome
    requires v.Obj? && s.Obj? && PropertiesOf(s).Obj? && name in v.members
    decreases s, 0, 0
  {
    var child := p + [Member(name)];
    if "properties" in s.members && name in s.members["properties"].members then
      Validate(r, v.members[name], s.members["properties"].members[name], child)
    else if "additionalProperties" !in s.members then Valid
    else if s.members["additionalProperties"] == Bool(false) then Invalid(child, AdditionalProperty)
    else if s.members["additionalProperties"].Obj? then
      Validate(r, v.members[name], s.members["additionalProperties"], child)
    else Valid
  }

  /** The loop over the sorted member names. */
  function ValidateMembers(r: Rules, v: Json, s: Json, names: seq<string>, p: Path): Outcome
    requires v.Obj? && s.Obj? && PropertiesOf(s).Obj? && forall n :: n in names ==> n in v.members
    decreases s, 0, |names| + 1
  {
    if names == [] then Valid
    else
      var here := ValidateMember(r, v, s, names[0], p);
      if !here.Valid? then here else ValidateMembers(r, v, s, names[1..], p)
  }

  function CheckRequired(v: Json, required: seq<Json>, p: Path): Outcome
    requires v.Obj?
  {
    if required == [] then Valid
    else if !required[0].Str? || required[0].text !in v.members then Invalid(p, MissingProperty)
    else CheckRequired(v, required[1..], p)
  }

  function ValidateObject(r: Rules, v: Json, s: Json, p: Path): Outcome
    requires v.Obj? && s.Obj?
    decreases s, 1, 0
  {
    if "required" in s.members && !s.members["required"].Arr? then Invalid(p, RequiredNotList)
    else
      var present := CheckRequired(v, if "required" in s.members then s.members["required"].items else [], p);
      if !present.Valid? then present
      else if !PropertiesOf(s).Obj? then Invalid(p, PropertiesNotObject)
      else
        var names := SortedSet(v.members.Keys);
        assert forall n :: n in names ==> n in ToSet(names);
        ValidateMembers(r, v, s, names, p)
  }

  function ValidateItems(r: Rules, v: Json, s: Json, i: nat, p: Path): Outcome
    requires v.Arr? && s.Obj? && "items" in s.members && i <= |v.items|
    decreases s, 0, |v.items| - i
  {
    if i == |v.items| then Valid
    else
      var here := Validate(r, v.items[i], s.members["items"], p + [Index(i)]);
      if !here.Valid? then here else ValidateItems(r, v, s, i + 1, p)
  }

  function ValidateArray(r: Rules, v: Json, s: Json, p: Path): Outcome
    requires v.Arr? && s.Obj?
    decreases s, 1, 0
  {
    var low := CheckIntBound(s, "minItems", |v.items|, true, p);
    if !low.Valid? then low
    else
      var high := CheckIntBound(s, "maxItems", |v.items|, false, p);
      if !high.Valid? then high
      else if "items" in s.members then ValidateItems(r, v, s, 0, p)
      else Valid
  }

  function ValidateByType(r: Rules, v: Json, s: Json, p: Path): Outcome
    requires s.Obj?
    decreases s, 2, 0
  {
    match v
    case Obj(_) => ValidateObject(r, v, s, p)
    case Arr(_) => ValidateArray(r, v, s, p)
    case Str(_) => ValidateString(r, v, s, p)
    case Int(_) => ValidateNumber(v, s, p)
    case Float(_) => ValidateNumber(v, s, p)
    case _ => Valid
  }

  /** The loop over the three combinators. */
  function CheckCombinators(r: Rules, v: Json, s: Json, p: Path): Outcome
    requires s.Obj?
    decreases s, 2, 0
  {
    Then(CheckCombinator(r, v, s, "allOf", p),
      Then(CheckCombinator(r, v, s, "anyOf", p), CheckCombinator(r, v, s, "oneOf", p)))
  }

  function CheckChoice(r: Rules, v: Json, s: Json, p: Path): Outcome
    requires s.Obj?
  {
    Then(CheckConst(r, v, s, p), CheckEnum(r, v, s, p))
  }

  /** The checks in source order; the first one that fails decides. */
  function Validate(r: Rules, v: Json, s: Json, p: Path): Outcome
    decreases s, 3, 0
  {
    if !s.Obj? then Invalid(p, SchemaNotObject)
    else
      Then(CheckChoice(r, v, s, p),
           Then(CheckCombinators(r, v, s, p), Then(CheckType(v, s, p), ValidateByType(r, v, s, p))))
  }

  // ---------------------------------------------------------------- what a schema means

  ghost predicate TypeMatches(v: Json, expected: Json) {
    if expected.Arr? then exists name :: name in expected.items && name.Str? && NamesTypeOf(name.text, v)
    else expected.Str? && NamesTypeOf(expected.text, v)
  }

  ghost predicate IntBoundHolds(s: Json, keyword: string, size: int, lower: bool)
    requires s.Obj?
  {
    keyword in s.members ==>
      var bound := IntBound(s.members[keyword]);
      bound.Some? && if lower then bound.value <= size else size <= bound.value
  }

  ghost predicate NumberBoundHolds(s: Json, keyword: string, x: real, lower: bool)
    requires s.Obj?
  {
    keyword in s.members ==>
      var bound := NumberOf(s.members[keyword]);
      bound.Some? && if lower then bound.value <= x else x <= bound.value
  }

  ghost predicate NonEmptyList(s: Json) {
    s.Arr? && s.items != []
  }

  /** All, some, or exactly one of the listed schemas hold. */
  ghost predicate ListHolds(r: Rules, v: Json, list: Json, keyword: string)
    decreases list, 3
  {
    && NonEmptyList(list)
    && var truths := Truths(r, v, list);
       if keyword == "allOf" then forall i :: 0 <= i < |truths| ==> truths[i]
       else if keyword == "anyOf" then exists i :: 0 <= i < |truths| && truths[i]
       else ExactlyOne(truths)
  }

  ghost predicate ExactlyOne(truths: seq<bool>) {
    exists i :: 0 <= i < |truths| && truths[i] && forall j :: 0 <= j < |truths| && j != i ==> !truths[j]
  }

  /** Which of the listed schemas hold. */
  ghost function Truths(r: Rules, v: Json, list: Json): (truths: seq<bool>)
    requires list.Arr?
    ensures |truths| == |list.items|
    decreases list, 2
  {
    seq(|list.items|, i requires 0 <= i < |list.items| => Satisfies(r, v, list.items[i]))
  }

  /** What the validator demands, keyword by keyword and without order. */
  ghost predicate Satisfies(r: Rules, v: Json, s: Json)
    decreases s, 1
  {
    && s.Obj?
    && ("const" in s.members ==> r.same(v, s.members["const"]))
    && ("enum" in s.members ==> s.members["enum"].Arr? && exists c :: c in s.members["enum"].items && r.same(v, c))
    && ("allOf" in s.members ==> ListHolds(r, v, s.members["allOf"], "allOf"))
    && ("anyOf" in s.members ==> ListHolds(r, v, s.members["anyOf"], "anyOf"))
    && ("oneOf" in s.members ==> ListHolds(r, v, s.members["oneOf"], "oneOf"))
    && ("type" in s.members && !s.members["type"].Null? ==> TypeMatches(v, s.members["type"]))
    && (v.Obj? ==> SatisfiesObject(r, v, s))
    && (v.Arr? ==> SatisfiesArray(r, v, s))
    && (v.Str? ==> SatisfiesString(r, v, s))
    && (NumberOf(v).Some? ==>
          NumberBoundHolds(s, "minimum", NumberOf(v).value, true) &&
            NumberBoundHolds(s, "maximum", NumberOf(v).value, false))
  }

  ghost predicate SatisfiesObject(r: Rules, v: Json, s: Json)
    requires v.Obj? && s.Obj?
    decreases s, 0
  {
    && ("required" in s.members ==> s.members["required"].Arr?)
    && ("required" in s.members ==> forall n :: n in s.members["required"].items ==> n.Str? && n.text in v.members)
    && PropertiesOf(s).Obj?
    && (forall n :: n in v.members && "properties" in s.members && n in s.members["properties"].members ==>
          Satisfies(r, v.members[n], s.members["properties"].members[n]))
    && (forall n :: n in v.members && n !in PropertiesOf(s).members && "additionalProperties" in s.members ==>
          s.members["additionalProperties"] != Bool(false)
          && (s.members["additionalProperties"].Obj? ==> Satisfies(r, v.members[n], s.members["additionalProperties"])))
  }

  ghost predicate SatisfiesArray(r: Rules, v: Json, s: Json)
    requires v.Arr? && s.Obj?
    decreases s, 0
  {
    && IntBoundHolds(s, "minItems", |v.items|, true) && IntBoundHolds(s, "maxItems", |v.items|, false)
    && ("items" in s.members ==> forall i :: 0 <= i < |v.items| ==> Satisfies(r, v.items[i], s.members["items"]))
  }

  ghost predicate SatisfiesString(r: Rules, v: Json, s: Json)
    requires v.Str? && s.Obj?
  {
    && IntBoundHolds(s, "minLength", |v.text|, true) && IntBoundHolds(s, "maxLength", |v.text|, false)
    && ("pattern" in s.members ==> s.members["pattern"].Str? && r.search(s.members["pattern"].text, v.text))
  }

  // ---------------------------------------------------------------- agreement

  lemma {:induction false} TypesAgree(v: Json, names: seq<Json>)
    ensures ScanTypes(v, names).Some? ==>
            (ScanTypes(v, names).value <==> exists name :: name in names && name.Str? && NamesTypeOf(name.text, v))
  {
    if names != [] {
      TypesAgree(v, names[1..]);
      assert names == [names[0]] + names[1..];
    }
  }

  lemma CheckTypeAgrees(v: Json, s: Json, p: Path)
    requires s.Obj?
    ensures !CheckType(v, s, p).Fault? ==>
            (CheckType(v, s, p).Valid? <==>
              ("type" in s.members && !s.members["type"].Null? ==> TypeMatches(v, s.members["type"])))
  {
    if "type" in s.members {
      var expected := s.members["type"];
      TypesAgree(v, if expected.Arr? then expected.items else [expected]);
    }
  }

  ghost function Hits(truths: seq<bool>, i: nat): set<int> {
    set j | i <= j < |truths| && truths[j]
  }

  lemma NextHit(truths: seq<bool>, i: nat)
    requires i < |truths|
    ensures |Hits(truths, i)| == |Hits(truths, i + 1)| + if truths[i] then 1 else 0
  {
    assert Hits(truths, i) == Hits(truths, i + 1) + if truths[i] then {i} else {};
  }

  lemma {:induction false} CountAgrees(r: Rules, v: Json, list: Json, i: nat, p: Path)
    requires list.Arr? && i <= |list.items|
    ensures CountMatches(r, v, list, i, p).Some? ==>
      CountMatches(r, v, list, i, p).value == |Hits(Truths(r, v, list), i)|
    decreases list, 0, |list.items| - i
  {
    var truths := Truths(r, v, list);
    if i < |list.items| {
      Agreement(r, v, list.items[i], p);
      CountAgrees(r, v, list, i + 1, p);
      NextHit(truths, i);
    } else {
      assert Hits(truths, i) == {};
    }
  }

  ghost function Range(n: nat): (s: set<int>)
    ensures |s| == n && forall j :: j in s <==> 0 <= j < n
  {
    if n == 0 then {} else Range(n - 1) + {n - 1}
  }

  /** Counting the hits among `n` positions decides "all", "some" and "exactly one". */
  lemma CountsDecide(hits: set<int>, n: nat)
    requires forall j :: j in hits ==> 0 <= j < n
    ensures |hits| == n <==> forall j :: 0 <= j < n ==> j in hits
    ensures |hits| >= 1 <==> exists j :: j in hits
    ensures |hits| == 1 <==> exists i :: i in hits && forall j :: j in hits ==> j == i
  {
    SubsetCardinality(hits, Range(n));
    assert hits == Range(n) <==> forall j :: 0 <= j < n ==> j in hits;
    if |hits| >= 1 {
      assert hits != {};
      var i :| i in hits;
      if |hits| == 1 {
        SubsetCardinality({i}, hits);
        assert i in hits && forall j :: j in hits ==> j == i;
      }
    }
    if i :| i in hits && forall j :: j in hits ==> j == i {
      assert hits == {i};
    }
  }

  lemma UniqueHit(truths: seq<bool>, hits: set<int>)
    requires forall j :: j in hits <==> 0 <= j < |truths| && truths[j]
    ensures (exists i :: i in hits && forall j :: j in hits ==> j == i) <==> ExactlyOne(truths)
  {
    if i :| i in hits && forall j :: j in hits ==> j == i {
      assert truths[i] && forall j :: 0 <= j < |truths| && j != i ==> !truths[j];
    }
    if ExactlyOne(truths) {
      var i :| 0 <= i < |truths| && truths[i] && forall j :: 0 <= j < |truths| && j != i ==> !truths[j];
      assert i in hits && forall j :: j in hits ==> j == i;
    }
  }

  lemma HitsDecide(truths: seq<bool>)
    ensures |Hits(truths, 0)| == |truths| <==> forall i :: 0 <= i < |truths| ==> truths[i]
    ensures |Hits(truths, 0)| >= 1 <==> exists i :: 0 <= i < |truths| && truths[i]
    ensures |Hits(truths, 0)| == 1 <==> ExactlyOne(truths)
  {
    CountsDecide(Hits(truths, 0), |truths|);
    UniqueHit(truths, Hits(truths, 0));
  }

  lemma CombinatorAgrees(r: Rules, v: Json, s: Json, keyword: string, p: Path)
    requires s.Obj?
    ensures !CheckCombinator(r, v, s, keyword, p).Fault? ==>
            (CheckCombinator(r, v, s, keyword, p).Valid? <==>
              (keyword in s.members ==> ListHolds(r, v, s.members[keyword], keyword)))
    decreases s, 1, 0
  {
    if keyword in s.members && NonEmptyList(s.members[keyword]) {
      CountAgrees(r, v, s.members[keyword], 0, p);
      HitsDecide(Truths(r, v, s.members[keyword]));
    }
  }

  /** The conditions `SatisfiesObject` puts on one member. */
  ghost predicate MemberHolds(r: Rules, v: Json, s: Json, n: string)
    requires v.Obj? && s.Obj? && PropertiesOf(s).Obj? && n in v.members
  {
    if "properties" in s.members && n in s.members["properties"].members then
      Satisfies(r, v.members[n], s.members["properties"].members[n])
    else
      "additionalProperties" in s.members ==>
        s.members["additionalProperties"] != Bool(false)
        && (s.members["additionalProperties"].Obj? ==> Satisfies(r, v.members[n], s.members["additionalProperties"]))
  }

  lemma MemberAgrees(r: Rules, v: Json, s: Json, name: string, p: Path)
    requires v.Obj? && s.Obj? && PropertiesOf(s).Obj? && name in v.members
    ensures !ValidateMember(r, v, s, name, p).Fault? ==>
      (ValidateMember(r, v, s, name, p).Valid? <==> MemberHolds(r, v, s, name))
    decreases s, 0, 0
  {
    if "properties" in s.members && name in s.members["properties"].members {
      Agreement(r, v.members[name], s.members["properties"].members[name], p + [Member(name)]);
    } else if "additionalProperties" in s.members && s.members["additionalProperties"].Obj? {
      Agreement(r, v.members[name], s.members["additionalProperties"], p + [Member(name)]);
    }
  }

  lemma {:induction false} MembersAgree(r: Rules, v: Json, s: Json, names: seq<string>, p: Path)
    requires v.Obj? && s.Obj? && PropertiesOf(s).Obj? && forall n :: n in names ==> n in v.members
    ensures !ValidateMembers(r, v, s, names, p).Fault? ==>
            (ValidateMembers(r, v, s, names, p).Valid? <==> forall n :: n in names ==> MemberHolds(r, v, s, n))
    decreases s, 0, |names| + 1
  {
    if names != [] {
      assert names == [names[0]] + names[1..];
      MemberAgrees(r, v, s, names[0], p);
      MembersAgree(r, v, s, names[1..], p);
    }
  }

  lemma {:induction false} RequiredAgrees(v: Json, required: seq<Json>, p: Path)
    requires v.Obj?
    ensures !CheckRequired(v, required, p).Fault?
    ensures CheckRequired(v, required, p).Valid? <==> forall n :: n in required ==> n.Str? && n.text in v.members
  {
    if required != [] {
      RequiredAgrees(v, required[1..], p);
      assert required == [required[0]] + required[1..];
    }
  }

  lemma ObjectAgrees(r: Rules, v: Json, s: Json, p: Path)
    requires v.Obj? && s.Obj?
    ensures !ValidateObject(r, v, s, p).Fault? ==> (ValidateObject(r, v, s, p).Valid? <==> SatisfiesObject(r, v, s))
    decreases s, 1, 0
  {
    if "required" in s.members ==> s.members["required"].Arr? {
      RequiredAgrees(v, if "required" in s.members then s.members["required"].items else [], p);
      if PropertiesOf(s).Obj? {
        var names := SortedSet(v.members.Keys);
        assert forall n :: n in names <==> n in ToSet(names);
        MembersAgree(r, v, s, names, p);
        assert SatisfiesObject(r, v, s) ==> forall n :: n in v.members ==> MemberHolds(r, v, s, n);
      }
    }
  }

  lemma {:induction false} ItemsAgree(r: Rules, v: Json, s: Json, i: nat, p: Path)
    requires v.Arr? && s.Obj? && "items" in s.members && i <= |v.items|
    ensures !ValidateItems(r, v, s, i, p).Fault? ==>
            (ValidateItems(r, v, s, i, p).Valid? <==> forall j :: i <= j < |v.items| ==>
              Satisfies(r, v.items[j], s.members["items"]))
    decreases s, 0, |v.items| - i
  {
    if i < |v.items| {
      Agreement(r, v.items[i], s.members["items"], p + [Index(i)]);
      ItemsAgree(r, v, s, i + 1, p);
    }
  }

  lemma ByTypeAgrees(r: Rules, v: Json, s: Json, p: Path)
    requires s.Obj?
    ensures !ValidateByType(r, v, s, p).Fault? ==>
            (ValidateByType(r, v, s, p).Valid? <==>
               && (v.Obj? ==> SatisfiesObject(r, v, s))
               && (v.Arr? ==> SatisfiesArray(r, v, s))
               && (v.Str? ==> SatisfiesString(r, v, s))
               && (NumberOf(v).Some? ==>
                     NumberBoundHolds(s, "minimum", NumberOf(v).value, true) && NumberBoundHolds(s, "maximum",
                     NumberOf(v).value, false)))
    decreases s, 2, 0
  {
    if v.Obj? {
      ObjectAgrees(r, v, s, p);
    } else if v.Arr? && "items" in s.members {
      ItemsAgree(r, v, s, 0, p);
    }
  }

  /** The validator accepts a value if and only if the value satisfies the schema, whenever it reaches a verdict. */
  lemma Agreement(r: Rules, v: Json, s: Json, p: Path)
    ensures !Validate(r, v, s, p).Fault? ==> (Validate(r, v, s, p).Valid? <==> Satisfies(r, v, s))
    decreases s, 3, 0
  {
    if s.Obj? {
      CombinatorAgrees(r, v, s, "allOf", p);
      CombinatorAgrees(r, v, s, "anyOf", p);
      CombinatorAgrees(r, v, s, "oneOf", p);
      CheckTypeAgrees(v, s, p);
      ByTypeAgrees(r, v, s, p);
    }
  }

  // ---------------------------------------------------------------- when a verdict is reached

  /** A `type` keyword that neither the lookup nor the message can choke on. */
  ghost predicate PlainType(expected: Json) {
    if expected.Arr? then forall name :: name in expected.items ==> name.Str? else !expected.Obj?
  }

  /** Types are plain and patterns compile, here and in every subschema the validator can visit. */
  ghost predicate Regular(r: Rules, s: Json)
    decreases s, 1
  {
    s.Obj? ==>
      && ("type" in s.members ==> PlainType(s.members["type"]))
      && ("pattern" in s.members && s.members["pattern"].Str? ==> r.compiles(s.members["pattern"].text))
      && ("allOf" in s.members ==> RegularList(r, s.members["allOf"]))
      && ("anyOf" in s.members ==> RegularList(r, s.members["anyOf"]))
      && ("oneOf" in s.members ==> RegularList(r, s.members["oneOf"]))
      && ("properties" in s.members && s.members["properties"].Obj? ==>
            forall n :: n in s.members["properties"].members ==> Regular(r, s.members["properties"].members[n]))
      && ("additionalProperties" in s.members ==> Regular(r, s.members["additionalProperties"]))
      && ("items" in s.members ==> Regular(r, s.members["items"]))
  }

  ghost predicate RegularList(r: Rules, list: Json)
    decreases list, 0
  {
    list.Arr? ==> forall i :: 0 <= i < |list.items| ==> Regular(r, list.items[i])
  }

  lemma {:induction false} PlainNamesScan(v: Json, names: seq<Json>)
    requires forall name :: name in names ==> !name.Arr? && !name.Obj?
    ensures ScanTypes(v, names).Some?
  {
    if names != [] {
      PlainNamesScan(v, names[1..]);
    }
  }

  lemma RegularType(v: Json, s: Json, p: Path)
    requires s.Obj? && ("type" in s.members ==> PlainType(s.members["type"]))
    ensures !CheckType(v, s, p).Fault?
  {
    if "type" in s.members {
      var expected := s.members["type"];
      PlainNamesScan(v, if expected.Arr? then expected.items else if expected.Obj? then [] else [expected]);
    }
  }

  lemma {:induction false} RegularCount(r: Rules, v: Json, list: Json, i: nat, p: Path)
    requires list.Arr? && i <= |list.items| && RegularList(r, list)
    ensures CountMatches(r, v, list, i, p).Some?
    decreases list, 0, |list.items| - i
  {
    if i < |list.items| {
      RegularReachesVerdict(r, v, list.items[i], p);
      RegularCount(r, v, list, i + 1, p);
    }
  }

  lemma RegularCombinator(r: Rules, v: Json, s: Json, keyword: string, p: Path)
    requires s.Obj? && (keyword in s.members ==> RegularList(r, s.members[keyword]))
    ensures !CheckCombinator(r, v, s, keyword, p).Fault?
    decreases s, 1, 0
  {
    if keyword in s.members && s.members[keyword].Arr? {
      RegularCount(r, v, s.members[keyword], 0, p);
    }
  }

  lemma {:induction false} RegularMembers(r: Rules, v: Json, s: Json, names: seq<string>, p: Path)
    requires v.Obj? && s.Obj? && Regular(r, s) && PropertiesOf(s).Obj? && forall n :: n in names ==> n in v.members
    ensures !ValidateMembers(r, v, s, names, p).Fault?
    decreases s, 0, |names|
  {
    if names != [] {
      var name := names[0];
      if "properties" in s.members && name in s.members["properties"].members {
        RegularReachesVerdict(r, v.members[name], s.members["properties"].members[name], p + [Member(name)]);
      } else if "additionalProperties" in s.members {
        RegularReachesVerdict(r, v.members[name], s.members["additionalProperties"], p + [Member(name)]);
      }
      assert !ValidateMember(r, v, s, name, p).Fault?;
      RegularMembers(r, v, s, names[1..], p);
    }
  }

  lemma {:induction false} RegularItems(r: Rules, v: Json, s: Json, i: nat, p: Path)
    requires v.Arr? && s.Obj? && Regular(r, s) && "items" in s.members && i <= |v.items|
    ensures !ValidateItems(r, v, s, i, p).Fault?
    decreases s, 0, |v.items| - i
  {
    if i < |v.items| {
      RegularReachesVerdict(r, v.items[i], s.members["items"], p + [Index(i)]);
      RegularItems(r, v, s, i + 1, p);
    }
  }

  lemma RegularObject(r: Rules, v: Json, s: Json, p: Path)
    requires v.Obj? && s.Obj? && Regular(r, s)
    ensures !ValidateObject(r, v, s, p).Fault?
    decreases s, 1, 0
  {
    if "required" in s.members ==> s.members["required"].Arr? {
      RequiredAgrees(v, if "required" in s.members then s.members["required"].items else [], p);
      if PropertiesOf(s).Obj? {
        var names := SortedSet(v.members.Keys);
        assert forall n :: n in names ==> n in ToSet(names);
        RegularMembers(r, v, s, names, p);
      }
    }
  }

  lemma RegularByType(r: Rules, v: Json, s: Json, p: Path)
    requires s.Obj? && Regular(r, s)
    ensures !ValidateByType(r, v, s, p).Fault?
    decreases s, 2, 0
  {
    if v.Obj? {
      RegularObject(r, v, s, p);
    } else if v.Arr? && "items" in s.members {
      RegularItems(r, v, s, 0, p);
    }
  }

  /** On a regular schema every value gets a verdict. */
  lemma RegularReachesVerdict(r: Rules, v: Json, s: Json, p: Path)
    requires Regular(r, s)
    ensures !Validate(r, v, s, p).Fault?
    decreases s, 3, 0
  {
    if s.Obj? {
      RegularCombinator(r, v, s, "allOf", p);
      RegularCombinator(r, v, s, "anyOf", p);
      RegularCombinator(r, v, s, "oneOf", p);
      RegularType(v, s, p);
      RegularByType(r, v, s, p);
    }
  }

  /** For every value and every regular schema: accepted if and only if satisfied, and rejected otherwise. */
  lemma RegularAgreement(r: Rules, v: Json, s: Json, p: Path)
    requires Regular(r, s)
    ensures Validate(r, v, s, p).Valid? <==> Satisfies(r, v, s)
    ensures Validate(r, v, s, p).Invalid? <==> !Satisfies(r, v, s)
  {
    RegularReachesVerdict(r, v, s, p);
    Agreement(r, v, s, p);
  }

  // ---------------------------------------------------------------- reported locations

  /** The sub-value a path leads to. */
  function Resolve(v: Json, steps: Path): Option<Json> {
    if steps == [] then Some(v)
    else
      match steps[0]
      case Member(name) => if v.Obj? && name in v.members then Resolve(v.members[name], steps[1..]) else None
      case Index(i) => if v.Arr? && i < |v.items| then Resolve(v.items[i], steps[1..]) else None
  }

  /** `o` is the outcome `base` reported from below `p`. */
  function Under(p: Path, base: Outcome): Outcome {
    match base
    case Invalid(at, why) => Invalid(p + at, why)
    case _ => base
  }

  /** The location of a rejection lies inside `v`. */
  ghost predicate Points(v: Json, o: Outcome) {
    o.Invalid? ==> Resolve(v, o.at).Some?
  }

  /** A check that treats the path as a mere prefix and reports real locations only. */
  ghost predicate Placed(v: Json, p: Path, o: Outcome, base: Outcome) {
    o == Under(p, base) && Points(v, base)
  }

  lemma ChildPlaced(v: Json, step: Step, child: Json, p: Path, o: Outcome, below: Outcome, base: Outcome)
    requires Resolve(v, [step]) == Some(child)
    requires Placed(child, p + [step], o, below) && Placed(child, [] + [step], base, below)
    ensures Placed(v, p, o, base)
  {
    if below.Invalid? {
      assert p + [step] + below.at == p + ([step] + below.at);
      assert [] + [step] + below.at == [step] + below.at;
      assert ([step] + below.at)[1..] == below.at;
    }
  }

  lemma {:induction false} CountPlaced(r: Rules, v: Json, list: Json, i: nat, p: Path)
    requires list.Arr? && i <= |list.items|
    ensures CountMatches(r, v, list, i, p) == CountMatches(r, v, list, i, [])
    decreases list, 0, |list.items| - i
  {
    if i < |list.items| {
      ValidatePlaced(r, v, list.items[i], p);
      CountPlaced(r, v, list, i + 1, p);
    }
  }

  lemma CombinatorPlaced(r: Rules, v: Json, s: Json, keyword: string, p: Path)
    requires s.Obj?
    ensures Placed(v, p, CheckCombinator(r, v, s, keyword, p), CheckCombinator(r, v, s, keyword, []))
    decreases s, 1, 0
  {
    assert p + [] == p;
    if keyword in s.members && NonEmptyList(s.members[keyword]) {
      CountPlaced(r, v, s.members[keyword], 0, p);
    }
  }

  lemma MemberPlaced(r: Rules, v: Json, s: Json, name: string, p: Path)
    requires v.Obj? && s.Obj? && PropertiesOf(s).Obj? && name in v.members
    ensures Placed(v, p, ValidateMember(r, v, s, name, p), ValidateMember(r, v, s, name, []))
    decreases s, 0, 0
  {
    var child := v.members[name];
    var step := Member(name);
    assert Resolve(v, [step]) == Some(child);
    if "properties" in s.members && name in s.members["properties"].members {
      var t := s.members["properties"].members[name];
      ValidatePlaced(r, child, t, p + [step]);
      ValidatePlaced(r, child, t, [] + [step]);
      ChildPlaced(v, step, child, p, Validate(r, child, t, p + [step]), Validate(r, child, t, []),
        Validate(r, child, t, [] + [step]));
    } else if "additionalProperties" in s.members && s.members["additionalProperties"].Obj? {
      var t := s.members["additionalProperties"];
      ValidatePlaced(r, child, t, p + [step]);
      ValidatePlaced(r, child, t, [] + [step]);
      ChildPlaced(v, step, child, p, Validate(r, child, t, p + [step]), Validate(r, child, t, []),
        Validate(r, child, t, [] + [step]));
    }
  }

  lemma {:induction false} MembersPlaced(r: Rules, v: Json, s: Json, names: seq<string>, p: Path)
    requires v.Obj? && s.Obj? && PropertiesOf(s).Obj? && forall n :: n in names ==> n in v.members
    ensures Placed(v, p, ValidateMembers(r, v, s, names, p), ValidateMembers(r, v, s, names, []))
    decreases s, 0, |names| + 1
  {
    if names != [] {
      MemberPlaced(r, v, s, names[0], p);
      MembersPlaced(r, v, s, names[1..], p);
    }
  }

  lemma {:induction false} ItemsPlaced(r: Rules, v: Json, s: Json, i: nat, p: Path)
    requires v.Arr? && s.Obj? && "items" in s.members && i <= |v.items|
    ensures Placed(v, p, ValidateItems(r, v, s, i, p), ValidateItems(r, v, s, i, []))
    decreases s, 0, |v.items| - i
  {
    if i < |v.items| {
      var child, step, t := v.items[i], Index(i), s.members["items"];
      assert Resolve(v, [step]) == Some(child);
      ValidatePlaced(r, child, t, p + [step]);
      ValidatePlaced(r, child, t, [] + [step]);
      ChildPlaced(v, step, child, p, Validate(r, child, t, p + [step]), Validate(r, child, t, []),
        Validate(r, child, t, [] + [step]));
      ItemsPlaced(r, v, s, i + 1, p);
    }
  }

  lemma {:induction false} RequiredPlaced(v: Json, required: seq<Json>, p: Path)
    requires v.Obj?
    ensures Placed(v, p, CheckRequired(v, required, p), CheckRequired(v, required, []))
  {
    assert p + [] == p;
    if required != [] {
      RequiredPlaced(v, required[1..], p);
    }
  }

  lemma ObjectPlaced(r: Rules, v: Json, s: Json, p: Path)
    requires v.Obj? && s.Obj?
    ensures Placed(v, p, ValidateObject(r, v, s, p), ValidateObject(r, v, s, []))
    decreases s, 1, 0
  {
    assert p + [] == p;
    if "required" in s.members ==> s.members["required"].Arr? {
      RequiredPlaced(v, if "required" in s.members then s.members["required"].items else [], p);
      if PropertiesOf(s).Obj? {
        var names := SortedSet(v.members.Keys);
        assert forall n :: n in names ==> n in ToSet(names);
        MembersPlaced(r, v, s, names, p);
      }
    }
  }

  lemma LeafPlaced(r: Rules, v: Json, s: Json, p: Path)
    requires s.Obj? && !v.Obj? && !(v.Arr? && "items" in s.members)
    ensures Placed(v, p, ValidateByType(r, v, s, p), ValidateByType(r, v, s, []))
  {
    assert p + [] == p;
  }

  lemma ArrayPlaced(r: Rules, v: Json, s: Json, p: Path)
    requires s.Obj? && v.Arr? && "items" in s.members
    ensures Placed(v, p, ValidateArray(r, v, s, p), ValidateArray(r, v, s, []))
    decreases s, 1, 0
  {
    assert p + [] == p;
    ItemsPlaced(r, v, s, 0, p);
  }

  lemma ByTypePlaced(r: Rules, v: Json, s: Json, p: Path)
    requires s.Obj?
    ensures Placed(v, p, ValidateByType(r, v, s, p), ValidateByType(r, v, s, []))
    decreases s, 2, 0
  {
    if v.Obj? {
      ObjectPlaced(r, v, s, p);
    } else if v.Arr? && "items" in s.members {
      ArrayPlaced(r, v, s, p);
    } else {
      LeafPlaced(r, v, s, p);
    }
  }

  lemma CombinatorsPlaced(r: Rules, v: Json, s: Json, p: Path)
    requires s.Obj?
    ensures Placed(v, p, CheckCombinators(r, v, s, p), CheckCombinators(r, v, s, []))
    decreases s, 2, 0
  {
    CombinatorPlaced(r, v, s, "allOf", p);
    CombinatorPlaced(r, v, s, "anyOf", p);
    CombinatorPlaced(r, v, s, "oneOf", p);
  }

  lemma OwnPlaced(r: Rules, v: Json, s: Json, p: Path)
    requires s.Obj?
    ensures Placed(v, p, CheckChoice(r, v, s, p), CheckChoice(r, v, s, []))
    ensures Placed(v, p, CheckType(v, s, p), CheckType(v, s, []))
  {
    assert p + [] == p;
  }

  /** The path argument never influences the verdict, and a rejection points at a real part of the value. */
  lemma ValidatePlaced(r: Rules, v: Json, s: Json, p: Path)
    ensures Placed(v, p, Validate(r, v, s, p), Validate(r, v, s, []))
    decreases s, 3, 0
  {
    assert p + [] == p;
    if s.Obj? {
      OwnPlaced(r, v, s, p);
      CombinatorsPlaced(r, v, s, p);
      ByTypePlaced(r, v, s, p);
    }
  }

  lemma {:induction false} ResolveThrough(root: Json, p: Path, v: Json, steps: Path)
    requires Resolve(root, p) == Some(v)
    ensures Resolve(root, p + steps) == Resolve(v, steps)
    decreases |p|
  {
    if p == [] {
      assert p + steps == steps;
    } else {
      assert (p + steps)[1..] == p[1..] + steps;
      match p[0]
      case Member(name) => ResolveThrough(root.members[name], p[1..], v, steps);
      case Index(i) => ResolveThrough(root.items[i], p[1..], v, steps);
    }
  }

  /** Validating the part of `root` at `p` reports a location that exists in `root`; the path decides nothing. */
  lemma LocationResolves(r: Rules, root: Json, v: Json, s: Json, p: Path, q: Path)
    requires Resolve(root, p) == Some(v)
    ensures Validate(r, v, s, p).Invalid? ==>
      p <= Validate(r, v, s, p).at && Resolve(root, Validate(r, v, s, p).at).Some?
    ensures Validate(r, v, s, p).Invalid? <==> Validate(r, v, s, q).Invalid?
    ensures Validate(r, v, s, p).Valid? <==> Validate(r, v, s, q).Valid?
  {
    ValidatePlaced(r, v, s, p);
    ValidatePlaced(r, v, s, q);
    var base := Validate(r, v, s, []);
    if base.Invalid? {
      ResolveThrough(root, p, v, base.at);
    }
  }
}
