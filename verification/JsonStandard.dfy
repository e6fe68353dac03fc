/**
  The meaning the standard gives to the keywords the validator supports: sections 4.2.2, 4.3, 10.2.1 and 10.3 of JSON
  Schema Core 2020-12 and section 6 of JSON Schema Validation 2020-12, and where the validator keeps to it.
 */
module JsonStandard {
  import opened Collections
  import opened JsonSchema

  // ---------------------------------------------------------------- equality

  /** Python counts booleans as the numbers 0 and 1; JSON does not. */
  function Numeric(v: Json, python: bool): Option<real> {
    match v
    case Int(n) => Some(n as real)
    case Float(x) => Some(x)
    case Bool(flag) => if python then Some(if flag then 1.0 else 0.0) else None
    case _ => None
  }

  /** Equality of JSON values, by the standard or as Python's `==` decides it. */
  predicate Equal(a: Json, b: Json, python: bool) {
    if Numeric(a, python).Some? || Numeric(b, python).Some? then Numeric(a, python) == Numeric(b, python)
    else
      match a
      case Arr(xs) => b.Arr? && |b.items| == |xs| && forall i :: 0 <= i < |xs| ==> Equal(xs[i], b.items[i], python)
      case Obj(ms) => b.Obj? && b.members.Keys == ms.Keys && forall k :: k in ms ==> Equal(ms[k], b.members[k], python)
      case _ => a == b
  }

  /** A value with its integers written as floats, and for Python its booleans too. */
  function Canon(v: Json, python: bool): Json {
    match v
    case Int(n) => Float(n as real)
    case Bool(flag) => if python then Float(if flag then 1.0 else 0.0) else v
    case Arr(xs) => Arr(seq(|xs|, i requires 0 <= i < |xs| => Canon(xs[i], python)))
    case Obj(ms) => Obj(map k | k in ms :: Canon(ms[k], python))
    case _ => v
  }

  /** Equal values are those with one canonical form. */
  lemma {:induction false} EqualIsCanonical(a: Json, b: Json, python: bool)
    ensures Equal(a, b, python) <==> Canon(a, python) == Canon(b, python)
  {
    if a.Arr? && b.Arr? {
      var s, t := Canon(a, python).items, Canon(b, python).items;
      if |a.items| == |b.items| {
        forall i | 0 <= i < |a.items| ensures Equal(a.items[i], b.items[i], python) <==> s[i] == t[i] {
          EqualIsCanonical(a.items[i], b.items[i], python);
        }
      }
    } else if a.Obj? && b.Obj? {
      var s, t := Canon(a, python).members, Canon(b, python).members;
      assert s.Keys == a.members.Keys && t.Keys == b.members.Keys;
      if a.members.Keys == b.members.Keys {
        forall k | k in a.members ensures Equal(a.members[k], b.members[k], python) <==> s[k] == t[k] {
          EqualIsCanonical(a.members[k], b.members[k], python);
        }
      }
    }
  }

  /** At some common place one value has a boolean and the other the number Python takes it for. */
  predicate Clash(a: Json, b: Json) {
    if a.Bool? != b.Bool? then Numeric(a, true).Some? && Numeric(a, true) == Numeric(b, true)
    else
      match a
      case Arr(xs) => b.Arr? && exists i :: 0 <= i < |xs| && i < |b.items| && Clash(xs[i], b.items[i])
      case Obj(ms) => b.Obj? && exists k :: k in ms && k in b.members && Clash(ms[k], b.members[k])
      case _ => false
  }

  /** Python takes the values for equal although a boolean meets a number. */
  predicate Confused(a: Json, b: Json) {
    Equal(a, b, true) && Clash(a, b)
  }

  /** The standard's equality is Python's equality without a clash. */
  lemma {:induction false} EqualWithoutClash(a: Json, b: Json)
    ensures Equal(a, b, false) <==> Equal(a, b, true) && !Clash(a, b)
  {
    if a.Arr? && b.Arr? && |a.items| == |b.items| {
      ListsEqualWithoutClash(a.items, b.items);
    } else if a.Obj? && b.Obj? && a.members.Keys == b.members.Keys {
      forall k | k in a.members
        ensures Equal(a.members[k], b.members[k], false) <==>
          Equal(a.members[k], b.members[k], true) && !Clash(a.members[k], b.members[k])
      {
        EqualWithoutClash(a.members[k], b.members[k]);
      }
    }
  }

  lemma {:induction false} ListsEqualWithoutClash(xs: seq<Json>, ys: seq<Json>)
    requires |xs| == |ys|
    ensures Equal(Arr(xs), Arr(ys), false) <==> Equal(Arr(xs), Arr(ys), true) && !Clash(Arr(xs), Arr(ys))
    decreases xs, 0
  {
    forall i | 0 <= i < |xs| ensures Equal(xs[i], ys[i], false) <==> Equal(xs[i], ys[i], true) && !Clash(xs[i], ys[i]) {
      EqualWithoutClash(xs[i], ys[i]);
    }
  }

  /** The validator's environment with Python's own equality. */
  function PythonRules(compiles: string -> bool, search: (string, string) -> bool): Rules {
    Rules((a, b) => Equal(a, b, true), compiles, search)
  }

  // ---------------------------------------------------------------- the standard

  const TYPE_NAMES: set<string> := {"null", "boolean", "object", "array", "string", "number", "integer"}
  const SIZES: set<string> := {"minItems", "maxItems", "minLength", "maxLength"}

  predicate Integral(x: real) {
    x == x.Floor as real
  }

  /** The type names of a value; an integer is any number without a fractional part. */
  predicate IsOfType(name: string, v: Json) {
    match v
    case Null => name == "null"
    case Bool(_) => name == "boolean"
    case Int(_) => name == "number" || name == "integer"
    case Float(x) => name == "number" || (name == "integer" && Integral(x))
    case Str(_) => name == "string"
    case Arr(_) => name == "array"
    case Obj(_) => name == "object"
  }

  ghost predicate MeetsType(v: Json, expected: Json) {
    if expected.Arr? then exists name :: name in expected.items && name.Str? && IsOfType(name.text, v)
    else expected.Str? && IsOfType(expected.text, v)
  }

  /** The value of a size keyword: a non-negative integer. */
  function Size(bound: Json): Option<int> {
    match bound
    case Int(n) => if n >= 0 then Some(n) else None
    case Float(x) => if x >= 0.0 && Integral(x) then Some(x.Floor) else None
    case _ => None
  }

  ghost predicate MeetsSize(s: Json, keyword: string, size: int, lower: bool)
    requires s.Obj?
  {
    keyword in s.members && Size(s.members[keyword]).Some? ==>
      if lower then Size(s.members[keyword]).value <= size else size <= Size(s.members[keyword]).value
  }

  ghost function Meanings(search: (string, string) -> bool, v: Json, list: Json): (truths: seq<bool>)
    requires list.Arr?
    ensures |truths| == |list.items|
    decreases list, 2
  {
    seq(|list.items|, i requires 0 <= i < |list.items| => Means(search, v, list.items[i]))
  }

  ghost predicate MeansList(search: (string, string) -> bool, v: Json, list: Json, keyword: string)
    decreases list, 3
  {
    && NonEmptyList(list)
    && var truths := Meanings(search, v, list);
       if keyword == "allOf" then forall i :: 0 <= i < |truths| ==> truths[i]
       else if keyword == "anyOf" then exists i :: 0 <= i < |truths| && truths[i]
       else ExactlyOne(truths)
  }

  /** The keywords for any value: const, enum and type. */
  ghost predicate MeansOwn(v: Json, s: Json)
    requires s.Obj?
  {
    && ("const" in s.members ==> Equal(v, s.members["const"], false))
    && ("enum" in s.members ==> s.members["enum"].Arr? && Chosen(s.members["enum"].items, c => Equal(v, c, false)))
    && ("type" in s.members ==> MeetsType(v, s.members["type"]))
  }

  ghost predicate Chosen(choices: seq<Json>, same: Json -> bool) {
    exists c :: c in choices && same(c)
  }

  /** The value satisfies the well-formed schema. */
  ghost predicate Means(search: (string, string) -> bool, v: Json, s: Json)
    decreases s, 1
  {
    if s.Bool? then s.flag
    else
      && s.Obj?
      && MeansOwn(v, s)
      && ("allOf" in s.members ==> MeansList(search, v, s.members["allOf"], "allOf"))
      && ("anyOf" in s.members ==> MeansList(search, v, s.members["anyOf"], "anyOf"))
      && ("oneOf" in s.members ==> MeansList(search, v, s.members["oneOf"], "oneOf"))
      && (v.Obj? ==> MeansObject(search, v, s))
      && (v.Arr? ==> MeansArray(search, v, s))
      && (v.Str? ==> MeansString(search, v, s))
      && (Numeric(v, false).Some? ==> MeansNumber(Numeric(v, false).value, s))
  }

  ghost predicate MeansNumber(x: real, s: Json)
    requires s.Obj?
  {
    && ("minimum" in s.members && Numeric(s.members["minimum"], false).Some? ==>
        Numeric(s.members["minimum"], false).value <= x)
    && ("maximum" in s.members && Numeric(s.members["maximum"], false).Some? ==>
        x <= Numeric(s.members["maximum"], false).value)
  }

  /** The schema has a table of properties, and it names `n`. */
  ghost predicate NamesProperty(s: Json, n: string)
    requires s.Obj?
  {
    "properties" in s.members && s.members["properties"].Obj? && n in s.members["properties"].members
  }

  ghost predicate MeansObject(search: (string, string) -> bool, v: Json, s: Json)
    requires v.Obj? && s.Obj?
    decreases s, 0
  {
    && ("required" in s.members && s.members["required"].Arr? ==>
          forall n :: n in s.members["required"].items && n.Str? ==> n.text in v.members)
    && ("properties" in s.members && s.members["properties"].Obj? ==>
        forall n :: n in v.members && n in s.members["properties"].members ==>
          Means(search, v.members[n], s.members["properties"].members[n]))
    && ("additionalProperties" in s.members ==>
        forall n :: n in v.members && !NamesProperty(s, n) ==>
          Means(search, v.members[n], s.members["additionalProperties"]))
  }

  ghost predicate MeansArray(search: (string, string) -> bool, v: Json, s: Json)
    requires v.Arr? && s.Obj?
    decreases s, 0
  {
    && MeetsSize(s, "minItems", |v.items|, true) && MeetsSize(s, "maxItems", |v.items|, false)
    && ("items" in s.members ==> forall i :: 0 <= i < |v.items| ==> Means(search, v.items[i], s.members["items"]))
  }

  ghost predicate MeansString(search: (string, string) -> bool, v: Json, s: Json)
    requires v.Str? && s.Obj?
  {
    && MeetsSize(s, "minLength", |v.text|, true) && MeetsSize(s, "maxLength", |v.text|, false)
    && ("pattern" in s.members && s.members["pattern"].Str? ==> search(s.members["pattern"].text, v.text))
  }

  // ---------------------------------------------------------------- well-formed schemas

  ghost predicate TypeWellFormed(expected: Json) {
    if expected.Arr? then expected.items != [] && forall name :: name in expected.items ==>
      name.Str? && name.text in TYPE_NAMES
    else expected.Str? && expected.text in TYPE_NAMES
  }

  /** What section 6 and the applicator sections demand of the keywords of one schema object, subschemas aside. */
  ghost predicate KeywordsWellFormed(s: Json)
    requires s.Obj?
  {
    && ("enum" in s.members ==> s.members["enum"].Arr?)
    && ("type" in s.members ==> TypeWellFormed(s.members["type"]))
    && ("required" in s.members ==> s.members["required"].Arr? && forall n :: n in s.members["required"].items ==>
        n.Str?)
    && ("properties" in s.members ==> s.members["properties"].Obj?)
    && (forall k :: k in SIZES && k in s.members ==> Size(s.members[k]).Some?)
    && ("minimum" in s.members ==> Numeric(s.members["minimum"], false).Some?)
    && ("maximum" in s.members ==> Numeric(s.members["maximum"], false).Some?)
    && ("pattern" in s.members ==> s.members["pattern"].Str?)
  }

  ghost predicate WellFormed(s: Json)
    decreases s, 1
  {
    s.Bool? || (
      && s.Obj? && KeywordsWellFormed(s)
      && ("allOf" in s.members ==> WellFormedList(s.members["allOf"]))
      && ("anyOf" in s.members ==> WellFormedList(s.members["anyOf"]))
      && ("oneOf" in s.members ==> WellFormedList(s.members["oneOf"]))
      && ("properties" in s.members ==> forall n :: n in s.members["properties"].members ==>
          WellFormed(s.members["properties"].members[n]))
      && ("additionalProperties" in s.members ==> WellFormed(s.members["additionalProperties"]))
      && ("items" in s.members ==> WellFormed(s.members["items"])))
  }

  ghost predicate WellFormedList(list: Json)
    decreases list, 0
  {
    NonEmptyList(list) && forall i :: 0 <= i < |list.items| ==> WellFormed(list.items[i])
  }

  // ---------------------------------------------------------------- where the validator keeps to it

  ghost predicate NamesType(expected: Json, name: string) {
    if expected.Arr? then Str(name) in expected.items else expected == Str(name)
  }

  /** A size keyword written as a float is no obstacle where the size would break it anyway. */
  ghost predicate FitsSize(s: Json, keyword: string, size: int, lower: bool)
    requires s.Obj?
  {
    keyword in s.members && s.members[keyword].Float? ==> !MeetsSize(s, keyword, size, lower)
  }

  /**
    The keywords that speak about this very value: no confused constant, no number such as 1.0 where an integer is
    asked for, and no size written as a float that the value would meet.
   */
  ghost predicate FitsOwn(v: Json, s: Json)
    requires s.Obj?
  {
    && ("const" in s.members ==> !Confused(v, s.members["const"]))
    && ("enum" in s.members && s.members["enum"].Arr? ==> FitsChoice(v, s.members["enum"].items))
    && ("type" in s.members ==> FitsType(v, s.members["type"]))
    && (v.Arr? ==> FitsSize(s, "minItems", |v.items|, true) && FitsSize(s, "maxItems", |v.items|, false))
    && (v.Str? ==> FitsSize(s, "minLength", |v.text|, true) && FitsSize(s, "maxLength", |v.text|, false))
  }

  /** No choice is confused with the value, or the value is one of the choices anyway. */
  ghost predicate FitsChoice(v: Json, choices: seq<Json>) {
    (exists c :: c in choices && Confused(v, c)) ==> exists c :: c in choices && Equal(v, c, false)
  }

  ghost predicate FitsType(v: Json, expected: Json) {
    v.Float? && Integral(v.x) && NamesType(expected, "integer") ==> NamesType(expected, "number")
  }

  /** No departure on the way of the value through the schema; what is not on that way may be anything. */
  ghost predicate Fits(v: Json, s: Json)
    decreases s, 1
  {
    if !s.Obj? then s != Bool(true)
    else
      && FitsOwn(v, s)
      && ("allOf" in s.members ==> FitsList(v, s.members["allOf"]))
      && ("anyOf" in s.members ==> FitsList(v, s.members["anyOf"]))
      && ("oneOf" in s.members ==> FitsList(v, s.members["oneOf"]))
      && (v.Obj? ==> FitsMembers(v, s))
      && (v.Arr? && "items" in s.members ==> forall i :: 0 <= i < |v.items| ==> Fits(v.items[i], s.members["items"]))
  }

  ghost predicate FitsList(v: Json, list: Json)
    decreases list, 0
  {
    list.Arr? ==> forall i :: 0 <= i < |list.items| ==> Fits(v, list.items[i])
  }

  ghost predicate FitsMembers(v: Json, s: Json)
    requires v.Obj? && s.Obj?
    decreases s, 0
  {
    && ("properties" in s.members && s.members["properties"].Obj? ==>
        forall n :: n in v.members && n in s.members["properties"].members ==>
          Fits(v.members[n], s.members["properties"].members[n]))
    && ("additionalProperties" in s.members && s.members["additionalProperties"].Obj? ==>
        forall n :: n in v.members && !NamesProperty(s, n) ==>
          Fits(v.members[n], s.members["additionalProperties"]))
  }

  // ---------------------------------------------------------------- agreement, keyword by keyword

  lemma TypesMeanAlike(v: Json, expected: Json)
    requires FitsType(v, expected)
    ensures MeetsType(v, expected) <==> TypeMatches(v, expected)
  {
    if v.Float? && Integral(v.x) && NamesType(expected, "integer") {
      assert IsOfType("number", v) && NamesTypeOf("number", v);
      assert MeetsType(v, expected) && TypeMatches(v, expected);
    } else if expected.Arr? {
      forall name | name in expected.items && name.Str? ensures IsOfType(name.text, v) <==> NamesTypeOf(name.text, v) {
        assert name.text == "integer" ==> name == Str("integer");
      }
    } else if expected.Str? {
      assert expected.text == "integer" ==> expected == Str("integer");
    }
  }

  lemma ConstantsMeanAlike(compiles: string -> bool, search: (string, string) -> bool, v: Json, c: Json)
    ensures (Equal(v, c, false) <==> PythonRules(compiles, search).same(v, c)) <==> !Confused(v, c)
  {
    EqualWithoutClash(v, c);
  }

  lemma ChoicesMeanAlike(compiles: string -> bool, search: (string, string) -> bool, v: Json, choices: Json)
    requires choices.Arr?
    ensures (Chosen(choices.items, c => Equal(v, c, false)) <==>
              Chosen(choices.items, c => PythonRules(compiles, search).same(v, c))) <==>
            FitsChoice(v, choices.items)
  {
    forall c | c in choices.items ensures Equal(v, c, false) <==> Equal(v, c, true) && !Clash(v, c) {
      EqualWithoutClash(v, c);
    }
    var rules := PythonRules(compiles, search);
    var named := Chosen(choices.items, c => Equal(v, c, false));
    var taken := Chosen(choices.items, c => rules.same(v, c));
    assert named ==> taken by {
      if c :| c in choices.items && Equal(v, c, false) {
        assert rules.same(v, c);
      }
    }
    if c :| c in choices.items && Confused(v, c) {
      assert rules.same(v, c);
    }
    if taken {
      var c :| c in choices.items && rules.same(v, c);
      assert Equal(v, c, false) || Confused(v, c);
    }
  }

  /** What the validator demands for const, enum and type. */
  ghost predicate SatisfiesOwn(r: Rules, v: Json, s: Json)
    requires s.Obj?
  {
    && ("const" in s.members ==> r.same(v, s.members["const"]))
    && ("enum" in s.members ==> s.members["enum"].Arr? && exists c :: c in s.members["enum"].items && r.same(v, c))
    && ("type" in s.members && !s.members["type"].Null? ==> TypeMatches(v, s.members["type"]))
  }

  lemma OwnMeansAlike(compiles: string -> bool, search: (string, string) -> bool, v: Json, s: Json)
    requires s.Obj? && KeywordsWellFormed(s) && FitsOwn(v, s)
    ensures MeansOwn(v, s) <==> SatisfiesOwn(PythonRules(compiles, search), v, s)
  {
    if "type" in s.members {
      TypesMeanAlike(v, s.members["type"]);
    }
    if "const" in s.members {
      ConstantsMeanAlike(compiles, search, v, s.members["const"]);
    }
    if "enum" in s.members {
      ChoicesMeanAlike(compiles, search, v, s.members["enum"]);
    }
  }

  lemma SizesMeanAlike(s: Json, keyword: string, size: int, lower: bool)
    requires s.Obj? && keyword in SIZES && (keyword in s.members ==> Size(s.members[keyword]).Some?)
    ensures (MeetsSize(s, keyword, size, lower) <==> IntBoundHolds(s, keyword, size, lower)) <==>
            FitsSize(s, keyword, size, lower)
  {
  }

  lemma {:induction false} ListsMeanAlike(compiles: string -> bool, search: (string, string) -> bool, v: Json,
      list: Json, keyword: string)
    requires WellFormedList(list) && FitsList(v, list)
    ensures MeansList(search, v, list, keyword) <==> ListHolds(PythonRules(compiles, search), v, list, keyword)
    decreases list, 0
  {
    var rules := PythonRules(compiles, search);
    forall i | 0 <= i < |list.items| ensures Meanings(search, v, list)[i] == Truths(rules, v, list)[i] {
      MeansAlike(compiles, search, v, list.items[i]);
    }
    assert Meanings(search, v, list) == Truths(rules, v, list);
  }

  lemma {:induction false} ObjectsMeanAlike(compiles: string -> bool, search: (string, string) -> bool, v: Json,
      s: Json)
    requires v.Obj? && s.Obj? && WellFormed(s) && Fits(v, s)
    ensures MeansObject(search, v, s) <==> SatisfiesObject(PythonRules(compiles, search), v, s)
    decreases s, 0
  {
    var rules := PythonRules(compiles, search);
    if "properties" in s.members {
      forall n | n in v.members && n in s.members["properties"].members
        ensures Means(search, v.members[n], s.members["properties"].members[n]) <==>
                Satisfies(rules, v.members[n], s.members["properties"].members[n])
      {
        MeansAlike(compiles, search, v.members[n], s.members["properties"].members[n]);
      }
    }
    if "additionalProperties" in s.members && s.members["additionalProperties"].Obj? {
      forall n | n in v.members && !NamesProperty(s, n)
        ensures Means(search, v.members[n], s.members["additionalProperties"]) <==>
                Satisfies(rules, v.members[n], s.members["additionalProperties"])
      {
        MeansAlike(compiles, search, v.members[n], s.members["additionalProperties"]);
      }
    }
  }

  lemma {:induction false} ArraysMeanAlike(compiles: string -> bool, search: (string, string) -> bool, v: Json, s: Json)
    requires v.Arr? && s.Obj? && WellFormed(s) && Fits(v, s)
    ensures MeansArray(search, v, s) <==> SatisfiesArray(PythonRules(compiles, search), v, s)
    decreases s, 0
  {
    SizesMeanAlike(s, "minItems", |v.items|, true);
    SizesMeanAlike(s, "maxItems", |v.items|, false);
    if "items" in s.members {
      forall i | 0 <= i < |v.items|
        ensures Means(search, v.items[i], s.members["items"]) <==>
          Satisfies(PythonRules(compiles, search), v.items[i], s.members["items"])
      {
        MeansAlike(compiles, search, v.items[i], s.members["items"]);
      }
    }
  }

  lemma StringsMeanAlike(compiles: string -> bool, search: (string, string) -> bool, v: Json, s: Json)
    requires v.Str? && s.Obj? && KeywordsWellFormed(s) && FitsOwn(v, s)
    ensures MeansString(search, v, s) <==> SatisfiesString(PythonRules(compiles, search), v, s)
  {
    SizesMeanAlike(s, "minLength", |v.text|, true);
    SizesMeanAlike(s, "maxLength", |v.text|, false);
  }

  lemma {:induction false} CombinatorsMeanAlike(compiles: string -> bool, search: (string, string) -> bool, v: Json,
      s: Json)
    requires s.Obj? && WellFormed(s) && Fits(v, s)
    ensures "allOf" in s.members ==>
      (MeansList(search, v, s.members["allOf"], "allOf") <==>
        ListHolds(PythonRules(compiles, search), v, s.members["allOf"], "allOf"))
    ensures "anyOf" in s.members ==>
      (MeansList(search, v, s.members["anyOf"], "anyOf") <==>
        ListHolds(PythonRules(compiles, search), v, s.members["anyOf"], "anyOf"))
    ensures "oneOf" in s.members ==>
      (MeansList(search, v, s.members["oneOf"], "oneOf") <==>
        ListHolds(PythonRules(compiles, search), v, s.members["oneOf"], "oneOf"))
    decreases s, 0
  {
    if "allOf" in s.members {
      ListsMeanAlike(compiles, search, v, s.members["allOf"], "allOf");
    }
    if "anyOf" in s.members {
      ListsMeanAlike(compiles, search, v, s.members["anyOf"], "anyOf");
    }
    if "oneOf" in s.members {
      ListsMeanAlike(compiles, search, v, s.members["oneOf"], "oneOf");
    }
  }

  lemma {:induction false} MeansAlike(compiles: string -> bool, search: (string, string) -> bool, v: Json, s: Json)
    requires WellFormed(s) && Fits(v, s)
    ensures Means(search, v, s) <==> Satisfies(PythonRules(compiles, search), v, s)
    decreases s, 1
  {
    if s.Obj? {
      CombinatorsMeanAlike(compiles, search, v, s);
      OwnMeansAlike(compiles, search, v, s);
      if v.Obj? {
        ObjectsMeanAlike(compiles, search, v, s);
      } else if v.Arr? {
        ArraysMeanAlike(compiles, search, v, s);
      } else if v.Str? {
        StringsMeanAlike(compiles, search, v, s);
      }
    }
  }

  /**
    For every well-formed schema and every value that meets no departure on its way through it, any verdict the
    validator reaches is the standard's; and it reaches one whenever the patterns of the schema compile.
   */
  lemma StandardAgreement(compiles: string -> bool, search: (string, string) -> bool, v: Json, s: Json, p: Path)
    requires WellFormed(s) && Fits(v, s)
    ensures var verdict := Validate(PythonRules(compiles, search), v, s, p);
      && (verdict.Valid? ==> Means(search, v, s))
      && (verdict.Invalid? ==> !Means(search, v, s))
      && (PatternsCompile(compiles, s) ==> !verdict.Fault?)
  {
    var rules := PythonRules(compiles, search);
    MeansAlike(compiles, search, v, s);
    Agreement(rules, v, s, p);
    if PatternsCompile(compiles, s) {
      CompilingIsRegular(compiles, search, s);
      RegularReachesVerdict(rules, v, s, p);
    }
  }

  // ---------------------------------------------------------------- patterns

  /** Every pattern in the schema compiles. */
  ghost predicate PatternsCompile(compiles: string -> bool, s: Json)
    decreases s, 1
  {
    s.Obj? ==>
      && ("pattern" in s.members && s.members["pattern"].Str? ==> compiles(s.members["pattern"].text))
      && ("allOf" in s.members ==> ListCompiles(compiles, s.members["allOf"]))
      && ("anyOf" in s.members ==> ListCompiles(compiles, s.members["anyOf"]))
      && ("oneOf" in s.members ==> ListCompiles(compiles, s.members["oneOf"]))
      && ("properties" in s.members && s.members["properties"].Obj? ==>
          forall n :: n in s.members["properties"].members ==>
            PatternsCompile(compiles, s.members["properties"].members[n]))
      && ("additionalProperties" in s.members ==> PatternsCompile(compiles, s.members["additionalProperties"]))
      && ("items" in s.members ==> PatternsCompile(compiles, s.members["items"]))
  }

  ghost predicate ListCompiles(compiles: string -> bool, list: Json)
    decreases list, 0
  {
    list.Arr? ==> forall i :: 0 <= i < |list.items| ==> PatternsCompile(compiles, list.items[i])
  }

  /** A well-formed schema whose patterns compile lets the validator reach a verdict. */
  lemma {:induction false} CompilingIsRegular(compiles: string -> bool, search: (string, string) -> bool, s: Json)
    requires WellFormed(s) && PatternsCompile(compiles, s)
    ensures Regular(PythonRules(compiles, search), s)
    decreases s, 1
  {
    if s.Obj? {
      forall keyword | keyword in {"allOf", "anyOf", "oneOf"} && keyword in s.members
        ensures RegularList(PythonRules(compiles, search), s.members[keyword])
      {
        CompilingListIsRegular(compiles, search, s.members[keyword]);
      }
      if "properties" in s.members {
        forall n | n in s.members["properties"].members
          ensures Regular(PythonRules(compiles, search), s.members["properties"].members[n])
        {
          CompilingIsRegular(compiles, search, s.members["properties"].members[n]);
        }
      }
      if "additionalProperties" in s.members {
        CompilingIsRegular(compiles, search, s.members["additionalProperties"]);
      }
      if "items" in s.members {
        CompilingIsRegular(compiles, search, s.members["items"]);
      }
    }
  }

  lemma {:induction false} CompilingListIsRegular(compiles: string -> bool, search: (string, string) -> bool,
      list: Json)
    requires WellFormedList(list) && ListCompiles(compiles, list)
    ensures RegularList(PythonRules(compiles, search), list)
    decreases list, 0
  {
    forall i | 0 <= i < |list.items| ensures Regular(PythonRules(compiles, search), list.items[i]) {
      CompilingIsRegular(compiles, search, list.items[i]);
    }
  }

  // ---------------------------------------------------------------- each departure

  function Only(keyword: string, x: Json): Json {
    Obj(map[keyword := x])
  }

  /** Validator and standard give the same verdict. */
  ghost predicate Agree(compiles: string -> bool, search: (string, string) -> bool, v: Json, s: Json, p: Path) {
    var verdict := Validate(PythonRules(compiles, search), v, s, p);
    !verdict.Fault? && (verdict.Valid? <==> Means(search, v, s))
  }

  /** For a schema without subschemas and patterns the verdict is the relation's. */
  lemma OwnVerdict(compiles: string -> bool, search: (string, string) -> bool, v: Json, s: Json, p: Path)
    requires Regular(PythonRules(compiles, search), s)
    ensures Agree(compiles, search, v, s, p) <==>
      (Satisfies(PythonRules(compiles, search), v, s) <==> Means(search, v, s))
    ensures Validate(PythonRules(compiles, search), v, s, p).Valid? <==> Satisfies(PythonRules(compiles, search), v, s)
    ensures !Validate(PythonRules(compiles, search), v, s, p).Fault?
  {
    RegularAgreement(PythonRules(compiles, search), v, s, p);
  }

  /** A schema with nothing but const, enum or type. */
  lemma OwnKeyword(compiles: string -> bool, search: (string, string) -> bool, v: Json, keyword: string, x: Json,
      p: Path)
    requires keyword in {"const", "enum", "type"} && (keyword == "type" ==> PlainType(x))
    ensures var s, rules := Only(keyword, x), PythonRules(compiles, search);
      && (Means(search, v, s) <==> MeansOwn(v, s)) && !Validate(rules, v, s, p).Fault?
      && (Validate(rules, v, s, p).Valid? <==> SatisfiesOwn(rules, v, s))
      && (Agree(compiles, search, v, s, p) <==> (SatisfiesOwn(rules, v, s) <==> MeansOwn(v, s)))
  {
    OwnMeans(search, v, keyword, x);
    OwnSatisfies(PythonRules(compiles, search), v, keyword, x);
    OwnVerdict(compiles, search, v, Only(keyword, x), p);
  }

  lemma OwnMeans(search: (string, string) -> bool, v: Json, keyword: string, x: Json)
    requires keyword in {"const", "enum", "type"}
    ensures Means(search, v, Only(keyword, x)) <==> MeansOwn(v, Only(keyword, x))
  {
    var s := Only(keyword, x);
    assert forall k :: k in s.members <==> k == keyword;
    if v.Obj? {
      assert MeansObject(search, v, s);
    } else if v.Arr? {
      assert MeansArray(search, v, s);
    } else if v.Str? {
      assert MeansString(search, v, s);
    }
  }

  lemma OwnSatisfies(r: Rules, v: Json, keyword: string, x: Json)
    requires keyword in {"const", "enum", "type"} && (keyword == "type" ==> PlainType(x))
    ensures Regular(r, Only(keyword, x))
    ensures Satisfies(r, v, Only(keyword, x)) <==> SatisfiesOwn(r, v, Only(keyword, x))
  {
    var s := Only(keyword, x);
    assert forall k :: k in s.members <==> k == keyword;
    assert Regular(r, s);
    if v.Obj? {
      assert SatisfiesObject(r, v, s);
    } else if v.Arr? {
      assert SatisfiesArray(r, v, s);
    } else if v.Str? {
      assert SatisfiesString(r, v, s);
    }
  }

  /** A boolean schema is a schema of its own; the verdicts agree exactly for `false`. */
  lemma BooleanSchemaDeparts(compiles: string -> bool, search: (string, string) -> bool, v: Json, flag: bool, p: Path)
    ensures WellFormed(Bool(flag))
    ensures Validate(PythonRules(compiles, search), v, Bool(flag), p) == Invalid(p, SchemaNotObject)
    ensures Agree(compiles, search, v, Bool(flag), p) <==> !flag
  {
  }

  /** For `{"type": "integer"}` the verdicts agree exactly on values other than floats without a fractional part. */
  lemma IntegerDeparts(compiles: string -> bool, search: (string, string) -> bool, v: Json, p: Path)
    ensures var s := Only("type", Str("integer"));
      WellFormed(s) && (Agree(compiles, search, v, s, p) <==> !(v.Float? && Integral(v.x)))
  {
    OwnKeyword(compiles, search, v, "type", Str("integer"), p);
  }

  /** `{"type": name}` accepts exactly the values of one kind, and none under a name that is not one of the seven. */
  lemma TypeNames(compiles: string -> bool, search: (string, string) -> bool, v: Json, name: string, p: Path)
    ensures var accepted := Validate(PythonRules(compiles, search), v, Only("type", Str(name)), p).Valid?;
      && (name == "null" ==> (accepted <==> v.Null?)) && (name == "boolean" ==> (accepted <==> v.Bool?))
      && (name == "integer" ==> (accepted <==> v.Int?)) && (name == "number" ==> (accepted <==> v.Int? || v.Float?))
      && (name == "string" ==> (accepted <==> v.Str?)) && (name == "array" ==> (accepted <==> v.Arr?))
      && (name == "object" ==> (accepted <==> v.Obj?)) && (name !in TYPE_NAMES ==> !accepted)
  {
    OwnKeyword(compiles, search, v, "type", Str(name), p);
  }

  lemma OneIsAnInteger(compiles: string -> bool, search: (string, string) -> bool, p: Path)
    ensures var s := Only("type", Str("integer"));
      Means(search, Float(1.0), s) && Validate(PythonRules(compiles, search), Float(1.0), s, p).Invalid?
  {
    var s := Only("type", Str("integer"));
    assert Integral(1.0) && MeansOwn(Float(1.0), s) && !SatisfiesOwn(PythonRules(compiles, search), Float(1.0), s);
    OwnKeyword(compiles, search, Float(1.0), "type", Str("integer"), p);
  }

  /** The size a keyword is about, for the values it is about. */
  function Measured(v: Json, keyword: string): Option<int> {
    if v.Str? && keyword in {"minLength", "maxLength"} then Some(|v.text|)
    else if v.Arr? && keyword in {"minItems", "maxItems"} then Some(|v.items|)
    else None
  }

  predicate IsLower(keyword: string) {
    keyword in {"minItems", "minLength"}
  }

  lemma SizeWellFormed(r: Rules, keyword: string, bound: Json)
    requires keyword in SIZES
    ensures Regular(r, Only(keyword, bound)) && (WellFormed(Only(keyword, bound)) <==> Size(bound).Some?)
  {
    var s := Only(keyword, bound);
    assert forall k :: k in s.members <==> k == keyword;
    assert s.members[keyword] == bound;
  }

  /** Among the size keywords only `keyword` occurs in `Only(keyword, bound)`; the others hold. */
  lemma SizeMeans(search: (string, string) -> bool, v: Json, keyword: string, bound: Json)
    requires keyword in SIZES
    ensures var s, size := Only(keyword, bound), Measured(v, keyword);
      Means(search, v, s) <==> (size.Some? ==> MeetsSize(s, keyword, size.value, IsLower(keyword)))
  {
    var s := Only(keyword, bound);
    assert forall k :: k in s.members <==> k == keyword;
    assert NumberOf(v).Some? ==> Measured(v, keyword).None?;
  }

  lemma SizeSatisfies(r: Rules, v: Json, keyword: string, bound: Json)
    requires keyword in SIZES
    ensures var s, size := Only(keyword, bound), Measured(v, keyword);
      Satisfies(r, v, s) <==> (size.Some? ==> IntBoundHolds(s, keyword, size.value, IsLower(keyword)))
  {
    var s := Only(keyword, bound);
    assert forall k :: k in s.members <==> k == keyword;
    assert NumberOf(v).Some? ==> Measured(v, keyword).None?;
  }

  lemma SizeVerdict(compiles: string -> bool, search: (string, string) -> bool, v: Json, keyword: string, bound: Json,
      p: Path)
    requires keyword in SIZES
    ensures var s, size := Only(keyword, bound), Measured(v, keyword);
      && (Validate(PythonRules(compiles, search), v, s, p).Valid? <==>
          (size.Some? ==> IntBoundHolds(s, keyword, size.value, IsLower(keyword))))
      && (Agree(compiles, search, v, s, p) <==>
          (size.Some? ==> (IntBoundHolds(s, keyword, size.value, IsLower(keyword)) <==>
            MeetsSize(s, keyword, size.value, IsLower(keyword)))))
  {
    SizeWellFormed(PythonRules(compiles, search), keyword, bound);
    OwnVerdict(compiles, search, v, Only(keyword, bound), p);
    SizeMeans(search, v, keyword, bound);
    SizeSatisfies(PythonRules(compiles, search), v, keyword, bound);
  }

  /**
    A size written as a float without a fractional part refuses every value of its kind: the verdicts agree exactly
    on values of another kind or of a size that breaks the bound.
   */
  lemma FloatSizeDeparts(compiles: string -> bool, search: (string, string) -> bool, v: Json, keyword: string, x: real,
      p: Path)
    requires keyword in SIZES && x >= 0.0 && Integral(x)
    ensures var s := Only(keyword, Float(x));
      var size := Measured(v, keyword);
      && WellFormed(s)
      && (Validate(PythonRules(compiles, search), v, s, p).Valid? <==> size.None?)
      && (Agree(compiles, search, v, s, p) <==>
          (size.Some? ==> if IsLower(keyword) then size.value < x.Floor else x.Floor < size.value))
  {
    SizeWellFormed(PythonRules(compiles, search), keyword, Float(x));
    SizeVerdict(compiles, search, v, keyword, Float(x), p);
  }

  /** A size written as an integer is well-formed unless negative, and then the verdicts agree on every value. */
  lemma IntegerSizeAgrees(compiles: string -> bool, search: (string, string) -> bool, v: Json, keyword: string, n: int,
      p: Path)
    requires keyword in SIZES
    ensures var s := Only(keyword, Int(n));
      var size := Measured(v, keyword);
      && (WellFormed(s) <==> n >= 0)
      && (Validate(PythonRules(compiles, search), v, s, p).Valid? <==>
          (size.Some? ==> if IsLower(keyword) then n <= size.value else size.value <= n))
      && (n >= 0 ==> Agree(compiles, search, v, s, p))
  {
    SizeWellFormed(PythonRules(compiles, search), keyword, Int(n));
    SizeVerdict(compiles, search, v, keyword, Int(n), p);
  }

  /** A boolean is no size, yet the validator counts it as 0 or 1. */
  lemma BooleanSizeDeparts(compiles: string -> bool, search: (string, string) -> bool, v: Json, keyword: string,
      flag: bool, p: Path)
    requires keyword in SIZES
    ensures var s := Only(keyword, Bool(flag));
      var bound, size := if flag then 1 else 0, Measured(v, keyword);
      && !WellFormed(s)
      && (Validate(PythonRules(compiles, search), v, s, p).Valid? <==>
          (size.Some? ==> if IsLower(keyword) then bound <= size.value else size.value <= bound))
  {
    SizeWellFormed(PythonRules(compiles, search), keyword, Bool(flag));
    SizeVerdict(compiles, search, v, keyword, Bool(flag), p);
  }

  /** For a constant the verdicts agree exactly on the values Python does not confuse with it. */
  lemma ConstantDeparts(compiles: string -> bool, search: (string, string) -> bool, v: Json, c: Json, p: Path)
    ensures var s := Only("const", c);
      WellFormed(s) && (Agree(compiles, search, v, s, p) <==> !Confused(v, c))
  {
    OwnKeyword(compiles, search, v, "const", c, p);
    ConstantsMeanAlike(compiles, search, v, c);
  }

  /** `{"const": true}` accepts the number 1 and `{"const": 1}` accepts `true`; the standard accepts neither. */
  lemma TrueIsOne(compiles: string -> bool, search: (string, string) -> bool, p: Path)
    ensures var rules := PythonRules(compiles, search);
      && Validate(rules, Int(1), Only("const", Bool(true)), p).Valid?
      && Validate(rules, Bool(true), Only("const", Int(1)), p).Valid?
      && !Means(search, Int(1), Only("const", Bool(true))) && !Means(search, Bool(true), Only("const", Int(1)))
  {
    ConstantDeparts(compiles, search, Int(1), Bool(true), p);
    ConstantDeparts(compiles, search, Bool(true), Int(1), p);
    assert Confused(Int(1), Bool(true)) && Confused(Bool(true), Int(1));
  }

  /** For an enumeration the verdicts agree exactly on values Python confuses with no choice or that are a choice. */
  lemma EnumDeparts(compiles: string -> bool, search: (string, string) -> bool, v: Json, choices: seq<Json>, p: Path)
    ensures var s := Only("enum", Arr(choices));
      WellFormed(s) && (Agree(compiles, search, v, s, p) <==> FitsChoice(v, choices))
  {
    OwnKeyword(compiles, search, v, "enum", Arr(choices), p);
    ChoicesMeanAlike(compiles, search, v, Arr(choices));
  }
}
