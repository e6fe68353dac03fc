/** `StudioRegistry.ts`: the stored component list and its save, rename and delete operations. */
module Studio {
  import opened Collections

  datatype Component = Component(id: string, name: string, category: string, code: string, updatedAt: int)

  // ---------------------------------------------------------------- candidate ids

  const DIGITS := "0123456789"

  function Decimal(n: nat): (s: string)
    ensures s != []
  {
    if n < 10 then [DIGITS[n]] else Decimal(n / 10) + [DIGITS[n % 10]]
  }

  lemma DigitsDiffer(a: nat, b: nat)
    requires a < 10 && b < 10 && DIGITS[a] == DIGITS[b]
    ensures a == b
  {
    assert forall i :: 0 <= i < 10 ==> DIGITS[i] as int == 48 + i;
  }

  lemma {:induction false} DecimalInjective(a: nat, b: nat)
    requires Decimal(a) == Decimal(b)
    ensures a == b
  {
    var s, t := Decimal(a), Decimal(b);
    assert s[|s| - 1] == DIGITS[a % 10] && t[|t| - 1] == DIGITS[b % 10];
    DigitsDiffer(a % 10, b % 10);
    if a >= 10 && b >= 10 {
      assert s[..|s| - 1] == Decimal(a / 10) && t[..|t| - 1] == Decimal(b / 10);
      DecimalInjective(a / 10, b / 10);
    }
  }

  /** The number a string of decimal digits stands for. */
  ghost function ValueOf(s: string): int {
    if s == [] then 0 else 10 * ValueOf(s[..|s| - 1]) + (s[|s| - 1] as int - 48)
  }

  ghost predicate Numeral(s: string, n: nat) {
    && s != [] && (forall i :: 0 <= i < |s| ==> 48 <= s[i] as int <= 57) && (n > 0 ==> s[0] as int != 48)
    && ValueOf(s) == n
  }

  /** The printed number is its decimal numeral, without leading zeros. */
  lemma {:induction false} DecimalMeans(n: nat)
    ensures Numeral(Decimal(n), n)
  {
    var s, last := Decimal(n), n % 10;
    assert forall i :: 0 <= i < 10 ==> DIGITS[i] as int == 48 + i;
    if n >= 10 {
      DecimalMeans(n / 10);
      assert s[..|s| - 1] == Decimal(n / 10) && s[|s| - 1] == DIGITS[last];
    } else {
      assert s[..0] == [] && ValueOf(s) == n;
    }
  }

  /** The series a rename tries: the slug itself, then the slug with `-1`, `-2`, and so on. */
  function Candidate(slug: string, k: nat): string {
    if k == 0 then slug else slug + "-" + Decimal(k)
  }

  lemma CandidateMeans(slug: string, k: nat)
    ensures Candidate(slug, 0) == slug
    ensures k > 0 ==> exists numeral :: Numeral(numeral, k) && Candidate(slug, k) == slug + "-" + numeral
  {
    DecimalMeans(k);
  }

  lemma CandidatesDiffer(slug: string, a: nat, b: nat)
    requires Candidate(slug, a) == Candidate(slug, b)
    ensures a == b
  {
    if a > 0 && b > 0 {
      assert Candidate(slug, a)[|slug| + 1..] == Decimal(a);
      assert Candidate(slug, b)[|slug| + 1..] == Decimal(b);
      DecimalInjective(a, b);
    } else if a > 0 || b > 0 {
      assert |Candidate(slug, a)| == |Candidate(slug, b)|;
    }
  }

  // ---------------------------------------------------------------- the component list

  function IdsOf(cs: seq<Component>): (ids: seq<string>)
    ensures |ids| == |cs| && forall i :: 0 <= i < |cs| ==> ids[i] == cs[i].id
  {
    seq(|cs|, i requires 0 <= i < |cs| => cs[i].id)
  }

  ghost predicate UniqueIds(cs: seq<Component>) {
    forall i, j :: 0 <= i < j < |cs| ==> cs[i].id != cs[j].id
  }

  /** `components.find(c => c.id === id && c.id !== oldId)` succeeds. */
  predicate Taken(cs: seq<Component>, oldId: string, id: string) {
    exists i :: 0 <= i < |cs| && cs[i].id == id && cs[i].id != oldId
  }

  /** `components.findIndex(c => c.id === id)`, or the length when there is none. */
  function IndexOf(cs: seq<Component>, id: string): (i: nat)
    ensures i <= |cs|
    ensures forall k :: 0 <= k < i ==> cs[k].id != id
    ensures i < |cs| ==> cs[i].id == id
  {
    if cs == [] then 0 else if cs[0].id == id then 0 else 1 + IndexOf(cs[1..], id)
  }

  ghost predicate FirstFree(cs: seq<Component>, oldId: string, slug: string, k: nat) {
    !Taken(cs, oldId, Candidate(slug, k)) && AllTaken(cs, oldId, slug, k)
  }

  /** Pigeonhole: `k` distinct taken candidates need `k` components besides the renamed one. */
  lemma TakenBound(cs: seq<Component>, oldId: string, slug: string, k: nat)
    requires IndexOf(cs, oldId) < |cs| && AllTaken(cs, oldId, slug, k)
    ensures k < |cs|
  {
    var tried := Tried(slug, k);
    var others := ToSet(IdsOf(cs)) - {oldId};
    TriedDiffer(slug, k);
    forall x | x in tried ensures x in others {
      TriedIsTaken(cs, oldId, slug, k, x);
    }
    DistinctCardinality(tried);
    assert ToSet(tried) <= others;
    SubsetCardinality(ToSet(tried), others);
    assert IdsOf(cs)[IndexOf(cs, oldId)] == oldId;
    ToSetCardinality(IdsOf(cs));
    assert ToSet(IdsOf(cs)) == others + {oldId};
  }

  ghost function Tried(slug: string, k: nat): (r: seq<string>)
    ensures |r| == k && forall j: nat :: j < k ==> r[j] == Candidate(slug, j)
  {
    seq(k, j requires 0 <= j < k => Candidate(slug, j))
  }

  lemma TriedDiffer(slug: string, k: nat)
    ensures Distinct(Tried(slug, k))
  {
    var tried := Tried(slug, k);
    forall i, j | 0 <= i < j < k ensures tried[i] != tried[j] {
      if tried[i] == tried[j] {
        CandidatesDiffer(slug, i, j);
      }
    }
  }

  lemma TriedIsTaken(cs: seq<Component>, oldId: string, slug: string, k: nat, x: string)
    requires AllTaken(cs, oldId, slug, k)
    requires x in Tried(slug, k)
    ensures x in ToSet(IdsOf(cs)) && x != oldId
  {
    var j: nat :| j < k && Tried(slug, k)[j] == x;
    assert Taken(cs, oldId, Candidate(slug, j));
    var i :| 0 <= i < |cs| && cs[i].id == x && cs[i].id != oldId;
    assert IdsOf(cs)[i] == x;
  }

  /** The first `k` candidates are taken. */
  ghost predicate AllTaken(cs: seq<Component>, oldId: string, slug: string, k: nat) {
    forall j: nat :: j < k ==> Taken(cs, oldId, Candidate(slug, j))
  }

  lemma OneMoreTaken(cs: seq<Component>, oldId: string, slug: string, k: nat)
    requires AllTaken(cs, oldId, slug, k) && Taken(cs, oldId, Candidate(slug, k))
    ensures AllTaken(cs, oldId, slug, k + 1)
  {
    forall j: nat | j < k + 1 ensures Taken(cs, oldId, Candidate(slug, j)) {
      assert j < k || j == k;
    }
  }

  lemma {:induction false} FirstFreeFrom(cs: seq<Component>, oldId: string, slug: string, k: nat) returns (n: nat)
    requires IndexOf(cs, oldId) < |cs| && AllTaken(cs, oldId, slug, k)
    ensures FirstFree(cs, oldId, slug, n)
    decreases |cs| - k
  {
    TakenBound(cs, oldId, slug, k);
    if Taken(cs, oldId, Candidate(slug, k)) {
      OneMoreTaken(cs, oldId, slug, k);
      n := FirstFreeFrom(cs, oldId, slug, k + 1);
    } else {
      n := k;
    }
  }

  lemma SomeFree(cs: seq<Component>, oldId: string, slug: string)
    requires IndexOf(cs, oldId) < |cs|
    ensures exists n: nat :: FirstFree(cs, oldId, slug, n)
  {
    var n := FirstFreeFrom(cs, oldId, slug, 0);
  }

  /** Position in the series of the id a rename picks. */
  ghost function Suffix(cs: seq<Component>, oldId: string, slug: string): (k: nat)
    requires IndexOf(cs, oldId) < |cs|
    ensures FirstFree(cs, oldId, slug, k) && k < |cs|
  {
    SomeFree(cs, oldId, slug);
    var k: nat :| FirstFree(cs, oldId, slug, k);
    TakenBound(cs, oldId, slug, k);
    k
  }

  // ---------------------------------------------------------------- the operations as functions of the list

  function Saved(cs: seq<Component>, c: Component): seq<Component> {
    var i := IndexOf(cs, c.id);
    if i < |cs| then cs[i := c] else cs + [c]
  }

  ghost function Renamed(cs: seq<Component>, oldId: string, slug: string, name: string, now: int): seq<Component> {
    var i := IndexOf(cs, oldId);
    if i < |cs| then
      cs[i := cs[i].(id := Candidate(slug, Suffix(cs, oldId, slug)), name := name, updatedAt := now)]
    else cs
  }

  function Deleted(cs: seq<Component>, id: string): (r: seq<Component>)
    ensures forall c :: c in r <==> c in cs && c.id != id
  {
    if cs == [] then []
    else
      assert cs == [cs[0]] + cs[1..];
      (if cs[0].id != id then [cs[0]] else []) + Deleted(cs[1..], id)
  }

  /** `components.find(c => c.id === id)` */
  function Find(cs: seq<Component>, id: string): Option<Component> {
    if cs == [] then None else if cs[0].id == id then Some(cs[0]) else Find(cs[1..], id)
  }

  lemma {:induction false} FindIndexed(cs: seq<Component>, id: string)
    ensures Find(cs, id) == if IndexOf(cs, id) < |cs| then Some(cs[IndexOf(cs, id)]) else None
  {
    if cs != [] {
      FindIndexed(cs[1..], id);
    }
  }

  lemma FirstWithId(cs: seq<Component>, i: nat)
    requires i < |cs| && forall k :: 0 <= k < i ==> cs[k].id != cs[i].id
    ensures IndexOf(cs, cs[i].id) == i
  {
    assert IndexOf(cs, cs[i].id) <= i;
  }

  /** After a save the component is found under its id, and under every other id what was found before. */
  lemma SavedFinds(cs: seq<Component>, c: Component, x: string)
    ensures Find(Saved(cs, c), x) == if x == c.id then Some(c) else Find(cs, x)
  {
    var i, j, after := IndexOf(cs, c.id), IndexOf(cs, x), Saved(cs, c);
    FindIndexed(cs, x);
    FindIndexed(after, x);
    if x == c.id {
      FirstWithId(after, i);
    } else if j < |cs| {
      FirstWithId(after, j);
    } else {
      assert forall k :: 0 <= k < |after| ==> after[k].id != x;
    }
  }

  lemma {:induction false} DeletedAppends(xs: seq<Component>, ys: seq<Component>, id: string)
    ensures Deleted(xs + ys, id) == Deleted(xs, id) + Deleted(ys, id)
  {
    if xs == [] {
      assert xs + ys == ys;
    } else {
      assert (xs + ys)[0] == xs[0] && (xs + ys)[1..] == xs[1..] + ys;
      DeletedAppends(xs[1..], ys, id);
    }
  }

  /** A save leaves the components with other ids, and their order, as they are. */
  lemma SavedKeepsOthers(cs: seq<Component>, c: Component)
    ensures Deleted(Saved(cs, c), c.id) == Deleted(cs, c.id)
  {
    var i := IndexOf(cs, c.id);
    if i < |cs| {
      assert cs == cs[..i] + ([cs[i]] + cs[i + 1..]);
      assert Saved(cs, c) == cs[..i] + ([c] + cs[i + 1..]);
      DeletedDrops(cs[..i], cs[i], cs[i + 1..]);
      DeletedDrops(cs[..i], c, cs[i + 1..]);
    } else {
      DeletedDrops(cs, c, []);
      assert [c] + [] == [c] && Deleted(cs, c.id) + [] == Deleted(cs, c.id);
    }
  }

  lemma DeletedDrops(xs: seq<Component>, c: Component, ys: seq<Component>)
    ensures Deleted(xs + ([c] + ys), c.id) == Deleted(xs, c.id) + Deleted(ys, c.id)
  {
    DeletedAppends(xs, [c] + ys, c.id);
    DeletedHead(c, ys);
  }

  lemma DeletedHead(c: Component, ys: seq<Component>)
    ensures Deleted([c] + ys, c.id) == Deleted(ys, c.id)
  {
    var cs := [c] + ys;
    assert cs[0] == c && cs[1..] == ys;
    assert Deleted(cs, c.id) == [] + Deleted(cs[1..], c.id);
  }

  /** After a delete nothing is found under the id, and under every other id what was found before. */
  lemma {:induction false} DeletedFinds(cs: seq<Component>, id: string, x: string)
    ensures Find(Deleted(cs, id), x) == if x == id then None else Find(cs, x)
  {
    if cs != [] {
      var rest := Deleted(cs[1..], id);
      DeletedFinds(cs[1..], id, x);
      if cs[0].id == id {
        assert Deleted(cs, id) == rest;
      } else {
        assert Deleted(cs, id) == [cs[0]] + rest;
        FindInCons(cs[0], rest, x);
      }
    }
  }

  lemma FindInCons(c: Component, rest: seq<Component>, x: string)
    ensures Find([c] + rest, x) == if c.id == x then Some(c) else Find(rest, x)
  {
    assert ([c] + rest)[1..] == rest;
  }

  /** Deleting an id that is not there changes nothing. */
  lemma {:induction false} DeletedAbsent(cs: seq<Component>, id: string)
    requires Find(cs, id).None?
    ensures Deleted(cs, id) == cs
  {
    if cs != [] {
      DeletedAbsent(cs[1..], id);
      assert cs == [cs[0]] + cs[1..];
    }
  }

  /** Of a list with unique ids a delete takes exactly one entry when the id is there. */
  lemma {:induction false} DeletedShorter(cs: seq<Component>, id: string)
    requires UniqueIds(cs) && Find(cs, id).Some?
    ensures |Deleted(cs, id)| == |cs| - 1
  {
    var rest := cs[1..];
    assert forall k :: 0 <= k < |rest| ==> rest[k].id != cs[0].id;
    if cs[0].id != id {
      DeletedShorter(rest, id);
    } else {
      FindIndexed(rest, id);
      DeletedAbsent(rest, id);
    }
  }

  class StudioRegistry {
    var stored: seq<Component>

    constructor ()
      ensures stored == []
    {
      stored := [];
    }

    /** The component is found under its id afterwards; the others, their order and all other lookups stay. */
    method SaveComponent(id: string, name: string, category: string, code: string, now: int)
      modifies this
      ensures stored == Saved(old(stored), Component(id, name, category, code, now))
      ensures Find(stored, id) == Some(Component(id, name, category, code, now))
      ensures forall x :: x != id ==> Find(stored, x) == Find(old(stored), x)
      ensures Deleted(stored, id) == Deleted(old(stored), id)
      ensures |stored| == |old(stored)| + if Find(old(stored), id).None? then 1 else 0
    {
      var index := IndexOf(stored, id);
      var comp := Component(id, name, category, code, now);
      SavedKeepsOthers(stored, comp);
      FindIndexed(stored, id);
      forall x ensures Find(Saved(stored, comp), x) == if x == id then Some(comp) else Find(stored, x) {
        SavedFinds(stored, comp, x);
      }
      if index < |stored| {
        stored := stored[index := comp];
      } else {
        stored := stored + [comp];
      }
    }

    /** Returns the id finally given; `slugOf` is the lower-casing and the replacement of white space. */
    method RenameComponent(oldId: string, newName: string, slugOf: string -> string, now: int)
        returns (finalId: string, ghost turns: nat)
      modifies this
      ensures stored == Renamed(old(stored), oldId, slugOf(newName), newName, now)
      ensures IndexOf(old(stored), oldId) == |old(stored)| ==> finalId == oldId && turns == 0 && stored == old(stored)
      ensures |stored| == |old(stored)|
      ensures forall i :: 0 <= i < |stored| && i != IndexOf(old(stored), oldId) ==> stored[i] == old(stored)[i]
      ensures var i := IndexOf(old(stored), oldId);
        i < |stored| ==>
          stored[i] == Component(finalId, newName, old(stored)[i].category, old(stored)[i].code, now)
      ensures IndexOf(old(stored), oldId) < |old(stored)| ==>
        finalId == Candidate(slugOf(newName), turns) &&
          FirstFree(old(stored), oldId, slugOf(newName), turns) && turns < |stored|
    {
      turns := 0;
      var index := IndexOf(stored, oldId);
      if index == |stored| {
        return oldId, 0;
      }
      var newId := slugOf(newName);
      finalId := newId;
      var counter := 1;
      while Taken(stored, oldId, finalId)
        invariant stored == old(stored) && counter == turns + 1 && finalId == Candidate(newId, turns)
        invariant AllTaken(stored, oldId, newId, turns)
        decreases |stored| - turns
      {
        OneMoreTaken(stored, oldId, newId, turns);
        TakenBound(stored, oldId, newId, turns + 1);
        finalId := newId + "-" + Decimal(counter);
        counter := counter + 1;
        turns := turns + 1;
      }
      TakenBound(stored, oldId, newId, turns);
      FirstFreeUnique(stored, oldId, newId, turns, Suffix(stored, oldId, newId));
      stored := stored[index := stored[index].(id := finalId, name := newName, updatedAt := now)];
    }

    /** Nothing is found under the id afterwards, all other lookups stay; an absent id changes nothing. */
    method DeleteComponent(id: string)
      modifies this
      ensures stored == Deleted(old(stored), id)
      ensures forall x :: Find(stored, x) == if x == id then None else Find(old(stored), x)
      ensures Find(old(stored), id).None? ==> stored == old(stored)
      ensures Find(old(stored), id).Some? && UniqueIds(old(stored)) ==> |stored| == |old(stored)| - 1
    {
      if Find(stored, id).None? {
        DeletedAbsent(stored, id);
      } else if UniqueIds(stored) {
        DeletedShorter(stored, id);
      }
      forall x ensures Find(Deleted(stored, id), x) == if x == id then None else Find(stored, x) {
        DeletedFinds(stored, id, x);
      }
      stored := Deleted(stored, id);
    }
  }

  lemma FirstFreeUnique(cs: seq<Component>, oldId: string, slug: string, a: nat, b: nat)
    requires FirstFree(cs, oldId, slug, a) && FirstFree(cs, oldId, slug, b)
    ensures a == b
  {
  }

  // ---------------------------------------------------------------- unique ids over every run

  datatype Operation =
    | Save(component: Component)
    | Rename(oldId: string, slug: string, name: string, now: int)
    | Delete(id: string)

  ghost function Apply(cs: seq<Component>, op: Operation): seq<Component> {
    match op
    case Save(c) => Saved(cs, c)
    case Rename(oldId, slug, name, now) => Renamed(cs, oldId, slug, name, now)
    case Delete(id) => Deleted(cs, id)
  }

  ghost function Run(cs: seq<Component>, ops: seq<Operation>): seq<Component>
    decreases |ops|
  {
    if ops == [] then cs else Run(Apply(cs, ops[0]), ops[1..])
  }

  lemma {:induction false} DeletedUnique(cs: seq<Component>, id: string)
    requires UniqueIds(cs)
    ensures UniqueIds(Deleted(cs, id))
  {
    if cs != [] {
      DeletedUnique(cs[1..], id);
      var rest := Deleted(cs[1..], id);
      forall j | 0 <= j < |rest| ensures rest[j].id != cs[0].id {
        assert rest[j] in cs[1..];
        var k :| 0 <= k < |cs[1..]| && cs[1..][k] == rest[j];
        assert cs[k + 1] == rest[j];
      }
    }
  }

  lemma StepKeepsUnique(cs: seq<Component>, op: Operation)
    requires UniqueIds(cs)
    ensures UniqueIds(Apply(cs, op))
  {
    match op
    case Save(c) =>
    case Rename(oldId, slug, name, now) =>
      var i := IndexOf(cs, oldId);
      if i < |cs| {
        var id := Candidate(slug, Suffix(cs, oldId, slug));
        assert !Taken(cs, oldId, id);
        forall k | 0 <= k < |cs| && k != i ensures cs[k].id != id {
          assert k < i ==> cs[k].id != cs[i].id;
          assert i < k ==> cs[i].id != cs[k].id;
        }
      }
    case Delete(id) => DeletedUnique(cs, id);
  }

  /** Every sequence of saves, renames and deletes keeps the ids unique. */
  lemma {:induction false} RunKeepsUnique(cs: seq<Component>, ops: seq<Operation>)
    requires UniqueIds(cs)
    ensures UniqueIds(Run(cs, ops))
    decreases |ops|
  {
    if ops != [] {
      StepKeepsUnique(cs, ops[0]);
      RunKeepsUnique(Apply(cs, ops[0]), ops[1..]);
    }
  }

  /** Renaming a component to the name it already carries keeps its id. */
  lemma RenameToOwnId(cs: seq<Component>, id: string, name: string, now: int)
    requires IndexOf(cs, id) < |cs|
    ensures Renamed(cs, id, id, name, now)[IndexOf(cs, id)].id == id
  {
    assert !Taken(cs, id, Candidate(id, 0));
    FirstFreeUnique(cs, id, id, 0, Suffix(cs, id, id));
  }
}
