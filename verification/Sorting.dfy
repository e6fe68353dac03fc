/**
  Ordering of strings by code point and the stable sort behind `sorted(...)` and
  `list.sort()`.
 */
module Sorting {
  import opened Collections

  /** Strict lexicographic order, the order Python gives to strings. */
  predicate StrLess(a: string, b: string) {
    b != [] && (a == [] || a[0] < b[0] || (a[0] == b[0] && StrLess(a[1..], b[1..])))
  }

  predicate StrLe(a: string, b: string) {
    a == b || StrLess(a, b)
  }

  /** The strings agree up to position `k` and differ there. */
  ghost predicate FirstDifference(a: string, b: string, k: nat) {
    k < |a| && k < |b| && a[..k] == b[..k] && a[k] != b[k]
  }

  /** `a` is a proper prefix of `b`, or has the smaller code point where the two first differ. */
  ghost predicate ByCodePoint(a: string, b: string) {
    (|a| < |b| && b[..|a|] == a) || exists k: nat :: FirstDifference(a, b, k) && a[k] as int < b[k] as int
  }

  /** The order of strings is the order by code point. */
  lemma {:induction false} StrLessMeans(a: string, b: string)
    ensures StrLess(a, b) <==> ByCodePoint(a, b)
  {
    if a != [] && b != [] && a[0] == b[0] {
      StrLessMeans(a[1..], b[1..]);
      TailsByCodePoint(a, b);
    } else if a != [] && b != [] {
      assert FirstDifference(a, b, 0);
    }
  }

  lemma TailsByCodePoint(a: string, b: string)
    requires a != [] && b != [] && a[0] == b[0]
    ensures ByCodePoint(a, b) <==> ByCodePoint(a[1..], b[1..])
  {
    var s, t := a[1..], b[1..];
    assert a == [a[0]] + s && b == [b[0]] + t;
    assert forall k: nat :: k <= |s| && k <= |t| ==> a[..k + 1] == [a[0]] + s[..k] && b[..k + 1] == [b[0]] + t[..k];
    forall k: nat ensures FirstDifference(s, t, k) <==> FirstDifference(a, b, k + 1) {
      if k < |s| && k < |t| {
        assert a[1..][..k] == a[..k + 1][1..] && b[1..][..k] == b[..k + 1][1..];
      }
    }
    assert !FirstDifference(a, b, 0);
    if k: nat :| FirstDifference(a, b, k) && a[k] as int < b[k] as int {
      assert FirstDifference(s, t, k - 1);
    }
    if k: nat :| FirstDifference(s, t, k) && s[k] as int < t[k] as int {
      assert FirstDifference(a, b, k + 1);
    }
  }

  /** The lists of keys agree up to some position, and the first has the smaller key there; or they are the same. */
  ghost predicate KeysInOrder(a: seq<string>, b: seq<string>)
    requires |a| == |b|
  {
    a == b || exists k: nat :: SmallerAt(a, b, k)
  }

  ghost predicate SmallerAt(a: seq<string>, b: seq<string>, k: nat)
    requires |a| == |b|
  {
    k < |a| && (forall j :: 0 <= j < k ==> a[j] == b[j]) && ByCodePoint(a[k], b[k])
  }

  ghost predicate Total<T(!new)>(le: (T, T) -> bool) {
    && (forall a, b :: le(a, b) || le(b, a))
    && (forall a, b, c :: le(a, b) && le(b, c) ==> le(a, c))
  }

  ghost predicate Antisymmetric<T(!new)>(le: (T, T) -> bool) {
    forall a, b :: le(a, b) && le(b, a) ==> a == b
  }

  lemma {:induction false} StrLessIrreflexive(a: string)
    ensures !StrLess(a, a)
  {
    if a != [] {
      StrLessIrreflexive(a[1..]);
    }
  }

  lemma {:induction false} StrLessTransitive(a: string, b: string, c: string)
    requires StrLess(a, b) && StrLess(b, c)
    ensures StrLess(a, c)
  {
    if a != [] && a[0] == b[0] == c[0] {
      StrLessTransitive(a[1..], b[1..], c[1..]);
    }
  }

  lemma LessChain(a: string, b: string, c: string)
    ensures StrLess(a, b) && StrLess(b, c) ==> StrLess(a, c)
    ensures !StrLess(a, a)
  {
    StrLessIrreflexive(a);
    if StrLess(a, b) && StrLess(b, c) {
      StrLessTransitive(a, b, c);
    }
  }

  lemma {:induction false} StrTrichotomy(a: string, b: string)
    ensures a == b || StrLess(a, b) || StrLess(b, a)
  {
    if a != [] && b != [] && a[0] == b[0] {
      StrTrichotomy(a[1..], b[1..]);
      assert a == [a[0]] + a[1..] && b == [b[0]] + b[1..];
    }
  }

  /** Strings are totally ordered: every sort below has exactly one result. */
  lemma StrLeIsTotalOrder()
    ensures Total(StrLe) && Antisymmetric(StrLe)
  {
    forall a, b ensures StrLe(a, b) || StrLe(b, a) {
      StrTrichotomy(a, b);
    }
    forall a, b, c | StrLe(a, b) && StrLe(b, c) ensures StrLe(a, c) {
      if a != b && b != c {
        StrLessTransitive(a, b, c);
      }
    }
    forall a, b | StrLe(a, b) && StrLe(b, a) ensures a == b {
      if a != b {
        StrLessTransitive(a, b, a);
        StrLessIrreflexive(a);
      }
    }
  }

  ghost predicate Sorted<T>(s: seq<T>, le: (T, T) -> bool) {
    forall i, j :: 0 <= i < j < |s| ==> le(s[i], s[j])
  }

  function Insert<T>(x: T, s: seq<T>, le: (T, T) -> bool): (r: seq<T>)
    ensures multiset(r) == multiset(s) + multiset{x}
  {
    if s == [] then [x]
    else if le(x, s[0]) then [x] + s
    else
      assert s == [s[0]] + s[1..];
      [s[0]] + Insert(x, s[1..], le)
  }

  function Sort<T>(s: seq<T>, le: (T, T) -> bool): (r: seq<T>)
    ensures multiset(r) == multiset(s)
  {
    if s == [] then []
    else
      assert s == [s[0]] + s[1..];
      Insert(s[0], Sort(s[1..], le), le)
  }

  lemma {:induction false} InsertSorted<T(!new)>(x: T, s: seq<T>, le: (T, T) -> bool)
    requires Total(le) && Sorted(s, le)
    ensures Sorted(Insert(x, s, le), le)
  {
    if s != [] && !le(x, s[0]) {
      InsertSorted(x, s[1..], le);
      var tail := Insert(x, s[1..], le);
      forall j | 0 <= j < |tail| ensures le(s[0], tail[j]) {
        assert tail[j] in multiset(tail);
        if tail[j] != x {
          assert tail[j] in multiset(s[1..]);
          assert tail[j] in s[1..];
        }
      }
    }
  }

  lemma {:induction false} SortSorts<T(!new)>(s: seq<T>, le: (T, T) -> bool)
    requires Total(le)
    ensures Sorted(Sort(s, le), le)
  {
    if s != [] {
      SortSorts(s[1..], le);
      InsertSorted(s[0], Sort(s[1..], le), le);
    }
  }

  /** Entries of `s` that tie under `le` are the same entry. */
  ghost predicate NoTies<T>(s: seq<T>, le: (T, T) -> bool) {
    forall i, j :: 0 <= i < |s| && 0 <= j < |s| && le(s[i], s[j]) && le(s[j], s[i]) ==> s[i] == s[j]
  }

  lemma SortedHeads<T>(a: seq<T>, b: seq<T>, le: (T, T) -> bool)
    requires multiset(a) == multiset(b) && Sorted(a, le) && Sorted(b, le) && NoTies(a, le) && a != []
    ensures b != [] && a[0] == b[0]
  {
    SameMultisetSameElements(a, b);
    assert a[0] in ToSet(b) && b[0] in ToSet(a);
    var i :| 0 <= i < |b| && b[i] == a[0];
    var j :| 0 <= j < |a| && a[j] == b[0];
    if i != 0 && j != 0 {
      assert le(a[0], a[j]) && le(b[0], b[i]);
    }
  }

  lemma TailMultiset<T>(a: seq<T>)
    requires a != []
    ensures multiset(a[1..]) == multiset(a) - multiset{a[0]}
  {
    assert a == [a[0]] + a[1..];
  }

  lemma {:induction false} SortedUnique<T>(a: seq<T>, b: seq<T>, le: (T, T) -> bool)
    requires multiset(a) == multiset(b) && Sorted(a, le) && Sorted(b, le) && NoTies(a, le)
    ensures a == b
  {
    if a == [] {
      assert |multiset(b)| == 0;
    } else {
      SortedHeads(a, b, le);
      TailMultiset(a);
      TailMultiset(b);
      SortedUnique(a[1..], b[1..], le);
      assert a == [a[0]] + a[1..] && b == [b[0]] + b[1..];
    }
  }

  /** The sorted list depends on the collection, not on the order it arrives in. */
  lemma SortPermutation<T(!new)>(a: seq<T>, b: seq<T>, le: (T, T) -> bool)
    requires multiset(a) == multiset(b) && Total(le) && NoTies(a, le)
    ensures Sort(a, le) == Sort(b, le)
  {
    SortSorts(a, le);
    SortSorts(b, le);
    var sa := Sort(a, le);
    SameMultisetSameElements(a, sa);
    forall i, j | 0 <= i < |sa| && 0 <= j < |sa| && le(sa[i], sa[j]) && le(sa[j], sa[i]) ensures sa[i] == sa[j] {
      assert sa[i] in ToSet(a) && sa[j] in ToSet(a);
    }
    SortedUnique(sa, Sort(b, le), le);
  }

  /** Sorting a list that is sorted already leaves it alone. */
  lemma SortIdentity<T(!new)>(a: seq<T>, le: (T, T) -> bool)
    requires Total(le) && NoTies(a, le) && Sorted(a, le)
    ensures Sort(a, le) == a
  {
    SortSorts(a, le);
    SortedUnique(a, Sort(a, le), le);
  }

  // ---------------------------------------------------------------- sets of strings

  lemma AppendNew(s: seq<string>, x: string)
    requires Distinct(s) && x !in ToSet(s)
    ensures Distinct(s + [x]) && ToSet(s + [x]) == ToSet(s) + {x}
  {
    assert forall i :: 0 <= i < |s| ==> s[i] in ToSet(s);
  }

  ghost predicate IsLeast(x: string, s: set<string>) {
    x in s && forall y :: y in s ==> StrLe(x, y)
  }

  lemma {:induction false} LeastExists(s: set<string>)
    requires s != {}
    ensures exists x :: IsLeast(x, s)
  {
    StrLeIsTotalOrder();
    var x :| x in s;
    if s == {x} {
      assert IsLeast(x, s);
    } else {
      LeastExists(s - {x});
      var rest :| IsLeast(rest, s - {x});
      assert IsLeast(if StrLe(x, rest) then x else rest, s);
    }
  }

  /** The alphabetically first member. */
  function Least(s: set<string>): (least: string)
    requires s != {}
    ensures IsLeast(least, s)
  {
    LeastExists(s);
    StrLeIsTotalOrder();
    assert exists x :: x in s && forall y :: y in s ==> StrLe(x, y) by {
      var x :| IsLeast(x, s);
    }
    var least :| least in s && forall y :: y in s ==> StrLe(least, y);
    least
  }

  /** `sorted(s)` for a set: its members in order, once each. */
  function SortedSet(s: set<string>): (r: seq<string>)
    ensures Sorted(r, StrLe) && Distinct(r) && ToSet(r) == s
  {
    if s == {} then []
    else
      var x := Least(s);
      var rest := SortedSet(s - {x});
      assert forall y :: y in rest <==> y in ToSet(rest);
      assert ToSet([x] + rest) == {x} + ToSet(rest);
      [x] + rest
  }

  /** Any duplicate-free listing of a set sorts to the same sequence. */
  lemma SortListsSet(a: seq<string>, s: set<string>)
    requires Distinct(a) && ToSet(a) == s
    ensures Sort(a, StrLe) == SortedSet(s)
  {
    StrLeIsTotalOrder();
    DistinctSameSet(a, SortedSet(s));
    SortSorts(a, StrLe);
    SortedUnique(Sort(a, StrLe), SortedSet(s), StrLe);
  }
}
