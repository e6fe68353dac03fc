/** Facts about finite sequences and sets that several components lean on. */
module Collections {

  datatype Option<+T> = None | Some(value: T)

  datatype Result<+T, +E> = Ok(value: T) | Err(error: E)

  /** No value is listed twice. */
  ghost predicate Distinct<T>(s: seq<T>) {
    forall i, j :: 0 <= i < j < |s| ==> s[i] != s[j]
  }

  function ToSet<T>(s: seq<T>): (r: set<T>) {
    set x | x in s
  }

  /** Every two entries, taken at different positions, are compatible. */
  ghost predicate Pairwise<T>(s: seq<T>, ok: (T, T) -> bool) {
    forall i, j :: 0 <= i < j < |s| ==> ok(s[i], s[j])
  }

  ghost predicate Symmetric<T(!new)>(ok: (T, T) -> bool) {
    forall a, b :: ok(a, b) ==> ok(b, a)
  }

  lemma SameMultisetSameElements<T>(a: seq<T>, b: seq<T>)
    requires multiset(a) == multiset(b)
    ensures |a| == |b| && ToSet(a) == ToSet(b)
  {
    assert |a| == |multiset(a)| == |multiset(b)| == |b|;
    forall x ensures x in a <==> x in b {
      assert x in a <==> x in multiset(a);
      assert x in b <==> x in multiset(b);
    }
  }

  /** A value counted twice sits at two different positions. */
  lemma {:induction false} TwoPositions<T>(s: seq<T>, x: T) returns (i: int, j: int)
    requires multiset(s)[x] >= 2
    ensures 0 <= i < j < |s| && s[i] == x && s[j] == x
  {
    var last := |s| - 1;
    assert s == s[..last] + [s[last]];
    if s[last] == x {
      assert x in multiset(s[..last]);
      i :| 0 <= i < last && s[i] == x;
      j := last;
    } else {
      i, j := TwoPositions(s[..last], x);
    }
  }

  lemma CountedTwice<T>(s: seq<T>, i: int, j: int)
    requires 0 <= i < j < |s| && s[i] == s[j]
    ensures multiset(s)[s[i]] >= 2
  {
    assert s == s[..j] + [s[j]] + s[j + 1..];
    assert s[i] in s[..j];
  }

  /** Pairwise compatibility does not depend on the order of the list. */
  lemma PairwisePermutation<T(!new)>(a: seq<T>, b: seq<T>, ok: (T, T) -> bool)
    requires multiset(a) == multiset(b) && Symmetric(ok) && Pairwise(a, ok)
    ensures Pairwise(b, ok)
  {
    SameMultisetSameElements(a, b);
    forall i, j | 0 <= i < j < |b| ensures ok(b[i], b[j]) {
      assert b[i] in ToSet(a) && b[j] in ToSet(a);
      if b[i] == b[j] {
        CountedTwice(b, i, j);
        var p, q := TwoPositions(a, b[i]);
        assert ok(a[p], a[q]);
      } else {
        var p :| 0 <= p < |a| && a[p] == b[i];
        var q :| 0 <= q < |a| && a[q] == b[j];
        assert p < q ==> ok(a[p], a[q]);
        assert q < p ==> ok(a[q], a[p]);
      }
    }
  }

  lemma {:induction false} DistinctCardinality<T>(s: seq<T>)
    requires Distinct(s)
    ensures |ToSet(s)| == |s|
  {
    if s != [] {
      var last := |s| - 1;
      DistinctCardinality(s[..last]);
      assert ToSet(s) == ToSet(s[..last]) + {s[last]};
    }
  }

  lemma {:induction false} ToSetCardinality<T>(s: seq<T>)
    ensures |ToSet(s)| <= |s|
  {
    if s != [] {
      var last := |s| - 1;
      ToSetCardinality(s[..last]);
      assert ToSet(s) == ToSet(s[..last]) + {s[last]};
    }
  }

  lemma SubsetCardinality<T>(a: set<T>, b: set<T>)
    requires a <= b
    ensures |a| <= |b|
    ensures |a| == |b| ==> a == b
  {
    assert b == a + (b - a) && a !! (b - a);
  }

  /** Pigeonhole: more entries than values forces a repetition. */
  lemma Pigeonhole<T>(s: seq<T>, values: set<T>) returns (i: int, j: int)
    requires forall x :: x in s ==> x in values
    requires |s| > |values|
    ensures 0 <= i < j < |s| && s[i] == s[j]
  {
    if Distinct(s) {
      DistinctCardinality(s);
      SubsetCardinality(ToSet(s), values);
      assert false;
    }
    i, j :| 0 <= i < j < |s| && s[i] == s[j];
  }

  /** Two lists without repetition that hold the same values are permutations of one another. */
  lemma {:induction false} DistinctSameSet<T>(a: seq<T>, b: seq<T>)
    requires Distinct(a) && Distinct(b) && ToSet(a) == ToSet(b)
    ensures multiset(a) == multiset(b)
  {
    forall x ensures multiset(a)[x] == multiset(b)[x] {
      assert x in multiset(a) <==> x in ToSet(a);
      assert x in multiset(b) <==> x in ToSet(b);
      if multiset(a)[x] >= 2 {
        var i, j := TwoPositions(a, x);
      }
      if multiset(b)[x] >= 2 {
        var i, j := TwoPositions(b, x);
      }
    }
  }
}
