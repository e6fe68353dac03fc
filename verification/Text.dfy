/** The string operations of Python the modelled code uses. */
module Text {
  /** `s.split(sep)` for a one-character separator. */
  function Split(s: string, sep: char): (parts: seq<string>)
    ensures |parts| >= 1 && forall p :: p in parts ==> sep !in p
  {
    if s == [] then [""]
    else
      var rest := Split(s[1..], sep);
      if s[0] == sep then [""] + rest
      else [[s[0]] + rest[0]] + rest[1..]
  }

  /** `sep.join(parts)`. */
  function Join(parts: seq<string>, sep: char): string {
    if parts == [] then ""
    else if |parts| == 1 then parts[0]
    else parts[0] + [sep] + Join(parts[1..], sep)
  }

  /** `s.rstrip(c)` for a one-character argument. */
  function RStrip<T(==)>(s: seq<T>, c: T): (r: seq<T>)
    ensures r <= s
    ensures r != [] ==> r[|r| - 1] != c
    ensures forall i :: |r| <= i < |s| ==> s[i] == c
  {
    if s != [] && s[|s| - 1] == c then RStrip(s[..|s| - 1], c) else s
  }

  lemma RStripShortens<T>(s: seq<T>, c: T)
    requires s != [] && s[|s| - 1] == c
    ensures |RStrip(s, c)| < |s|
  {
    assert RStrip(s, c) <= s[..|s| - 1];
  }

  lemma {:induction false} JoinSplit(s: string, sep: char)
    ensures Join(Split(s, sep), sep) == s
  {
    if s != [] {
      JoinSplit(s[1..], sep);
      var rest := Split(s[1..], sep);
      if s[0] == sep {
        assert ([""] + rest)[1..] == rest;
      } else {
        var parts := [[s[0]] + rest[0]] + rest[1..];
        assert parts[1..] == rest[1..];
        assert Split(s, sep) == parts;
        if |rest| > 1 {
          assert Join(parts, sep) == [s[0]] + (rest[0] + [sep] + Join(rest[1..], sep));
        }
      }
      assert s == [s[0]] + s[1..];
    }
  }

  lemma {:induction false} SplitPiece(p: string, tail: string, sep: char)
    requires sep !in p
    ensures Split(p + [sep] + tail, sep) == [p] + Split(tail, sep)
  {
    var s := p + [sep] + tail;
    if p == [] {
      assert s[1..] == tail;
    } else {
      assert s[1..] == p[1..] + [sep] + tail;
      SplitPiece(p[1..], tail, sep);
      assert p == [p[0]] + p[1..];
    }
  }

  lemma {:induction false} SplitWhole(p: string, sep: char)
    requires sep !in p
    ensures Split(p, sep) == [p]
  {
    if p != [] {
      SplitWhole(p[1..], sep);
      assert p == [p[0]] + p[1..];
    }
  }

  lemma {:induction false} SplitJoin(parts: seq<string>, sep: char)
    requires parts != [] && forall p :: p in parts ==> sep !in p
    ensures Split(Join(parts, sep), sep) == parts
  {
    if |parts| == 1 {
      SplitWhole(parts[0], sep);
    } else {
      SplitPiece(parts[0], Join(parts[1..], sep), sep);
      SplitJoin(parts[1..], sep);
      assert parts == [parts[0]] + parts[1..];
    }
  }

  lemma {:induction false} SplitAppend(a: string, b: string, sep: char)
    ensures Split(a + [sep] + b, sep) == Split(a, sep) + Split(b, sep)
  {
    var s := a + [sep] + b;
    if a == [] {
      assert s[1..] == b;
    } else {
      assert s[1..] == a[1..] + [sep] + b;
      SplitAppend(a[1..], b, sep);
    }
  }

  lemma {:induction false} JoinAppend(a: seq<string>, b: seq<string>, sep: char)
    requires a != [] && b != []
    ensures Join(a + b, sep) == Join(a, sep) + [sep] + Join(b, sep)
  {
    assert (a + b)[1..] == a[1..] + b;
    if |a| > 1 {
      JoinAppend(a[1..], b, sep);
    }
  }

  /** Being equal or extending at a separator is having the components as a prefix. */
  lemma ExtendsByComponents(a: string, b: string, sep: char)
    ensures a == b || a + [sep] <= b <==> Split(a, sep) <= Split(b, sep)
  {
    var s, t := Split(a, sep), Split(b, sep);
    JoinSplit(a, sep);
    JoinSplit(b, sep);
    assert s == t ==> a == b;
    if a + [sep] <= b {
      var rest := b[|a| + 1..];
      assert b == a + [sep] + rest;
      SplitAppend(a, rest, sep);
    }
    if s < t {
      var rest := t[|s|..];
      assert t == s + rest;
      JoinAppend(s, rest, sep);
      assert b == a + [sep] + Join(rest, sep);
    }
  }

  /** `s.lstrip(c)` for a one-character argument. */
  function LStrip<T(==)>(s: seq<T>, c: T): seq<T> {
    if s != [] && s[0] == c then LStrip(s[1..], c) else s
  }

  /** `s.strip(c)` for a one-character argument. */
  function Strip<T(==)>(s: seq<T>, c: T): seq<T> {
    RStrip(LStrip(s, c), c)
  }

  /** Stripping takes the longest runs of `c` off both ends and nothing else. */
  lemma {:induction false} StripMeans<T>(s: seq<T>, c: T) returns (before: nat, after: nat)
    ensures before <= after <= |s| && Strip(s, c) == s[before..after]
    ensures forall i :: 0 <= i < before || after <= i < |s| ==> s[i] == c
    ensures before < after ==> s[before] != c && s[after - 1] != c
  {
    if s != [] && s[0] == c {
      before, after := StripMeans(s[1..], c);
      assert s[1..][before..after] == s[before + 1..after + 1];
      assert forall i :: 0 < i < |s| ==> s[i] == s[1..][i - 1];
      before, after := before + 1, after + 1;
    } else {
      before, after := 0, |RStrip(s, c)|;
    }
  }

  /** A string without trailing `c` is its own `rstrip`. */
  lemma RStripIdentity<T>(s: seq<T>, c: T)
    requires s == [] || s[|s| - 1] != c
    ensures RStrip(s, c) == s
  {
  }
}

/** Lexical normalisation performed by `pathlib.PurePosixPath`. */
module PosixPath {
  import opened Text

  predicate Kept(part: string) {
    part != "" && part != "."
  }

  /** Drops the empty and `.` components. */
  function Significant(parts: seq<string>): (r: seq<string>)
    ensures forall p :: p in r ==> Kept(p) && p in parts
    ensures (forall p :: p in parts ==> Kept(p)) ==> r == parts
  {
    if parts == [] then []
    else (if Kept(parts[0]) then [parts[0]] else []) + Significant(parts[1..])
  }

  /** Dropping components works piece by piece, so order and repetitions stay. */
  lemma {:induction false} SignificantAppends(a: seq<string>, b: seq<string>)
    ensures Significant(a + b) == Significant(a) + Significant(b)
  {
    if a == [] {
      assert a + b == b;
    } else {
      assert (a + b)[0] == a[0] && (a + b)[1..] == a[1..] + b;
      SignificantAppends(a[1..], b);
    }
  }

  lemma SignificantSingle(part: string)
    ensures Significant([part]) == if part == "" || part == "." then [] else [part]
  {
    assert [part][1..] == [];
  }

  function Root(s: string): string {
    if |s| >= 1 && s[0] == '/' then
      (if |s| >= 2 && s[1] == '/' && !(|s| >= 3 && s[2] == '/') then "//" else "/")
    else ""
  }

  /** The components after the root. */
  function Components(s: string): (r: seq<string>)
    ensures forall p :: p in r ==> Kept(p) && '/' !in p
  {
    Significant(Split(s, '/'))
  }

  /** `PurePosixPath(s).as_posix()`. */
  function AsPosix(s: string): string {
    if Root(s) == "" && Components(s) == [] then "." else Root(s) + Join(Components(s), '/')
  }

  /** A single component is its own normal form. */
  lemma PlainName(s: string)
    requires Kept(s) && '/' !in s
    ensures AsPosix(s) == s
  {
    SplitWhole(s, '/');
    assert Components(s) == [s];
    assert s[0] in s;
  }
}
