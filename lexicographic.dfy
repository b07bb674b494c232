/** The order in which the store and the exporter compare strings.
    SQLite's default BINARY collation compares the UTF-8 bytes of two TEXT
    values, and Python compares two `str` values code point by code point;
    both amount to the lexicographic order on code points defined here. */
module Lexicographic {
  import opened Basics

  /** `a` comes no later than `b`: a prefix precedes its extensions, and
      otherwise the first differing character decides. */
  predicate LexLe(a: string, b: string) {
    |a| == 0 || (|b| > 0 && (a[0] < b[0] || (a[0] == b[0] && LexLe(a[1..], b[1..]))))
  }

  lemma {:induction false} LexLeReflexive(a: string)
    ensures LexLe(a, a)
  {
    if |a| > 0 {
      LexLeReflexive(a[1..]);
    }
  }

  lemma {:induction false} LexLeTotal(a: string, b: string)
    ensures LexLe(a, b) || LexLe(b, a)
  {
    if |a| > 0 && |b| > 0 && a[0] == b[0] {
      LexLeTotal(a[1..], b[1..]);
    }
  }

  lemma {:induction false} LexLeTransitive(a: string, b: string, c: string)
    requires LexLe(a, b) && LexLe(b, c)
    ensures LexLe(a, c)
  {
    if |a| > 0 && a[0] == b[0] && b[0] == c[0] {
      LexLeTransitive(a[1..], b[1..], c[1..]);
    }
  }

  lemma {:induction false} LexLeAntisymmetric(a: string, b: string)
    requires LexLe(a, b) && LexLe(b, a)
    ensures a == b
  {
    if |a| > 0 && |b| > 0 {
      LexLeAntisymmetric(a[1..], b[1..]);
      assert a == [a[0]] + a[1..] && b == [b[0]] + b[1..];
    }
  }

  /** Every string is no later than every string after it. */
  ghost predicate Ascending(s: seq<string>) {
    forall i, j :: 0 <= i < j < |s| ==> LexLe(s[i], s[j])
  }

  /** Each string is strictly before the next one, with no repetition. */
  ghost predicate StrictlyAscending(s: seq<string>) {
    forall i, j :: 0 <= i < j < |s| ==> LexLe(s[i], s[j]) && s[i] != s[j]
  }

  /** Putting a string in front of an ascending sequence none of whose
      elements precede it keeps it ascending. */
  lemma ConsAscending(h: string, t: seq<string>)
    requires Ascending(t)
    requires forall y :: y in t ==> LexLe(h, y)
    ensures Ascending([h] + t)
  {
    forall i, j | 0 <= i < j < |[h] + t| ensures LexLe(([h] + t)[i], ([h] + t)[j]) {
      if i > 0 {
        assert ([h] + t)[i] == t[i - 1] && ([h] + t)[j] == t[j - 1];
      } else {
        assert ([h] + t)[j] in t;
      }
    }
  }

  lemma ConsDistinct<T>(h: T, t: seq<T>)
    requires Distinct(t) && h !in t
    ensures Distinct([h] + t)
  {
    forall i, j | 0 <= i < j < |[h] + t| ensures ([h] + t)[i] != ([h] + t)[j] {
      if i > 0 {
        assert ([h] + t)[i] == t[i - 1] && ([h] + t)[j] == t[j - 1];
      } else {
        assert ([h] + t)[j] in t;
      }
    }
  }

  /** Inserts `x` into an ascending sequence before the first element not before it. */
  function InsertAscending(x: string, s: seq<string>): (r: seq<string>)
    requires Ascending(s)
    ensures Ascending(r)
    ensures multiset(r) == multiset(s) + multiset{x}
    ensures Distinct(s) && x !in s ==> Distinct(r)
  {
    if s == [] then [x]
    else if LexLe(x, s[0]) then
      assert forall y :: y in s ==> LexLe(x, y) by {
        forall y | y in s ensures LexLe(x, y) {
          var j :| 0 <= j < |s| && s[j] == y;
          if j > 0 { LexLeTransitive(x, s[0], s[j]); }
        }
      }
      ConsAscending(x, s);
      assert Distinct(s) && x !in s ==> Distinct([x] + s) by {
        if Distinct(s) && x !in s { ConsDistinct(x, s); }
      }
      [x] + s
    else
      var rest := InsertAscending(x, s[1..]);
      InsertAfterHead(x, s, rest);
      [s[0]] + rest
  }

  /** The recursive case of InsertAscending: the head of `s` stays in front. */
  lemma InsertAfterHead(x: string, s: seq<string>, rest: seq<string>)
    requires |s| > 0 && Ascending(s) && !LexLe(x, s[0])
    requires Ascending(rest) && multiset(rest) == multiset(s[1..]) + multiset{x}
    requires Distinct(s[1..]) && x !in s[1..] ==> Distinct(rest)
    ensures Ascending([s[0]] + rest)
    ensures multiset([s[0]] + rest) == multiset(s) + multiset{x}
    ensures Distinct(s) && x !in s ==> Distinct([s[0]] + rest)
  {
    LexLeTotal(x, s[0]);
    LexLeReflexive(x);
    forall y | y in rest ensures LexLe(s[0], y) {
      assert y in multiset(rest);
      if y != x {
        assert y in s[1..];
        var j :| 0 <= j < |s[1..]| && s[1..][j] == y;
        assert s[j + 1] == y;
      }
    }
    ConsAscending(s[0], rest);
    assert s == [s[0]] + s[1..];
    if Distinct(s) && x !in s {
      DistinctTail(s);
      assert s[0] !in multiset(rest);
      ConsDistinct(s[0], rest);
    }
  }

  /** Python's `sorted` on a list of strings, written as an insertion sort:
      the result is ascending and a permutation of the input. */
  function SortAscending(s: seq<string>): (r: seq<string>)
    ensures Ascending(r)
    ensures multiset(r) == multiset(s)
    ensures Distinct(s) ==> Distinct(r)
  {
    if s == [] then []
    else
      var sorted := SortAscending(s[1..]);
      assert s == [s[0]] + s[1..];
      assert Distinct(s) ==> Distinct(sorted) && s[0] !in sorted by {
        if Distinct(s) { HeadNotInSortedTail(s, sorted); }
      }
      InsertAscending(s[0], sorted)
  }

  /** With distinct strings, the head is not among the sorted tail, which stays distinct. */
  lemma HeadNotInSortedTail(s: seq<string>, sorted: seq<string>)
    requires s != [] && Distinct(s) && multiset(sorted) == multiset(s[1..])
    requires Distinct(s[1..]) ==> Distinct(sorted)
    ensures Distinct(sorted) && s[0] !in sorted
  {
    DistinctTail(s);
    assert s[0] in multiset(sorted) <==> s[0] in multiset(s[1..]);
  }

  /** Sorting distinct strings yields a strictly ascending sequence of the same strings. */
  lemma SortDistinctIsStrict(s: seq<string>)
    requires Distinct(s)
    ensures StrictlyAscending(SortAscending(s))
    ensures forall k :: k in SortAscending(s) <==> k in s
  {
    var r := SortAscending(s);
    forall k ensures k in r <==> k in s {
      assert k in r <==> k in multiset(r);
      assert k in s <==> k in multiset(s);
    }
  }
}
