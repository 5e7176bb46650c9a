/**
 * Python's ordering of `str` values (code point by code point, a proper
 * prefix first) and `sorted` on a list of strings.
 */
module Sorting {

  /** `a <= b` for Python strings. */
  predicate StrLe(a: string, b: string)
  {
    if a == [] then true
    else if b == [] then false
    else if a[0] != b[0] then a[0] < b[0]
    else StrLe(a[1..], b[1..])
  }

  lemma StrLeReflexive(a: string)
    ensures StrLe(a, a)
  {
  }

  lemma StrLeTotal(a: string, b: string)
    ensures StrLe(a, b) || StrLe(b, a)
  {
  }

  lemma StrLeAntisymmetric(a: string, b: string)
    requires StrLe(a, b) && StrLe(b, a)
    ensures a == b
  {
    if a != [] && b != [] {
      StrLeAntisymmetric(a[1..], b[1..]);
      assert a == [a[0]] + a[1..] && b == [b[0]] + b[1..];
    }
  }

  lemma StrLeTransitive(a: string, b: string, c: string)
    requires StrLe(a, b) && StrLe(b, c)
    ensures StrLe(a, c)
  {
    if a != [] && b != [] && c != [] && a[0] == b[0] == c[0] {
      StrLeTransitive(a[1..], b[1..], c[1..]);
    }
  }

  /** Every element is `<=` every later one. */
  ghost predicate Sorted(s: seq<string>)
  {
    forall i, j :: 0 <= i < j < |s| ==> StrLe(s[i], s[j])
  }

  lemma PrependSorted(x: string, s: seq<string>)
    requires Sorted(s)
    requires forall k :: 0 <= k < |s| ==> StrLe(x, s[k])
    ensures Sorted([x] + s)
  {
    var t := [x] + s;
    forall i, j | 0 <= i < j < |t| ensures StrLe(t[i], t[j]) {
      if i > 0 {
        assert t[i] == s[i - 1] && t[j] == s[j - 1];
      } else {
        assert t[j] == s[j - 1];
      }
    }
  }

  lemma FirstBelowAll(x: string, s: seq<string>)
    requires Sorted(s) && s != [] && StrLe(x, s[0])
    ensures forall k :: 0 <= k < |s| ==> StrLe(x, s[k])
  {
    forall k | 0 <= k < |s| ensures StrLe(x, s[k]) {
      if k > 0 {
        StrLeTransitive(x, s[0], s[k]);
      }
    }
  }

  /** Inserting one string into a sorted list keeps it sorted. */
  function Insert(x: string, s: seq<string>): (r: seq<string>)
    requires Sorted(s)
    ensures Sorted(r)
    ensures multiset(r) == multiset(s) + multiset{x}
    ensures |r| == |s| + 1
  {
    if s == [] then [x]
    else if StrLe(x, s[0]) then
      FirstBelowAll(x, s);
      PrependSorted(x, s);
      [x] + s
    else
      assert s == [s[0]] + s[1..];
      var t := Insert(x, s[1..]);
      StrLeTotal(x, s[0]);
      HeadBelowInserted(s, x, t);
      PrependSorted(s[0], t);
      [s[0]] + t
  }

  lemma HeadBelowInserted(s: seq<string>, x: string, t: seq<string>)
    requires Sorted(s) && s != [] && StrLe(s[0], x)
    requires multiset(t) == multiset(s[1..]) + multiset{x}
    ensures forall k :: 0 <= k < |t| ==> StrLe(s[0], t[k])
  {
    forall k | 0 <= k < |t| ensures StrLe(s[0], t[k]) {
      assert t[k] in multiset(t);
      if t[k] != x {
        assert t[k] in multiset(s[1..]);
        var m :| 0 <= m < |s[1..]| && s[1..][m] == t[k];
        assert s[m + 1] == t[k];
      }
    }
  }

  /** `sorted(s)`: the elements of `s`, each as often as in `s`, in ascending order. */
  function SortStrings(s: seq<string>): (r: seq<string>)
    ensures Sorted(r)
    ensures multiset(r) == multiset(s)
    ensures |r| == |s|
  {
    if s == [] then []
    else
      assert s == s[..|s| - 1] + [s[|s| - 1]];
      Insert(s[|s| - 1], SortStrings(s[..|s| - 1]))
  }

  /** A sorted list without repeats is strictly ascending. */
  lemma SortedDistinctAscending(s: seq<string>, i: int, j: int)
    requires Sorted(s) && 0 <= i < j < |s| && s[i] != s[j]
    ensures StrLe(s[i], s[j]) && !StrLe(s[j], s[i])
  {
    if StrLe(s[j], s[i]) {
      StrLeAntisymmetric(s[i], s[j]);
    }
  }
}
