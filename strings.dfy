/**
 * The Python string operations the scanner relies on, over `string` (a
 * sequence of Unicode code points): `lower`, `strip`, `lstrip`/`rstrip` of
 * one character, `split` on one separator, `join`, `rfind` and
 * `removesuffix`.
 */
module Strings {

  /** `c.lower()` for the ASCII letters; every other code point is kept. */
  function LowerChar(c: char): (r: char)
  {
    if 'A' <= c <= 'Z' then (c as int + 32) as char else c
  }

  /** `s.lower()`, character by character. */
  function Lower(s: string): (r: string)
  {
    seq(|s|, i requires 0 <= i < |s| => LowerChar(s[i]))
  }

  /** `lower` keeps the length, leaves no upper-case letter, and changes exactly the upper-case letters. */
  lemma LowerSpec(s: string)
    ensures |Lower(s)| == |s|
    ensures forall i :: 0 <= i < |s| ==> !('A' <= Lower(s)[i] <= 'Z')
    ensures forall i :: 0 <= i < |s| ==> (Lower(s)[i] == s[i] <==> !('A' <= s[i] <= 'Z'))
  {
  }

  /** Lower-casing twice is lower-casing once. */
  lemma LowerIdempotent(s: string)
    ensures Lower(Lower(s)) == Lower(s)
  {
  }

  /** Lower-casing leaves no character that is a separator where there was none, and keeps the ones there are. */
  lemma LowerKeepsChar(s: string, i: int, c: char)
    requires 0 <= i < |s|
    requires !('A' <= c <= 'Z') && !('a' <= c <= 'z')
    ensures Lower(s)[i] == c <==> s[i] == c
  {
  }

  /** The code points for which Python's `str.isspace()` holds. */
  predicate IsSpace(c: char)
  {
    var n := c as int;
    n == 0x20 || 0x09 <= n <= 0x0D || 0x1C <= n <= 0x1F || n == 0x85 || n == 0xA0 || n == 0x1680
    || 0x2000 <= n <= 0x200A || n == 0x2028 || n == 0x2029 || n == 0x202F || n == 0x205F || n == 0x3000
  }

  /** How many whitespace characters `s` starts with. */
  function LeadingSpaces(s: string): (n: nat)
    ensures n <= |s|
    ensures forall k :: 0 <= k < n ==> IsSpace(s[k])
    ensures n < |s| ==> !IsSpace(s[n])
  {
    if s != [] && IsSpace(s[0]) then 1 + LeadingSpaces(s[1..]) else 0
  }

  /** Where the whitespace that ends `s` begins. */
  function TrailingStart(s: string): (n: nat)
    ensures n <= |s|
    ensures forall k :: n <= k < |s| ==> IsSpace(s[k])
    ensures n > 0 ==> !IsSpace(s[n - 1])
  {
    if s != [] && IsSpace(s[|s| - 1]) then TrailingStart(s[..|s| - 1]) else |s|
  }

  /** No whitespace at either end. */
  predicate Stripped(s: string)
  {
    s == [] || (!IsSpace(s[0]) && !IsSpace(s[|s| - 1]))
  }

  /**
   * `s.strip()`: the characters of `s` from its first non-whitespace one to
   * its last, or nothing when `s` is all whitespace.
   */
  function Strip(s: string): (r: string)
    ensures |r| <= |s|
    ensures Stripped(r)
  {
    var i := LeadingSpaces(s);
    var j := TrailingStart(s);
    if j <= i then [] else s[i..j]
  }

  /** What `strip()` leaves is a slice of `s` with only whitespace before it and after it. */
  lemma StripIsSlice(s: string)
    ensures var i := LeadingSpaces(s);
            var r := Strip(s);
            i + |r| <= |s| && s[i..i + |r|] == r
            && (forall k :: 0 <= k < i ==> IsSpace(s[k]))
            && (forall k :: i + |r| <= k < |s| ==> IsSpace(s[k]))
  {
  }

  /** A string with whitespace at neither end is its own `strip()`. */
  lemma StripOfStripped(s: string)
    requires Stripped(s)
    ensures Strip(s) == s
  {
  }

  /** `s.lstrip(c)`: `s` without the run of `c` that starts it. */
  function LStripChar(s: string, c: char): (r: string)
    ensures |r| <= |s| && r == s[|s| - |r|..]
    ensures r == [] || r[0] != c
    ensures forall k :: 0 <= k < |s| - |r| ==> s[k] == c
  {
    if s != [] && s[0] == c then LStripChar(s[1..], c) else s
  }

  /** `s.rstrip(c)`: `s` without the run of `c` that ends it. */
  function RStripChar(s: string, c: char): (r: string)
    ensures |r| <= |s| && r == s[..|r|]
    ensures r == [] || r[|r| - 1] != c
    ensures forall k :: |r| <= k < |s| ==> s[k] == c
  {
    if s != [] && s[|s| - 1] == c then RStripChar(s[..|s| - 1], c) else s
  }

  /** `s.split(c)` for a one-character separator: the pieces between the occurrences of `c`. */
  function Split(s: string, c: char): (r: seq<string>)
    ensures |r| >= 1
    ensures forall k :: 0 <= k < |r| ==> c !in r[k]
  {
    if s == [] then [""]
    else
      var rest := Split(s[1..], c);
      if s[0] == c then [""] + rest else [[s[0]] + rest[0]] + rest[1..]
  }

  /** `sep.join(parts)`. */
  function Join(parts: seq<string>, sep: string): string
  {
    if |parts| == 0 then ""
    else if |parts| == 1 then parts[0]
    else parts[0] + sep + Join(parts[1..], sep)
  }

  /** A join is empty for no parts, starts with the first part, and has the separator right after it when more follow. */
  lemma JoinShape(parts: seq<string>, sep: string)
    ensures parts == [] ==> Join(parts, sep) == ""
    ensures parts != [] ==> |parts[0]| <= |Join(parts, sep)| && Join(parts, sep)[..|parts[0]|] == parts[0]
    ensures |parts| >= 2 ==>
              |parts[0]| + |sep| <= |Join(parts, sep)| && Join(parts, sep)[|parts[0]|..|parts[0]| + |sep|] == sep
  {
    if |parts| >= 2 {
      var r := Join(parts, sep);
      assert r == parts[0] + sep + Join(parts[1..], sep);
    }
  }

  /** A string without the separator splits into itself alone. */
  lemma {:induction false} SplitNoSeparator(s: string, c: char)
    requires c !in s
    ensures Split(s, c) == [s]
  {
    if s != [] {
      SplitNoSeparator(s[1..], c);
      assert [s[0]] + s[1..] == s;
    }
  }

  /** A separator-free head glues onto the first piece of what follows it. */
  lemma {:induction false} SplitPrefix(a: string, t: string, c: char)
    requires c !in a
    ensures Split(a + t, c) == [a + Split(t, c)[0]] + Split(t, c)[1..]
  {
    var rest := Split(t, c);
    if a == [] {
      assert a + t == t;
      assert a + rest[0] == rest[0];
      assert [rest[0]] + rest[1..] == rest;
    } else {
      assert (a + t)[0] == a[0];
      assert (a + t)[1..] == a[1..] + t;
      SplitPrefix(a[1..], t, c);
      assert [a[0]] + (a[1..] + rest[0]) == a + rest[0];
    }
  }

  /** Splitting a join on a separator that no part contains gives the parts back. */
  lemma {:induction false} SplitJoin(parts: seq<string>, c: char)
    requires |parts| >= 1
    requires forall k :: 0 <= k < |parts| ==> c !in parts[k]
    ensures Split(Join(parts, [c]), c) == parts
  {
    if |parts| == 1 {
      SplitNoSeparator(parts[0], c);
    } else {
      var tail := Join(parts[1..], [c]);
      SplitJoin(parts[1..], c);
      assert parts[0] + [c] + tail == parts[0] + ([c] + tail);
      SplitPrefix(parts[0], [c] + tail, c);
      assert ([c] + tail)[0] == c && ([c] + tail)[1..] == tail;
      assert Split([c] + tail, c) == [""] + parts[1..];
      assert parts[0] + "" == parts[0];
      assert parts == [parts[0]] + parts[1..];
    }
  }

  /** Splitting at one occurrence of the separator splits the two sides independently. */
  lemma {:induction false} SplitAtSeparator(t: string, u: string, c: char)
    ensures Split(t + [c] + u, c) == Split(t, c) + Split(u, c)
  {
    if t == [] {
      assert t + [c] + u == [c] + u;
      assert ([c] + u)[1..] == u;
    } else {
      assert (t + [c] + u)[0] == t[0];
      assert (t + [c] + u)[1..] == t[1..] + [c] + u;
      SplitAtSeparator(t[1..], u, c);
    }
  }

  /** The last piece of `Split(s, c)`: what follows the last `c`, or all of `s`. */
  function LastPiece(s: string, c: char): (r: string)
    ensures c !in r
  {
    var pieces := Split(s, c);
    pieces[|pieces| - 1]
  }

  /** The last piece of a join is the last part. */
  lemma LastPieceOfJoin(parts: seq<string>, c: char)
    requires |parts| >= 1
    requires forall k :: 0 <= k < |parts| ==> c !in parts[k]
    ensures LastPiece(Join(parts, [c]), c) == parts[|parts| - 1]
  {
    SplitJoin(parts, c);
    LastPieceOfPieces(Join(parts, [c]), parts, c);
  }

  lemma LastPieceOfPieces(s: string, pieces: seq<string>, c: char)
    requires Split(s, c) == pieces
    ensures LastPiece(s, c) == pieces[|pieces| - 1]
  {
  }

  /** The last piece is whatever follows the last separator. */
  lemma LastPieceAfterSeparator(t: string, u: string, c: char)
    requires c !in u
    ensures LastPiece(t + [c] + u, c) == u
  {
    SplitAtSeparator(t, u, c);
    SplitNoSeparator(u, c);
  }

  /** `s.removesuffix(suffix)`: `s` without one trailing copy of `suffix`, if it has one. */
  function RemoveSuffix(s: string, suffix: string): (r: string)
    ensures r == s || r + suffix == s
    ensures |suffix| <= |s| && s[|s| - |suffix|..] == suffix ==> r + suffix == s
  {
    if |suffix| <= |s| && s[|s| - |suffix|..] == suffix then s[..|s| - |suffix|] else s
  }

  /** `s.rfind(c)`: the index of the last `c` in `s`, or -1. */
  function RFind(s: string, c: char): (r: int)
    ensures -1 <= r < |s|
    ensures r >= 0 ==> s[r] == c
    ensures forall k :: r < k < |s| ==> s[k] != c
  {
    if s == [] then -1
    else if s[|s| - 1] == c then |s| - 1
    else RFind(s[..|s| - 1], c)
  }
}
