/** Facts about sequences in general, stated once so that proofs about rendered text or findings need not rediscover them. */
module Seqs {

  /** A non-empty sequence is its prefix followed by its last element. */
  lemma SplitLast<T>(s: seq<T>)
    requires s != []
    ensures s == s[..|s| - 1] + [s[|s| - 1]]
  {
  }

  lemma TakeAll<T>(s: seq<T>)
    ensures s[..|s|] == s
  {
  }

  lemma AppendAssoc<T>(a: seq<T>, b: seq<T>, c: seq<T>)
    ensures (a + b) + c == a + (b + c)
  {
  }

  lemma MultisetSnoc<T>(s: seq<T>, x: T)
    ensures multiset(s + [x]) == multiset(s) + multiset{x}
  {
  }

  /** A sequence is its prefix followed by the rest. */
  lemma TakeDrop<T>(s: seq<T>, k: int)
    requires 0 <= k <= |s|
    ensures s == s[..k] + s[k..]
  {
  }

  /** Taking and dropping at the seam of a concatenation gives its two sides back. */
  lemma SplitAtSeam<T>(a: seq<T>, b: seq<T>)
    ensures (a + b)[..|a|] == a && (a + b)[|a|..] == b
  {
  }

  /** A prefix of `a + b` reaching into `b`, and the element just after it. */
  lemma PrefixShift<T>(a: seq<T>, b: seq<T>, n: int)
    requires 0 <= n <= |b|
    ensures (a + b)[..|a| + n] == a + b[..n]
    ensures n < |b| ==> (a + b)[|a| + n] == b[n]
  {
  }

  /** The last element of a non-empty `b` is the last of `a + b`, and the rest of `a + b` is `a` and the rest of `b`. */
  lemma AppendInit<T>(a: seq<T>, b: seq<T>)
    requires b != []
    ensures (a + b)[..|a + b| - 1] == a + b[..|b| - 1]
    ensures (a + b)[|a + b| - 1] == b[|b| - 1]
  {
  }

  /** Regrouping four pieces so that the first stands alone. */
  lemma AppendAssoc3<T>(a: seq<T>, b: seq<T>, c: seq<T>, d: seq<T>)
    ensures a + b + c + d == a + (b + c + d)
  {
  }

  /** A slice holds no element its sequence does not. */
  lemma SliceAvoids<T>(s: seq<T>, i: int, j: int, d: T)
    requires 0 <= i <= j <= |s| && d !in s
    ensures d !in s[i..j]
  {
  }

  /** A suffix none of whose elements is `d` does not hold `d`. */
  lemma NoneAfter<T>(s: seq<T>, i: int, d: T)
    requires 0 <= i <= |s|
    requires forall k :: i <= k < |s| ==> s[k] != d
    ensures d !in s[i..]
    ensures i == 0 ==> d !in s
  {
    assert s[0..] == s;
  }

  /** A non-empty sequence is its first element and the rest. */
  lemma ConsFirst<T>(s: seq<T>)
    requires s != []
    ensures s == [s[0]] + s[1..]
  {
  }

  /** Dropping the first of two leading elements. */
  lemma DropFirstOfPair<T>(x: T, y: T, t: seq<T>)
    ensures ([x, y] + t)[1..] == [y] + t
  {
  }

  /** Moving a tail inside one level of `a + [x] + (b)` nesting. */
  lemma NestTail<T>(a: seq<T>, x: T, b: seq<T>, tail: seq<T>)
    ensures (a + [x] + b) + tail == a + [x] + (b + tail)
  {
  }
}
