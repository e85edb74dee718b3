/**
 Facts about concatenating and slicing sequences, stated once for any element type.
 The proofs about parsing and about the events of a run use them so that sequence
 equalities are settled here, away from the definitions they are about.
 */
module Seqs {

  lemma AppendEmpty<T>(a: seq<T>)
    ensures a + [] == a && [] + a == a
  {
  }

  /** A non-empty sequence is its first element followed by the rest. */
  lemma HeadTail<T>(s: seq<T>)
    requires |s| > 0
    ensures [s[0]] + s[1..] == s
  {
  }

  /** `a`, then `x`, then `t`, however it is bracketed; dropping `x` from `[x] + t` leaves `t`. */
  lemma Around<T>(a: seq<T>, x: T, t: seq<T>)
    ensures a + [x] + t == a + ([x] + t)
    ensures ([x] + t)[0] == x && ([x] + t)[1..] == t
  {
  }

  lemma Assoc<T>(a: seq<T>, b: seq<T>, c: seq<T>)
    ensures a + b + c == a + (b + c)
  {
  }

  lemma ConcatAssoc<T>(a: seq<T>, b: seq<T>, c: seq<T>, d: seq<T>, e: seq<T>)
    ensures a + b + c + d + e == a + (b + c + d + e)
  {
  }

  /** The first element and the rest of `a + b`, for a non-empty `a`. */
  lemma ConsTail<T>(a: seq<T>, b: seq<T>)
    requires |a| > 0
    ensures (a + b)[0] == a[0] && (a + b)[1..] == a[1..] + b
  {
  }

  /** A sequence that starts with `p` is `p`, the element after it, and the rest. */
  lemma PrefixSplit<T>(p: seq<T>, s: seq<T>)
    requires |s| > |p| && s[..|p|] == p
    ensures s == p + [s[|p|]] + s[|p| + 1..]
  {
  }

  /** The parts of `p + [x] + w` read back by position. */
  lemma PrefixParts<T>(p: seq<T>, x: T, w: seq<T>)
    ensures var s := p + [x] + w;
            |s| > |p| && s[..|p|] == p && s[|p|] == x && s[|p| + 1..] == w
  {
  }

  /** Slices of `s[1..]`, read as slices of `s`. */
  lemma TailSlices<T>(s: seq<T>, n: nat)
    requires 1 <= n <= |s|
    ensures s[1..][n - 1..] == s[n..] && s[..n] == [s[0]] + s[1..][..n - 1]
  {
  }

  /** Slices of `s` without its last element, read as slices of `s`. */
  lemma InitSlices<T>(s: seq<T>, n: nat)
    requires n < |s|
    ensures s[..|s| - 1][..n] == s[..n] && s[n..] == s[..|s| - 1][n..] + [s[|s| - 1]]
  {
  }

  /** Dropping the first element of `[x] + a + b` leaves `a + b`. */
  lemma DropFirst<T>(e: seq<T>, x: T, a: seq<T>, b: seq<T>)
    requires e == [x] + a + b
    ensures e[1..] == a + b && e == [x] + (a + b)
  {
  }

  /** The suffix from `i` is its first element followed by the suffix from `i + 1`. */
  lemma DropHead<T>(s: seq<T>, i: nat)
    requires i < |s|
    ensures s[i..][0] == s[i] && s[i..][1..] == s[i + 1..]
  {
  }

  /** A non-empty sequence is everything but its last element, then that element. */
  lemma SnocSplit<T>(s: seq<T>)
    requires |s| > 0
    ensures s[..|s| - 1] + [s[|s| - 1]] == s
  {
  }

  lemma WholeSlices<T>(s: seq<T>)
    ensures s[0..] == s && s[0..|s|] == s
  {
  }

  lemma TakeSlice<T>(s: seq<T>, n: nat)
    requires n <= |s|
    ensures s[0..n] == s[..n]
  {
  }

  /** A value missing from a sequence is missing from every slice of it. */
  lemma AbsentFromSlice<T>(s: seq<T>, x: T, i: nat, j: nat)
    requires i <= j <= |s| && x !in s
    ensures x !in s[i..j]
  {
    forall k | 0 <= k < j - i
      ensures s[i..j][k] != x
    {
      assert s[i..j][k] == s[i + k];
    }
  }

  /** Where the parts of `a + [x] + [y] + b` sit. */
  lemma TwoThenRest<T>(e: seq<T>, a: seq<T>, x: T, y: T, b: seq<T>)
    requires e == a + [x] + [y] + b
    ensures |e| == |a| + 2 + |b|
    ensures e[|a| + 1] == y && e[|a| + 2..] == b
  {
  }

  /** A run `[y] + b` found at position `n` of `lead` sits one place further on in `[x] + lead + tail`. */
  lemma ShiftedRun<T>(e: seq<T>, x: T, lead: seq<T>, tail: seq<T>, n: nat, y: T, b: seq<T>)
    requires e == [x] + lead + tail
    requires |lead| == n + 1 + |b| && lead[n] == y && lead[n + 1..] == b
    ensures |e| >= n + 2 + |b| && e[n + 1] == y && e[n + 2..n + 2 + |b|] == b
  {
    assert e[n + 2..n + 2 + |b|] == lead[n + 1..];
  }

  lemma PrefixAt<T>(a: seq<T>, b: seq<T>)
    ensures forall i :: 0 <= i < |a| ==> (a + b)[i] == a[i]
  {
  }

  /** In `[x] + lead + tail`, the elements of `lead` sit one place further on. */
  lemma InsideShift<T>(e: seq<T>, lead: seq<T>, tail: seq<T>, x: T)
    requires e == [x] + lead + tail
    ensures |e| >= 1 + |lead|
    ensures forall i :: 0 <= i < |lead| ==> e[1 + i] == lead[i]
  {
  }

  /** Putting one element in front of each of two sequences shifts both by one place. */
  lemma ShiftCons<T, U>(x: T, a: seq<T>, y: U, b: seq<U>)
    requires |a| == |b|
    ensures forall k :: 0 < k < |b| + 1 ==> ([x] + a)[k] == a[k - 1] && ([y] + b)[k] == b[k - 1]
    ensures ([x] + a)[0] == x && ([y] + b)[0] == y
  {
  }

  /** `x == h + y` and `y == a + b` give `x == (h + a) + b`. */
  lemma ConsAppend<T>(x: seq<T>, p: seq<T>, h: seq<T>, a: seq<T>, b: seq<T>, y: seq<T>)
    requires x == h + y && y == a + b && p == h + a
    ensures x == p + b
  {
  }
}
