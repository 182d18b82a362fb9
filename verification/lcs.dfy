/**
 Length of a longest common subsequence of two token sequences, defined by the
 recurrence the diff's table is filled with: empty prefixes give 0, equal last
 tokens extend the diagonal by one, and otherwise the better of dropping the
 last token of either side is taken.
 */
module Subsequence {

  function Max(x: nat, y: nat): nat {
    if x >= y then x else y
  }

  function DropLast<T>(s: seq<T>): seq<T>
    requires |s| > 0
  {
    s[..|s| - 1]
  }

  function Last<T>(s: seq<T>): T
    requires |s| > 0
  {
    s[|s| - 1]
  }

  lemma DropLastLast<T>(s: seq<T>)
    requires |s| > 0
    ensures DropLast(s) + [Last(s)] == s
  {
  }

  function Lcs<T(==)>(a: seq<T>, b: seq<T>): nat
    decreases |a| + |b|
  {
    if |a| == 0 || |b| == 0 then 0
    else if Last(a) == Last(b) then Lcs(DropLast(a), DropLast(b)) + 1
    else Max(Lcs(DropLast(a), b), Lcs(a, DropLast(b)))
  }

  /** A common subsequence is no longer than either sequence. */
  lemma {:induction false} LcsBound<T>(a: seq<T>, b: seq<T>)
    ensures Lcs(a, b) <= |a| && Lcs(a, b) <= |b|
    decreases |a| + |b|
  {
    if |a| > 0 && |b| > 0 {
      LcsBound(DropLast(a), DropLast(b));
      if Last(a) != Last(b) {
        LcsBound(DropLast(a), b);
        LcsBound(a, DropLast(b));
      }
    }
  }

  /** The recurrence does not depend on which side is called first. */
  lemma {:induction false} LcsSymmetric<T>(a: seq<T>, b: seq<T>)
    ensures Lcs(a, b) == Lcs(b, a)
    decreases |a| + |b|
  {
    if |a| > 0 && |b| > 0 {
      if Last(a) == Last(b) {
        LcsSymmetric(DropLast(a), DropLast(b));
      } else {
        LcsSymmetric(DropLast(a), b);
        LcsSymmetric(a, DropLast(b));
      }
    }
  }

  /** Dropping the last token of the second side never lengthens the LCS. */
  lemma {:induction false} LcsMonotoneRight<T>(a: seq<T>, b: seq<T>)
    requires |b| > 0
    ensures Lcs(a, DropLast(b)) <= Lcs(a, b)
    decreases |a| + |b|, 1
  {
    if |a| > 0 && Last(a) == Last(b) {
      LcsDropLeft(a, DropLast(b));
    }
  }

  /** Dropping the last token of the first side shortens the LCS by at most one. */
  lemma {:induction false} LcsDropLeft<T>(a: seq<T>, c: seq<T>)
    requires |a| > 0
    ensures Lcs(a, c) <= Lcs(DropLast(a), c) + 1
    decreases |a| + |c|, 0
  {
    if |c| > 0 {
      LcsMonotoneRight(DropLast(a), c);
      if Last(a) != Last(c) {
        LcsDropLeft(a, DropLast(c));
      }
    }
  }

  /** Dropping the last token of the first side never lengthens the LCS. */
  lemma LcsMonotoneLeft<T>(a: seq<T>, b: seq<T>)
    requires |a| > 0
    ensures Lcs(DropLast(a), b) <= Lcs(a, b)
  {
    LcsSymmetric(a, b);
    LcsSymmetric(DropLast(a), b);
    LcsMonotoneRight(b, a);
  }
}
