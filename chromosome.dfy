/**
 * The encoding shared by the whole search: a chromosome is a list of column
 * indices, one per row (index = row, value = column).  A well-formed
 * chromosome is a permutation of [0, n), so no two queens share a row or a
 * column by construction.
 */
module Chromosome {

  /** A board coordinate (row, column). */
  type Cell = (int, int)

  predicate InBoard(c: Cell, n: int) {
    0 <= c.0 < n && 0 <= c.1 < n
  }

  /** Every value of `s` lies in [0, n). */
  predicate InRange(s: seq<int>, n: int) {
    forall i :: 0 <= i < |s| ==> 0 <= s[i] < n
  }

  /** No value of `s` occurs twice. */
  predicate Distinct<T(==)>(s: seq<T>) {
    forall i, j :: 0 <= i < j < |s| ==> s[i] != s[j]
  }

  /** Appending two new, different elements keeps a list free of repeats. */
  lemma DistinctExtends<T>(s: seq<T>, x: T, y: T)
    requires Distinct(s) && x !in s && y !in s && x != y
    ensures Distinct(s + [x, y])
  {
  }

  /** `s` is a permutation of [0, n): n distinct values, each in [0, n). */
  predicate IsPermutation(s: seq<int>, n: nat) {
    |s| == n && InRange(s, n) && Distinct(s)
  }

  /** The list `range(n)`. */
  function Range(n: nat): (r: seq<int>)
    ensures IsPermutation(r, n)
    ensures forall i :: 0 <= i < n ==> r[i] == i
  {
    seq(n, i => i)
  }

  /** Pigeonhole: distinct values drawn from [0, n) number at most n. */
  lemma {:induction false} DistinctInRangeIsShort(s: seq<int>, n: nat)
    requires Distinct(s) && InRange(s, n)
    ensures |s| <= n
  {
    if |s| > 0 {
      assert 0 <= s[0] < n;
      if exists p :: 0 <= p < |s| && s[p] == n - 1 {
        var p :| 0 <= p < |s| && s[p] == n - 1;
        var rest := s[..p] + s[p + 1..];
        assert forall k :: 0 <= k < |rest| ==> rest[k] == if k < p then s[k] else s[k + 1];
        DistinctInRangeIsShort(rest, n - 1);
      } else {
        DistinctInRangeIsShort(s, n - 1);
      }
    }
  }

  /** A permutation of [0, n) holds every value of [0, n), each exactly once. */
  lemma PermutationCoversRange(s: seq<int>, n: nat)
    requires IsPermutation(s, n)
    ensures forall v :: 0 <= v < n ==> v in s
  {
    forall v | 0 <= v < n
      ensures v in s
    {
      if v !in s {
        // Close the gap at v: the values then fit in [0, n - 1) and are still distinct.
        var squeezed := seq(|s|, k requires 0 <= k < |s| => if s[k] > v then s[k] - 1 else s[k]);
        assert Distinct(squeezed);
        DistinctInRangeIsShort(squeezed, n - 1);
      }
    }
  }
}
