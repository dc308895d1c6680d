/**
 * Ordering chromosomes by a key, as the source does with Python's built-in
 * `min(..., key=...)` (the first element of least key) and
 * `sorted(..., key=...)` (a stable ascending sort).  The source always passes
 * `lambda x: fitness(x, bloqueios)` as the key.
 */
module Ranking {

  /**
   * Position of `min(population, key=key)`: a later element replaces the
   * current minimum only when its key is strictly smaller, so ties go to the
   * first.
   */
  function ArgMin<T>(population: seq<T>, key: T -> nat): (k: nat)
    requires |population| > 0
    ensures k < |population|
    ensures forall t :: 0 <= t < |population| ==> key(population[k]) <= key(population[t])
    ensures forall t :: 0 <= t < k ==> key(population[t]) > key(population[k])
  {
    if |population| == 1 then 0
    else
      var k := ArgMin(population[..|population| - 1], key);
      var last := |population| - 1;
      if key(population[last]) < key(population[k]) then last else k
  }

  /** The key never decreases along `s`. */
  ghost predicate SortedBy<T>(s: seq<T>, key: T -> nat) {
    forall i, j :: 0 <= i < j < |s| ==> key(s[i]) <= key(s[j])
  }

  /** Insert `x` into a sorted list before the first element whose key it does not exceed. */
  function Insert<T>(x: T, s: seq<T>, key: T -> nat): (r: seq<T>)
    ensures |r| == |s| + 1
    ensures multiset(r) == multiset(s) + multiset{x}
    ensures key(r[0]) == if s != [] && key(s[0]) < key(x) then key(s[0]) else key(x)
  {
    if s == [] then [x]
    else if key(x) <= key(s[0]) then [x] + s
    else
      assert s == [s[0]] + s[1..];
      [s[0]] + Insert(x, s[1..], key)
  }

  /** Insertion keeps a sorted list sorted. */
  lemma {:induction false} InsertKeepsSorted<T>(x: T, s: seq<T>, key: T -> nat)
    requires SortedBy(s, key)
    ensures SortedBy(Insert(x, s, key), key)
  {
    if s != [] && key(x) > key(s[0]) {
      var rest := Insert(x, s[1..], key);
      InsertKeepsSorted(x, s[1..], key);
      assert forall j :: 0 <= j < |rest| ==> key(rest[0]) <= key(rest[j]);
      assert Insert(x, s, key) == [s[0]] + rest;
    }
  }

  /** `sorted(xs, key=key)`: the same elements in ascending key, equal keys in their original order. */
  function SortBy<T>(xs: seq<T>, key: T -> nat): (r: seq<T>)
    ensures multiset(r) == multiset(xs)
    ensures SortedBy(r, key)
  {
    if xs == [] then []
    else
      assert xs == [xs[0]] + xs[1..];
      var rest := SortBy(xs[1..], key);
      InsertKeepsSorted(xs[0], rest, key);
      Insert(xs[0], rest, key)
  }

  /** The sort keeps the length. */
  lemma SortKeepsLength<T>(xs: seq<T>, key: T -> nat)
    ensures |SortBy(xs, key)| == |xs|
  {
    var r := SortBy(xs, key);
    assert |multiset(r)| == |multiset(xs)|;
  }

  /** Truncating a sorted list keeps the best: nothing dropped has a smaller key than anything kept. */
  lemma TruncationKeepsBest<T>(s: seq<T>, size: nat, key: T -> nat)
    requires SortedBy(s, key) && size <= |s|
    ensures forall i, j :: 0 <= i < size <= j < |s| ==> key(s[i]) <= key(s[j])
    ensures SortedBy(s[..size], key)
  {
  }

  /** Every element of a sorted list has a key at least that of its head. */
  lemma SortedHeadIsMinimal<T>(s: seq<T>, x: T, key: T -> nat)
    requires SortedBy(s, key) && x in s
    ensures key(s[0]) <= key(x)
  {
    var k :| 0 <= k < |s| && s[k] == x;
    if k > 0 {
      assert key(s[0]) <= key(s[k]);
    }
  }

  /** On a sorted list, `min` returns the head: it has the least key, and nothing before it to tie with. */
  lemma ArgMinOfSortedIsHead<T>(s: seq<T>, key: T -> nat)
    requires SortedBy(s, key) && |s| > 0
    ensures ArgMin(s, key) == 0
  {
  }
}
