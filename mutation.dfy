/**
 * Swap mutation: with the probability the caller rolled, exchange the genes
 * at two distinct positions of a child, in place.
 */
module Mutation {
  import opened Chromosome

  /** `s` with the values at positions i and j exchanged. */
  function Swap(s: seq<int>, i: nat, j: nat): (r: seq<int>)
    requires i < |s| && j < |s|
    ensures |r| == |s|
    ensures r[i] == s[j] && r[j] == s[i]
    ensures forall k :: 0 <= k < |s| && k != i && k != j ==> r[k] == s[k]
  {
    s[i := s[j]][j := s[i]]
  }

  /** A swap only rearranges: the same values, each as often as before. */
  lemma SwapKeepsValues(s: seq<int>, i: nat, j: nat)
    requires i < |s| && j < |s|
    ensures multiset(Swap(s, i, j)) == multiset(s)
  {
    var once := s[i := s[j]];
    assert multiset(once) == multiset(s) - multiset{s[i]} + multiset{s[j]};
    assert once[j] == s[j];
    assert multiset(once[j := s[i]]) == multiset(once) - multiset{s[j]} + multiset{s[i]};
  }

  /** A mutated permutation is still a permutation. */
  lemma SwapPreservesPermutation(s: seq<int>, n: nat, i: nat, j: nat)
    requires IsPermutation(s, n) && i < n && j < n
    ensures IsPermutation(Swap(s, i, j), n)
  {
    var r := Swap(s, i, j);
    forall a, b | 0 <= a < b < n
      ensures r[a] != r[b]
    {
      var sa := if a == i then j else if a == j then i else a;
      var sb := if b == i then j else if b == j then i else b;
      assert r[a] == s[sa] && r[b] == s[sb] && sa != sb;
    }
  }

  /** Swapping the same two positions again undoes the mutation. */
  lemma SwapTwiceRestores(s: seq<int>, i: nat, j: nat)
    requires i < |s| && j < |s|
    ensures Swap(Swap(s, i, j), i, j) == s
  {
    var r := Swap(Swap(s, i, j), i, j);
    assert forall k :: 0 <= k < |s| ==> r[k] == s[k];
  }

  /**
   * `mutation(chromosome, mutation_prob)`: `fire` is the outcome of
   * `random.random() < mutation_prob`, and (i, j) the two distinct positions
   * `random.sample` draws when it fires.
   */
  method Mutate(chromosome: array<int>, fire: bool, i: nat, j: nat)
    requires fire ==> i < chromosome.Length && j < chromosome.Length && i != j
    modifies chromosome
    ensures chromosome[..] == if fire then Swap(old(chromosome[..]), i, j) else old(chromosome[..])
  {
    if fire {
      chromosome[i], chromosome[j] := chromosome[j], chromosome[i];
    }
  }
}
