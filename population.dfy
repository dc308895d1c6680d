/**
 * Random sampling, the initial population and tournament selection.
 *
 * `random.sample(pool, k)` is modelled by its draws: `picks[t]` chooses, by
 * position, one of the |pool| - t elements not chosen before, so any k
 * distinct positions of the pool can be drawn and nothing else.
 */
module Population {
  import opened Chromosome
  import opened Scoring
  import opened Ranking

  /** Contenders per tournament (`tournament_size=3`). */
  const TournamentSize: nat := 3

  /** The draws of one `random.sample` over a pool of `poolSize` elements. */
  predicate ValidPicks(poolSize: nat, picks: seq<nat>) {
    |picks| <= poolSize && forall t :: 0 <= t < |picks| ==> picks[t] < poolSize - t
  }

  /** `pool` without its element at position k. */
  function RemoveAt<T>(pool: seq<T>, k: nat): (rest: seq<T>)
    requires k < |pool|
    ensures |rest| == |pool| - 1
    ensures forall t :: 0 <= t < |rest| ==> rest[t] == pool[if t < k then t else t + 1]
    ensures multiset(rest) + multiset{pool[k]} == multiset(pool)
  {
    assert pool == pool[..k] + [pool[k]] + pool[k + 1..];
    pool[..k] + pool[k + 1..]
  }

  /** `random.sample(pool, |picks|)`: distinct positions of `pool`, in the order drawn. */
  function Sample<T(==)>(pool: seq<T>, picks: seq<nat>): (r: seq<T>)
    requires ValidPicks(|pool|, picks)
    ensures |r| == |picks|
    ensures multiset(r) <= multiset(pool)
    decreases |picks|
  {
    if picks == [] then []
    else
      var rest := RemoveAt(pool, picks[0]);
      assert ValidPicks(|rest|, picks[1..]) by {
        assert forall t :: 0 <= t < |picks| - 1 ==> picks[1..][t] == picks[t + 1];
      }
      [pool[picks[0]]] + Sample(rest, picks[1..])
  }

  /** A sample only holds elements of the pool. */
  lemma SampleFromPool<T>(pool: seq<T>, picks: seq<nat>)
    requires ValidPicks(|pool|, picks)
    ensures forall x :: x in Sample(pool, picks) ==> x in pool
  {
    var r := Sample(pool, picks);
    forall x | x in r
      ensures x in pool
    {
      assert x in multiset(r);
    }
  }

  /** A sample of a list without repeats has no repeats either. */
  lemma {:induction false} SampleOfDistinct<T>(pool: seq<T>, picks: seq<nat>)
    requires ValidPicks(|pool|, picks) && Distinct(pool)
    ensures Distinct(Sample(pool, picks))
    decreases |picks|
  {
    if picks != [] {
      var k := picks[0];
      var rest := RemoveAt(pool, k);
      assert ValidPicks(|rest|, picks[1..]) by {
        assert forall t :: 0 <= t < |picks| - 1 ==> picks[1..][t] == picks[t + 1];
      }
      assert Distinct(rest) by {
        forall a, b | 0 <= a < b < |rest|
          ensures rest[a] != rest[b]
        {
          assert rest[a] == pool[if a < k then a else a + 1];
          assert rest[b] == pool[if b < k then b else b + 1];
        }
      }
      SampleOfDistinct(rest, picks[1..]);
      SampleFromPool(rest, picks[1..]);
      assert forall t :: 0 <= t < |rest| ==> rest[t] != pool[k];
      var r, tail := Sample(pool, picks), Sample(rest, picks[1..]);
      assert r == [pool[k]] + tail;
      forall a, b | 0 <= a < b < |r|
        ensures r[a] != r[b]
      {
        assert r[b] == tail[b - 1] && tail[b - 1] in rest;
        if a > 0 {
          assert r[a] == tail[a - 1];
        }
      }
    }
  }

  /** `random.sample(range(n), n)` is a permutation of [0, n). */
  lemma FullSampleIsPermutation(n: nat, picks: seq<nat>)
    requires |picks| == n && ValidPicks(n, picks)
    ensures IsPermutation(Sample(Range(n), picks), n)
  {
    var r := Sample(Range(n), picks);
    SampleFromPool(Range(n), picks);
    SampleOfDistinct(Range(n), picks);
    forall i | 0 <= i < n
      ensures 0 <= r[i] < n
    {
      assert r[i] in Range(n);
    }
  }

  lemma FullSamplesArePermutations(n: nat, picks: seq<seq<nat>>)
    requires forall c :: 0 <= c < |picks| ==> |picks[c]| == n && ValidPicks(n, picks[c])
    ensures forall c :: 0 <= c < |picks| ==> IsPermutation(Sample(Range(n), picks[c]), n)
  {
    forall c | 0 <= c < |picks| {
      FullSampleIsPermutation(n, picks[c]);
    }
  }

  /**
   * `Generate_population(chromosome_size, population_size)`: one full sample
   * of range(n) per chromosome.
   */
  function GeneratePopulation(n: nat, size: nat, picks: seq<seq<nat>>): (population: seq<seq<int>>)
    requires |picks| == size
    requires forall c :: 0 <= c < size ==> |picks[c]| == n && ValidPicks(n, picks[c])
    ensures |population| == size
    ensures forall c :: 0 <= c < size ==> IsPermutation(population[c], n)
  {
    FullSamplesArePermutations(n, picks);
    seq(size, c requires 0 <= c < size => Sample(Range(n), picks[c]))
  }

  /** The key every ranking of the source uses: `lambda x: fitness(x, bloqueios)`. */
  function FitnessKey(blocked: set<Cell>): (key: seq<int> -> nat)
    ensures forall c :: key(c) == Fitness(c, blocked)
  {
    c => Fitness(c, blocked)
  }

  /** The draws of `tournament_selection`: one sample of three per selected parent. */
  predicate ValidTournamentDraws(populationSize: nat, draws: seq<seq<nat>>) {
    |draws| == populationSize
    && forall s :: 0 <= s < |draws| ==> |draws[s]| == TournamentSize && ValidPicks(populationSize, draws[s])
  }

  /** The winner of one tournament: the first contender of least fitness. */
  function Winner(contenders: seq<seq<int>>, blocked: set<Cell>): (w: seq<int>)
    requires |contenders| > 0
    ensures w in contenders
  {
    contenders[ArgMin(contenders, FitnessKey(blocked))]
  }

  /** The winner is at least as fit as every contender, and strictly fitter than those drawn before it. */
  lemma WinnerIsFittest(contenders: seq<seq<int>>, blocked: set<Cell>)
    requires |contenders| > 0
    ensures forall c :: c in contenders ==> Fitness(Winner(contenders, blocked), blocked) <= Fitness(c, blocked)
    ensures exists k :: 0 <= k < |contenders| && contenders[k] == Winner(contenders, blocked)
              && forall t :: 0 <= t < k ==> Fitness(contenders[t], blocked) > Fitness(contenders[k], blocked)
  {
    var key := FitnessKey(blocked);
    var k := ArgMin(contenders, key);
    assert forall t :: 0 <= t < |contenders| ==> key(contenders[k]) <= key(contenders[t]);
  }

  /** `tournament_selection(population, bloqueios)`: as many winners as the population holds. */
  method TournamentSelection(population: seq<seq<int>>, blocked: set<Cell>, draws: seq<seq<nat>>)
    returns (selected: seq<seq<int>>)
    requires ValidTournamentDraws(|population|, draws)
    ensures |selected| == |population|
    ensures forall s :: 0 <= s < |selected| ==> selected[s] == Winner(Sample(population, draws[s]), blocked)
    ensures forall s :: 0 <= s < |selected| ==> selected[s] in population
  {
    selected := [];
    for s := 0 to |population|
      invariant |selected| == s
      invariant forall u :: 0 <= u < s ==> selected[u] == Winner(Sample(population, draws[u]), blocked)
    {
      var contenders := Sample(population, draws[s]);
      selected := selected + [Winner(contenders, blocked)];
    }
    WinnersFromPopulation(population, blocked, draws, selected);
  }

  /** Every tournament winner is a member of the population it was drawn from. */
  lemma WinnersFromPopulation(population: seq<seq<int>>, blocked: set<Cell>, draws: seq<seq<nat>>, selected: seq<seq<int>>)
    requires ValidTournamentDraws(|population|, draws) && |selected| == |population|
    requires forall s :: 0 <= s < |selected| ==> selected[s] == Winner(Sample(population, draws[s]), blocked)
    ensures forall s :: 0 <= s < |selected| ==> selected[s] in population
  {
    forall s | 0 <= s < |selected|
      ensures selected[s] in population
    {
      SampleFromPool(population, draws[s]);
    }
  }

  /** A tournament that draws a fittest chromosome of the population is won at that fitness. */
  lemma FittestEntrantWins(population: seq<seq<int>>, blocked: set<Cell>, picks: seq<nat>)
    requires |population| > 0 && |picks| > 0 && ValidPicks(|population|, picks)
    requires population[ArgMin(population, FitnessKey(blocked))] in Sample(population, picks)
    ensures Fitness(Winner(Sample(population, picks), blocked), blocked)
            == Fitness(population[ArgMin(population, FitnessKey(blocked))], blocked)
  {
    SampleFromPool(population, picks);
  }
}
