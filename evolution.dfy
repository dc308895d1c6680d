/**
 * The genetic algorithm itself: tournament selection, PMX crossover in
 * pairs, swap mutation of the children, elitist replacement by sorting, and
 * the generation loop that stops at the first perfect chromosome.
 *
 * Every random draw of a generation is an explicit parameter
 * (`GenerationDraws`), constrained only to the ranges the source draws from.
 */
module Evolution {
  import opened Chromosome
  import opened Scoring
  import opened Crossover
  import opened Mutation
  import opened Ranking
  import opened Population

  /** The cut points of one `pmx_crossover` call: `sorted(random.sample(range(size), 2))`. */
  datatype CutPoints = CutPoints(lo: nat, hi: nat)

  /**
   * The draws of one `mutation` call: whether `random.random() < mutation_prob`,
   * and the two positions `random.sample` picks when it is.
   */
  datatype MutationDraw = MutationDraw(fire: bool, i: nat, j: nat)

  /** Every random draw one generation makes. */
  datatype GenerationDraws = GenerationDraws(
    tournaments: seq<seq<nat>>,    // one three-element sample per selected parent
    partner: nat,                  // `random.choice(selected_parents)`, used when the population size is odd
    cuts: seq<CutPoints>,          // two crossovers per pair of parents
    mutations: seq<MutationDraw>)  // one per child that is kept

  /** One entry of `results`; the population average is kept as the integer sum of the fitnesses. */
  datatype GenerationRecord = GenerationRecord(
    generation: nat,
    generationBest: seq<int>, generationBestFitness: nat,
    bestEver: seq<int>, bestEverFitness: nat,
    fitnessSum: nat)

  /** Children bred from `size` parents: two per pair, the last parent of an odd count paired once more. */
  function ChildCount(size: nat): (count: nat)
    ensures count >= size && count % 2 == 0 && count - size <= 1
  {
    size + size % 2
  }

  predicate ValidCuts(n: nat, c: CutPoints) {
    c.lo < c.hi < n
  }

  predicate ValidMutation(n: nat, m: MutationDraw) {
    m.fire ==> m.i < n && m.j < n && m.i != m.j
  }

  /** The draws one generation of a population of `size` chromosomes of length `n` can make. */
  predicate ValidGenerationDraws(n: nat, size: nat, d: GenerationDraws) {
    && ValidTournamentDraws(size, d.tournaments)
    && d.partner < size
    && |d.cuts| == ChildCount(size) && (forall t :: 0 <= t < |d.cuts| ==> ValidCuts(n, d.cuts[t]))
    && |d.mutations| == size && (forall t :: 0 <= t < size ==> ValidMutation(n, d.mutations[t]))
  }

  /** The parents of the pair starting at position i: `selected[i:i + 2]`, or the last one with a random partner. */
  function Couple(selected: seq<seq<int>>, partner: nat, i: nat): (parents: (seq<int>, seq<int>))
    requires i < |selected| && partner < |selected|
    ensures parents.0 == selected[i] && parents.1 in selected
    ensures i + 1 < |selected| ==> parents.1 == selected[i + 1]
    ensures i + 1 == |selected| ==> parents.1 == selected[partner]
  {
    if i + 1 >= |selected| then (selected[i], selected[partner]) else (selected[i], selected[i + 1])
  }

  /** The selected parents and the cut points of one generation fit together. */
  predicate BreedingArgs(n: nat, selected: seq<seq<int>>, partner: nat, cuts: seq<CutPoints>) {
    && |selected| > 0 && partner < |selected|
    && (forall s :: 0 <= s < |selected| ==> IsPermutation(selected[s], n))
    && |cuts| == ChildCount(|selected|) && (forall t :: 0 <= t < |cuts| ==> ValidCuts(n, cuts[t]))
  }

  /**
   * The two children of the pair starting at position i:
   * `pmx_crossover(parents[0], parents[1])` and `pmx_crossover(parents[1], parents[0])`,
   * with the cut points of crossovers i and i + 1.
   */
  function PairChildren(n: nat, selected: seq<seq<int>>, partner: nat, cuts: seq<CutPoints>, i: nat): (children: seq<seq<int>>)
    requires BreedingArgs(n, selected, partner, cuts) && i % 2 == 0 && i < |selected|
    ensures |children| == 2 && |children[0]| == |children[1]| == n
  {
    var parents := Couple(selected, partner, i);
    [PmxReference(parents.0, parents.1, cuts[i].lo, cuts[i].hi),
     PmxReference(parents.1, parents.0, cuts[i + 1].lo, cuts[i + 1].hi)]
  }

  /** The crossover children of the first `pairs` pairs of parents, in the order the source appends them. */
  function BredChildren(n: nat, selected: seq<seq<int>>, partner: nat, cuts: seq<CutPoints>, pairs: nat): (children: seq<seq<int>>)
    requires BreedingArgs(n, selected, partner, cuts) && pairs <= (|selected| + 1) / 2
    ensures |children| == 2 * pairs
  {
    if pairs == 0 then []
    else BredChildren(n, selected, partner, cuts, pairs - 1) + PairChildren(n, selected, partner, cuts, 2 * (pairs - 1))
  }

  /**
   * Children 2q and 2q + 1 are the two crossovers of the pair starting at
   * position 2q, whatever number of pairs was bred after it.
   */
  lemma {:induction false} BredPairAt(n: nat, selected: seq<seq<int>>, partner: nat, cuts: seq<CutPoints>, pairs: nat, q: nat)
    requires BreedingArgs(n, selected, partner, cuts) && pairs <= (|selected| + 1) / 2 && q < pairs
    ensures 2 * q < |selected|
    ensures BredChildren(n, selected, partner, cuts, pairs)[2 * q] == PairChildren(n, selected, partner, cuts, 2 * q)[0]
    ensures BredChildren(n, selected, partner, cuts, pairs)[2 * q + 1] == PairChildren(n, selected, partner, cuts, 2 * q)[1]
  {
    if q < pairs - 1 {
      BredPairAt(n, selected, partner, cuts, pairs - 1, q);
    }
  }

  /** Crossover children of permutations of [0, n) are permutations of [0, n). */
  lemma {:induction false} BredArePermutations(n: nat, selected: seq<seq<int>>, partner: nat, cuts: seq<CutPoints>, pairs: nat)
    requires BreedingArgs(n, selected, partner, cuts) && pairs <= (|selected| + 1) / 2
    ensures forall t :: 0 <= t < 2 * pairs ==> IsPermutation(BredChildren(n, selected, partner, cuts, pairs)[t], n)
  {
    if pairs > 0 {
      BredArePermutations(n, selected, partner, cuts, pairs - 1);
      PairChildrenArePermutations(n, selected, partner, cuts, 2 * (pairs - 1));
    }
  }

  /** Both children of a pair are permutations of [0, n). */
  lemma PairChildrenArePermutations(n: nat, selected: seq<seq<int>>, partner: nat, cuts: seq<CutPoints>, i: nat)
    requires BreedingArgs(n, selected, partner, cuts) && i % 2 == 0 && i < |selected|
    ensures IsPermutation(PairChildren(n, selected, partner, cuts, i)[0], n)
    ensures IsPermutation(PairChildren(n, selected, partner, cuts, i)[1], n)
  {
    var parents := Couple(selected, partner, i);
    PmxReferenceFacts(parents.0, parents.1, cuts[i].lo, cuts[i].hi);
    PmxReferenceFacts(parents.1, parents.0, cuts[i + 1].lo, cuts[i + 1].hi);
  }

  /** One pass of the pairing loop: pick the parents of position i and cross them both ways. */
  method BreedPair(n: nat, selected: seq<seq<int>>, partner: nat, cuts: seq<CutPoints>, i: nat)
    returns (child1: array<int>, child2: array<int>)
    requires BreedingArgs(n, selected, partner, cuts) && i % 2 == 0 && i < |selected|
    ensures fresh(child1) && fresh(child2) && child1 != child2
    ensures child1.Length == child2.Length == n
    ensures [child1[..], child2[..]] == PairChildren(n, selected, partner, cuts, i)
  {
    var parents := Couple(selected, partner, i);
    ghost var paths1, paths2;
    child1, paths1 := PmxCrossover(parents.0, parents.1, cuts[i].lo, cuts[i].hi);
    child2, paths2 := PmxCrossover(parents.1, parents.0, cuts[i + 1].lo, cuts[i + 1].hi);
  }

  /** The crossover loop of `Genetic_N_QUEENS`: every child is a fresh list. */
  method Breed(n: nat, selected: seq<seq<int>>, partner: nat, cuts: seq<CutPoints>)
    returns (offspring: seq<array<int>>, ghost values: seq<seq<int>>)
    requires BreedingArgs(n, selected, partner, cuts)
    ensures values == BredChildren(n, selected, partner, cuts, (|selected| + 1) / 2)
    ensures |offspring| == |values| == ChildCount(|selected|)
    ensures forall t :: 0 <= t < |offspring| ==> fresh(offspring[t]) && offspring[t][..] == values[t]
    ensures Distinct(offspring)
  {
    hide PairChildren;
    offspring, values := [], [];
    var pairs := (|selected| + 1) / 2;
    for p := 0 to pairs
      invariant values == BredChildren(n, selected, partner, cuts, p)
      invariant |offspring| == |values| == 2 * p
      invariant forall t :: 0 <= t < 2 * p ==> fresh(offspring[t]) && offspring[t][..] == values[t]
      invariant Distinct(offspring)
    {
      var child1, child2 := BreedPair(n, selected, partner, cuts, 2 * p);
      DistinctExtends(offspring, child1, child2);
      offspring := offspring + [child1, child2];
      values := values + [child1[..], child2[..]];
    }
  }

  /** The value `mutation(child)` leaves in a child of length n. */
  function Mutated(child: seq<int>, n: nat, m: MutationDraw): (r: seq<int>)
    requires |child| == n && ValidMutation(n, m)
    ensures |r| == n && multiset(r) == multiset(child)
  {
    if m.fire then SwapKeepsValues(child, m.i, m.j); Swap(child, m.i, m.j) else child
  }

  /** `[mutation(child, mutation_rate) for child in offspring[:population_size]]`: each child mutated in place. */
  method MutateOffspring(offspring: seq<array<int>>, n: nat, mutations: seq<MutationDraw>)
    returns (kept: seq<seq<int>>)
    requires |mutations| <= |offspring|
    requires forall t :: 0 <= t < |offspring| ==> offspring[t].Length == n
    requires Distinct(offspring)
    requires forall t :: 0 <= t < |mutations| ==> ValidMutation(n, mutations[t])
    modifies set t | 0 <= t < |mutations| :: offspring[t]
    ensures |kept| == |mutations|
    ensures forall t :: 0 <= t < |mutations| ==>
              kept[t] == offspring[t][..] && kept[t] == Mutated(old(offspring[t][..]), n, mutations[t])
  {
    kept := [];
    for t := 0 to |mutations|
      invariant |kept| == t
      invariant forall u :: 0 <= u < t ==>
                  kept[u] == offspring[u][..] && kept[u] == Mutated(old(offspring[u][..]), n, mutations[u])
      invariant forall u :: t <= u < |offspring| ==> offspring[u][..] == old(offspring[u][..])
    {
      Mutate(offspring[t], mutations[t].fire, mutations[t].i, mutations[t].j);
      kept := kept + [offspring[t][..]];
    }
  }

  /** A mutated permutation is a permutation. */
  lemma MutatedIsPermutation(child: seq<int>, n: nat, m: MutationDraw)
    requires IsPermutation(child, n) && ValidMutation(n, m)
    ensures IsPermutation(Mutated(child, n, m), n)
  {
    if m.fire {
      SwapPreservesPermutation(child, n, m.i, m.j);
    }
  }

  /** `sorted(offspring + [best_chromosome.copy()], key=fitness)[:population_size]`. */
  function Survivors(children: seq<seq<int>>, best: seq<int>, size: nat, blocked: set<Cell>): (survivors: seq<seq<int>>)
    requires size <= |children| + 1
    ensures |survivors| == size
    ensures SortedBy(survivors, FitnessKey(blocked))
  {
    SortKeepsLength(children + [best], FitnessKey(blocked));
    TruncationKeepsBest(SortBy(children + [best], FitnessKey(blocked)), size, FitnessKey(blocked));
    SortBy(children + [best], FitnessKey(blocked))[..size]
  }

  /**
   * Elitism: the survivors come from the children and the previous best, and
   * the fittest survivor is at least as fit as the previous best.
   */
  lemma SurvivorsKeepBest(children: seq<seq<int>>, best: seq<int>, size: nat, blocked: set<Cell>)
    requires 0 < size <= |children| + 1
    ensures forall c :: c in Survivors(children, best, size, blocked) ==> c in children || c == best
    ensures Fitness(Survivors(children, best, size, blocked)[0], blocked) <= Fitness(best, blocked)
  {
    var key := FitnessKey(blocked);
    var sorted := SortBy(children + [best], key);
    var survivors := Survivors(children, best, size, blocked);
    assert best in multiset(children + [best]);
    SortedHeadIsMinimal(sorted, best, key);
    assert survivors[0] == sorted[0];
    forall c | c in survivors
      ensures c in children || c == best
    {
      assert c in multiset(sorted);
      assert c in children + [best];
    }
  }

  /** Every survivor is a permutation when every child and the previous best are. */
  lemma SurvivorsArePermutations(children: seq<seq<int>>, best: seq<int>, size: nat, n: nat, blocked: set<Cell>)
    requires size <= |children| + 1
    requires forall t :: 0 <= t < |children| ==> IsPermutation(children[t], n)
    requires IsPermutation(best, n)
    ensures forall c :: c in Survivors(children, best, size, blocked) ==> IsPermutation(c, n)
  {
    if size > 0 {
      SurvivorsKeepBest(children, best, size, blocked);
    }
  }

  /** The tournament winners of one generation, in the order `tournament_selection` appends them. */
  function SelectedParents(population: seq<seq<int>>, blocked: set<Cell>, tournaments: seq<seq<nat>>): (selected: seq<seq<int>>)
    requires forall s :: 0 <= s < |tournaments| ==> |tournaments[s]| == TournamentSize && ValidPicks(|population|, tournaments[s])
    ensures |selected| == |tournaments|
    ensures forall s :: 0 <= s < |selected| ==> selected[s] in population
  {
    if tournaments == [] then []
    else
      var last := |tournaments| - 1;
      var contenders := Sample(population, tournaments[last]);
      assert Winner(contenders, blocked) in multiset(contenders);
      SelectedParents(population, blocked, tournaments[..last]) + [Winner(contenders, blocked)]
  }

  /** Entry s of the selected parents is the winner of tournament s. */
  lemma {:induction false} SelectedParentsAt(population: seq<seq<int>>, blocked: set<Cell>, tournaments: seq<seq<nat>>)
    requires forall s :: 0 <= s < |tournaments| ==> |tournaments[s]| == TournamentSize && ValidPicks(|population|, tournaments[s])
    ensures forall s :: 0 <= s < |tournaments| ==>
              SelectedParents(population, blocked, tournaments)[s] == Winner(Sample(population, tournaments[s]), blocked)
  {
    if tournaments != [] {
      SelectedParentsAt(population, blocked, tournaments[..|tournaments| - 1]);
    }
  }

  /** The children that survive truncation, each as `mutation` leaves it. */
  function MutatedAll(bred: seq<seq<int>>, n: nat, mutations: seq<MutationDraw>): (children: seq<seq<int>>)
    requires |mutations| <= |bred| && forall t :: 0 <= t < |bred| ==> |bred[t]| == n
    requires forall t :: 0 <= t < |mutations| ==> ValidMutation(n, mutations[t])
    ensures |children| == |mutations|
  {
    if mutations == [] then []
    else
      var last := |mutations| - 1;
      MutatedAll(bred, n, mutations[..last]) + [Mutated(bred[last], n, mutations[last])]
  }

  /** Child t of the mutated list is child t of the crossover, mutated; a permutation when that child is one. */
  lemma {:induction false} MutatedAllAt(bred: seq<seq<int>>, n: nat, mutations: seq<MutationDraw>)
    requires |mutations| <= |bred| && forall t :: 0 <= t < |bred| ==> |bred[t]| == n
    requires forall t :: 0 <= t < |mutations| ==> ValidMutation(n, mutations[t])
    ensures forall t :: 0 <= t < |mutations| ==> MutatedAll(bred, n, mutations)[t] == Mutated(bred[t], n, mutations[t])
    ensures forall t :: 0 <= t < |mutations| && IsPermutation(bred[t], n) ==> IsPermutation(MutatedAll(bred, n, mutations)[t], n)
  {
    if mutations != [] {
      var last := |mutations| - 1;
      var init := MutatedAll(bred, n, mutations[..last]);
      var all := MutatedAll(bred, n, mutations);
      MutatedAllAt(bred, n, mutations[..last]);
      assert all == init + [Mutated(bred[last], n, mutations[last])];
      forall t | 0 <= t < |mutations|
        ensures all[t] == Mutated(bred[t], n, mutations[t])
        ensures IsPermutation(bred[t], n) ==> IsPermutation(all[t], n)
      {
        if t < last {
          assert all[t] == init[t] && mutations[..last][t] == mutations[t];
        } else if IsPermutation(bred[t], n) {
          MutatedIsPermutation(bred[t], n, mutations[t]);
        }
      }
    }
  }

  /**
   * The children one generation keeps: the tournament winners bred in pairs,
   * the first `population_size` children, each mutated.
   */
  function Offspring(n: nat, population: seq<seq<int>>, blocked: set<Cell>, draws: GenerationDraws): (children: seq<seq<int>>)
    requires |population| > 0 && forall c :: c in population ==> IsPermutation(c, n)
    requires ValidGenerationDraws(n, |population|, draws)
    ensures |children| == |population|
    ensures forall t :: 0 <= t < |children| ==> IsPermutation(children[t], n)
  {
    var selected := SelectedParents(population, blocked, draws.tournaments);
    var bred := BredChildren(n, selected, draws.partner, draws.cuts, (|population| + 1) / 2);
    BredArePermutations(n, selected, draws.partner, draws.cuts, (|population| + 1) / 2);
    MutatedAllAt(bred, n, draws.mutations);
    MutatedAll(bred, n, draws.mutations)
  }

  /** The population after one generation: the survivors of the kept children and the previous best. */
  function NextPopulation(n: nat, population: seq<seq<int>>, best: seq<int>, blocked: set<Cell>, draws: GenerationDraws)
    : (next: seq<seq<int>>)
    requires |population| > 0 && forall c :: c in population ==> IsPermutation(c, n)
    requires IsPermutation(best, n)
    requires ValidGenerationDraws(n, |population|, draws)
    ensures |next| == |population|
    ensures forall c :: c in next ==> IsPermutation(c, n)
    ensures Fitness(next[0], blocked) <= Fitness(best, blocked)
    ensures forall c :: c in next ==> Fitness(next[0], blocked) <= Fitness(c, blocked)
  {
    var children := Offspring(n, population, blocked, draws);
    SurvivorsArePermutations(children, best, |population|, n, blocked);
    SurvivorsKeepBest(children, best, |population|, blocked);
    HeadIsFittest(Survivors(children, best, |population|, blocked), blocked);
    Survivors(children, best, |population|, blocked)
  }

  /** The head of a population sorted by fitness is at least as fit as every member. */
  lemma HeadIsFittest(population: seq<seq<int>>, blocked: set<Cell>)
    requires |population| > 0 && SortedBy(population, FitnessKey(blocked))
    ensures forall c :: c in population ==> Fitness(population[0], blocked) <= Fitness(c, blocked)
  {
    forall c | c in population
      ensures Fitness(population[0], blocked) <= Fitness(c, blocked)
    {
      SortedHeadIsMinimal(population, c, FitnessKey(blocked));
    }
  }

  /** `best_chromosome` after a generation whose fittest member is `current`: replaced only on a strict improvement. */
  function NewBest(current: seq<int>, best: seq<int>, blocked: set<Cell>): (newBest: seq<int>)
    ensures newBest == current || newBest == best
    ensures Fitness(newBest, blocked) <= Fitness(current, blocked) && Fitness(newBest, blocked) <= Fitness(best, blocked)
    ensures newBest == current <== Fitness(current, blocked) < Fitness(best, blocked)
    ensures newBest == best <== Fitness(best, blocked) <= Fitness(current, blocked)
  {
    if Fitness(current, blocked) < Fitness(best, blocked) then current else best
  }

  /** The population and the best-ever chromosome after one generation. */
  function Step(n: nat, population: seq<seq<int>>, best: seq<int>, blocked: set<Cell>, draws: GenerationDraws)
    : (state: (seq<seq<int>>, seq<int>))
    requires |population| > 0 && forall c :: c in population ==> IsPermutation(c, n)
    requires IsPermutation(best, n)
    requires ValidGenerationDraws(n, |population|, draws)
    ensures |state.0| == |population| && forall c :: c in state.0 ==> IsPermutation(c, n)
    ensures IsPermutation(state.1, n)
    ensures Fitness(state.1, blocked) <= Fitness(best, blocked)
  {
    var next := NextPopulation(n, population, best, blocked, draws);
    assert next[0] in next;
    (next, NewBest(next[0], best, blocked))
  }

  /** The entry `results.append(...)` makes for a generation that ends with `population` and `best`. */
  function RecordOf(generation: nat, population: seq<seq<int>>, best: seq<int>, blocked: set<Cell>): GenerationRecord
    requires |population| > 0
  {
    GenerationRecord(generation, population[0], Fitness(population[0], blocked), best, Fitness(best, blocked),
                     FitnessSum(population, blocked))
  }

  /** A population of permutations of length n, and a best-ever chromosome that is one too. */
  predicate ValidState(n: nat, population: seq<seq<int>>, best: seq<int>) {
    |population| > 0 && (forall c :: c in population ==> IsPermutation(c, n)) && IsPermutation(best, n)
  }

  /**
   * The entries of `results` from generation `generation` on, starting from
   * `population` and `best`, where `draws` are the draws of the generations
   * still to run; the run ends after the first entry whose best-ever fitness
   * is 0.  (A state or a draw outside the ranges the program produces ends
   * the run with no entry; the generation loop never reaches one.)
   */
  function Run(n: nat, population: seq<seq<int>>, best: seq<int>, blocked: set<Cell>, draws: seq<GenerationDraws>,
               generation: nat): (results: seq<GenerationRecord>)
    ensures |results| <= |draws|
    decreases |draws|
  {
    if draws == [] || !ValidState(n, population, best) || !ValidGenerationDraws(n, |population|, draws[0]) then []
    else
      var state := Step(n, population, best, blocked, draws[0]);
      var record := RecordOf(generation, state.0, state.1, blocked);
      if record.bestEverFitness == 0 then [record]
      else [record] + Run(n, state.0, state.1, blocked, draws[1..], generation + 1)
  }

  /**
   * One iteration of the generation loop.  `selected`, `bred` and `children`
   * are the intermediate lists: the tournament winners, the crossover
   * children before mutation, and the mutated children that were kept.
   */
  method NextGeneration(n: nat, population: seq<seq<int>>, best: seq<int>, blocked: set<Cell>, draws: GenerationDraws)
    returns (newPopulation: seq<seq<int>>, currentBest: seq<int>, newBest: seq<int>,
             selected: seq<seq<int>>, ghost bred: seq<seq<int>>, children: seq<seq<int>>)
    requires |population| > 0 && forall c :: c in population ==> IsPermutation(c, n)
    requires IsPermutation(best, n)
    requires ValidGenerationDraws(n, |population|, draws)
    ensures selected == SelectedParents(population, blocked, draws.tournaments)
    ensures BreedingArgs(n, selected, draws.partner, draws.cuts)
    ensures bred == BredChildren(n, selected, draws.partner, draws.cuts, (|population| + 1) / 2)
    ensures children == Offspring(n, population, blocked, draws)
    ensures newPopulation == NextPopulation(n, population, best, blocked, draws)
    ensures currentBest == newPopulation[ArgMin(newPopulation, FitnessKey(blocked))] == newPopulation[0]
    ensures newBest == NewBest(currentBest, best, blocked)
  {
    selected, bred, children := MakeChildren(n, population, blocked, draws);
    newPopulation, currentBest, newBest := Replace(n, children, best, |population|, blocked);
  }

  /** Selection, crossover and mutation: the kept children of one generation. */
  method MakeChildren(n: nat, population: seq<seq<int>>, blocked: set<Cell>, draws: GenerationDraws)
    returns (selected: seq<seq<int>>, ghost bred: seq<seq<int>>, children: seq<seq<int>>)
    requires |population| > 0 && forall c :: c in population ==> IsPermutation(c, n)
    requires ValidGenerationDraws(n, |population|, draws)
    ensures selected == SelectedParents(population, blocked, draws.tournaments)
    ensures BreedingArgs(n, selected, draws.partner, draws.cuts)
    ensures bred == BredChildren(n, selected, draws.partner, draws.cuts, (|population| + 1) / 2)
    ensures children == Offspring(n, population, blocked, draws)
  {
    var offspring;
    selected, offspring, bred := SelectAndBreed(n, population, blocked, draws);
    children := MutateOffspring(offspring, n, draws.mutations);
    MutatedAreOffspring(n, population, blocked, draws, bred, children);
  }

  /** Tournament selection followed by crossover in pairs: the children before mutation, as new arrays. */
  method SelectAndBreed(n: nat, population: seq<seq<int>>, blocked: set<Cell>, draws: GenerationDraws)
    returns (selected: seq<seq<int>>, offspring: seq<array<int>>, ghost bred: seq<seq<int>>)
    requires |population| > 0 && forall c :: c in population ==> IsPermutation(c, n)
    requires ValidGenerationDraws(n, |population|, draws)
    ensures selected == SelectedParents(population, blocked, draws.tournaments)
    ensures BreedingArgs(n, selected, draws.partner, draws.cuts)
    ensures bred == BredChildren(n, selected, draws.partner, draws.cuts, (|population| + 1) / 2)
    ensures |offspring| == |bred| >= |population|
    ensures forall t :: 0 <= t < |offspring| ==> fresh(offspring[t]) && offspring[t].Length == n && offspring[t][..] == bred[t]
    ensures Distinct(offspring)
  {
    selected := TournamentSelection(population, blocked, draws.tournaments);
    SelectedParentsAt(population, blocked, draws.tournaments);
    assert selected == SelectedParents(population, blocked, draws.tournaments);
    offspring, bred := Breed(n, selected, draws.partner, draws.cuts);
    BredArePermutations(n, selected, draws.partner, draws.cuts, (|selected| + 1) / 2);
  }

  /** The mutated crossover children, taken position by position, are the generation's `Offspring`. */
  lemma MutatedAreOffspring(n: nat, population: seq<seq<int>>, blocked: set<Cell>, draws: GenerationDraws,
                            bred: seq<seq<int>>, children: seq<seq<int>>)
    requires |population| > 0 && forall c :: c in population ==> IsPermutation(c, n)
    requires ValidGenerationDraws(n, |population|, draws)
    requires bred == BredChildren(n, SelectedParents(population, blocked, draws.tournaments), draws.partner, draws.cuts,
                                  (|population| + 1) / 2)
    requires forall t :: 0 <= t < |bred| ==> |bred[t]| == n
    requires |children| == |population|
    requires forall t :: 0 <= t < |children| ==> children[t] == Mutated(bred[t], n, draws.mutations[t])
    ensures children == Offspring(n, population, blocked, draws)
  {
    MutatedAllAt(bred, n, draws.mutations);
    assert children == MutatedAll(bred, n, draws.mutations);
  }

  /**
   * Elitist replacement: `population = sorted(offspring + [best], ...)[:population_size]`,
   * `current_best = min(population, ...)`, and the best-ever update.
   */
  method Replace(n: nat, children: seq<seq<int>>, best: seq<int>, size: nat, blocked: set<Cell>)
    returns (newPopulation: seq<seq<int>>, currentBest: seq<int>, newBest: seq<int>)
    requires 0 < size <= |children| + 1
    requires forall t :: 0 <= t < |children| ==> IsPermutation(children[t], n)
    requires IsPermutation(best, n)
    ensures newPopulation == Survivors(children, best, size, blocked)
    ensures forall c :: c in newPopulation ==> IsPermutation(c, n)
    ensures currentBest == newPopulation[ArgMin(newPopulation, FitnessKey(blocked))] == newPopulation[0]
    ensures Fitness(currentBest, blocked) <= Fitness(best, blocked)
    ensures newBest == if Fitness(currentBest, blocked) < Fitness(best, blocked) then currentBest else best
    ensures Fitness(newBest, blocked) == Fitness(currentBest, blocked)
  {
    newPopulation := Survivors(children, best, size, blocked);
    SurvivorsArePermutations(children, best, size, n, blocked);
    SurvivorsKeepBest(children, best, size, blocked);
    currentBest := newPopulation[ArgMin(newPopulation, FitnessKey(blocked))];
    ArgMinOfSortedIsHead(newPopulation, FitnessKey(blocked));

    var currentScore := EvaluateFitness(currentBest, blocked);
    var bestScore := EvaluateFitness(best, blocked);
    if currentScore < bestScore {
      newBest := currentBest;
    } else {
      newBest := best;
    }
  }

  /** `sum(fitness(ind, bloqueios) for ind in population)`. */
  function FitnessSum(population: seq<seq<int>>, blocked: set<Cell>): (total: nat)
    ensures total == 0 <==> forall k :: 0 <= k < |population| ==> Fitness(population[k], blocked) == 0
  {
    if population == [] then 0
    else FitnessSum(population[..|population| - 1], blocked) + Fitness(population[|population| - 1], blocked)
  }

  /** The population total is at least the population size times the best fitness in it. */
  lemma {:induction false} FitnessSumAtLeastBest(population: seq<seq<int>>, least: nat, blocked: set<Cell>)
    requires forall c :: c in population ==> least <= Fitness(c, blocked)
    ensures FitnessSum(population, blocked) >= |population| * least
  {
    hide Fitness;
    if population != [] {
      var init := population[..|population| - 1];
      assert forall c :: c in init ==> c in population;
      FitnessSumAtLeastBest(init, least, blocked);
      assert population[|population| - 1] in population;
      MultipleStep(|init|, least);
    }
  }

  /** One more member adds one more multiple of the bound. */
  lemma MultipleStep(k: nat, least: nat)
    ensures (k + 1) * least == k * least + least
  { }

  /** What one entry of `results` records, for chromosomes of length n in a population of `size`. */
  ghost predicate FaithfulRecord(r: GenerationRecord, n: nat, size: nat, blocked: set<Cell>) {
    && IsPermutation(r.generationBest, n) && IsPermutation(r.bestEver, n)
    && r.generationBestFitness == Fitness(r.generationBest, blocked)
    && r.bestEverFitness == Fitness(r.bestEver, blocked)
    && r.generationBestFitness == r.bestEverFitness
    && r.fitnessSum >= size * r.generationBestFitness
  }

  /**
   * One pass of the generation loop body, up to and including
   * `results.append(...)`; `draws[0]` are this generation's draws and the
   * rest those of the generations after it.
   */
  method RecordedGeneration(n: nat, generation: nat, population: seq<seq<int>>, best: seq<int>, blocked: set<Cell>,
                            draws: seq<GenerationDraws>)
    returns (newPopulation: seq<seq<int>>, newBest: seq<int>, record: GenerationRecord)
    requires ValidState(n, population, best)
    requires |draws| > 0 && forall g :: 0 <= g < |draws| ==> ValidGenerationDraws(n, |population|, draws[g])
    ensures (newPopulation, newBest) == Step(n, population, best, blocked, draws[0])
    ensures record == RecordOf(generation, newPopulation, newBest, blocked)
    ensures |newPopulation| == |population| && ValidState(n, newPopulation, newBest)
    ensures record.bestEver == newBest
    ensures Run(n, population, best, blocked, draws, generation)
            == [record] + (if record.bestEverFitness == 0 then [] else Run(n, newPopulation, newBest, blocked, draws[1..], generation + 1))
  {
    var currentBest, selected, children;
    ghost var bred;
    newPopulation, currentBest, newBest, selected, bred, children := NextGeneration(n, population, best, blocked, draws[0]);
    var currentScore := EvaluateFitness(currentBest, blocked);
    var bestScore := EvaluateFitness(newBest, blocked);
    record := GenerationRecord(generation, currentBest, currentScore, newBest, bestScore, FitnessSum(newPopulation, blocked));
    RunUnfolds(n, population, best, blocked, draws, generation, newPopulation, newBest, record);
  }

  /**
   * The entry a generation appends is faithful: the population's fittest,
   * the best-ever chromosome as fit as it, and no worse than the best before.
   */
  lemma StepIsFaithful(n: nat, population: seq<seq<int>>, best: seq<int>, blocked: set<Cell>, draws: GenerationDraws,
                       generation: nat)
    requires ValidState(n, population, best)
    requires ValidGenerationDraws(n, |population|, draws)
    ensures var state := Step(n, population, best, blocked, draws);
            var record := RecordOf(generation, state.0, state.1, blocked);
            FaithfulRecord(record, n, |population|, blocked) && record.bestEverFitness <= Fitness(best, blocked)
  {
    var state := Step(n, population, best, blocked, draws);
    var next := NextPopulation(n, population, best, blocked, draws);
    assert state.0 == next;
    assert next[0] in next;
    FitnessSumAtLeastBest(next, Fitness(next[0], blocked), blocked);
  }

  /** `results` from generation `first` on: entries numbered in order, each faithful, the best-ever fitness never rising. */
  ghost predicate Chronicle(results: seq<GenerationRecord>, first: nat, n: nat, size: nat, blocked: set<Cell>) {
    && (forall g :: 0 <= g < |results| ==> results[g].generation == first + g && FaithfulRecord(results[g], n, size, blocked))
    && (forall g, h :: 0 <= g < h < |results| ==> results[h].bestEverFitness <= results[g].bestEverFitness)
  }

  /** An entry no better than any later one, put before a chronicle starting one generation later, keeps it a chronicle. */
  lemma ChroniclePrepends(record: GenerationRecord, rest: seq<GenerationRecord>, first: nat, n: nat, size: nat,
                          blocked: set<Cell>)
    requires Chronicle(rest, first + 1, n, size, blocked)
    requires record.generation == first && FaithfulRecord(record, n, size, blocked)
    requires forall g :: 0 <= g < |rest| ==> rest[g].bestEverFitness <= record.bestEverFitness
    ensures Chronicle([record] + rest, first, n, size, blocked)
  {
    var all := [record] + rest;
    forall g | 0 <= g < |all|
      ensures all[g].generation == first + g && FaithfulRecord(all[g], n, size, blocked)
    {
      if g > 0 {
        assert all[g] == rest[g - 1];
      }
    }
    forall g, h | 0 <= g < h < |all|
      ensures all[h].bestEverFitness <= all[g].bestEverFitness
    {
      assert all[h] == rest[h - 1];
      if g > 0 {
        assert all[g] == rest[g - 1];
      }
    }
  }

  /**
   * Every run is a chronicle of the generations it covers, and no entry's
   * best-ever fitness exceeds that of the chromosome it started from.
   */
  lemma {:induction false} RunIsChronicle(n: nat, population: seq<seq<int>>, best: seq<int>, blocked: set<Cell>,
                                          draws: seq<GenerationDraws>, generation: nat, results: seq<GenerationRecord>)
    requires ValidState(n, population, best)
    requires results == Run(n, population, best, blocked, draws, generation)
    ensures Chronicle(results, generation, n, |population|, blocked)
    ensures forall g :: 0 <= g < |results| ==> results[g].bestEverFitness <= Fitness(best, blocked)
    decreases |draws|
  {
    hide Step;
    if draws != [] && ValidGenerationDraws(n, |population|, draws[0]) {
      var next, newBest, record := RunHead(n, population, best, blocked, draws, generation);
      if record.bestEverFitness == 0 {
        assert results == [record] + [];
        ChroniclePrepends(record, [], generation, n, |population|, blocked);
      } else {
        var rest := Run(n, next, newBest, blocked, draws[1..], generation + 1);
        RunIsChronicle(n, next, newBest, blocked, draws[1..], generation + 1, rest);
        ChroniclePrepends(record, rest, generation, n, |population|, blocked);
      }
    }
  }

  /** A run stops right after its first perfect entry: every entry before the last has best-ever fitness above 0. */
  lemma {:induction false} RunStopsAtPerfect(n: nat, population: seq<seq<int>>, best: seq<int>, blocked: set<Cell>,
                                             draws: seq<GenerationDraws>, generation: nat, results: seq<GenerationRecord>)
    requires results == Run(n, population, best, blocked, draws, generation)
    ensures forall g :: 0 <= g < |results| - 1 ==> results[g].bestEverFitness > 0
    decreases |draws|
  {
    hide Step;
    if draws != [] && ValidState(n, population, best) && ValidGenerationDraws(n, |population|, draws[0]) {
      var next, newBest, record := RunHead(n, population, best, blocked, draws, generation);
      if record.bestEverFitness != 0 {
        var rest := Run(n, next, newBest, blocked, draws[1..], generation + 1);
        RunStopsAtPerfect(n, next, newBest, blocked, draws[1..], generation + 1, rest);
        forall g | 0 <= g < |results| - 1
          ensures results[g].bestEverFitness > 0
        {
          if g > 0 {
            assert results[g] == rest[g - 1];
          }
        }
      }
    }
  }

  /**
   * With every draw in range, a run makes one entry per generation until the
   * first perfect one: it is never empty when a generation is to run, and it
   * is cut short only by a perfect last entry.
   */
  lemma {:induction false} RunEndsEarlyOnlyWhenPerfect(n: nat, population: seq<seq<int>>, best: seq<int>, blocked: set<Cell>,
                                                       draws: seq<GenerationDraws>, generation: nat,
                                                       results: seq<GenerationRecord>)
    requires ValidState(n, population, best)
    requires forall g :: 0 <= g < |draws| ==> ValidGenerationDraws(n, |population|, draws[g])
    requires results == Run(n, population, best, blocked, draws, generation)
    ensures |draws| > 0 ==> |results| > 0
    ensures |results| < |draws| ==> results[|results| - 1].bestEverFitness == 0
    decreases |draws|
  {
    hide Step;
    if draws != [] {
      var next, newBest, record := RunHead(n, population, best, blocked, draws, generation);
      if record.bestEverFitness != 0 {
        var rest := Run(n, next, newBest, blocked, draws[1..], generation + 1);
        assert forall g :: 0 <= g < |draws[1..]| ==> draws[1..][g] == draws[g + 1];
        RunEndsEarlyOnlyWhenPerfect(n, next, newBest, blocked, draws[1..], generation + 1, rest);
        assert |rest| > 0 ==> results[|results| - 1] == rest[|rest| - 1];
      }
    }
  }

  /**
   * `Genetic_N_QUEENS(dimensions, population_size, generations, ...)`:
   * `initialPicks` are the draws of the initial population and `draws[g]`
   * those of generation g.  Returns `results` and the best chromosome.
   */
  method GeneticNQueens(n: nat, populationSize: nat, generations: nat, blocked: set<Cell>,
                        initialPicks: seq<seq<nat>>, draws: seq<GenerationDraws>)
    returns (results: seq<GenerationRecord>, best: seq<int>)
    requires populationSize > 0 && generations > 0
    requires |initialPicks| == populationSize
    requires forall c :: 0 <= c < populationSize ==> |initialPicks[c]| == n && ValidPicks(n, initialPicks[c])
    requires |draws| == generations
    requires forall g :: 0 <= g < generations ==> ValidGenerationDraws(n, populationSize, draws[g])
    ensures results == Run(n, GeneratePopulation(n, populationSize, initialPicks),
                           FittestOf(GeneratePopulation(n, populationSize, initialPicks), blocked), blocked, draws, 0)
    ensures 0 < |results| <= generations
    ensures Chronicle(results, 0, n, populationSize, blocked)
    ensures forall g :: 0 <= g < |results| - 1 ==> results[g].bestEverFitness > 0
    ensures |results| < generations ==> results[|results| - 1].bestEverFitness == 0
    ensures best == results[|results| - 1].bestEver
    ensures Fitness(best, blocked) <= Fitness(FittestOf(GeneratePopulation(n, populationSize, initialPicks), blocked), blocked)
  {
    var population := GeneratePopulation(n, populationSize, initialPicks);
    var initialBest := FittestOf(population, blocked);
    results, best := Evolve(n, population, initialBest, blocked, draws);
    RunIsChronicle(n, population, initialBest, blocked, draws, 0, results);
    RunStopsAtPerfect(n, population, initialBest, blocked, draws, 0, results);
    RunEndsEarlyOnlyWhenPerfect(n, population, initialBest, blocked, draws, 0, results);
  }

  /**
   * The `for generation in range(generations)` loop of `Genetic_N_QUEENS`,
   * from the initial population and best chromosome; `draws[g]` are the
   * draws of generation g.
   */
  method Evolve(n: nat, population: seq<seq<int>>, best: seq<int>, blocked: set<Cell>, draws: seq<GenerationDraws>)
    returns (results: seq<GenerationRecord>, finalBest: seq<int>)
    requires ValidState(n, population, best)
    requires forall g :: 0 <= g < |draws| ==> ValidGenerationDraws(n, |population|, draws[g])
    ensures results == Run(n, population, best, blocked, draws, 0)
    ensures |results| > 0 ==> finalBest == results[|results| - 1].bestEver
  {
    hide Step, Run;
    var current := population;
    finalBest := best;
    ghost var whole := Run(n, population, best, blocked, draws, 0);
    assert draws[0..] == draws;
    results := [];
    NoEntriesYet(Run(n, current, finalBest, blocked, draws[0..], 0));
    for generation := 0 to |draws|
      invariant |results| == generation
      invariant |current| == |population| && ValidState(n, current, finalBest)
      invariant generation > 0 ==> finalBest == results[generation - 1].bestEver
      invariant results + Run(n, current, finalBest, blocked, draws[generation..], generation) == whole
    {
      var record, newPopulation, newBest;
      newPopulation, newBest, record := RecordedGeneration(n, generation, current, finalBest, blocked, draws[generation..]);
      assert draws[generation..][1..] == draws[generation + 1..];
      ghost var rest := Run(n, newPopulation, newBest, blocked, draws[generation + 1..], generation + 1);
      EntryMoves(results, record, if record.bestEverFitness == 0 then [] else rest, whole);
      results := results + [record];
      current, finalBest := newPopulation, newBest;
      if record.bestEverFitness == 0 {
        assert results + [] == results;
        return;
      }
    }
    assert draws[|draws|..] == [];
  }

  /** Before the first generation, the remaining entries are the whole run. */
  lemma NoEntriesYet(whole: seq<GenerationRecord>)
    ensures [] + whole == whole
  { }

  /** Moving the head of the remaining entries onto the entries made so far keeps the whole run. */
  lemma EntryMoves(results: seq<GenerationRecord>, record: GenerationRecord, rest: seq<GenerationRecord>,
                   whole: seq<GenerationRecord>)
    requires results + ([record] + rest) == whole
    ensures (results + [record]) + rest == whole
  {
    assert results + ([record] + rest) == (results + [record]) + rest;
  }

  /**
   * The first generation of a run from a valid state: the state it leaves,
   * the faithful entry it appends, and the run that follows unless that
   * entry is perfect.
   */
  lemma RunHead(n: nat, population: seq<seq<int>>, best: seq<int>, blocked: set<Cell>, draws: seq<GenerationDraws>,
                generation: nat)
    returns (next: seq<seq<int>>, newBest: seq<int>, record: GenerationRecord)
    requires ValidState(n, population, best)
    requires |draws| > 0 && ValidGenerationDraws(n, |population|, draws[0])
    ensures |next| == |population| && ValidState(n, next, newBest)
    ensures record.generation == generation && FaithfulRecord(record, n, |population|, blocked)
    ensures record.bestEverFitness == Fitness(newBest, blocked) <= Fitness(best, blocked)
    ensures Run(n, population, best, blocked, draws, generation)
            == [record] + (if record.bestEverFitness == 0 then [] else Run(n, next, newBest, blocked, draws[1..], generation + 1))
  {
    var state := Step(n, population, best, blocked, draws[0]);
    next, newBest := state.0, state.1;
    record := RecordOf(generation, next, newBest, blocked);
    StepIsFaithful(n, population, best, blocked, draws[0], generation);
    RunUnfolds(n, population, best, blocked, draws, generation, next, newBest, record);
  }

  /** One generation's entry heads the rest of the run, which stops after it when it is perfect. */
  lemma RunUnfolds(n: nat, population: seq<seq<int>>, best: seq<int>, blocked: set<Cell>, draws: seq<GenerationDraws>,
                   generation: nat, newPopulation: seq<seq<int>>, newBest: seq<int>, record: GenerationRecord)
    requires ValidState(n, population, best)
    requires |draws| > 0 && ValidGenerationDraws(n, |population|, draws[0])
    requires (newPopulation, newBest) == Step(n, population, best, blocked, draws[0])
    requires record == RecordOf(generation, newPopulation, newBest, blocked)
    ensures Run(n, population, best, blocked, draws, generation)
            == [record] + (if record.bestEverFitness == 0 then [] else Run(n, newPopulation, newBest, blocked, draws[1..], generation + 1))
  { }

  /** `min(population, key=fitness)`: a chromosome of the population at least as fit as all of it. */
  function FittestOf(population: seq<seq<int>>, blocked: set<Cell>): (best: seq<int>)
    requires |population| > 0
    ensures best in population
    ensures forall c :: c in population ==> Fitness(best, blocked) <= Fitness(c, blocked)
  {
    var key := FitnessKey(blocked);
    var k := ArgMin(population, key);
    assert forall t :: 0 <= t < |population| ==> key(population[k]) <= key(population[t]);
    population[k]
  }
}
