# N-queens with blocked cells: a verified model of the genetic search

The repository solves the N-queens puzzle on a board where some cells are
blocked. It uses a genetic algorithm. A chromosome is a list of columns, one
per row, and it is always a permutation of `[0, n)`. So no two queens share a
row or a column, and only the diagonals and the blocked cells need scoring.

This project models the core of that search in Dafny and proves what it
promises:

- **`Scoring`** models `fitness`. The fitness counts 1000 for every queen on a
  blocked cell, plus k(k-1)/2 for every diagonal key (r - c, and separately
  r + c) that holds k queens. `EvaluateFitness` follows the source's loops: two
  `defaultdict` tallies, each modelled as a map plus its keys in insertion
  order. It is proved equal to `Fitness`, which counts the pairs of rows that
  attack each other along a diagonal.
- **`Crossover`** models `pmx_crossover`, the partially mapped crossover.
  Every mapping `while` loop is proved to terminate. The child is proved to be
  a permutation. It keeps the segment of the first parent, and it keeps the
  second parent's value wherever that value is not in the segment.
- **`Mutation`** models `mutation`, a swap in place behind a coin flip.
- **`Ranking`** models `min(..., key=...)` (the first minimum) and
  `sorted(..., key=...)`, generic over the key.
- **`Population`** models `random.sample`, `Generate_population` and
  `tournament_selection`.
- **`Evolution`** models one generation and the loop of `Genetic_N_QUEENS`:
  selection, crossover in pairs, mutation, elitist replacement, the
  best-ever update, the per-generation record, and the early stop.
- **`BlockedBoard`** models `gerar_tabuleiro_com_bloqueios_melhorado`: the
  limit check and the loop that fills the set of blocked cells and the grid.
- **`FullBoard`** models `construir_tabuleiro_completo`, which overlays the
  queens on the blocked board.

No random draw is made inside the model. Every random draw is a parameter,
and a `requires` clause confines it to the range the source draws from:

- the picks of `random.sample`: `picks[t]` chooses one of the `|pool| - t`
  elements not yet chosen;
- the PMX cut points `lo < hi < n`;
- the mutation coin, and the two distinct swap positions;
- the partner `random.choice` gives the last parent of an odd population;
- the cells `random.randint` yields.

Lists that the source changes in place are arrays here:

- the PMX child;
- the chromosomes that `mutation` swaps in;
- the grids of both board helpers.

Lists the source only reads are sequences.

Two places where the stated design intent and the code disagree. The model
follows the code:

- **The default number of blocked cells.** The intent is a rounded default
  (`round(0.07 * n * n)`). The code truncates it with `int()`
  (`bloqueios.py:10`). The intent is also that every requested count is
  checked against the limit. The code checks only an explicit count; the
  default is never checked (`BlockedBoard.DefaultIsNotChecked`).
- **The blocked-cell penalty.** The intent is that one blocked-cell
  placement always outweighs any gain in diagonal collisions. That holds only
  while the board has at most 45 rows (`Scoring.PenaltyOutweighsDiagonals`). On
  a board of 46 rows or more, the diagonal attacks of one chromosome alone
  exceed the 1000 penalty (`Scoring.PenaltyCanBeOutweighed`).

## Model

| member | source | states |
|---|---|---|
| Scoring.EvaluateFitness | genetic_n_queens_com_bloqueios.py:13-34 | the loops over the two diagonal dictionaries and the penalty return the reference fitness: pairs of rows on a common diagonal plus 1000 per queen on a blocked cell |
| Scoring.CountDiagonals | genetic_n_queens_com_bloqueios.py:20-24 | after the row loop, each dictionary holds the number of queens on each diagonal key, with its keys in insertion order, and the penalty is 1000 per row whose queen is blocked |
| Scoring.Increment | genetic_n_queens_com_bloqueios.py:23-24 | `d[key] += 1` on a defaultdict adds one to that key only (0 when absent) and appends a new key to the key order; it extends the tally of the first m keys to the first m + 1 |
| Scoring.Get | genetic_n_queens_com_bloqueios.py:14-24 | a defaultdict(int) lookup: the stored count for a present key, 0 for an absent one |
| Scoring.CountedStep | genetic_n_queens_com_bloqueios.py:23-24 | incrementing the next key extends the tally and key order of m keys to those of m + 1 keys |
| Scoring.SumPairs | genetic_n_queens_com_bloqueios.py:27-32 | the loop over the dictionary values adds k(k-1)/2 for every key |
| Scoring.TallyFacts | genetic_n_queens_com_bloqueios.py:14-24 | the tally (`Tally`) has exactly the keys listed in insertion order (`Order`), each listed once, and each count is that key's number of occurrences (at least 1); an absent key occurs nowhere |
| Scoring.PairSumUpdate | genetic_n_queens_com_bloqueios.py:28-32 | changing one dictionary value changes the sum of k(k-1)/2 only by that key's term |
| Scoring.BucketFormula | genetic_n_queens_com_bloqueios.py:26-32 | the sum of k(k-1)/2 over a tally equals the number of pairs of positions with equal keys |
| Scoring.BucketStep | genetic_n_queens_com_bloqueios.py:23-32 | counting one more key raises the sum of k(k-1)/2 by the number of earlier equal keys |
| Scoring.SeenKeyStep | genetic_n_queens_com_bloqueios.py:23-32 | incrementing a key already counted c times adds c to the sum of k(k-1)/2 |
| Scoring.PairsStep | genetic_n_queens_com_bloqueios.py:30 | one more queen on a diagonal adds as many pairs as there were queens on it |
| Scoring.NewKeyStep | genetic_n_queens_com_bloqueios.py:23-32 | a key counted for the first time adds nothing to the sum of k(k-1)/2 |
| Scoring.DiagonalSplit | genetic_n_queens_com_bloqueios.py:14-24 | the rows below j sharing j's r - c key plus those sharing its r + c key are exactly the rows attacking row j along a diagonal |
| Scoring.EqualKeyPairsSplit | genetic_n_queens_com_bloqueios.py:14-24 | pairs with equal r - c keys plus pairs with equal r + c keys are exactly the attacking pairs |
| Scoring.BucketsCountAttackingPairs | genetic_n_queens_com_bloqueios.py:26-32 | the collision count computed from the two dictionaries equals the number of pairs of rows with abs(i - j) == abs(c_i - c_j) |
| Scoring.AttackersBelowZero | genetic_n_queens_com_bloqueios.py:20-32 | row j is attacked by no earlier row exactly when no earlier row shares its diagonal |
| Scoring.AttackingPairsZero | genetic_n_queens_com_bloqueios.py:20-32 | there are no diagonal collisions exactly when no two rows share a diagonal |
| Scoring.BlockedRowsZero | genetic_n_queens_com_bloqueios.py:20-22 | the penalty is 0 exactly when no queen stands on a blocked cell |
| Scoring.FitnessZeroIff | genetic_n_queens_com_bloqueios.py:20-34 | fitness is 0 if and only if no two rows share r - c or r + c and no queen stands on a blocked cell |
| Scoring.AttackersBelowBound | genetic_n_queens_com_bloqueios.py:20-32 | a row is attacked by at most as many rows as precede it |
| Scoring.AttackingPairsBound | genetic_n_queens_com_bloqueios.py:26-32 | at most m(m-1)/2 pairs of m rows collide |
| Scoring.PenaltyOutweighsDiagonals | genetic_n_queens_com_bloqueios.py:21-22 | on boards of at most 45 rows, a chromosome with more queens on blocked cells always scores worse |
| Scoring.IdentityAttackersBelow | genetic_n_queens_com_bloqueios.py:20-32 | on the main diagonal every earlier row attacks row j |
| Scoring.IdentityAttackingPairs | genetic_n_queens_com_bloqueios.py:20-32 | the queens of `range(n)` form n(n-1)/2 attacking pairs |
| Scoring.PenaltyCanBeOutweighed | genetic_n_queens_com_bloqueios.py:21-22 | from 46 rows on, an unblocked chromosome can score more than one blocked-cell penalty |
| Scoring.WorkedExample | genetic_n_queens_com_bloqueios.py:36-41 | `[0, 2, 3, 1]` with `{(0, 0), (3, 1)}` scores 2001 |
| Scoring.FourQueensSolution | genetic_n_queens_com_bloqueios.py:13-34 | `[1, 3, 0, 2]` with no blocked cells scores 0 |
| Chromosome.Range | genetic_n_queens_com_bloqueios.py:70 | `range(n)` is a permutation of [0, n) holding i at position i |
| Chromosome.DistinctInRangeIsShort | genetic_n_queens_com_bloqueios.py:44-59 | distinct values drawn from [0, n) number at most n |
| Chromosome.PermutationCoversRange | genetic_n_queens_com_bloqueios.py:44-59 | a permutation of [0, n) contains every value of [0, n) |
| Chromosome.DistinctExtends | genetic_n_queens_com_bloqueios.py:127 | appending two distinct values, neither already present, to a list without repeats keeps it without repeats (used for the fresh child lists) |
| Crossover.SegmentMapping | genetic_n_queens_com_bloqueios.py:52 | the mapping sends each segment value of the first parent to the second parent's value at that position, and has no other keys |
| Crossover.MapGet | genetic_n_queens_com_bloqueios.py:57 | `mapping.get(current, current)`: the mapped value, a value of the mapping, for a key present, and the default otherwise |
| Crossover.PmxReference | genetic_n_queens_com_bloqueios.py:45-59 | the reference PMX child has the parents' length; its properties are stated by `PmxReferenceFacts` |
| Crossover.PmxReferenceFacts | genetic_n_queens_com_bloqueios.py:45-59 | the reference PMX child is a permutation of [0, size), equals parent1 on the segment, and keeps parent2's value wherever that value is not in the segment |
| Crossover.ChainVisitsNewPosition | genetic_n_queens_com_bloqueios.py:56-57 | a mapping step from a value still in the segment reaches a segment position not visited before |
| Crossover.ChainStep | genetic_n_queens_com_bloqueios.py:56-57 | one more pass of the `while` loop extends the mapping chain by one segment position, keeping it free of repeats when that position is new |
| Crossover.SegmentPathIsShort | genetic_n_queens_com_bloqueios.py:56-57 | a chain of distinct segment positions is no longer than the segment, which bounds the `while` loop |
| Crossover.ChainEndsDiffer | genetic_n_queens_com_bloqueios.py:53-58 | two positions outside the segment whose mapping chains end on the same value are the same position |
| Crossover.UnmappedValueIsKept | genetic_n_queens_com_bloqueios.py:55-58 | a second-parent value not in the segment is placed without any mapping step |
| Crossover.UnmappedValuesAreKept | genetic_n_queens_com_bloqueios.py:53-58 | every position outside the segment whose second-parent value is not in the segment keeps that value |
| Crossover.ChainIsResolved | genetic_n_queens_com_bloqueios.py:56-57 | a mapping chain that leaves the segment ends where following the mapping for as many steps as the chain has ends |
| Crossover.ResolveFollowsChain | genetic_n_queens_com_bloqueios.py:55-58 | following the mapping with fuel for the rest of the segment reaches a value in [0, size) outside the segment, along a mapping chain no longer than the segment |
| Crossover.ChainsAreResolved | genetic_n_queens_com_bloqueios.py:53-58 | every position outside the segment holds what following the mapping from parent2's value reaches |
| Crossover.ResolvedPaths | genetic_n_queens_com_bloqueios.py:53-58 | conversely, a child holding the followed value at every outer position has a mapping chain for each |
| Crossover.OutsideResolvedStep | genetic_n_queens_com_bloqueios.py:53-58 | resolving one more position by its chain extends the resolved prefix of the child by one position |
| Crossover.PointwiseIsReference | genetic_n_queens_com_bloqueios.py:45-59 | a child equal to parent1 on the segment and to the followed value elsewhere is the reference PMX child |
| Crossover.ResolvedIsReference | genetic_n_queens_com_bloqueios.py:45-59 | a child that copies the segment and resolves every other position by a mapping chain is the reference PMX child |
| Crossover.ChildIsPermutation | genetic_n_queens_com_bloqueios.py:44-59 | the segment copy together with the resolved outside values is a permutation of [0, size) |
| Crossover.ResolveValue | genetic_n_queens_com_bloqueios.py:55-58 | the `while current in child[cx1:cx2+1]` loop terminates, with a value in [0, size) outside the segment reached by a chain of mapping steps |
| Crossover.CopySegment | genetic_n_queens_com_bloqueios.py:48-49 | a fresh list of -1 with `parent1[cx1..cx2]` copied into the segment |
| Crossover.FillOutside | genetic_n_queens_com_bloqueios.py:53-58 | every position outside the segment is filled with its resolved value and the segment is untouched |
| Crossover.PmxCrossover | genetic_n_queens_com_bloqueios.py:45-59 | the child is a fresh list equal to the reference PMX child: parent1 on `[cx1, cx2]` and, elsewhere, parent2's value followed through the mapping until it leaves the segment; hence a permutation of [0, size) that keeps `parent2[i]` wherever that value is not in the segment |
| Crossover.ResolvedChildFacts | genetic_n_queens_com_bloqueios.py:45-59 | a child that copies the segment and resolves every other position by a chain is a permutation, copies the segment, keeps unmapped parent2 values and is the reference PMX child |
| Mutation.Swap | genetic_n_queens_com_bloqueios.py:65 | positions i and j exchange their values and every other position is unchanged |
| Mutation.SwapKeepsValues | genetic_n_queens_com_bloqueios.py:65 | a swap keeps the multiset of values |
| Mutation.SwapPreservesPermutation | genetic_n_queens_com_bloqueios.py:62-66 | a swapped permutation of [0, n) is still one |
| Mutation.SwapTwiceRestores | genetic_n_queens_com_bloqueios.py:65 | swapping the same two positions again restores the chromosome |
| Mutation.Mutate | genetic_n_queens_com_bloqueios.py:62-66 | in place: unchanged when the coin fails, otherwise exactly positions i and j swapped |
| Ranking.ArgMin | genetic_n_queens_com_bloqueios.py:134 | `min(..., key=...)` picks a position whose key is least, and every earlier position has a strictly larger key (the first minimum) |
| Ranking.Insert | genetic_n_queens_com_bloqueios.py:132 | inserting adds exactly one element and puts the smaller key first |
| Ranking.InsertKeepsSorted | genetic_n_queens_com_bloqueios.py:132 | inserting into a list sorted by key keeps it sorted |
| Ranking.SortBy | genetic_n_queens_com_bloqueios.py:132 | `sorted(..., key=...)` is a permutation of its input in non-decreasing key order |
| Ranking.SortKeepsLength | genetic_n_queens_com_bloqueios.py:132 | sorting keeps the length |
| Ranking.TruncationKeepsBest | genetic_n_queens_com_bloqueios.py:132 | the first `size` elements of a sorted list are sorted and no worse than any dropped element |
| Ranking.SortedHeadIsMinimal | genetic_n_queens_com_bloqueios.py:132-134 | the head of a sorted list has the least key of the list |
| Ranking.ArgMinOfSortedIsHead | genetic_n_queens_com_bloqueios.py:132-134 | `min` of a sorted list is its first element |
| Population.RemoveAt | genetic_n_queens_com_bloqueios.py:75 | removing the element drawn shortens the pool by exactly that element |
| Population.Sample | genetic_n_queens_com_bloqueios.py:75 | `random.sample(pool, k)` returns k elements, a sub-multiset of the pool |
| Population.SampleFromPool | genetic_n_queens_com_bloqueios.py:75 | every sampled element is in the pool |
| Population.SampleOfDistinct | genetic_n_queens_com_bloqueios.py:70 | a sample of a list without repeats has no repeats |
| Population.FullSampleIsPermutation | genetic_n_queens_com_bloqueios.py:70 | `random.sample(range(n), n)` is a permutation of [0, n) |
| Population.FullSamplesArePermutations | genetic_n_queens_com_bloqueios.py:69-70 | every full sample of `range(n)` is a permutation |
| Population.GeneratePopulation | genetic_n_queens_com_bloqueios.py:69-70 | `population_size` chromosomes, each a permutation of `range(chromosome_size)` |
| Population.Winner | genetic_n_queens_com_bloqueios.py:77 | the winner is one of the contenders |
| Population.WinnerIsFittest | genetic_n_queens_com_bloqueios.py:75-77 | the winner's fitness is at most every contender's, and every contender drawn before it is strictly worse |
| Population.TournamentSelection | genetic_n_queens_com_bloqueios.py:73-78 | `len(population)` winners, the s-th won from the s-th sample of three, each a member of the population |
| Population.WinnersFromPopulation | genetic_n_queens_com_bloqueios.py:73-78 | every selected parent is a member of the population |
| Population.FittestEntrantWins | genetic_n_queens_com_bloqueios.py:75-77 | a tournament that draws a fittest member of the population is won at that member's fitness |
| Evolution.ChildCount | genetic_n_queens_com_bloqueios.py:120-127 | pairing yields an even number of children, at least the number of parents and at most one more |
| Evolution.Couple | genetic_n_queens_com_bloqueios.py:120-124 | the pair starting at position i is `selected[i]` with its neighbour `selected[i + 1]`, or, for the last parent of an odd count, with the drawn partner; both are selected parents |
| Evolution.PairChildren | genetic_n_queens_com_bloqueios.py:125-127 | the two crossover children of a pair are chromosomes of length n |
| Evolution.BredChildren | genetic_n_queens_com_bloqueios.py:119-127 | the children of the first p pairs number 2p |
| Evolution.BredPairAt | genetic_n_queens_com_bloqueios.py:119-127 | children 2q and 2q + 1 are the two crossovers of the pair starting at position 2q |
| Evolution.PairChildrenArePermutations | genetic_n_queens_com_bloqueios.py:125-126 | both crossover children of permutations of [0, n) are permutations of [0, n) |
| Evolution.BreedPair | genetic_n_queens_com_bloqueios.py:120-127 | two fresh, distinct lists of length n holding exactly the pair's two reference PMX children, first parent first and then the two parents swapped |
| Evolution.Breed | genetic_n_queens_com_bloqueios.py:117-127 | one fresh list per child, no two aliased, `ChildCount` of them, holding exactly the reference PMX children of the pairs in the order they are appended (the last parent of an odd count paired with the drawn partner) |
| Evolution.BredArePermutations | genetic_n_queens_com_bloqueios.py:120-127 | the crossover children of permutation parents are permutations |
| Evolution.MutateOffspring | genetic_n_queens_com_bloqueios.py:130 | the first `population_size` children are mutated in place, each by its own draw, and are the children kept |
| Evolution.Mutated | genetic_n_queens_com_bloqueios.py:62-66 | a mutated child keeps its length and its multiset of values |
| Evolution.MutatedAll | genetic_n_queens_com_bloqueios.py:130 | one mutated child per mutation draw |
| Evolution.MutatedAllAt | genetic_n_queens_com_bloqueios.py:130 | kept child t is crossover child t mutated by draw t, and a permutation when that child is one |
| Evolution.MutatedIsPermutation | genetic_n_queens_com_bloqueios.py:62-66 | a mutated permutation of [0, n) is a permutation of [0, n) |
| Evolution.Survivors | genetic_n_queens_com_bloqueios.py:131-132 | the new population has `population_size` members, sorted by fitness |
| Evolution.SurvivorsKeepBest | genetic_n_queens_com_bloqueios.py:131-132 | survivors come from the children and the elite copy, and the fittest survivor is no worse than the previous best |
| Evolution.SurvivorsArePermutations | genetic_n_queens_com_bloqueios.py:131-132 | every survivor is a permutation |
| Evolution.SelectedParents | genetic_n_queens_com_bloqueios.py:73-78 | one selected parent per tournament, each a member of the population |
| Evolution.SelectedParentsAt | genetic_n_queens_com_bloqueios.py:73-78 | selected parent s is the winner of the s-th tournament |
| Evolution.Offspring | genetic_n_queens_com_bloqueios.py:116-130 | a generation keeps `population_size` children, all permutations |
| Evolution.NextPopulation | genetic_n_queens_com_bloqueios.py:129-134 | the next population has `population_size` members, all permutations, its head no worse than the previous best and no worse than any member |
| Evolution.HeadIsFittest | genetic_n_queens_com_bloqueios.py:132-134 | the head of a population sorted by fitness is at least as fit as every member |
| Evolution.NewBest | genetic_n_queens_com_bloqueios.py:134-136 | the best-ever becomes the generation's best exactly when that is strictly fitter, and stays otherwise; either way it is no worse than both |
| Evolution.Step | genetic_n_queens_com_bloqueios.py:116-136 | a generation keeps the population size and permutations, and the best-ever never gets worse |
| Evolution.Run | genetic_n_queens_com_bloqueios.py:115-148 | the run makes at most one record per generation drawn |
| Evolution.NextGeneration | genetic_n_queens_com_bloqueios.py:116-136 | one generation: the selected parents are the tournament winners, the children are their PMX children, mutated and truncated, and the new population is the survivors; `current_best` is the head of the sorted population, and the best-ever is replaced exactly when it strictly improves |
| Evolution.MakeChildren | genetic_n_queens_com_bloqueios.py:116-130 | the selected parents are the tournament winners, `bred` their PMX children in pair order, and the kept children the first `population_size` of them, each mutated by its own draw |
| Evolution.SelectAndBreed | genetic_n_queens_com_bloqueios.py:116-127 | the tournament winners and their PMX children in pair order, as fresh, distinct lists, at least `population_size` of them |
| Evolution.MutatedAreOffspring | genetic_n_queens_com_bloqueios.py:130 | the crossover children mutated one by one by their draws are the children the generation keeps |
| Evolution.Replace | genetic_n_queens_com_bloqueios.py:131-136 | elitist replacement, `current_best`, and the best-ever update by strict improvement |
| Evolution.FitnessSumAtLeastBest | genetic_n_queens_com_bloqueios.py:138 | the population's fitness total is at least its size times its best fitness |
| Evolution.FitnessSum | genetic_n_queens_com_bloqueios.py:138 | the population's fitness total is 0 exactly when every member scores 0 |
| Evolution.RecordedGeneration | genetic_n_queens_com_bloqueios.py:116-148 | the new population and best-ever are the generation step of the draws; the record holds the generation number, the head of the new population, the best-ever, their fitnesses and the population's fitness total; and the run from this state is this record followed, unless its best-ever fitness is 0, by the run from the new state |
| Evolution.StepIsFaithful | genetic_n_queens_com_bloqueios.py:134-144 | the record of a generation is faithful: the head of the population and the best-ever, with equal fitnesses, a total of at least size times that fitness, and a best-ever no worse than before |
| Evolution.RunHead | genetic_n_queens_com_bloqueios.py:115-148 | the first generation of a run: the new state is valid, its record is faithful and no worse than the previous best, and the run is that record followed by the rest unless the record reached 0 |
| Evolution.ChroniclePrepends | genetic_n_queens_com_bloqueios.py:139-144 | a faithful record no better than any later one, put before the records of the following generations, keeps them numbered in order with non-increasing best-ever fitness |
| Evolution.RunIsChronicle | genetic_n_queens_com_bloqueios.py:115-148 | the records of a run are numbered from its first generation, each faithful, with best-ever fitness non-increasing and never above the starting best |
| Evolution.RunStopsAtPerfect | genetic_n_queens_com_bloqueios.py:147-148 | every record of a run but the last has best-ever fitness above 0 |
| Evolution.RunEndsEarlyOnlyWhenPerfect | genetic_n_queens_com_bloqueios.py:115-148 | a run over valid draws makes at least one record, and one that ends before the draws run out ends on best-ever fitness 0 |
| Evolution.Evolve | genetic_n_queens_com_bloqueios.py:115-156 | the `for generation` loop with its `break` returns exactly the run of the draws, and the best-ever of its last record |
| Evolution.GeneticNQueens | genetic_n_queens_com_bloqueios.py:109-156 | `results` is the run of the draws from the initial population and its fittest member: between 1 and `generations` records, numbered from 0, each faithful to its generation, best-ever fitness non-increasing; every record but the last is above 0, and a run stopped early ends on 0; the returned best is the last record's best-ever and no worse than the initial best |
| Evolution.FittestOf | genetic_n_queens_com_bloqueios.py:111 | `min(population, key=fitness)` is a member at least as fit as every member |
| BlockedBoard.MaxBlocked | bloqueios.py:7-8 | the limit is the smaller of n*n - n and the floor of `maxPercent` percent of the cells |
| BlockedBoard.BlockedTarget | bloqueios.py:9-12 | no count given: 7 percent of the cells, floored, unchecked; a count given: an error exactly when it exceeds the limit, otherwise that count |
| BlockedBoard.TooManyOnFourByFour | bloqueios.py:8-12 | n = 4 allows min(12, 3) = 3 blocked cells, so asking for 100 is an error |
| BlockedBoard.DefaultIsNotChecked | bloqueios.py:9-11 | the default count is used even when it exceeds the limit |
| BlockedBoard.DefaultWithinLimit | bloqueios.py:8-10 | with a limit of at least 7 percent, the default count is within the limit |
| BlockedBoard.TargetLeavesFreeCells | bloqueios.py:8-12 | with a limit of at least 7 percent, every accepted count leaves at least n cells free |
| BlockedBoard.CellsOfStep | bloqueios.py:15-19 | one more draw adds its cell to the cells drawn so far |
| BlockedBoard.DrawsRemain | bloqueios.py:15 | while fewer cells are blocked than asked for, a draw remains |
| BlockedBoard.GenerateBlockedBoard | bloqueios.py:4-20 | an excessive explicit count fails before anything is built; otherwise an n x n grid and the set of distinct drawn cells, of exactly the target size, with 'X' on exactly those cells and '.' elsewhere |
| BlockedBoard.FillBoard | bloqueios.py:13-19 | the `while` loop ends with as many distinct blocked cells as asked for, all on the board, having stopped at the first draw that reached that number, and the grid consistent with the set |
| BlockedBoard.BlockCell | bloqueios.py:16-19 | one draw blocks its cell unless already blocked, keeping grid and set consistent |
| FullBoard.BoardMark | main.py:4-13 | a cell shows 'X' or '!' exactly when it is blocked, 'R' or '!' exactly where its row's queen stands, '.' otherwise |
| FullBoard.OneQueenPerRow | main.py:8-12 | with a queen for each of the n rows, every row shows exactly one queen mark |
| FullBoard.QueensOnBlocksCount | main.py:8-10 | the queens standing on blocked cells number as many as the rows the fitness penalises |
| FullBoard.PenaltyMarksCount | main.py:8-10 | the board shows as many '!' as there are queens the fitness charges 1000 for |
| FullBoard.BuildFullBoard | main.py:4-13 | a fresh n x n grid showing each cell's mark |
| FullBoard.MarkBlocks | main.py:5-7 | after the loop over the blocked cells, exactly the listed cells show 'X' |
| FullBoard.PlaceQueens | main.py:8-12 | after the loop over the queens, each row's queen shows '!' on a blocked cell and 'R' on a free one |

## Left out

- Plotting (`plot_generations`), the timing and the result prints of `Genetic_N_QUEENS`, and both `imprimir_tabuleiro` functions are output only.
- The driver `testar_n_rainhas_com_bloqueios` and the `__main__` block of `main.py` orchestrate runs and write logs.
- The pseudo-random generator and its seeding are replaced by explicit draw parameters. The `seed` argument of the board generator has no counterpart.
- `mutation_rate` and `random.random() < mutation_prob` are replaced by the drawn coin. The float comparison is not modelled.
- `percentual_max` and the default share 0.07 are integer percents (20 and 7), floored. Float rounding of `0.07 * n * n` and of `percentual_max * n * n` is not modelled.
- The average fitness of a generation is a float division. Each record keeps the integer sum of the fitnesses instead.
- `elitism_size` is never used by the source. Exactly one elite copy is kept.
- The list `list(bloqueios)` that the board generator returns has no fixed order. The model returns the set.
- Negative board indices, which Python would wrap around, are excluded by the `requires` clauses on the drawn and listed cells and on the queens.
- A population smaller than three, or chromosomes shorter than two, make the source's `random.sample` raise. The model excludes both through the ranges of the draws.
- An empty population makes `min` raise. `generations = 0` makes the final print fail on an empty `results`. The model requires both counts to be positive.
- BlockedBoard.GenerateBlockedBoard: the random cells are a finite sequence, and the model requires it to hold enough distinct cells. A run whose random stream never produces them does not end in the source and is not modelled.
- The generation loop is modelled by `Evolve`, whose `return` on a perfect best-ever stands for the source's `break` followed by `return results, best_chromosome`; only the timing and the prints, left out above, lie between them.
- `Run` is total: a state or a draw outside the ranges above ends it with no record. The loop never reaches such a state, so this case is not part of the source's behaviour.
- Scoring.Pairs: its closed form k(k-1)/2 carries no contract of its own; `Scoring.PairsStep` states how it grows by one queen, which is what the bucket proofs use.
- Ranking.SortBy: `sorted` is stable in Python. The model's insertion sort keeps equal keys in input order too, but no contract states stability.
