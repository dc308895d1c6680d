/**
 * Fitness of a chromosome: the number of queen pairs that attack each other
 * along a diagonal, plus a fixed penalty for every queen standing on a
 * blocked cell.  Lower is better; 0 is a solution.
 *
 * `Fitness` is the reference definition (pairs of rows i < j with
 * |i - j| == |c_i - c_j|).  `EvaluateFitness` is the source's algorithm: it
 * tallies queens per "/" key (r - c) and per "\" key (r + c) in two
 * dictionaries and adds k * (k - 1) / 2 for every key holding k queens; it is
 * proved to compute `Fitness`.
 */
module Scoring {
  import opened Chromosome

  /** Added once for every queen that stands on a blocked cell. */
  const BlockPenalty: nat := 1000

  function Abs(x: int): nat {
    if x < 0 then -x else x
  }

  /** Rows i and j lie on a common diagonal. */
  predicate SameDiagonal(ch: seq<int>, i: nat, j: nat)
    requires i < |ch| && j < |ch|
  {
    Abs(i - j) == Abs(ch[i] - ch[j])
  }

  /** Number of rows i < m that lie on a diagonal with row j. */
  function AttackersBelow(ch: seq<int>, j: nat, m: nat): nat
    requires j < |ch| && m <= |ch|
  {
    if m == 0 then 0
    else AttackersBelow(ch, j, m - 1) + (if SameDiagonal(ch, m - 1, j) then 1 else 0)
  }

  /** Number of pairs of rows i < j < m that lie on a common diagonal. */
  function AttackingPairs(ch: seq<int>, m: nat): nat
    requires m <= |ch|
  {
    if m == 0 then 0
    else AttackingPairs(ch, m - 1) + AttackersBelow(ch, m - 1, m - 1)
  }

  /** Number of rows r < m whose queen stands on a blocked cell. */
  function BlockedRows(ch: seq<int>, m: nat, blocked: set<Cell>): nat
    requires m <= |ch|
  {
    if m == 0 then 0
    else BlockedRows(ch, m - 1, blocked) + (if (m - 1, ch[m - 1]) in blocked then 1 else 0)
  }

  /** The score of a chromosome: diagonal attacks plus the blocked-cell penalty. */
  function Fitness(ch: seq<int>, blocked: set<Cell>): nat {
    AttackingPairs(ch, |ch|) + BlockPenalty * BlockedRows(ch, |ch|, blocked)
  }

  // ---------------------------------------------------------------------------
  // The dictionaries of the source's algorithm

  /** The "/" diagonal key r - c of every row. */
  function AntiKeys(ch: seq<int>): seq<int> {
    seq(|ch|, r requires 0 <= r < |ch| => r - ch[r])
  }

  /** The "\" diagonal key r + c of every row. */
  function MainKeys(ch: seq<int>): seq<int> {
    seq(|ch|, r requires 0 <= r < |ch| => r + ch[r])
  }

  /** Lookup in a dictionary whose missing keys read as 0 (a defaultdict(int)). */
  function Get(counts: map<int, nat>, k: int): (c: nat)
    ensures k in counts ==> c == counts[k]
    ensures k !in counts ==> c == 0
  {
    if k in counts then counts[k] else 0
  }

  /** The dictionary after counting keys[..m], one increment per key. */
  function Tally(keys: seq<int>, m: nat): map<int, nat>
    requires m <= |keys|
  {
    if m == 0 then map[]
    else
      var counts := Tally(keys, m - 1);
      counts[keys[m - 1] := Get(counts, keys[m - 1]) + 1]
  }

  /** The keys of `Tally(keys, m)` in the order they were first inserted. */
  function Order(keys: seq<int>, m: nat): seq<int>
    requires m <= |keys|
  {
    if m == 0 then []
    else if keys[m - 1] in Tally(keys, m - 1) then Order(keys, m - 1)
    else Order(keys, m - 1) + [keys[m - 1]]
  }

  /** Number of attacking pairs among k queens sharing one diagonal. */
  function Pairs(k: nat): nat {
    if k == 0 then 0 else k * (k - 1) / 2
  }

  /** Sum of Pairs(counts[k]) over the keys listed in `order`. */
  function PairSum(counts: map<int, nat>, order: seq<int>): nat
    requires forall k :: k in order ==> k in counts
  {
    if order == [] then 0
    else
      var last := order[|order| - 1];
      assert last in order;
      PairSum(counts, order[..|order| - 1]) + Pairs(counts[last])
  }

  /** The bucket count of the source: Pairs(k) summed over both diagonal dictionaries. */
  function DiagonalBuckets(ch: seq<int>): nat {
    TallyFacts(AntiKeys(ch), |ch|);
    TallyFacts(MainKeys(ch), |ch|);
    PairSum(Tally(AntiKeys(ch), |ch|), Order(AntiKeys(ch), |ch|))
      + PairSum(Tally(MainKeys(ch), |ch|), Order(MainKeys(ch), |ch|))
  }

  /** Number of t < m with keys[t] == k. */
  function Occurrences(keys: seq<int>, m: nat, k: int): nat
    requires m <= |keys|
  {
    if m == 0 then 0
    else Occurrences(keys, m - 1, k) + (if keys[m - 1] == k then 1 else 0)
  }

  /** Number of pairs t < j < m with keys[t] == keys[j]. */
  function EqualKeyPairs(keys: seq<int>, m: nat): nat
    requires m <= |keys|
  {
    if m == 0 then 0
    else EqualKeyPairs(keys, m - 1) + Occurrences(keys, m - 1, keys[m - 1])
  }

  // ---------------------------------------------------------------------------
  // The source's algorithm

  /** The loops of the source, proved to compute the reference score. */
  method EvaluateFitness(chromosome: seq<int>, blocked: set<Cell>) returns (score: nat)
    ensures score == DiagonalBuckets(chromosome) + BlockPenalty * BlockedRows(chromosome, |chromosome|, blocked)
    ensures score == Fitness(chromosome, blocked)
  {
    var diag1, keys1, diag2, keys2, penalty := CountDiagonals(chromosome, blocked);
    TallyFacts(AntiKeys(chromosome), |chromosome|);
    TallyFacts(MainKeys(chromosome), |chromosome|);
    var collisions := SumPairs(diag1, keys1);
    var more := SumPairs(diag2, keys2);
    collisions := collisions + more;
    score := collisions + penalty;
    BucketsCountAttackingPairs(chromosome);
  }

  /** The first loop of `fitness`: queens per "/" key and per "\" key, and the blocked-cell penalty. */
  method CountDiagonals(chromosome: seq<int>, blocked: set<Cell>)
    returns (diag1: map<int, nat>, keys1: seq<int>, diag2: map<int, nat>, keys2: seq<int>, penalty: nat)
    ensures diag1 == Tally(AntiKeys(chromosome), |chromosome|) && keys1 == Order(AntiKeys(chromosome), |chromosome|)
    ensures diag2 == Tally(MainKeys(chromosome), |chromosome|) && keys2 == Order(MainKeys(chromosome), |chromosome|)
    ensures penalty == BlockPenalty * BlockedRows(chromosome, |chromosome|, blocked)
  {
    ghost var anti, main := AntiKeys(chromosome), MainKeys(chromosome);
    diag1, keys1 := map[], [];  // queens per r - c, and its keys in insertion order
    diag2, keys2 := map[], [];  // queens per r + c, and its keys in insertion order
    assert Counted(anti, 0, diag1, keys1) && Counted(main, 0, diag2, keys2);
    hide Tally, Order;
    penalty := 0;
    for row := 0 to |chromosome|
      invariant Counted(anti, row, diag1, keys1) && Counted(main, row, diag2, keys2)
      invariant penalty == BlockPenalty * BlockedRows(chromosome, row, blocked)
    {
      var col := chromosome[row];
      assert anti[row] == row - col && main[row] == row + col;
      if (row, col) in blocked {
        penalty := penalty + BlockPenalty;
      }
      diag1, keys1 := Increment(diag1, keys1, row - col, anti, row);
      diag2, keys2 := Increment(diag2, keys2, row + col, main, row);
    }
  }

  /** `counts` and `order` are the dictionary and its key order after counting keys[..m]. */
  ghost predicate Counted(keys: seq<int>, m: nat, counts: map<int, nat>, order: seq<int>)
    requires m <= |keys|
  {
    counts == Tally(keys, m) && order == Order(keys, m)
  }

  /** Counting one more key is one `d[key] += 1`. */
  lemma CountedStep(keys: seq<int>, m: nat, counts: map<int, nat>, order: seq<int>)
    requires m < |keys| && Counted(keys, m, counts, order)
    ensures Counted(keys, m + 1, counts[keys[m] := Get(counts, keys[m]) + 1],
                    if keys[m] in counts then order else order + [keys[m]])
  {
  }

  /** `d[key] += 1` on a defaultdict(int) whose keys, in insertion order, are `order`. */
  method Increment(counts: map<int, nat>, order: seq<int>, key: int, ghost keys: seq<int>, ghost m: nat)
    returns (counts': map<int, nat>, order': seq<int>)
    requires m < |keys| && key == keys[m] && Counted(keys, m, counts, order)
    ensures counts' == counts[key := Get(counts, key) + 1]
    ensures order' == if key in counts then order else order + [key]
    ensures Counted(keys, m + 1, counts', order')
  {
    CountedStep(keys, m, counts, order);
    if key !in counts {
      order' := order + [key];
    } else {
      order' := order;
    }
    counts' := counts[key := Get(counts, key) + 1];
  }

  /** The loop `for count in d.values(): collisions += count * (count - 1) // 2`. */
  method SumPairs(counts: map<int, nat>, keys: seq<int>) returns (total: nat)
    requires forall k :: k in keys ==> k in counts && counts[k] >= 1
    ensures total == PairSum(counts, keys)
  {
    total := 0;
    for t := 0 to |keys|
      invariant total == PairSum(counts, keys[..t])
    {
      var key := keys[t];
      assert key in keys;
      var count := counts[key];
      total := total + count * (count - 1) / 2;
      assert keys[..t + 1][..t] == keys[..t];
    }
    assert keys[..|keys|] == keys;
  }

  // ---------------------------------------------------------------------------
  // The bucket count equals the pairwise count

  /** What the dictionaries hold after m increments. */
  lemma {:induction false} TallyFacts(keys: seq<int>, m: nat)
    requires m <= |keys|
    ensures forall k :: k in Tally(keys, m) <==> k in Order(keys, m)
    ensures Distinct(Order(keys, m))
    ensures forall k :: k in Tally(keys, m) ==> Tally(keys, m)[k] == Occurrences(keys, m, k) >= 1
    ensures forall k :: k !in Tally(keys, m) ==> Occurrences(keys, m, k) == 0
  {
    if m > 0 {
      TallyFacts(keys, m - 1);
    }
  }

  lemma PairsStep(c: nat)
    ensures Pairs(c + 1) == Pairs(c) + c
  {
    if c > 0 {
      assert (c + 1) * c == c * (c - 1) + 2 * c;
    }
  }

  /** Changing the count of a key listed once in `order` changes the sum by the difference. */
  lemma {:induction false} PairSumUpdate(counts: map<int, nat>, order: seq<int>, k: int, v: nat)
    requires forall x :: x in order ==> x in counts
    requires Distinct(order)
    ensures k in order ==> PairSum(counts[k := v], order) + Pairs(counts[k]) == PairSum(counts, order) + Pairs(v)
    ensures k !in order ==> PairSum(counts[k := v], order) == PairSum(counts, order)
  {
    if order != [] {
      var init := order[..|order| - 1];
      assert forall x :: x in init ==> x in order;
      PairSumUpdate(counts, init, k, v);
    }
  }

  /** The bucket sum over one dictionary counts the pairs of rows with equal keys. */
  lemma {:induction false} BucketFormula(keys: seq<int>, m: nat)
    requires m <= |keys|
    ensures OrderCounted(keys, m)
    ensures PairSum(Tally(keys, m), Order(keys, m)) == EqualKeyPairs(keys, m)
  {
    TallyFacts(keys, m);
    if m > 0 {
      BucketFormula(keys, m - 1);
      BucketStep(keys, m);
    }
  }

  /** Every key listed in the insertion order is a key of the dictionary. */
  ghost predicate OrderCounted(keys: seq<int>, m: nat)
    requires m <= |keys|
  {
    forall k :: k in Order(keys, m) ==> k in Tally(keys, m)
  }

  /** Counting keys[m - 1] adds as many pairs as earlier rows share its key. */
  lemma BucketStep(keys: seq<int>, m: nat)
    requires 0 < m <= |keys|
    requires OrderCounted(keys, m - 1) && OrderCounted(keys, m)
    ensures PairSum(Tally(keys, m), Order(keys, m))
            == PairSum(Tally(keys, m - 1), Order(keys, m - 1)) + Occurrences(keys, m - 1, keys[m - 1])
  {
    TallyFacts(keys, m - 1);
    var k := keys[m - 1];
    var counts, order := Tally(keys, m - 1), Order(keys, m - 1);
    if k in counts {
      SeenKeyStep(counts, order, k);
    } else {
      NewKeyStep(counts, order, k);
    }
  }

  /** A key already counted c times: its bucket grows from Pairs(c) to Pairs(c + 1). */
  lemma SeenKeyStep(counts: map<int, nat>, order: seq<int>, k: int)
    requires forall x :: x in order ==> x in counts
    requires Distinct(order) && k in order
    ensures PairSum(counts[k := counts[k] + 1], order) == PairSum(counts, order) + counts[k]
  {
    PairSumUpdate(counts, order, k, counts[k] + 1);
    PairsStep(counts[k]);
  }

  /** A key seen for the first time opens a bucket of one queen, which holds no pair. */
  lemma NewKeyStep(counts: map<int, nat>, order: seq<int>, k: int)
    requires forall x :: x in order ==> x in counts
    requires Distinct(order) && k !in order
    ensures PairSum(counts[k := 1], order + [k]) == PairSum(counts, order)
  {
    PairSumUpdate(counts, order, k, 1);
    assert (order + [k])[..|order|] == order;
  }

  /** For i < j, rows i and j share a "/" key or a "\" key exactly when they share a diagonal, never both. */
  lemma {:induction false} DiagonalSplit(ch: seq<int>, j: nat, m: nat)
    requires m <= j < |ch|
    ensures Occurrences(AntiKeys(ch), m, AntiKeys(ch)[j]) + Occurrences(MainKeys(ch), m, MainKeys(ch)[j])
            == AttackersBelow(ch, j, m)
  {
    if m > 0 {
      DiagonalSplit(ch, j, m - 1);
    }
  }

  lemma {:induction false} EqualKeyPairsSplit(ch: seq<int>, m: nat)
    requires m <= |ch|
    ensures EqualKeyPairs(AntiKeys(ch), m) + EqualKeyPairs(MainKeys(ch), m) == AttackingPairs(ch, m)
  {
    if m > 0 {
      EqualKeyPairsSplit(ch, m - 1);
      DiagonalSplit(ch, m - 1, m - 1);
    }
  }

  /**
   * Summing k * (k - 1) / 2 over the queens per r - c key and per r + c key
   * gives the number of pairs of rows i < j with |i - j| == |c_i - c_j|.
   */
  lemma BucketsCountAttackingPairs(ch: seq<int>)
    ensures DiagonalBuckets(ch) == AttackingPairs(ch, |ch|)
  {
    BucketFormula(AntiKeys(ch), |ch|);
    BucketFormula(MainKeys(ch), |ch|);
    EqualKeyPairsSplit(ch, |ch|);
  }

  // ---------------------------------------------------------------------------
  // What a score means

  /** No two queens share a "/" key (r - c) or a "\" key (r + c). */
  predicate NoSharedDiagonal(ch: seq<int>) {
    forall i, j :: 0 <= i < j < |ch| ==> i - ch[i] != j - ch[j] && i + ch[i] != j + ch[j]
  }

  /** No queen stands on a blocked cell. */
  predicate NoBlockedQueen(ch: seq<int>, blocked: set<Cell>) {
    forall r :: 0 <= r < |ch| ==> (r, ch[r]) !in blocked
  }

  lemma {:induction false} AttackersBelowZero(ch: seq<int>, j: nat, m: nat)
    requires m <= j < |ch|
    ensures AttackersBelow(ch, j, m) == 0 <==> forall i :: 0 <= i < m ==> !SameDiagonal(ch, i, j)
  {
    if m > 0 {
      AttackersBelowZero(ch, j, m - 1);
    }
  }

  lemma {:induction false} AttackingPairsZero(ch: seq<int>, m: nat)
    requires m <= |ch|
    ensures AttackingPairs(ch, m) == 0 <==> forall i, j :: 0 <= i < j < m ==> !SameDiagonal(ch, i, j)
  {
    if m > 0 {
      AttackingPairsZero(ch, m - 1);
      AttackersBelowZero(ch, m - 1, m - 1);
    }
  }

  lemma {:induction false} BlockedRowsZero(ch: seq<int>, m: nat, blocked: set<Cell>)
    requires m <= |ch|
    ensures BlockedRows(ch, m, blocked) == 0 <==> forall r :: 0 <= r < m ==> (r, ch[r]) !in blocked
  {
    if m > 0 {
      BlockedRowsZero(ch, m - 1, blocked);
    }
  }

  /** A score of 0 means exactly: no shared diagonal and no queen on a blocked cell. */
  lemma FitnessZeroIff(ch: seq<int>, blocked: set<Cell>)
    ensures Fitness(ch, blocked) == 0 <==> NoSharedDiagonal(ch) && NoBlockedQueen(ch, blocked)
  {
    AttackingPairsZero(ch, |ch|);
    BlockedRowsZero(ch, |ch|, blocked);
    forall i, j | 0 <= i < j < |ch|
      ensures SameDiagonal(ch, i, j) <==> i - ch[i] == j - ch[j] || i + ch[i] == j + ch[j]
    {
    }
  }

  lemma {:induction false} AttackersBelowBound(ch: seq<int>, j: nat, m: nat)
    requires m <= j < |ch|
    ensures AttackersBelow(ch, j, m) <= m
  {
    if m > 0 {
      AttackersBelowBound(ch, j, m - 1);
    }
  }

  /** At most m * (m - 1) / 2 pairs: every pair of rows attacks at most once. */
  lemma {:induction false} AttackingPairsBound(ch: seq<int>, m: nat)
    requires m <= |ch|
    ensures 2 * AttackingPairs(ch, m) <= m * (m - 1)
  {
    if m > 0 {
      AttackingPairsBound(ch, m - 1);
      AttackersBelowBound(ch, m - 1, m - 1);
      assert (m - 1) * (m - 2) + 2 * (m - 1) == m * (m - 1);
    }
  }

  /**
   * On boards of at most 45 rows one more queen on a blocked cell always costs
   * more than any diagonal attacks can: 45 * 44 / 2 = 990 < 1000.
   */
  lemma PenaltyOutweighsDiagonals(a: seq<int>, b: seq<int>, blocked: set<Cell>)
    requires |b| <= 45
    requires BlockedRows(a, |a|, blocked) > BlockedRows(b, |b|, blocked)
    ensures Fitness(a, blocked) > Fitness(b, blocked)
  {
    AttackingPairsBound(b, |b|);
    FewPairsUpTo45(|b|);
  }

  lemma FewPairsUpTo45(m: nat)
    requires m <= 45
    ensures m * (m - 1) <= 1980
  {
    if m > 0 {
      assert m * (m - 1) <= 45 * (m - 1);
    }
  }

  lemma {:induction false} IdentityAttackersBelow(n: nat, j: nat, m: nat)
    requires m <= j < n
    ensures AttackersBelow(Range(n), j, m) == m
  {
    if m > 0 {
      IdentityAttackersBelow(n, j, m - 1);
    }
  }

  /** The identity permutation puts every queen on one diagonal: all pairs attack. */
  lemma {:induction false} IdentityAttackingPairs(n: nat, m: nat)
    requires m <= n
    ensures 2 * AttackingPairs(Range(n), m) == m * (m - 1)
  {
    if m > 0 {
      IdentityAttackingPairs(n, m - 1);
      IdentityAttackersBelow(n, m - 1, m - 1);
      assert (m - 1) * (m - 2) + 2 * (m - 1) == m * (m - 1);
    }
  }

  /**
   * From 46 rows on the penalty no longer dominates: the identity chromosome,
   * with no queen blocked, scores at least 46 * 45 / 2 = 1035, more than one
   * blocked queen costs.
   */
  lemma PenaltyCanBeOutweighed(n: nat)
    requires n >= 46
    ensures Fitness(Range(n), {}) > BlockPenalty
  {
    IdentityAttackingPairs(n, n);
    BlockedRowsZero(Range(n), n, {});
    AllPairsFrom46(n);
  }

  lemma AllPairsFrom46(n: nat)
    requires n >= 46
    ensures n * (n - 1) >= 2070
  {
    var extra := n - 46;
    assert n * (n - 1) == 2070 + 91 * extra + extra * extra;
  }

  /** Worked example of the source: 2000 for two blocked queens plus one diagonal pair. */
  lemma WorkedExample()
    ensures Fitness([0, 2, 3, 1], {(0, 0), (3, 1)}) == 2001
  {
    var ch, blocked := [0, 2, 3, 1], {(0, 0), (3, 1)};
    assert AttackersBelow(ch, 1, 1) == 0;
    assert AttackersBelow(ch, 2, 2) == 1;
    assert AttackersBelow(ch, 3, 3) == 0;
    assert AttackingPairs(ch, 4) == 1;
    assert BlockedRows(ch, 4, blocked) == 2;
  }

  /** [1, 3, 0, 2] solves the 4-queens problem on an open board. */
  lemma FourQueensSolution()
    ensures Fitness([1, 3, 0, 2], {}) == 0
  {
    var ch := [1, 3, 0, 2];
    assert AttackersBelow(ch, 1, 1) == 0;
    assert AttackersBelow(ch, 2, 2) == 0;
    assert AttackersBelow(ch, 3, 3) == 0;
    assert AttackingPairs(ch, 4) == 0;
    assert BlockedRows(ch, 4, {}) == 0;
  }
}
