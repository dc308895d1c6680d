/**
 * Partially-mapped crossover (PMX).  The child copies parent1 on the cut
 * segment [cx1, cx2]; every other position i starts from parent2[i] and, as
 * long as that value already occurs in the copied segment, replaces it by its
 * partner under the segment's position-wise correspondence
 * parent1[k] -> parent2[k].
 *
 * The mapping loop is proved to terminate, and the child to be a permutation
 * again.  Both rest on one observation: the segment positions the loop visits
 * never repeat, and two outer positions never resolve to the same value.
 */
module Crossover {
  import opened Chromosome

  /** `dict.get(key, default)`. */
  function MapGet(m: map<int, int>, key: int, default: int): (v: int)
    ensures key in m ==> v == m[key] && v in m.Values
    ensures key !in m ==> v == default
  {
    if key in m then m[key] else default
  }

  /** The dictionary `{parent1[k]: parent2[k] for k in range(cx1, cx2 + 1)}`. */
  function SegmentMapping(parent1: seq<int>, parent2: seq<int>, cx1: nat, cx2: nat): (m: map<int, int>)
    requires CrossoverArgs(parent1, parent2, cx1, cx2)
    ensures forall k :: cx1 <= k <= cx2 ==> parent1[k] in m && m[parent1[k]] == parent2[k]
    ensures forall v :: v in m ==> v in parent1[cx1..cx2 + 1]
  {
    map k | cx1 <= k <= cx2 :: parent1[k] := parent2[k]
  }

  /** Both parents are permutations of [0, size) and the cut points are in order. */
  predicate CrossoverArgs(parent1: seq<int>, parent2: seq<int>, cx1: nat, cx2: nat) {
    IsPermutation(parent1, |parent1|) && IsPermutation(parent2, |parent1|) && cx1 < cx2 < |parent1|
  }

  /** The value the mapping loop reaches from v, following `mapping` for at most `fuel` steps. */
  function Resolve(mapping: map<int, int>, v: int, fuel: nat): int
    decreases fuel
  {
    if fuel == 0 || v !in mapping then v else Resolve(mapping, mapping[v], fuel - 1)
  }

  /**
   * The child PMX defines: parent1 on the segment, and elsewhere parent2's
   * value resolved through the segment mapping.  A chain visits each segment
   * position at most once, so cx2 - cx1 + 1 steps always suffice.
   */
  function PmxReference(parent1: seq<int>, parent2: seq<int>, cx1: nat, cx2: nat): (child: seq<int>)
    requires CrossoverArgs(parent1, parent2, cx1, cx2)
    ensures |child| == |parent1|
  {
    var mapping := SegmentMapping(parent1, parent2, cx1, cx2);
    seq(|parent1|, k requires 0 <= k < |parent1| =>
      if cx1 <= k <= cx2 then parent1[k] else Resolve(mapping, parent2[k], cx2 - cx1 + 1))
  }

  /**
   * The mapping loop, started at position i with parent2[i], passes through
   * the segment positions `path` (in order) and holds `r` afterwards: it maps
   * parent1[path[0]] == parent2[i] to parent2[path[0]] == parent1[path[1]], and
   * so on, ending at r == parent2[path[|path| - 1]].
   */
  ghost predicate MappingChain(parent1: seq<int>, parent2: seq<int>, cx1: nat, cx2: nat, i: nat, path: seq<int>, r: int)
    requires |parent1| == |parent2| && cx2 < |parent1| && i < |parent1|
  {
    && (forall t :: 0 <= t < |path| ==> cx1 <= path[t] <= cx2)
    && (|path| == 0 ==> r == parent2[i])
    && (|path| > 0 ==>
          && parent1[path[0]] == parent2[i]
          && r == parent2[path[|path| - 1]]
          && forall t :: 0 <= t < |path| - 1 ==> parent1[path[t + 1]] == parent2[path[t]])
  }

  /** The loop never comes back to a segment position it has already used. */
  lemma ChainVisitsNewPosition(parent1: seq<int>, parent2: seq<int>, cx1: nat, cx2: nat,
                               i: nat, path: seq<int>, current: int, k: nat)
    requires CrossoverArgs(parent1, parent2, cx1, cx2)
    requires i < |parent1| && !(cx1 <= i <= cx2)
    requires MappingChain(parent1, parent2, cx1, cx2, i, path, current)
    requires Distinct(path)
    requires cx1 <= k <= cx2 && parent1[k] == current
    ensures k !in path
  {
    forall s | 0 <= s < |path|
      ensures path[s] != k
    {
      var last := path[|path| - 1];
      if s == 0 {
        // parent1[path[0]] is parent2[i], and current is parent2[last] with last != i.
        assert parent2[i] != parent2[last];
      } else {
        // parent1[path[s]] is parent2[path[s - 1]], and path[s - 1] != last.
        assert parent2[path[s - 1]] != parent2[last];
      }
    }
  }

  /** One more pass of the loop: the current value sits at segment position k and maps to parent2[k]. */
  lemma ChainStep(parent1: seq<int>, parent2: seq<int>, cx1: nat, cx2: nat, i: nat, path: seq<int>, current: int, k: nat)
    requires |parent1| == |parent2| && cx2 < |parent1| && i < |parent1|
    requires MappingChain(parent1, parent2, cx1, cx2, i, path, current)
    requires cx1 <= k <= cx2 && parent1[k] == current
    ensures MappingChain(parent1, parent2, cx1, cx2, i, path + [k], parent2[k])
    ensures Distinct(path) && k !in path ==> Distinct(path + [k])
  {
    var next := path + [k];
    assert forall t :: 0 <= t < |path| ==> next[t] == path[t];
  }

  /** Distinct positions inside [cx1, cx2] number at most cx2 - cx1 + 1. */
  lemma SegmentPathIsShort(path: seq<int>, cx1: nat, cx2: nat)
    requires cx1 <= cx2
    requires Distinct(path) && forall t :: 0 <= t < |path| ==> cx1 <= path[t] <= cx2
    ensures |path| <= cx2 - cx1 + 1
  {
    var shifted := seq(|path|, t requires 0 <= t < |path| => path[t] - cx1);
    DistinctInRangeIsShort(shifted, cx2 - cx1 + 1);
  }

  /** Two positions outside the segment never resolve to the same value. */
  lemma {:induction false} ChainEndsDiffer(parent1: seq<int>, parent2: seq<int>, cx1: nat, cx2: nat,
                                           i: nat, pathI: seq<int>, j: nat, pathJ: seq<int>, r: int)
    requires CrossoverArgs(parent1, parent2, cx1, cx2)
    requires i < |parent1| && !(cx1 <= i <= cx2) && j < |parent1| && !(cx1 <= j <= cx2)
    requires MappingChain(parent1, parent2, cx1, cx2, i, pathI, r)
    requires MappingChain(parent1, parent2, cx1, cx2, j, pathJ, r)
    ensures i == j
    decreases |pathI| + |pathJ|
  {
    if |pathI| > 0 && |pathJ| > 0 {
      var ki, kj := pathI[|pathI| - 1], pathJ[|pathJ| - 1];
      assert parent2[ki] == parent2[kj];
      // Both chains came from parent1[ki]: step back one position on each.
      var initI, initJ := pathI[..|pathI| - 1], pathJ[..|pathJ| - 1];
      assert |initI| > 0 ==> parent1[pathI[|pathI| - 1]] == parent2[initI[|initI| - 1]];
      assert |initJ| > 0 ==> parent1[pathJ[|pathJ| - 1]] == parent2[initJ[|initJ| - 1]];
      ChainEndsDiffer(parent1, parent2, cx1, cx2, i, initI, j, initJ, parent1[ki]);
    } else if |pathI| > 0 {
      assert false;
    } else if |pathJ| > 0 {
      assert false;
    }
  }

  /** The loop runs at all only when parent2[i] is in the copied segment; otherwise it keeps parent2[i]. */
  lemma UnmappedValueIsKept(parent1: seq<int>, parent2: seq<int>, cx1: nat, cx2: nat, i: nat, path: seq<int>, r: int)
    requires |parent1| == |parent2| && cx1 <= cx2 < |parent1| && i < |parent1|
    requires MappingChain(parent1, parent2, cx1, cx2, i, path, r)
    ensures parent2[i] !in parent1[cx1..cx2 + 1] ==> path == [] && r == parent2[i]
  {
    if |path| > 0 {
      assert parent1[cx1..cx2 + 1][path[0] - cx1] == parent2[i];
    }
  }

  /** Every outer position whose parent2 value is not in the segment keeps that value. */
  lemma UnmappedValuesAreKept(parent1: seq<int>, parent2: seq<int>, cx1: nat, cx2: nat, child: seq<int>, paths: seq<seq<int>>)
    requires CrossoverArgs(parent1, parent2, cx1, cx2)
    requires |child| == |parent1| && |paths| == |parent1|
    requires OutsideResolved(parent1, parent2, cx1, cx2, child, paths, |parent1|)
    ensures forall i :: 0 <= i < |parent1| && !(cx1 <= i <= cx2) && parent2[i] !in parent1[cx1..cx2 + 1] ==>
              child[i] == parent2[i]
  {
    forall i | 0 <= i < |parent1| && !(cx1 <= i <= cx2) && parent2[i] !in parent1[cx1..cx2 + 1]
      ensures child[i] == parent2[i]
    {
      UnmappedValueIsKept(parent1, parent2, cx1, cx2, i, paths[i], child[i]);
    }
  }

  /** A mapping chain that leaves the segment ends where `Resolve` ends, given fuel for every step. */
  lemma {:induction false} ChainIsResolved(parent1: seq<int>, parent2: seq<int>, cx1: nat, cx2: nat, mapping: map<int, int>,
                                           i: nat, path: seq<int>, r: int, fuel: nat)
    requires |parent1| == |parent2| && cx1 <= cx2 < |parent1| && i < |parent1|
    requires forall k :: cx1 <= k <= cx2 ==> parent1[k] in mapping && mapping[parent1[k]] == parent2[k]
    requires forall v :: v in mapping ==> v in parent1[cx1..cx2 + 1]
    requires MappingChain(parent1, parent2, cx1, cx2, i, path, r) && r !in parent1[cx1..cx2 + 1]
    requires |path| <= fuel
    ensures Resolve(mapping, parent2[i], fuel) == r
    decreases |path|
  {
    if |path| > 0 {
      // The first step maps parent2[i] == parent1[path[0]] to parent2[path[0]]; the rest is a chain from path[0].
      var rest := path[1..];
      assert forall t :: 0 <= t < |rest| ==> rest[t] == path[t + 1];
      ChainIsResolved(parent1, parent2, cx1, cx2, mapping, path[0], rest, r, fuel - 1);
    }
  }

  /** A child resolved by bounded mapping chains is the reference child. */
  lemma ResolvedIsReference(parent1: seq<int>, parent2: seq<int>, cx1: nat, cx2: nat, child: seq<int>, paths: seq<seq<int>>)
    requires CrossoverArgs(parent1, parent2, cx1, cx2)
    requires |child| == |parent1| && |paths| == |parent1|
    requires forall k :: cx1 <= k <= cx2 ==> child[k] == parent1[k]
    requires OutsideResolved(parent1, parent2, cx1, cx2, child, paths, |parent1|)
    ensures child == PmxReference(parent1, parent2, cx1, cx2)
  {
    var mapping := SegmentMapping(parent1, parent2, cx1, cx2);
    ChainsAreResolved(parent1, parent2, cx1, cx2, mapping, child, paths);
    PointwiseIsReference(parent1, parent2, cx1, cx2, mapping, child);
  }

  /** Every outer position holds what `Resolve` reaches from parent2's value there. */
  lemma ChainsAreResolved(parent1: seq<int>, parent2: seq<int>, cx1: nat, cx2: nat, mapping: map<int, int>,
                          child: seq<int>, paths: seq<seq<int>>)
    requires CrossoverArgs(parent1, parent2, cx1, cx2)
    requires forall k :: cx1 <= k <= cx2 ==> parent1[k] in mapping && mapping[parent1[k]] == parent2[k]
    requires forall v :: v in mapping ==> v in parent1[cx1..cx2 + 1]
    requires |child| == |parent1| && |paths| == |parent1|
    requires OutsideResolved(parent1, parent2, cx1, cx2, child, paths, |parent1|)
    ensures forall k :: 0 <= k < |child| && !(cx1 <= k <= cx2) ==> child[k] == Resolve(mapping, parent2[k], cx2 - cx1 + 1)
  {
    forall k | 0 <= k < |child| && !(cx1 <= k <= cx2)
      ensures child[k] == Resolve(mapping, parent2[k], cx2 - cx1 + 1)
    {
      ChainIsResolved(parent1, parent2, cx1, cx2, mapping, k, paths[k], child[k], cx2 - cx1 + 1);
    }
  }

  /** A child that agrees with the reference child at every position is the reference child. */
  lemma PointwiseIsReference(parent1: seq<int>, parent2: seq<int>, cx1: nat, cx2: nat, mapping: map<int, int>, child: seq<int>)
    requires CrossoverArgs(parent1, parent2, cx1, cx2) && mapping == SegmentMapping(parent1, parent2, cx1, cx2)
    requires |child| == |parent1|
    requires forall k :: cx1 <= k <= cx2 ==> child[k] == parent1[k]
    requires forall k :: 0 <= k < |child| && !(cx1 <= k <= cx2) ==> child[k] == Resolve(mapping, parent2[k], cx2 - cx1 + 1)
    ensures child == PmxReference(parent1, parent2, cx1, cx2)
  {
    var reference := PmxReference(parent1, parent2, cx1, cx2);
    assert forall k :: 0 <= k < |child| ==> child[k] == reference[k];
  }

  /**
   * `Resolve` with fuel for the rest of the segment follows a mapping chain
   * to a value outside the segment: the loop's `while` condition fails before
   * the fuel runs out.
   */
  lemma {:induction false} ResolveFollowsChain(parent1: seq<int>, parent2: seq<int>, cx1: nat, cx2: nat,
                                               mapping: map<int, int>, i: nat, path: seq<int>, current: int, fuel: nat)
    returns (full: seq<int>, r: int)
    requires CrossoverArgs(parent1, parent2, cx1, cx2)
    requires forall k :: cx1 <= k <= cx2 ==> parent1[k] in mapping && mapping[parent1[k]] == parent2[k]
    requires forall v :: v in mapping ==> v in parent1[cx1..cx2 + 1]
    requires i < |parent1| && !(cx1 <= i <= cx2)
    requires MappingChain(parent1, parent2, cx1, cx2, i, path, current)
    requires Distinct(path) && 0 <= current < |parent1| && |path| + fuel == cx2 - cx1 + 1
    ensures r == Resolve(mapping, current, fuel)
    ensures 0 <= r < |parent1| && r !in parent1[cx1..cx2 + 1]
    ensures MappingChain(parent1, parent2, cx1, cx2, i, full, r) && |full| <= cx2 - cx1 + 1
    decreases fuel
  {
    var segment := parent1[cx1..cx2 + 1];
    if current in segment {
      var t :| 0 <= t < |segment| && segment[t] == current;
      var k := cx1 + t;
      assert parent1[k] == segment[t] == current;
      ChainVisitsNewPosition(parent1, parent2, cx1, cx2, i, path, current, k);
      ChainStep(parent1, parent2, cx1, cx2, i, path, current, k);
      SegmentPathIsShort(path + [k], cx1, cx2);
      assert fuel > 0 && current in mapping && mapping[current] == parent2[k];
      assert Resolve(mapping, current, fuel) == Resolve(mapping, parent2[k], fuel - 1);
      full, r := ResolveFollowsChain(parent1, parent2, cx1, cx2, mapping, i, path + [k], parent2[k], fuel - 1);
      assert r == Resolve(mapping, current, fuel);
    } else {
      assert current !in mapping;
      assert Resolve(mapping, current, fuel) == current;
      full, r := path, current;
      assert r == Resolve(mapping, current, fuel);
      SegmentPathIsShort(path, cx1, cx2);
    }
  }

  /**
   * The reference child is a permutation, copies parent1's segment and keeps
   * parent2's value wherever that value is not in the segment.
   */
  lemma PmxReferenceFacts(parent1: seq<int>, parent2: seq<int>, cx1: nat, cx2: nat)
    requires CrossoverArgs(parent1, parent2, cx1, cx2)
    ensures var child := PmxReference(parent1, parent2, cx1, cx2);
            && IsPermutation(child, |parent1|)
            && child[cx1..cx2 + 1] == parent1[cx1..cx2 + 1]
            && forall i :: 0 <= i < |parent1| && !(cx1 <= i <= cx2) && parent2[i] !in parent1[cx1..cx2 + 1] ==>
                 child[i] == parent2[i]
  {
    var mapping := SegmentMapping(parent1, parent2, cx1, cx2);
    var child := PmxReference(parent1, parent2, cx1, cx2);
    var paths := ResolvedPaths(parent1, parent2, cx1, cx2, mapping, child);
    ResolvedChildFacts(parent1, parent2, cx1, cx2, child, paths);
  }

  /** A child holding the resolved value at every outer position has a mapping chain for each. */
  lemma ResolvedPaths(parent1: seq<int>, parent2: seq<int>, cx1: nat, cx2: nat, mapping: map<int, int>, child: seq<int>)
    returns (paths: seq<seq<int>>)
    requires CrossoverArgs(parent1, parent2, cx1, cx2)
    requires forall k :: cx1 <= k <= cx2 ==> parent1[k] in mapping && mapping[parent1[k]] == parent2[k]
    requires forall v :: v in mapping ==> v in parent1[cx1..cx2 + 1]
    requires |child| == |parent1|
    requires forall k :: 0 <= k < |child| && !(cx1 <= k <= cx2) ==> child[k] == Resolve(mapping, parent2[k], cx2 - cx1 + 1)
    ensures |paths| == |parent1|
    ensures OutsideResolved(parent1, parent2, cx1, cx2, child, paths, |parent1|)
  {
    paths := seq(|parent1|, _ => []);
    for k := 0 to |parent1|
      invariant |paths| == |parent1|
      invariant OutsideResolved(parent1, parent2, cx1, cx2, child, paths, k)
    {
      var path: seq<int> := [];
      if !(cx1 <= k <= cx2) {
        var r;
        path, r := ResolveFollowsChain(parent1, parent2, cx1, cx2, mapping, k, [], parent2[k], cx2 - cx1 + 1);
      }
      OutsideResolvedStep(parent1, parent2, cx1, cx2, child, paths, k, path);
      paths := paths[k := path];
    }
  }

  /** Resolving position k by its chain extends `OutsideResolved` by one position. */
  lemma OutsideResolvedStep(parent1: seq<int>, parent2: seq<int>, cx1: nat, cx2: nat,
                            child: seq<int>, paths: seq<seq<int>>, k: nat, path: seq<int>)
    requires CrossoverArgs(parent1, parent2, cx1, cx2)
    requires |child| == |parent1| && |paths| == |parent1| && k < |parent1|
    requires OutsideResolved(parent1, parent2, cx1, cx2, child, paths, k)
    requires !(cx1 <= k <= cx2) ==>
               0 <= child[k] < |parent1| && child[k] !in parent1[cx1..cx2 + 1]
               && MappingChain(parent1, parent2, cx1, cx2, k, path, child[k]) && |path| <= cx2 - cx1 + 1
    ensures OutsideResolved(parent1, parent2, cx1, cx2, child, paths[k := path], k + 1)
  {
  }

  /** A child that copies the segment and resolves every other position by a mapping chain is a permutation. */
  lemma ChildIsPermutation(parent1: seq<int>, parent2: seq<int>, cx1: nat, cx2: nat, child: seq<int>, paths: seq<seq<int>>)
    requires CrossoverArgs(parent1, parent2, cx1, cx2)
    requires |child| == |parent1| && |paths| == |parent1|
    requires forall k :: cx1 <= k <= cx2 ==> child[k] == parent1[k]
    requires OutsideResolved(parent1, parent2, cx1, cx2, child, paths, |parent1|)
    ensures IsPermutation(child, |parent1|)
  {
    var segment := parent1[cx1..cx2 + 1];
    forall a, b | 0 <= a < b < |child|
      ensures child[a] != child[b]
    {
      var inA, inB := cx1 <= a <= cx2, cx1 <= b <= cx2;
      if inA && inB {
        assert parent1[a] != parent1[b];
      } else if inA {
        assert parent1[a] == segment[a - cx1];
      } else if inB {
        assert parent1[b] == segment[b - cx1];
      } else if child[a] == child[b] {
        ChainEndsDiffer(parent1, parent2, cx1, cx2, a, paths[a], b, paths[b], child[a]);
      }
    }
  }

  /**
   * The `while` loop of the source for position i: follow the mapping from
   * parent2[i] until the value is not in the copied segment.
   */
  method ResolveValue(parent1: seq<int>, parent2: seq<int>, cx1: nat, cx2: nat,
                      mapping: map<int, int>, segment: seq<int>, i: nat)
    returns (current: int, ghost path: seq<int>)
    requires CrossoverArgs(parent1, parent2, cx1, cx2)
    requires i < |parent1| && !(cx1 <= i <= cx2)
    requires forall k :: cx1 <= k <= cx2 ==> parent1[k] in mapping && mapping[parent1[k]] == parent2[k]
    requires segment == parent1[cx1..cx2 + 1]
    ensures 0 <= current < |parent1| && current !in segment
    ensures MappingChain(parent1, parent2, cx1, cx2, i, path, current)
    ensures |path| <= cx2 - cx1 + 1
  {
    current := parent2[i];
    path := [];
    while current in segment
      invariant 0 <= current < |parent1|
      invariant MappingChain(parent1, parent2, cx1, cx2, i, path, current)
      invariant Distinct(path) && |path| <= cx2 - cx1 + 1
      decreases cx2 - cx1 + 1 - |path|
    {
      ghost var t :| 0 <= t < |segment| && segment[t] == current;
      ghost var k := cx1 + t;
      ChainVisitsNewPosition(parent1, parent2, cx1, cx2, i, path, current, k);
      ChainStep(parent1, parent2, cx1, cx2, i, path, current, k);
      current := MapGet(mapping, current, current);
      path := path + [k];
      SegmentPathIsShort(path, cx1, cx2);
    }
  }

  /** `child = [-1] * size; child[cx1:cx2 + 1] = parent1[cx1:cx2 + 1]`. */
  method CopySegment(parent1: seq<int>, cx1: nat, cx2: nat) returns (child: array<int>)
    requires cx2 < |parent1|
    ensures fresh(child) && child.Length == |parent1|
    ensures forall k :: 0 <= k < child.Length ==> child[k] == if cx1 <= k <= cx2 then parent1[k] else -1
  {
    child := new int[|parent1|](_ => -1);
    forall k | cx1 <= k <= cx2 {
      child[k] := parent1[k];
    }
  }

  /** The child's positions outside the segment are resolved, each by its own mapping chain. */
  ghost predicate OutsideResolved(parent1: seq<int>, parent2: seq<int>, cx1: nat, cx2: nat,
                                  child: seq<int>, paths: seq<seq<int>>, upTo: nat)
    requires CrossoverArgs(parent1, parent2, cx1, cx2)
    requires |child| == |parent1| && |paths| == |parent1| && upTo <= |parent1|
  {
    forall k :: 0 <= k < upTo && !(cx1 <= k <= cx2) ==>
      0 <= child[k] < |parent1| && child[k] !in parent1[cx1..cx2 + 1]
      && MappingChain(parent1, parent2, cx1, cx2, k, paths[k], child[k]) && |paths[k]| <= cx2 - cx1 + 1
  }

  /** The `for i in range(size)` loop of the source over the positions outside the segment. */
  method FillOutside(parent1: seq<int>, parent2: seq<int>, cx1: nat, cx2: nat,
                     mapping: map<int, int>, child: array<int>)
    returns (ghost paths: seq<seq<int>>)
    requires CrossoverArgs(parent1, parent2, cx1, cx2)
    requires forall k :: cx1 <= k <= cx2 ==> parent1[k] in mapping && mapping[parent1[k]] == parent2[k]
    requires child.Length == |parent1|
    requires forall k :: 0 <= k < child.Length ==> child[k] == if cx1 <= k <= cx2 then parent1[k] else -1
    modifies child
    ensures |paths| == |parent1|
    ensures forall k :: cx1 <= k <= cx2 ==> child[k] == parent1[k]
    ensures OutsideResolved(parent1, parent2, cx1, cx2, child[..], paths, |parent1|)
  {
    var size := child.Length;
    ghost var segment := parent1[cx1..cx2 + 1];
    paths := seq(size, _ => []);
    for i := 0 to size
      invariant |paths| == size
      invariant forall k :: cx1 <= k <= cx2 ==> child[k] == parent1[k]
      invariant forall k :: i <= k < size && !(cx1 <= k <= cx2) ==> child[k] == -1
      invariant OutsideResolved(parent1, parent2, cx1, cx2, child[..], paths, i)
    {
      if child[i] == -1 {
        assert child[cx1..cx2 + 1] == segment;
        ghost var path;
        var current;
        current, path := ResolveValue(parent1, parent2, cx1, cx2, mapping, child[cx1..cx2 + 1], i);
        child[i] := current;
        paths := paths[i := path];
      }
    }
  }

  /**
   * `pmx_crossover(parent1, parent2)` with cut points cx1 < cx2 drawn by the
   * caller.  The child is a fresh list; `paths` records, for every position
   * outside the segment, the segment positions its mapping loop visited.
   */
  method PmxCrossover(parent1: seq<int>, parent2: seq<int>, cx1: nat, cx2: nat)
    returns (child: array<int>, ghost paths: seq<seq<int>>)
    requires CrossoverArgs(parent1, parent2, cx1, cx2)
    ensures fresh(child)
    ensures IsPermutation(child[..], |parent1|)
    ensures child[cx1..cx2 + 1] == parent1[cx1..cx2 + 1]
    ensures forall i :: 0 <= i < |parent1| && !(cx1 <= i <= cx2) && parent2[i] !in parent1[cx1..cx2 + 1] ==>
              child[i] == parent2[i]
    ensures |paths| == |parent1|
    ensures OutsideResolved(parent1, parent2, cx1, cx2, child[..], paths, |parent1|)
    ensures child[..] == PmxReference(parent1, parent2, cx1, cx2)
  {
    child := CopySegment(parent1, cx1, cx2);
    var mapping := SegmentMapping(parent1, parent2, cx1, cx2);
    paths := FillOutside(parent1, parent2, cx1, cx2, mapping, child);
    ResolvedChildFacts(parent1, parent2, cx1, cx2, child[..], paths);
  }

  /** What a child that copies the segment and resolves every other position by a bounded chain satisfies. */
  lemma ResolvedChildFacts(parent1: seq<int>, parent2: seq<int>, cx1: nat, cx2: nat, child: seq<int>, paths: seq<seq<int>>)
    requires CrossoverArgs(parent1, parent2, cx1, cx2)
    requires |child| == |parent1| && |paths| == |parent1|
    requires forall k :: cx1 <= k <= cx2 ==> child[k] == parent1[k]
    requires OutsideResolved(parent1, parent2, cx1, cx2, child, paths, |parent1|)
    ensures IsPermutation(child, |parent1|)
    ensures child[cx1..cx2 + 1] == parent1[cx1..cx2 + 1]
    ensures forall i :: 0 <= i < |parent1| && !(cx1 <= i <= cx2) && parent2[i] !in parent1[cx1..cx2 + 1] ==>
              child[i] == parent2[i]
    ensures child == PmxReference(parent1, parent2, cx1, cx2)
  {
    ChildIsPermutation(parent1, parent2, cx1, cx2, child, paths);
    UnmappedValuesAreKept(parent1, parent2, cx1, cx2, child, paths);
    ResolvedIsReference(parent1, parent2, cx1, cx2, child, paths);
  }
}
