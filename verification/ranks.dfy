/**
 * The rank bookkeeping the phases share. A phase moves cells of a seed away
 * from a value `v` one at a time (phase 1 clears dots, the later phases fill
 * empty cells) and writes the rank of each cell it moves. `Ranked` says the
 * cells moved so far hold distinct ranks in [lo, hi); `Untouched` says the
 * cells the phase never moves kept their ranks.
 */
module Ranks {
  import opened Patterns

  /** The cells that held `v` in `seed` and no longer hold it in `cur` carry
      distinct ranks in [lo, hi). */
  predicate Ranked(seed: seq<int>, cur: seq<int>, ranks: seq<int>, v: int, lo: int, hi: int)
    requires |seed| == |cur| == |ranks|
  {
    && (forall i :: 0 <= i < |seed| && seed[i] == v && cur[i] != v ==> lo <= ranks[i] < hi)
    && (forall i, j :: 0 <= i < j < |seed| && seed[i] == v && cur[i] != v && seed[j] == v && cur[j] != v ==>
          ranks[i] != ranks[j])
  }

  /** The cells that did not hold `v` in `seed` keep the ranks of `before`. */
  predicate Untouched(seed: seq<int>, v: int, ranks: seq<int>, before: seq<int>)
    requires |seed| == |ranks| == |before|
  {
    forall i :: 0 <= i < |seed| && seed[i] != v ==> ranks[i] == before[i]
  }

  /** Before a phase moves any cell, nothing is ranked. */
  lemma RankedNone(seed: seq<int>, ranks: seq<int>, v: int, lo: int, hi: int)
    requires |seed| == |ranks|
    ensures Ranked(seed, seed, ranks, v, lo, hi)
  {
  }

  /** Moving one more cell and giving it `rank`, just below every rank given
      so far, keeps the moved cells distinctly ranked, now in [rank, hi). */
  lemma RankedDown(seed: seq<int>, cur: seq<int>, ranks: seq<int>, v: int, w: int, idx: int, rank: int, hi: int)
    requires |seed| == |cur| == |ranks| && 0 <= idx < |seed| && seed[idx] == v && cur[idx] == v && w != v
    requires Ranked(seed, cur, ranks, v, rank + 1, hi) && rank < hi
    ensures Ranked(seed, cur[idx := w], ranks[idx := rank], v, rank, hi)
  {
  }

  /** Moving one more cell and giving it `rank`, just above every rank given
      so far, keeps the moved cells distinctly ranked, now in [lo, rank + 1). */
  lemma RankedUp(seed: seq<int>, cur: seq<int>, ranks: seq<int>, v: int, w: int, idx: int, lo: int, rank: int)
    requires |seed| == |cur| == |ranks| && 0 <= idx < |seed| && seed[idx] == v && cur[idx] == v && w != v
    requires Ranked(seed, cur, ranks, v, lo, rank) && lo <= rank
    ensures Ranked(seed, cur[idx := w], ranks[idx := rank], v, lo, rank + 1)
  {
  }

  /** Writing the rank of a cell that held `v` keeps the other cells' ranks. */
  lemma UntouchedStep(seed: seq<int>, ranks: seq<int>, before: seq<int>, v: int, idx: int, rank: int)
    requires |seed| == |ranks| == |before| && 0 <= idx < |seed| && seed[idx] == v
    requires Untouched(seed, v, ranks, before)
    ensures Untouched(seed, v, ranks[idx := rank], before)
  {
  }

  /** Every cell that holds `v` in `seed` carries a rank in [lo, hi), and no
      two of them share one. */
  predicate Block(seed: seq<int>, ranks: seq<int>, v: int, lo: int, hi: int)
    requires |seed| == |ranks|
  {
    && (forall i :: 0 <= i < |seed| && seed[i] == v ==> lo <= ranks[i] < hi)
    && (forall i, j :: 0 <= i < j < |seed| && seed[i] == v && seed[j] == v ==> ranks[i] != ranks[j])
  }

  /** Two phases that each keep the ranks of the cells not holding `v` keep
      them together. */
  lemma UntouchedTrans(seed: seq<int>, v: int, a: seq<int>, b: seq<int>, c: seq<int>)
    requires |seed| == |a| == |b| == |c| && Untouched(seed, v, b, a) && Untouched(seed, v, c, b)
    ensures Untouched(seed, v, c, a)
  {
  }

  /** Once a phase has moved every cell that held `v`, those cells form a
      ranked block. */
  lemma RankedAll(seed: seq<int>, cur: seq<int>, ranks: seq<int>, v: int, lo: int, hi: int)
    requires |seed| == |cur| == |ranks| && Ranked(seed, cur, ranks, v, lo, hi)
    requires forall i :: 0 <= i < |seed| && seed[i] == v ==> cur[i] != v
    ensures Block(seed, ranks, v, lo, hi)
  {
  }

  /** A later phase that only writes the ranks of cells holding `w` keeps the
      block of the cells holding another value. */
  lemma BlockKept(seed: seq<int>, ranks: seq<int>, after: seq<int>, v: int, w: int, lo: int, hi: int)
    requires |seed| == |ranks| == |after| && v != w
    requires Block(seed, ranks, v, lo, hi) && Untouched(seed, w, after, ranks)
    ensures Block(seed, after, v, lo, hi)
  {
  }

  /** The dots of a binary seed ranked 0 .. filled1-1 and its empty cells
      ranked filled1 .. N-1 make a permutation of [0, N) in which the dots hold
      exactly the ranks below filled1. */
  lemma Combine(seed: seq<int>, ranks: seq<int>, filled1: int)
    requires |seed| == |ranks| && Binary(seed) && 0 <= filled1 <= |seed|
    requires Block(seed, ranks, 1, 0, filled1) && Block(seed, ranks, 0, filled1, |seed|)
    ensures IsPermutation(ranks)
    ensures forall i :: 0 <= i < |seed| ==> (seed[i] == 1 <==> ranks[i] < filled1)
  {
    forall i | 0 <= i < |seed| ensures 0 <= ranks[i] < |seed| && (seed[i] == 1 <==> ranks[i] < filled1) {
      assert seed[i] == 0 || seed[i] == 1;
    }
    forall i, j | 0 <= i < j < |seed| ensures ranks[i] != ranks[j] {
      assert seed[i] == 0 || seed[i] == 1;
      assert seed[j] == 0 || seed[j] == 1;
    }
  }

  /** A rank array in which no cell holds rank 0 is not a permutation of
      [0, N): with N cells, one of them must hold 0. */
  lemma MissingZero(ranks: seq<int>)
    requires |ranks| > 0 && forall i :: 0 <= i < |ranks| ==> ranks[i] != 0
    ensures !IsPermutation(ranks)
  {
    if IsPermutation(ranks) {
      PermutationOnto(ranks, 0);
    }
  }

  /** Dots ranked 1 .. filled1 (one too high) next to empty cells ranked
      filled1 .. N-1: as soon as there is a dot, no cell holds rank 0, so the
      ranks are not a permutation. */
  lemma ShiftedRanks(seed: seq<int>, ranks: seq<int>, filled1: int)
    requires |seed| == |ranks| && Binary(seed) && 1 <= filled1 <= |seed|
    requires Block(seed, ranks, 1, 1, filled1 + 1) && Block(seed, ranks, 0, filled1, |seed|)
    ensures forall i :: 0 <= i < |ranks| ==> ranks[i] != 0
    ensures !IsPermutation(ranks)
  {
    forall i | 0 <= i < |ranks| ensures ranks[i] != 0 {
      assert seed[i] == 0 || seed[i] == 1;
    }
    MissingZero(ranks);
  }
}
