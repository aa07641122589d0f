/**
 * Binary dot patterns (the `Uint8Array` of 0s and 1s every phase works on),
 * counting their dots, listing where the dots are, and rank arrays that are
 * permutations of the ranks 0 .. N-1.
 */
module Patterns {

  /** Every cell holds 0 or 1. */
  predicate Binary(s: seq<int>) {
    forall i :: 0 <= i < |s| ==> s[i] == 0 || s[i] == 1
  }

  /** The number of cells equal to 1 (for a binary pattern, also the sum of
      its cells, which is how `reduce((sum, v) => sum + v, 0)` counts). */
  function Ones(s: seq<int>): (n: nat)
    ensures n <= |s|
  {
    if |s| == 0 then 0 else Ones(s[..|s| - 1]) + (if s[|s| - 1] == 1 then 1 else 0)
  }

  /** The sum of the cells, as `reduce((sum, v) => sum + v, 0)` computes it. */
  function Sum(s: seq<int>): int {
    if |s| == 0 then 0 else Sum(s[..|s| - 1]) + s[|s| - 1]
  }

  lemma {:induction false} SumOfBinary(s: seq<int>)
    requires Binary(s)
    ensures Sum(s) == Ones(s)
  {
    if |s| > 0 {
      SumOfBinary(s[..|s| - 1]);
    }
  }

  /** The pattern with every cell flipped, `1 ^ v` on a 0/1 cell. */
  function Complement(s: seq<int>): (c: seq<int>)
    ensures |c| == |s|
  {
    seq(|s|, i requires 0 <= i < |s| => 1 - s[i])
  }

  /** All cells are 0. */
  predicate Empty(s: seq<int>) {
    forall i :: 0 <= i < |s| ==> s[i] == 0
  }

  /** All cells are 1. */
  predicate Full(s: seq<int>) {
    forall i :: 0 <= i < |s| ==> s[i] == 1
  }

  /** Extending a prefix by one cell adds that cell to the count. */
  lemma OnesSnoc(s: seq<int>, i: int)
    requires 0 <= i < |s|
    ensures Ones(s[..i + 1]) == Ones(s[..i]) + (if s[i] == 1 then 1 else 0)
  {
    assert s[..i + 1][..i] == s[..i];
  }

  /** Overwriting one cell changes the count by what left and what arrived. */
  lemma {:induction false} OnesUpdate(s: seq<int>, i: int, v: int)
    requires 0 <= i < |s|
    ensures Ones(s[i := v]) == Ones(s) - (if s[i] == 1 then 1 else 0) + (if v == 1 then 1 else 0)
    decreases |s|
  {
    var t := s[i := v];
    var n := |s| - 1;
    if i == n {
      assert t[..n] == s[..n];
    } else {
      assert t[..n] == s[..n][i := v];
      OnesUpdate(s[..n], i, v);
    }
  }

  /** Writing a cell and then writing back its old value restores the pattern. */
  lemma RestoreCell(s: seq<int>, i: int, v: int)
    requires 0 <= i < |s|
    ensures s[i := v][i := s[i]] == s
  {
  }

  /** A pattern with no dot has no cell equal to 1. */
  lemma {:induction false} NoOnes(s: seq<int>)
    requires Ones(s) == 0
    ensures forall i :: 0 <= i < |s| ==> s[i] != 1
  {
    if |s| > 0 {
      NoOnes(s[..|s| - 1]);
      forall i | 0 <= i < |s| ensures s[i] != 1 {
        if i < |s| - 1 {
          assert s[i] == s[..|s| - 1][i];
        }
      }
    }
  }

  /** In a pattern with at most one dot, a dot at i is the only one. */
  lemma AtMostOneDot(s: seq<int>, i: int, j: int)
    requires Ones(s) <= 1 && 0 <= i < |s| && 0 <= j < |s| && i != j && s[i] == 1
    ensures s[j] != 1
  {
    OnesUpdate(s, i, 0);
    NoOnes(s[i := 0]);
    assert s[i := 0][j] == s[j];
  }

  /** A pattern whose count equals its length is all ones. */
  lemma {:induction false} AllOnes(s: seq<int>)
    requires Ones(s) == |s|
    ensures Full(s)
  {
    if |s| > 0 {
      var n := |s| - 1;
      AllOnes(s[..n]);
      forall i | 0 <= i < |s| ensures s[i] == 1 {
        if i < n {
          assert s[i] == s[..n][i];
        }
      }
    }
  }

  /** A pattern with a dot has a cell equal to 1. */
  lemma SomeOne(s: seq<int>) returns (i: int)
    requires Ones(s) > 0
    ensures 0 <= i < |s| && s[i] == 1
  {
    if forall j :: 0 <= j < |s| ==> s[j] != 1 {
      ZeroWithoutOnes(s);
      assert false;
    }
    i :| 0 <= i < |s| && s[i] == 1;
  }

  lemma {:induction false} ZeroWithoutOnes(s: seq<int>)
    requires forall j :: 0 <= j < |s| ==> s[j] != 1
    ensures Ones(s) == 0
  {
    if |s| > 0 {
      ZeroWithoutOnes(s[..|s| - 1]);
    }
  }

  /** A binary pattern that is not full has a cell equal to 0. */
  lemma SomeZero(s: seq<int>) returns (i: int)
    requires Binary(s) && Ones(s) < |s|
    ensures 0 <= i < |s| && s[i] == 0
  {
    if forall j :: 0 <= j < |s| ==> s[j] == 1 {
      FullCount(s);
      assert false;
    }
    i :| 0 <= i < |s| && s[i] != 1;
  }

  lemma {:induction false} FullCount(s: seq<int>)
    requires Full(s)
    ensures Ones(s) == |s|
  {
    if |s| > 0 {
      FullCount(s[..|s| - 1]);
    }
  }

  /** Every dot of `a` is a dot of `b`. */
  predicate Within(a: seq<int>, b: seq<int>) {
    |a| == |b| && forall i :: 0 <= i < |a| ==> a[i] == 1 ==> b[i] == 1
  }

  // ---------------------------------------------------------------------------
  // The positions of the dots
  // ---------------------------------------------------------------------------

  /** The indices i < n with s[i] == 1, in increasing order: what the loop that
      pushes every dot onto `clusterIndexes` builds. */
  function OnesIndices(s: seq<int>, n: int): (r: seq<int>)
    requires 0 <= n <= |s|
    ensures |r| == Ones(s[..n])
    ensures forall j :: 0 <= j < |r| ==> 0 <= r[j] < n && s[r[j]] == 1
    ensures forall i :: 0 <= i < n && s[i] == 1 ==> i in r
  {
    if n == 0 then []
    else
      OnesSnoc(s, n - 1);
      var r := OnesIndices(s, n - 1);
      if s[n - 1] == 1 then r + [n - 1] else r
  }

  /** The list holds the indices in increasing order. */
  lemma {:induction false} OnesIndicesSorted(s: seq<int>, n: int)
    requires 0 <= n <= |s|
    ensures forall j, j' :: 0 <= j < j' < |OnesIndices(s, n)| ==> OnesIndices(s, n)[j] < OnesIndices(s, n)[j']
  {
    if n > 0 {
      OnesIndicesSorted(s, n - 1);
    }
  }

  // ---------------------------------------------------------------------------
  // Rank arrays
  // ---------------------------------------------------------------------------

  /** Each cell holds a rank in [0, N) and no two cells share one. */
  predicate IsPermutation(r: seq<int>) {
    && (forall i :: 0 <= i < |r| ==> 0 <= r[i] < |r|)
    && (forall i, j :: 0 <= i < j < |r| ==> r[i] != r[j])
  }

  /** The ranks of a permutation cover every value of [0, N): no rank is
      skipped (pigeonhole). */
  lemma PermutationOnto(r: seq<int>, v: int)
    requires IsPermutation(r) && 0 <= v < |r|
    ensures exists i :: 0 <= i < |r| && r[i] == v
  {
    var image := set i | 0 <= i < |r| :: r[i];
    InjectiveImage(r, |r|);
    var range := Below(|r|);
    SubsetEqual(image, range);
    assert v in range;
  }

  lemma {:induction false} InjectiveImage(r: seq<int>, n: int)
    requires 0 <= n <= |r|
    requires forall i, j :: 0 <= i < j < |r| ==> r[i] != r[j]
    ensures |set i | 0 <= i < n :: r[i]| == n
  {
    if n > 0 {
      InjectiveImage(r, n - 1);
      var prev := set i | 0 <= i < n - 1 :: r[i];
      var cur := set i | 0 <= i < n :: r[i];
      assert cur == prev + {r[n - 1]};
      assert r[n - 1] !in prev;
    }
  }

  /** The set {0, ..., n-1}. */
  function Below(n: nat): (b: set<int>)
    ensures |b| == n
    ensures forall x :: x in b <==> 0 <= x < n
  {
    if n == 0 then {} else Below(n - 1) + {n - 1}
  }

  /** A subset as large as its superset is the whole superset. */
  lemma SubsetEqual(a: set<int>, b: set<int>)
    requires a <= b && |a| == |b|
    ensures a == b
  {
    var d := b - a;
    assert b == a + d;
    assert a * d == {};
    assert |d| == 0;
  }
}
