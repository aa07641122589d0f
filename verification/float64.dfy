/**
 * The float64 generator of `blueNoiseFloat64`: `_extendedVoidAndCluster`,
 * which turns a seed pattern into a rank array in two phases, and the
 * deprecated `_originalVoidAndCluster`, which only throws.
 *
 * Phase 1 removes the seed's dots one by one, tightest cluster first, and
 * gives them the ranks filled1-1 down to 0. Phase 2 restarts from the seed
 * and its saved energy map, fills the largest void first, and gives the
 * ranks filled1 up to N-1. Together the two phases rank every cell once.
 */
module BlueNoiseFloat64 {
  import opened Convolution
  import opened BlueNoiseUtils
  import opened Patterns
  import opened Scans
  import opened Arguments
  import opened Candidate
  import opened Ranks
  import opened RankOrder

  /** `_originalVoidAndCluster` throws before it looks at any argument. */
  method OriginalVoidAndCluster(width: Value, height: Value, sigma: Value, density: real) returns (r: Check)
    ensures r == Throw(Deprecated)
  {
    return Throw(Deprecated);
  }

  // ---------------------------------------------------------------------------
  // The seed
  // ---------------------------------------------------------------------------

  /** How many cells the seed fill sets: `Math.floor(sqSz * density)` unless
      the density is exactly 0 (none) or 1 (every cell, by `fill(1)`). */
  function SeedCount(sqSz: nat, density: real): int {
    if density == 1.0 then sqSz
    else if density == 0.0 then 0
    else (sqSz as real * density).Floor
  }

  /** The seed before the shuffle: cells below `count` hold a dot. */
  function SeedPattern(sqSz: nat, count: int): (p: seq<int>)
    ensures |p| == sqSz && Binary(p)
    ensures forall i :: 0 <= i < sqSz ==> (p[i] == 1 <==> i < count)
  {
    seq(sqSz, i => if i < count then 1 else 0)
  }

  /** The seed holds `count` dots, clamped to [0, sqSz]: the fill loop starts
      at `count - 1`, and a typed array drops writes past its end. */
  lemma {:induction false} SeedPatternOnes(sqSz: nat, count: int)
    ensures Ones(SeedPattern(sqSz, count)) == if count < 0 then 0 else if count > sqSz then sqSz else count
  {
    if sqSz > 0 {
      assert SeedPattern(sqSz, count)[..sqSz - 1] == SeedPattern(sqSz - 1, count);
      SeedPatternOnes(sqSz - 1, count);
    }
  }

  /** `new Uint8Array(sqSz)`, then `for (i = count - 1; i >= 0; i--) binArray[i] = 1`. */
  method SeedFill(sqSz: nat, count: int) returns (binArray: array<int>)
    ensures fresh(binArray) && binArray[..] == SeedPattern(sqSz, count)
  {
    binArray := new int[sqSz](_ => 0);
    var i := count - 1;
    while i >= 0
      invariant i < count
      invariant forall c :: 0 <= c < sqSz ==> binArray[c] == (if i < c < count then 1 else 0)
    {
      if i < sqSz {
        binArray[i] := 1;
      }
      i := i - 1;
    }
  }

  /** The loop that pushes every dot of `temp` onto `clusterIndexes`. */
  method CollectOnes(temp: array<int>) returns (clusterIndexes: seq<int>)
    ensures clusterIndexes == OnesIndices(temp[..], temp.Length)
  {
    clusterIndexes := [];
    for i := 0 to temp.Length
      invariant clusterIndexes == OnesIndices(temp[..], i)
    {
      if temp[i] == 1 {
        clusterIndexes := clusterIndexes + [i];
      }
    }
  }

  // ---------------------------------------------------------------------------
  // The two phases
  // ---------------------------------------------------------------------------

  /**
   * Phase 1: `for (rank = filled1 - 1; rank >= 0; rank--)`, each round taking
   * the cell the tie-breaking scan over `clusterIndexes` picks (highest
   * energy; on an exact tie, the saved energy `blurredTemp` decides), clearing
   * it in `temp`, ranking it, and applying a -1 delta. Every seed dot gets a
   * distinct rank below filled1, `temp` ends empty, and no other cell of
   * `rankArray` is written. With a point-symmetric kernel the energy map stays
   * the blur of `temp`.
   */
  method Phase1(temp: array<int>, rankArray: array<int>, blurred: array<real>, blurredTemp: array<real>,
                clusterIndexes: seq<int>, width: int, height: int,
                kernel: array<real>, kernelWidth: int, kernelHeight: int)
    requires Shape(width, height, kernelWidth, kernelHeight).Valid()
    requires temp.Length == rankArray.Length == blurred.Length == blurredTemp.Length == width * height
    requires kernel.Length == kernelWidth * kernelHeight
    requires blurred != kernel && blurred != blurredTemp && temp != rankArray
    requires Binary(temp[..]) && ListsOnes(clusterIndexes, temp[..])
    modifies temp, rankArray, blurred
    ensures Empty(temp[..]) && |clusterIndexes| == Ones(old(temp[..]))
    ensures Progress(temp[..], rankArray[..], blurred[..]) ==
      Clear64Run(Shape(width, height, kernelWidth, kernelHeight), kernel[..], old(temp[..]), old(rankArray[..]),
                 old(blurred[..]), blurredTemp[..])
    ensures Ranked(old(temp[..]), temp[..], rankArray[..], 1, 0, |clusterIndexes|)
    ensures Untouched(old(temp[..]), 1, rankArray[..], old(rankArray[..]))
    ensures (PointSymmetric(Shape(width, height, kernelWidth, kernelHeight), kernel[..]) &&
      old(blurred[..]) == Blur(Shape(width, height, kernelWidth, kernelHeight), old(temp[..]), kernel[..])) ==>
      blurred[..] == Blur(Shape(width, height, kernelWidth, kernelHeight), temp[..], kernel[..])
  {
    ghost var seed, before, e0 := temp[..], rankArray[..], blurred[..];
    Phase1Rounds(temp, rankArray, blurred, blurredTemp, clusterIndexes, width, height, kernel, kernelWidth, kernelHeight);
    var p1 := Clear64Ranks(Shape(width, height, kernelWidth, kernelHeight), kernel[..], seed, before, e0, blurredTemp[..]);
  }

  /** The rounds of phase 1: the arrays end as the run of Clear64 leaves them. */
  method Phase1Rounds(temp: array<int>, rankArray: array<int>, blurred: array<real>, blurredTemp: array<real>,
                      clusterIndexes: seq<int>, width: int, height: int,
                      kernel: array<real>, kernelWidth: int, kernelHeight: int)
    requires Shape(width, height, kernelWidth, kernelHeight).Valid()
    requires temp.Length == rankArray.Length == blurred.Length == blurredTemp.Length == width * height
    requires kernel.Length == kernelWidth * kernelHeight
    requires blurred != kernel && blurred != blurredTemp && temp != rankArray
    requires Binary(temp[..]) && ListsOnes(clusterIndexes, temp[..])
    modifies temp, rankArray, blurred
    ensures |clusterIndexes| == Ones(old(temp[..]))
    ensures Progress(temp[..], rankArray[..], blurred[..]) ==
      RunPhase(Shape(width, height, kernelWidth, kernelHeight), kernel[..], ClearList(clusterIndexes, blurredTemp[..]),
               Progress(old(temp[..]), old(rankArray[..]), old(blurred[..])), Ones(old(temp[..])) - 1, Ones(old(temp[..])))
    ensures (PointSymmetric(Shape(width, height, kernelWidth, kernelHeight), kernel[..]) &&
      old(blurred[..]) == Blur(Shape(width, height, kernelWidth, kernelHeight), old(temp[..]), kernel[..])) ==>
      blurred[..] == Blur(Shape(width, height, kernelWidth, kernelHeight), temp[..], kernel[..])
  {
    ghost var s := Shape(width, height, kernelWidth, kernelHeight);
    ghost var seed := temp[..];
    ghost var before := rankArray[..];
    ghost var e0 := blurred[..];
    ghost var sym := PointSymmetric(s, kernel[..]) && blurred[..] == Blur(s, seed, kernel[..]);
    ghost var et := blurredTemp[..];
    PickersFit(seed, et);
    ghost var k := kernel[..];
    ghost var goal := RunPhase(s, k, ClearList(clusterIndexes, et), Progress(seed, before, e0), Ones(seed) - 1, Ones(seed));
    var filled1 := |clusterIndexes|;
    assert seed[..temp.Length] == seed;
    assert filled1 == Ones(seed);
    ghost var left: nat := filled1;
    var rank := filled1 - 1;
    while rank >= 0
      invariant -1 <= rank < filled1 && left == rank + 1
      invariant Binary(temp[..]) && Within(temp[..], seed) && Ones(temp[..]) == left
      invariant sym ==> blurred[..] == Blur(s, temp[..], kernel[..])
      invariant kernel[..] == k && blurredTemp[..] == et
      invariant Reaches(s, k, ClearList(clusterIndexes, et), Progress(temp[..], rankArray[..], blurred[..]), rank, left, goal)
    {
      var idx;
      idx, rank, left := Phase1Step(temp, rankArray, blurred, blurredTemp, clusterIndexes, width, height,
                                    kernel, kernelWidth, kernelHeight, rank, seed, k, et, goal, left);
    }
  }

  /** One round of phase 1: the cell the tie-breaking scan picks among the dots
      still in `temp` is cleared and given `rank`. */
  method Phase1Step(temp: array<int>, rankArray: array<int>, blurred: array<real>, blurredTemp: array<real>,
                    clusterIndexes: seq<int>, width: int, height: int,
                    kernel: array<real>, kernelWidth: int, kernelHeight: int, rank: int, ghost seed: seq<int>,
                    ghost k: seq<real>, ghost et: seq<real>, ghost goal: Progress, ghost left: nat)
    returns (idx: int, next: int, ghost rest: nat)
    requires Shape(width, height, kernelWidth, kernelHeight).Valid()
    requires temp.Length == rankArray.Length == blurred.Length == blurredTemp.Length == width * height
    requires kernel.Length == kernelWidth * kernelHeight
    requires blurred != kernel && blurred != blurredTemp && temp != rankArray
    requires Binary(temp[..]) && Within(temp[..], seed) && 0 <= rank && Ones(temp[..]) == rank + 1
    requires ListsOnes(clusterIndexes, seed)
    requires k == kernel[..] && et == blurredTemp[..]
    requires 0 < left && Reaches(Shape(width, height, kernelWidth, kernelHeight), k, ClearList(clusterIndexes, et),
                                 Progress(temp[..], rankArray[..], blurred[..]), rank, left, goal)
    modifies temp, rankArray, blurred
    ensures idx == TieBest(clusterIndexes, old(temp[..]), 1, old(blurred[..]), blurredTemp[..], Highest, |clusterIndexes|).idx
    ensures 0 <= idx < temp.Length && old(temp[idx]) == 1 && seed[idx] == 1
    ensures temp[..] == old(temp[..])[idx := 0] && rankArray[..] == old(rankArray[..])[idx := rank]
    ensures Binary(temp[..]) && Within(temp[..], seed) && Ones(temp[..]) == rank
    ensures blurred[..] == DeltaApplied(Shape(width, height, kernelWidth, kernelHeight), kernel[..], old(blurred[..]), idx, -1.0)
    ensures (PointSymmetric(Shape(width, height, kernelWidth, kernelHeight), kernel[..]) &&
      old(blurred[..]) == Blur(Shape(width, height, kernelWidth, kernelHeight), old(temp[..]), kernel[..])) ==>
      blurred[..] == Blur(Shape(width, height, kernelWidth, kernelHeight), temp[..], kernel[..])
    ensures Progress(temp[..], rankArray[..], blurred[..]) ==
      Step(Shape(width, height, kernelWidth, kernelHeight), kernel[..], ClearList(clusterIndexes, et),
           Progress(old(temp[..]), old(rankArray[..]), old(blurred[..])), rank)
    ensures next == rank - 1 && rest == left - 1
    ensures Reaches(Shape(width, height, kernelWidth, kernelHeight), k, ClearList(clusterIndexes, et),
                    Progress(temp[..], rankArray[..], blurred[..]), next, rest, goal)
  {
    ghost var st := Progress(temp[..], rankArray[..], blurred[..]);
    ghost var ph := ClearList(clusterIndexes, et);
    next, rest := rank - 1, left - 1;
    Phase1Witness(temp[..], seed, clusterIndexes);
    idx := ScanTieBest(clusterIndexes, temp, 1, blurred, blurredTemp, Highest);
    TieBestIsBest(clusterIndexes, temp[..], 1, blurred[..], blurredTemp[..], Highest, |clusterIndexes|);
    FlipCell(temp, blurred, width, height, kernel, kernelWidth, kernelHeight, idx, 0);
    rankArray[idx] := rank;
    StepAt(Shape(width, height, kernelWidth, kernelHeight), kernel[..], ph, st, rank, idx);
    RunPhaseAdvance(Shape(width, height, kernelWidth, kernelHeight), k, ph, goal, st,
                    Progress(temp[..], rankArray[..], blurred[..]), rank, next, left, rest);
  }

  /** `clusterIndexes` lists the dots of the seed in increasing order. */
  predicate ListsOnes(clusterIndexes: seq<int>, seed: seq<int>) {
    clusterIndexes == OnesIndices(seed, |seed|)
  }

  /** While `temp` still holds a dot, the scan over `clusterIndexes` has a
      candidate, so the index it returns is a dot of `temp`. */
  lemma Phase1Witness(temp: seq<int>, seed: seq<int>, clusterIndexes: seq<int>)
    requires Within(temp, seed) && Ones(temp) > 0 && ListsOnes(clusterIndexes, seed)
    ensures AnyCandidate(clusterIndexes, temp, 1, |clusterIndexes|)
  {
    var c := SomeOne(temp);
    assert c in clusterIndexes;
    var j :| 0 <= j < |clusterIndexes| && clusterIndexes[j] == c;
  }

  /**
   * Phase 2: `for (rank = filled1; rank < sqSz; rank++)`, each round taking
   * the cell the tie-breaking scan over all cells picks (lowest energy among
   * the 0s of `binArray`; on an exact tie, the saved energy decides), setting
   * it, ranking it, and applying a +1 delta. Every empty seed cell gets a
   * distinct rank in [filled1, N), `binArray` ends full, and the ranks of the
   * seed's dots are kept.
   */
  method Phase2(binArray: array<int>, rankArray: array<int>, blurred: array<real>, blurredTemp: array<real>,
                filled1: int, width: int, height: int,
                kernel: array<real>, kernelWidth: int, kernelHeight: int)
    requires Shape(width, height, kernelWidth, kernelHeight).Valid()
    requires binArray.Length == rankArray.Length == blurred.Length == blurredTemp.Length == width * height
    requires kernel.Length == kernelWidth * kernelHeight
    requires blurred != kernel && blurred != blurredTemp && binArray != rankArray
    requires Binary(binArray[..]) && filled1 == Ones(binArray[..])
    modifies binArray, rankArray, blurred
    ensures Full(binArray[..])
    ensures Progress(binArray[..], rankArray[..], blurred[..]) ==
      Fill64Run(Shape(width, height, kernelWidth, kernelHeight), kernel[..], old(binArray[..]), old(rankArray[..]),
                old(blurred[..]), blurredTemp[..])
    ensures Ranked(old(binArray[..]), binArray[..], rankArray[..], 0, filled1, binArray.Length)
    ensures Untouched(old(binArray[..]), 0, rankArray[..], old(rankArray[..]))
    ensures (PointSymmetric(Shape(width, height, kernelWidth, kernelHeight), kernel[..]) &&
      old(blurred[..]) == Blur(Shape(width, height, kernelWidth, kernelHeight), old(binArray[..]), kernel[..])) ==>
      blurred[..] == Blur(Shape(width, height, kernelWidth, kernelHeight), binArray[..], kernel[..])
  {
    ghost var s := Shape(width, height, kernelWidth, kernelHeight);
    ghost var seed := binArray[..];
    ghost var before := rankArray[..];
    ghost var e0 := blurred[..];
    ghost var sym := PointSymmetric(s, kernel[..]) && blurred[..] == Blur(s, seed, kernel[..]);
    ghost var et := blurredTemp[..];
    PickersFit(seed, et);
    ghost var k := kernel[..];
    ghost var goal := RunPhase(s, k, Fill64(binArray.Length, et), Progress(seed, before, e0),
                               filled1, binArray.Length - filled1);
    ghost var left: nat := binArray.Length - filled1;
    var rank := filled1;
    while rank < binArray.Length
      invariant filled1 <= rank <= binArray.Length
      invariant Binary(binArray[..]) && Within(seed, binArray[..]) && Ones(binArray[..]) == rank
      invariant sym ==> blurred[..] == Blur(s, binArray[..], kernel[..])
      invariant left == binArray.Length - rank && kernel[..] == k && blurredTemp[..] == et
      invariant Reaches(s, k, Fill64(binArray.Length, et), Progress(binArray[..], rankArray[..], blurred[..]), rank, left, goal)
    {
      var idx;
      idx, rank, left := Phase2Step(binArray, rankArray, blurred, blurredTemp, width, height,
                                    kernel, kernelWidth, kernelHeight, rank, seed, k, et, goal, left);
    }
    var p2 := Fill64Ranks(s, k, seed, before, e0, et);
    assert p2 == Progress(binArray[..], rankArray[..], blurred[..]);
  }

  /** One round of phase 2: the cell the tie-breaking scan picks among the 0s
      of `binArray` is set and given `rank`. */
  method Phase2Step(binArray: array<int>, rankArray: array<int>, blurred: array<real>, blurredTemp: array<real>,
                    width: int, height: int, kernel: array<real>, kernelWidth: int, kernelHeight: int, rank: int,
                    ghost seed: seq<int>, ghost k: seq<real>, ghost et: seq<real>, ghost goal: Progress, ghost left: nat)
    returns (idx: int, next: int, ghost rest: nat)
    requires Shape(width, height, kernelWidth, kernelHeight).Valid()
    requires binArray.Length == rankArray.Length == blurred.Length == blurredTemp.Length == width * height
    requires kernel.Length == kernelWidth * kernelHeight
    requires blurred != kernel && blurred != blurredTemp && binArray != rankArray
    requires Binary(binArray[..]) && Binary(seed) && Within(seed, binArray[..]) && Ones(binArray[..]) == rank < binArray.Length
    requires k == kernel[..] && et == blurredTemp[..]
    requires 0 < left && Reaches(Shape(width, height, kernelWidth, kernelHeight), k, Fill64(binArray.Length, et),
                                 Progress(binArray[..], rankArray[..], blurred[..]), rank, left, goal)
    modifies binArray, rankArray, blurred
    ensures idx == TieBest(AllCells(binArray.Length), old(binArray[..]), 0, old(blurred[..]), blurredTemp[..], Lowest,
                           binArray.Length).idx
    ensures 0 <= idx < binArray.Length && old(binArray[idx]) == 0 && seed[idx] == 0
    ensures binArray[..] == old(binArray[..])[idx := 1] && rankArray[..] == old(rankArray[..])[idx := rank]
    ensures Binary(binArray[..]) && Within(seed, binArray[..]) && Ones(binArray[..]) == rank + 1
    ensures blurred[..] == DeltaApplied(Shape(width, height, kernelWidth, kernelHeight), kernel[..], old(blurred[..]), idx, 1.0)
    ensures (PointSymmetric(Shape(width, height, kernelWidth, kernelHeight), kernel[..]) &&
      old(blurred[..]) == Blur(Shape(width, height, kernelWidth, kernelHeight), old(binArray[..]), kernel[..])) ==>
      blurred[..] == Blur(Shape(width, height, kernelWidth, kernelHeight), binArray[..], kernel[..])
    ensures Progress(binArray[..], rankArray[..], blurred[..]) ==
      Step(Shape(width, height, kernelWidth, kernelHeight), kernel[..], Fill64(binArray.Length, et),
           Progress(old(binArray[..]), old(rankArray[..]), old(blurred[..])), rank)
    ensures next == rank + 1 && rest == left - 1
    ensures Reaches(Shape(width, height, kernelWidth, kernelHeight), k, Fill64(binArray.Length, et),
                    Progress(binArray[..], rankArray[..], blurred[..]), next, rest, goal)
  {
    ghost var st := Progress(binArray[..], rankArray[..], blurred[..]);
    ghost var ph := Fill64(binArray.Length, et);
    next, rest := rank + 1, left - 1;
    Phase2Witness(binArray[..]);
    idx := ScanTieBestAll(binArray, 0, blurred, blurredTemp, Lowest);
    TieBestIsBest(AllCells(binArray.Length), binArray[..], 0, blurred[..], blurredTemp[..], Lowest, binArray.Length);
    FlipCell(binArray, blurred, width, height, kernel, kernelWidth, kernelHeight, idx, 1);
    rankArray[idx] := rank;
    StepAt(Shape(width, height, kernelWidth, kernelHeight), kernel[..], ph, st, rank, idx);
    RunPhaseAdvance(Shape(width, height, kernelWidth, kernelHeight), k, ph, goal, st,
                    Progress(binArray[..], rankArray[..], blurred[..]), rank, next, left, rest);
  }

  /** While `binArray` still has an empty cell, the all-cells scan has a
      candidate, so the index it returns is an empty cell. */
  lemma Phase2Witness(bin: seq<int>)
    requires Binary(bin) && Ones(bin) < |bin|
    ensures AnyCandidate(AllCells(|bin|), bin, 0, |bin|)
  {
    var c := SomeZero(bin);
    assert AllCells(|bin|)[c] == c;
  }

  // ---------------------------------------------------------------------------
  // The generator
  // ---------------------------------------------------------------------------

  /**
   * `_extendedVoidAndCluster` of the float64 file. `shuffled` is the seed after
   * the shuffle (any rearrangement of SeedPattern). `kernel` is the kernel of
   * the phases (the custom kernel, or the Gaussian table of `sigma`) and
   * `candidateKernel` that of the candidate refinement (the custom kernel,
   * or the Gaussian table of `candidateSigma`). `seed` is the pattern the
   * phases start from. On success every cell has a rank, no two alike; the
   * dots of the seed hold the ranks below its number of dots. The seed is
   * `shuffled` when the refinement is skipped; otherwise it is the refined
   * pattern, with one dot fewer and, under a point-symmetric candidate kernel,
   * settled.
   */
  method ExtendedVoidAndCluster(width: int, height: int, sigma: Value, candidateSigma: Value, kernelGiven: bool,
                                density: real, shuffled: seq<int>,
                                kernel: array<real>, kernelWidth: int, kernelHeight: int,
                                candidateKernel: array<real>, candidateKernelWidth: int, candidateKernelHeight: int,
                                fuel: nat)
    returns (r: Check, rankArray: array<int>, ghost seed: seq<int>)
    requires Shape(width, height, kernelWidth, kernelHeight).Valid()
    requires Shape(width, height, candidateKernelWidth, candidateKernelHeight).Valid()
    requires kernel.Length == kernelWidth * kernelHeight
    requires candidateKernel.Length == candidateKernelWidth * candidateKernelHeight
    requires kernelGiven ==> candidateKernel == kernel && candidateKernelWidth == kernelWidth && candidateKernelHeight == kernelHeight
    requires |shuffled| == width * height
    requires multiset(shuffled) == multiset(SeedPattern(width * height, SeedCount(width * height, density)))
    ensures var check := CheckExtended64(Num(width as real), Num(height as real), sigma, kernelGiven);
      && (check != Pass ==> r == check)
      && (check == Pass && (density == 0.0 || density == 1.0) ==> r == Pass && seed == shuffled)
      && (check == Pass && density != 0.0 && density != 1.0 ==>
            var g := CandidateGuard64(TypedArray, Ones(shuffled), width * height,
                                      if kernelGiven then sigma else candidateSigma, kernelGiven);
            var s := Shape(width, height, candidateKernelWidth, candidateKernelHeight);
            var o := Refine(s, candidateKernel[..], shuffled, Blur(s, shuffled, candidateKernel[..]), fuel);
            && (g.Reject? ==> r == Throw(g.err))
            && (g == Skip ==> r == Pass)
            && (g == Run ==> (r == Pass <==> o.stopped) && (r != Pass ==> r == Throw(OutOfFuel))))
    ensures r == Pass ==>
      && rankArray.Length == width * height && IsPermutation(rankArray[..])
      && |seed| == width * height && Binary(seed)
      && (forall i :: 0 <= i < |seed| ==> (seed[i] == 1 <==> rankArray[i] < Ones(seed)))
    ensures r == Pass ==> rankArray[..] == Ranks64(Shape(width, height, kernelWidth, kernelHeight), kernel[..], seed)
    ensures (r == Pass && density != 0.0 && density != 1.0) ==>
      var g := CandidateGuard64(TypedArray, Ones(shuffled), width * height,
                                if kernelGiven then sigma else candidateSigma, kernelGiven);
      var s := Shape(width, height, candidateKernelWidth, candidateKernelHeight);
      && (g == Skip ==> seed == shuffled)
      && (g == Run ==> seed == Refine(s, candidateKernel[..], shuffled, Blur(s, shuffled, candidateKernel[..]), fuel).p)
      && (g == Run ==> Ones(seed) == Ones(shuffled) - 1)
      && (g == Run && PointSymmetric(s, candidateKernel[..]) ==> exists c :: SettledAt(s, seed, candidateKernel[..], c))
  {
    ShapeSizes(width, height, kernelWidth, kernelHeight);
    var sqSz := width * height;
    rankArray := new int[sqSz](_ => 0);
    seed := shuffled;
    r := CheckExtended64(Num(width as real), Num(height as real), sigma, kernelGiven);
    if r != Pass {
      return;
    }
    ShuffledIsBinary(shuffled, SeedPattern(sqSz, SeedCount(sqSz, density)));
    var binArray := new int[sqSz](i requires 0 <= i < sqSz => shuffled[i]);
    assert binArray[..] == shuffled;
    if density != 0.0 && density != 1.0 {
      var candidateArgument := if kernelGiven then sigma else candidateSigma;
      r := CandidateMethodInPlace64(TypedArray, binArray, width, height, candidateArgument, kernelGiven,
                                    candidateKernel, candidateKernelWidth, candidateKernelHeight, fuel);
      if r != Pass {
        return;
      }
    }
    seed := binArray[..];
    rankArray := RankSeed(binArray, width, height, kernel, kernelWidth, kernelHeight);
  }

  /**
   * The part of `_extendedVoidAndCluster` after the candidate refinement:
   * copy the seed to `temp`, collect its dots, blur it, snapshot the energy
   * map, run phase 1, restore the snapshot (`blurredArray.set(blurredTemp)`)
   * and run phase 2. `binArray` ends full; the ranks form a permutation in
   * which the seed's dots hold exactly the ranks below their number.
   */
  method RankSeed(binArray: array<int>, width: int, height: int,
                  kernel: array<real>, kernelWidth: int, kernelHeight: int) returns (rankArray: array<int>)
    requires Shape(width, height, kernelWidth, kernelHeight).Valid()
    requires binArray.Length == width * height && kernel.Length == kernelWidth * kernelHeight
    requires Binary(binArray[..])
    modifies binArray
    ensures fresh(rankArray) && rankArray.Length == binArray.Length
    ensures rankArray[..] == Ranks64(Shape(width, height, kernelWidth, kernelHeight), kernel[..], old(binArray[..]))
    ensures IsPermutation(rankArray[..])
    ensures forall i :: 0 <= i < binArray.Length ==> (old(binArray[..])[i] == 1 <==> rankArray[i] < Ones(old(binArray[..])))
    ensures Full(binArray[..])
  {
    ShapeSizes(width, height, kernelWidth, kernelHeight);
    var sqSz := width * height;
    ghost var s, k, seed := Shape(width, height, kernelWidth, kernelHeight), kernel[..], binArray[..];
    rankArray := new int[sqSz](_ => 0);
    var blurred := new real[sqSz](_ => 0.0);
    var temp := new int[sqSz](i requires 0 <= i < sqSz reads binArray => binArray[i]);
    ghost var z := rankArray[..];
    assert temp[..] == seed && z == Zeros(|seed|);
    var clusterIndexes := CollectOnes(temp);
    var filled1 := |clusterIndexes|;
    assert seed[..sqSz] == seed;
    BlurWrap(binArray, width, height, kernel, blurred, kernelWidth, kernelHeight);
    var blurredTemp := new real[sqSz](i requires 0 <= i < sqSz reads blurred => blurred[i]);
    ghost var e := blurredTemp[..];
    assert e == blurred[..] == Blur(s, seed, k);
    assert temp[..] == seed && rankArray[..] == z && kernel[..] == k;
    Phase1(temp, rankArray, blurred, blurredTemp, clusterIndexes, width, height, kernel, kernelWidth, kernelHeight);
    ghost var p1 := Progress(temp[..], rankArray[..], blurred[..]);
    assert kernel[..] == k && blurredTemp[..] == e;
    assert p1 == Clear64Run(s, k, seed, z, e, e);
    forall i | 0 <= i < sqSz {
      blurred[i] := blurredTemp[i];
    }
    assert binArray[..] == seed && rankArray[..] == p1.ranks && blurred[..] == e;
    Phase2(binArray, rankArray, blurred, blurredTemp, filled1, width, height, kernel, kernelWidth, kernelHeight);
    assert kernel[..] == k && blurredTemp[..] == e;
    assert Progress(binArray[..], rankArray[..], blurred[..]) == Fill64Run(s, k, seed, p1.ranks, e, e);
    assert rankArray[..] == Ranks64(s, k, seed);
    Ranks64Ranks(s, k, seed);
  }

  /** A rearrangement of a binary pattern is binary. */
  lemma ShuffledIsBinary(shuffled: seq<int>, p: seq<int>)
    requires Binary(p) && multiset(shuffled) == multiset(p)
    ensures Binary(shuffled)
  {
    forall i | 0 <= i < |shuffled| ensures shuffled[i] == 0 || shuffled[i] == 1 {
      assert shuffled[i] in multiset(shuffled);
      assert shuffled[i] in p;
      var j :| 0 <= j < |p| && p[j] == shuffled[i];
    }
  }
}
