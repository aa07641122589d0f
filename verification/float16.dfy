/**
 * The rank assignment of `blueNoiseFloat16`: the extended generator, whose
 * third phase fills the last voids by the energy of the inverted pattern, and
 * the original (Ulichney) generator. Both share the phase loops below; each
 * phase picks cells with the plain scan (first strictly hottest or coldest
 * cell) and keeps the energy map in step with one delta per flipped cell.
 */
module BlueNoiseFloat16 {
  import opened Convolution
  import opened BlueNoiseUtils
  import opened Patterns
  import opened Scans
  import opened Arguments
  import opened Candidate
  import opened Ranks
  import opened RankOrder

  // ---------------------------------------------------------------------------
  // The split between phase 2 and phase 3
  // ---------------------------------------------------------------------------

  /** `Math.min(Math.max(ratio, 0), 1)`. */
  function Clamp01(ratio: real): (c: real)
    ensures 0.0 <= c <= 1.0
    ensures 0.0 <= ratio <= 1.0 ==> c == ratio
  {
    if ratio < 0.0 then 0.0 else if ratio > 1.0 then 1.0 else ratio
  }

  /** `candidateFillingRatioScaled`: the rank at which phase 2 hands over to
      phase 3, `filled1 + floor(clamp(ratio) * (sqSz - filled1))`. It lies
      between the number of dots and the number of cells, and the ratios 0
      and 1 put it at either end. */
  function FillingRatioScaled(filled1: int, sqSz: int, ratio: real): (r: int)
    requires 0 <= filled1 <= sqSz
    ensures filled1 <= r <= sqSz
    ensures ratio <= 0.0 ==> r == filled1
    ensures ratio >= 1.0 ==> r == sqSz
  {
    var c := Clamp01(ratio);
    var free := sqSz - filled1;
    FloorOfFraction(c, free);
    filled1 + (c * free as real).Floor
  }

  lemma FloorOfFraction(c: real, m: int)
    requires 0.0 <= c <= 1.0 && 0 <= m
    ensures 0 <= (c * m as real).Floor <= m
    ensures c == 0.0 ==> (c * m as real).Floor == 0
    ensures c == 1.0 ==> (c * m as real).Floor == m
  {
    assert m as real - c * m as real == (1.0 - c) * m as real;
  }

  /** A later ratio never hands over earlier. */
  lemma {:induction false} FillingRatioMonotone(filled1: int, sqSz: int, a: real, b: real)
    requires 0 <= filled1 <= sqSz && a <= b
    ensures FillingRatioScaled(filled1, sqSz, a) <= FillingRatioScaled(filled1, sqSz, b)
  {
    var ca, cb := Clamp01(a), Clamp01(b);
    var m := (sqSz - filled1) as real;
    assert ca <= cb;
    assert cb * m - ca * m == (cb - ca) * m;
    assert ca * m <= cb * m;
    FloorMonotone(ca * m, cb * m);
  }

  lemma FloorMonotone(x: real, y: real)
    requires x <= y
    ensures x.Floor <= y.Floor
  {
    assert x.Floor as real <= x;
  }

  // ---------------------------------------------------------------------------
  // One round of each phase
  // ---------------------------------------------------------------------------

  /** A round of phase 1: the first hottest dot still in `temp` is cleared,
      given `rankValue`, and its -1 delta is applied. */
  method ClearHottest(temp: array<int>, rankArray: array<int>, blurred: array<real>,
                      width: int, height: int, kernel: array<real>, kernelWidth: int, kernelHeight: int,
                      rankValue: int, ghost k: seq<real>, ghost goal: Progress, ghost left: nat)
    returns (idx: int, next: int, ghost rest: nat)
    requires Shape(width, height, kernelWidth, kernelHeight).Valid()
    requires temp.Length == rankArray.Length == blurred.Length == width * height
    requires kernel.Length == kernelWidth * kernelHeight && blurred != kernel && temp != rankArray
    requires Binary(temp[..]) && Ones(temp[..]) > 0
    requires k == kernel[..] && 0 < left
    requires Reaches(Shape(width, height, kernelWidth, kernelHeight), k, Clear16, Progress(temp[..], rankArray[..], blurred[..]), rankValue, left, goal)
    modifies temp, rankArray, blurred
    ensures Some(idx) == FirstBest(old(temp[..]), old(blurred[..]), 1, Highest, temp.Length)
    ensures 0 <= idx < temp.Length && old(temp[idx]) == 1
    ensures temp[..] == old(temp[..])[idx := 0] && rankArray[..] == old(rankArray[..])[idx := rankValue]
    ensures Binary(temp[..]) && Ones(temp[..]) == Ones(old(temp[..])) - 1
    ensures blurred[..] == DeltaApplied(Shape(width, height, kernelWidth, kernelHeight), kernel[..], old(blurred[..]), idx, -1.0)
    ensures Progress(temp[..], rankArray[..], blurred[..]) ==
      Step(Shape(width, height, kernelWidth, kernelHeight), kernel[..], Clear16,
           Progress(old(temp[..]), old(rankArray[..]), old(blurred[..])), rankValue)
    ensures (PointSymmetric(Shape(width, height, kernelWidth, kernelHeight), kernel[..]) &&
      old(blurred[..]) == Blur(Shape(width, height, kernelWidth, kernelHeight), old(temp[..]), kernel[..])) ==>
      blurred[..] == Blur(Shape(width, height, kernelWidth, kernelHeight), temp[..], kernel[..])
    ensures next == rankValue + Clear16.stride && rest == left - 1
    ensures Reaches(Shape(width, height, kernelWidth, kernelHeight), k, Clear16, Progress(temp[..], rankArray[..], blurred[..]), next, rest, goal)
  {
    next, rest := rankValue + Clear16.stride, left - 1;
    ghost var st := Progress(temp[..], rankArray[..], blurred[..]);
    ShapeSizes(width, height, kernelWidth, kernelHeight);
    var c := SomeOne(temp[..]);
    var found := ScanBest(temp, blurred, 1, Highest);
    idx := found.value;
    FlipCell(temp, blurred, width, height, kernel, kernelWidth, kernelHeight, idx, 0);
    rankArray[idx] := rankValue;
    StepAt(Shape(width, height, kernelWidth, kernelHeight), kernel[..], Clear16, st, rankValue, idx);
    RunPhaseAdvance(Shape(width, height, kernelWidth, kernelHeight), k, Clear16, goal, st,
                    Progress(temp[..], rankArray[..], blurred[..]), rankValue, next, left, rest);
  }

  /** A round of phase 2: the first coldest empty cell of `binArray` is set,
      given `rank`, and its +1 delta is applied. */
  method FillColdest(binArray: array<int>, rankArray: array<int>, blurred: array<real>,
                     width: int, height: int, kernel: array<real>, kernelWidth: int, kernelHeight: int,
                     rank: int, ghost k: seq<real>, ghost goal: Progress, ghost left: nat)
    returns (idx: int, next: int, ghost rest: nat)
    requires Shape(width, height, kernelWidth, kernelHeight).Valid()
    requires binArray.Length == rankArray.Length == blurred.Length == width * height
    requires kernel.Length == kernelWidth * kernelHeight && blurred != kernel && binArray != rankArray
    requires Binary(binArray[..]) && Ones(binArray[..]) < binArray.Length
    requires k == kernel[..] && 0 < left
    requires Reaches(Shape(width, height, kernelWidth, kernelHeight), k, Void16, Progress(binArray[..], rankArray[..], blurred[..]), rank, left, goal)
    modifies binArray, rankArray, blurred
    ensures Some(idx) == FirstBest(old(binArray[..]), old(blurred[..]), 0, Lowest, binArray.Length)
    ensures 0 <= idx < binArray.Length && old(binArray[idx]) == 0
    ensures binArray[..] == old(binArray[..])[idx := 1] && rankArray[..] == old(rankArray[..])[idx := rank]
    ensures Binary(binArray[..]) && Ones(binArray[..]) == Ones(old(binArray[..])) + 1
    ensures blurred[..] == DeltaApplied(Shape(width, height, kernelWidth, kernelHeight), kernel[..], old(blurred[..]), idx, 1.0)
    ensures Progress(binArray[..], rankArray[..], blurred[..]) ==
      Step(Shape(width, height, kernelWidth, kernelHeight), kernel[..], Void16,
           Progress(old(binArray[..]), old(rankArray[..]), old(blurred[..])), rank)
    ensures (PointSymmetric(Shape(width, height, kernelWidth, kernelHeight), kernel[..]) &&
      old(blurred[..]) == Blur(Shape(width, height, kernelWidth, kernelHeight), old(binArray[..]), kernel[..])) ==>
      blurred[..] == Blur(Shape(width, height, kernelWidth, kernelHeight), binArray[..], kernel[..])
    ensures next == rank + Void16.stride && rest == left - 1
    ensures Reaches(Shape(width, height, kernelWidth, kernelHeight), k, Void16, Progress(binArray[..], rankArray[..], blurred[..]), next, rest, goal)
  {
    next, rest := rank + Void16.stride, left - 1;
    ghost var st := Progress(binArray[..], rankArray[..], blurred[..]);
    ShapeSizes(width, height, kernelWidth, kernelHeight);
    var c := SomeZero(binArray[..]);
    var found := ScanBest(binArray, blurred, 0, Lowest);
    idx := found.value;
    FlipCell(binArray, blurred, width, height, kernel, kernelWidth, kernelHeight, idx, 1);
    rankArray[idx] := rank;
    StepAt(Shape(width, height, kernelWidth, kernelHeight), kernel[..], Void16, st, rank, idx);
    RunPhaseAdvance(Shape(width, height, kernelWidth, kernelHeight), k, Void16, goal, st,
                    Progress(binArray[..], rankArray[..], blurred[..]), rank, next, left, rest);
  }

  /** A round of phase 3: the first hottest empty cell of `binArray`, by the
      energy of the inverted pattern, is set and given `rank`; setting it
      clears the cell in the inverted pattern, hence the -1 delta. An energy
      map that was the blur of the inverted pattern stays so. */
  method FillHottestVoid(binArray: array<int>, rankArray: array<int>, blurred: array<real>,
                         width: int, height: int, kernel: array<real>, kernelWidth: int, kernelHeight: int,
                         rank: int, ghost k: seq<real>, ghost goal: Progress, ghost left: nat)
    returns (idx: int, next: int, ghost rest: nat)
    requires Shape(width, height, kernelWidth, kernelHeight).Valid()
    requires binArray.Length == rankArray.Length == blurred.Length == width * height
    requires kernel.Length == kernelWidth * kernelHeight && blurred != kernel && binArray != rankArray
    requires Binary(binArray[..]) && Ones(binArray[..]) < binArray.Length
    requires k == kernel[..] && 0 < left
    requires Reaches(Shape(width, height, kernelWidth, kernelHeight), k, Remaining16, Progress(binArray[..], rankArray[..], blurred[..]), rank, left, goal)
    modifies binArray, rankArray, blurred
    ensures Some(idx) == FirstBest(old(binArray[..]), old(blurred[..]), 0, Highest, binArray.Length)
    ensures 0 <= idx < binArray.Length && old(binArray[idx]) == 0
    ensures binArray[..] == old(binArray[..])[idx := 1] && rankArray[..] == old(rankArray[..])[idx := rank]
    ensures Binary(binArray[..]) && Ones(binArray[..]) == Ones(old(binArray[..])) + 1
    ensures blurred[..] == DeltaApplied(Shape(width, height, kernelWidth, kernelHeight), kernel[..], old(blurred[..]), idx, -1.0)
    ensures Progress(binArray[..], rankArray[..], blurred[..]) ==
      Step(Shape(width, height, kernelWidth, kernelHeight), kernel[..], Remaining16,
           Progress(old(binArray[..]), old(rankArray[..]), old(blurred[..])), rank)
    ensures (PointSymmetric(Shape(width, height, kernelWidth, kernelHeight), kernel[..]) &&
      old(blurred[..]) == Blur(Shape(width, height, kernelWidth, kernelHeight), Complement(old(binArray[..])), kernel[..])) ==>
      blurred[..] == Blur(Shape(width, height, kernelWidth, kernelHeight), Complement(binArray[..]), kernel[..])
    ensures next == rank + Remaining16.stride && rest == left - 1
    ensures Reaches(Shape(width, height, kernelWidth, kernelHeight), k, Remaining16, Progress(binArray[..], rankArray[..], blurred[..]), next, rest, goal)
  {
    ghost var bits := binArray[..];
    next, rest := rank + Remaining16.stride, left - 1;
    ghost var st := Progress(binArray[..], rankArray[..], blurred[..]);
    ShapeSizes(width, height, kernelWidth, kernelHeight);
    var c := SomeZero(binArray[..]);
    var found := ScanBest(binArray, blurred, 0, Highest);
    idx := found.value;
    binArray[idx] := 1;
    DeltaBlurUpdate(width, height, idx, -1.0, blurred, kernel, kernelWidth, kernelHeight);
    rankArray[idx] := rank;
    assert binArray[..] == bits[idx := 1];
    OnesUpdate(bits, idx, 1);
    ComplementDelta(Shape(width, height, kernelWidth, kernelHeight), bits, kernel[..], idx);
    StepAt(Shape(width, height, kernelWidth, kernelHeight), kernel[..], Remaining16, st, rank, idx);
    RunPhaseAdvance(Shape(width, height, kernelWidth, kernelHeight), k, Remaining16, goal, st,
                    Progress(binArray[..], rankArray[..], blurred[..]), rank, next, left, rest);
  }

  // ---------------------------------------------------------------------------
  // The phase loops
  // ---------------------------------------------------------------------------

  /**
   * Phase 1 of the extended generator: `for (rank = 0; rank < filled1; rank++)`
   * clearing the first hottest dot of `temp` and giving it `top - rank`; the
   * source passes `top = filled1`. The arrays end as the run of `filled1`
   * rounds of Clear16 ranked top, top - 1, ... leaves them (ClearAllRanks):
   * `temp` ends empty, its dots hold distinct ranks in [top - filled1 + 1,
   * top], and no other rank changes. With a point-symmetric kernel the
   * energy map stays the blur of `temp`.
   */
  method ExtendedPhase1(temp: array<int>, rankArray: array<int>, blurred: array<real>,
                        width: int, height: int, kernel: array<real>, kernelWidth: int, kernelHeight: int,
                        filled1: int, top: int)
    requires Shape(width, height, kernelWidth, kernelHeight).Valid()
    requires temp.Length == rankArray.Length == blurred.Length == width * height
    requires kernel.Length == kernelWidth * kernelHeight && blurred != kernel && temp != rankArray
    requires Binary(temp[..]) && Ones(temp[..]) == filled1
    modifies temp, rankArray, blurred
    ensures Progress(temp[..], rankArray[..], blurred[..]) ==
      RunPhase(Shape(width, height, kernelWidth, kernelHeight), kernel[..], Clear16,
          Progress(old(temp[..]), old(rankArray[..]), old(blurred[..])), top, filled1)
    ensures Empty(temp[..])
    ensures Block(old(temp[..]), rankArray[..], 1, top - filled1 + 1, top + 1)
    ensures Untouched(old(temp[..]), 1, rankArray[..], old(rankArray[..]))
    ensures (PointSymmetric(Shape(width, height, kernelWidth, kernelHeight), kernel[..]) &&
      old(blurred[..]) == Blur(Shape(width, height, kernelWidth, kernelHeight), old(temp[..]), kernel[..])) ==>
      blurred[..] == Blur(Shape(width, height, kernelWidth, kernelHeight), temp[..], kernel[..])
  {
    ghost var s := Shape(width, height, kernelWidth, kernelHeight);
    ghost var k := kernel[..];
    ghost var seed, before, e0 := temp[..], rankArray[..], blurred[..];
    ghost var goal := RunPhase(s, k, Clear16, Progress(temp[..], rankArray[..], blurred[..]), top, filled1);
    ghost var left: nat := filled1;
    var rank, value := 0, top;
    while rank < filled1
      invariant 0 <= rank <= filled1 && left == filled1 - rank
      invariant Binary(temp[..]) && Ones(temp[..]) == left && kernel[..] == k
      invariant Reaches(s, k, Clear16, Progress(temp[..], rankArray[..], blurred[..]), value, left, goal)
    {
      var idx;
      idx, value, left := ClearHottest(temp, rankArray, blurred, width, height, kernel, kernelWidth, kernelHeight,
                                       value, k, goal, left);
      rank := rank + 1;
    }
    ghost var p1 := ClearAllRanks(s, k, seed, before, e0, top);
  }

  /**
   * Phase 1 of the original generator: `rank = filled1 - 1; while (rank > 0)`
   * clearing the first hottest dot of `temp` and giving it `rank--`. The loop
   * stops one dot short: the arrays end as the run of filled1 - 1 rounds of
   * Clear16 ranked filled1 - 1 down to 1 leaves them (ClearAllButOneRanks).
   * The cleared dots hold distinct ranks in [1, filled1); one dot, if any,
   * stays in `temp` with its old rank; no other rank changes.
   */
  method OriginalPhase1(temp: array<int>, rankArray: array<int>, blurred: array<real>,
                        width: int, height: int, kernel: array<real>, kernelWidth: int, kernelHeight: int,
                        filled1: int)
    requires Shape(width, height, kernelWidth, kernelHeight).Valid()
    requires temp.Length == rankArray.Length == blurred.Length == width * height
    requires kernel.Length == kernelWidth * kernelHeight && blurred != kernel && temp != rankArray
    requires Binary(temp[..]) && Ones(temp[..]) == filled1
    modifies temp, rankArray, blurred
    ensures Progress(temp[..], rankArray[..], blurred[..]) ==
      RunPhase(Shape(width, height, kernelWidth, kernelHeight), kernel[..], Clear16,
               Progress(old(temp[..]), old(rankArray[..]), old(blurred[..])), filled1 - 1, if filled1 >= 1 then filled1 - 1 else 0)
    ensures Binary(temp[..]) && Within(temp[..], old(temp[..]))
    ensures Ones(temp[..]) == if filled1 == 0 then 0 else 1
    ensures Ranked(old(temp[..]), temp[..], rankArray[..], 1, 1, filled1)
    ensures Untouched(old(temp[..]), 1, rankArray[..], old(rankArray[..]))
    ensures forall i :: 0 <= i < temp.Length && temp[i] == 1 ==> rankArray[i] == old(rankArray[i])
    ensures (PointSymmetric(Shape(width, height, kernelWidth, kernelHeight), kernel[..]) &&
      old(blurred[..]) == Blur(Shape(width, height, kernelWidth, kernelHeight), old(temp[..]), kernel[..])) ==>
      blurred[..] == Blur(Shape(width, height, kernelWidth, kernelHeight), temp[..], kernel[..])
  {
    ghost var s := Shape(width, height, kernelWidth, kernelHeight);
    ghost var k := kernel[..];
    ghost var seed, before, e0 := temp[..], rankArray[..], blurred[..];
    ghost var left: nat := if filled1 >= 1 then filled1 - 1 else 0;
    var rank := filled1 - 1;
    ghost var goal := RunPhase(s, k, Clear16, Progress(temp[..], rankArray[..], blurred[..]), rank, left);
    while rank > 0
      invariant left == (if rank > 0 then rank else 0)
      invariant Binary(temp[..]) && Ones(temp[..]) == (if filled1 == 0 then 0 else left + 1) && kernel[..] == k
      invariant Reaches(s, k, Clear16, Progress(temp[..], rankArray[..], blurred[..]), rank, left, goal)
    {
      var idx;
      idx, rank, left := ClearHottest(temp, rankArray, blurred, width, height, kernel, kernelWidth, kernelHeight,
                                      rank, k, goal, left);
    }
    ghost var p1 := ClearAllButOneRanks(s, k, seed, before, e0);
  }

  /**
   * Phase 2: `while (rank < to)` setting the first coldest empty cell of
   * `binArray` and giving it `rank++`. The extended generator stops at
   * candidateFillingRatioScaled, the original one at `floor(sqSz / 2)`; when
   * the loop starts past its bound it does nothing. The arrays end as the run
   * of Void16 from `from` leaves them (FillVoidsRanks): relative to the seed
   * `seed` whose cells set so far hold ranks in [lo, from), the cells it
   * sets are empty cells of the seed and get distinct ranks up to the bound.
   */
  method FillVoids(binArray: array<int>, rankArray: array<int>, blurred: array<real>,
                   width: int, height: int, kernel: array<real>, kernelWidth: int, kernelHeight: int,
                   from: int, to: int, ghost lo: int, ghost seed: seq<int>)
    returns (rank: int)
    requires Shape(width, height, kernelWidth, kernelHeight).Valid()
    requires binArray.Length == rankArray.Length == blurred.Length == width * height
    requires kernel.Length == kernelWidth * kernelHeight && blurred != kernel && binArray != rankArray
    requires Binary(binArray[..]) && Binary(seed) && Within(seed, binArray[..]) && Ones(binArray[..]) == from
    requires lo <= from && to <= binArray.Length
    requires Ranked(seed, binArray[..], rankArray[..], 0, lo, from)
    modifies binArray, rankArray, blurred
    ensures rank == Handover(from, to)
    ensures Binary(binArray[..]) && Within(seed, binArray[..]) && Ones(binArray[..]) == rank
    ensures Ranked(seed, binArray[..], rankArray[..], 0, lo, rank)
    ensures Untouched(seed, 0, rankArray[..], old(rankArray[..]))
    ensures Progress(binArray[..], rankArray[..], blurred[..]) ==
      RunPhase(Shape(width, height, kernelWidth, kernelHeight), kernel[..], Void16,
               Progress(old(binArray[..]), old(rankArray[..]), old(blurred[..])), from, Handover(from, to) - from)
    ensures (PointSymmetric(Shape(width, height, kernelWidth, kernelHeight), kernel[..]) &&
      old(blurred[..]) == Blur(Shape(width, height, kernelWidth, kernelHeight), old(binArray[..]), kernel[..])) ==>
      blurred[..] == Blur(Shape(width, height, kernelWidth, kernelHeight), binArray[..], kernel[..])
  {
    ghost var s := Shape(width, height, kernelWidth, kernelHeight);
    ghost var k := kernel[..];
    ghost var st := Progress(binArray[..], rankArray[..], blurred[..]);
    ghost var goal := RunPhase(s, k, Void16, Progress(binArray[..], rankArray[..], blurred[..]), from,
                               Handover(from, to) - from);
    ghost var left: nat := Handover(from, to) - from;
    rank := from;
    while rank < to
      invariant from <= rank <= Handover(from, to) && left == Handover(from, to) - rank
      invariant Binary(binArray[..]) && Ones(binArray[..]) == rank && kernel[..] == k
      invariant Reaches(s, k, Void16, Progress(binArray[..], rankArray[..], blurred[..]), rank, left, goal)
      decreases left
    {
      var idx;
      idx, rank, left := FillColdest(binArray, rankArray, blurred, width, height, kernel, kernelWidth, kernelHeight,
                                     rank, k, goal, left);
    }
    ghost var p2 := FillVoidsRanks(s, k, seed, st, lo, from, to);
  }

  /**
   * Phase 3: `while (rank < sqSz)` setting the first hottest empty cell of
   * `binArray`, by the energy of the inverted pattern, and giving it
   * `rank++`. The arrays end as the run of Remaining16 from `from` to the
   * end leaves them (FillRemainingRanks): `binArray` ends full and the empty
   * cells of the seed `seed` hold distinct ranks in [lo, N).
   */
  method FillRemaining(binArray: array<int>, rankArray: array<int>, blurred: array<real>,
                       width: int, height: int, kernel: array<real>, kernelWidth: int, kernelHeight: int,
                       from: int, ghost lo: int, ghost seed: seq<int>)
    requires Shape(width, height, kernelWidth, kernelHeight).Valid()
    requires binArray.Length == rankArray.Length == blurred.Length == width * height
    requires kernel.Length == kernelWidth * kernelHeight && blurred != kernel && binArray != rankArray
    requires Binary(binArray[..]) && Binary(seed) && Within(seed, binArray[..]) && Ones(binArray[..]) == from
    requires lo <= from
    requires Ranked(seed, binArray[..], rankArray[..], 0, lo, from)
    modifies binArray, rankArray, blurred
    ensures Full(binArray[..]) && Block(seed, rankArray[..], 0, lo, binArray.Length)
    ensures Untouched(seed, 0, rankArray[..], old(rankArray[..]))
    ensures Progress(binArray[..], rankArray[..], blurred[..]) ==
      RunPhase(Shape(width, height, kernelWidth, kernelHeight), kernel[..], Remaining16,
               Progress(old(binArray[..]), old(rankArray[..]), old(blurred[..])), from, binArray.Length - from)
    ensures (PointSymmetric(Shape(width, height, kernelWidth, kernelHeight), kernel[..]) &&
      old(blurred[..]) == Blur(Shape(width, height, kernelWidth, kernelHeight), Complement(old(binArray[..])), kernel[..])) ==>
      blurred[..] == Blur(Shape(width, height, kernelWidth, kernelHeight), Complement(binArray[..]), kernel[..])
  {
    ghost var s := Shape(width, height, kernelWidth, kernelHeight);
    ghost var k := kernel[..];
    ghost var st := Progress(binArray[..], rankArray[..], blurred[..]);
    var n := binArray.Length;
    ghost var goal := RunPhase(s, k, Remaining16, Progress(binArray[..], rankArray[..], blurred[..]), from, n - from);
    ghost var left: nat := n - from;
    var rank := from;
    while rank < n
      invariant from <= rank <= n && left == n - rank
      invariant Binary(binArray[..]) && Ones(binArray[..]) == rank && kernel[..] == k
      invariant Reaches(s, k, Remaining16, Progress(binArray[..], rankArray[..], blurred[..]), rank, left, goal)
    {
      var idx;
      idx, rank, left := FillHottestVoid(binArray, rankArray, blurred, width, height, kernel, kernelWidth, kernelHeight,
                                         rank, k, goal, left);
    }
    AllOnes(binArray[..]);
    ghost var p3 := FillRemainingRanks(s, k, seed, st, lo, from);
  }

  /**
   * Phase 2 as a whole: blur `binArray` into `blurred`, then run FillVoids
   * from rank `from` up to `to`. The arrays end as the run of Void16 from
   * the blur of the pattern leaves them.
   */
  method Phase2(binArray: array<int>, rankArray: array<int>, blurred: array<real>,
                width: int, height: int, kernel: array<real>, kernelWidth: int, kernelHeight: int,
                from: int, to: int, ghost lo: int, ghost seed: seq<int>)
    returns (rank: int)
    requires Shape(width, height, kernelWidth, kernelHeight).Valid()
    requires binArray.Length == rankArray.Length == blurred.Length == width * height
    requires kernel.Length == kernelWidth * kernelHeight && blurred != kernel && binArray != rankArray
    requires Binary(binArray[..]) && Binary(seed) && Within(seed, binArray[..]) && Ones(binArray[..]) == from
    requires lo <= from && to <= binArray.Length
    requires Ranked(seed, binArray[..], rankArray[..], 0, lo, from)
    modifies binArray, rankArray, blurred
    ensures rank == Handover(from, to)
    ensures Binary(binArray[..]) && Within(seed, binArray[..]) && Ones(binArray[..]) == rank
    ensures Ranked(seed, binArray[..], rankArray[..], 0, lo, rank)
    ensures Untouched(seed, 0, rankArray[..], old(rankArray[..]))
    ensures Progress(binArray[..], rankArray[..], blurred[..]) ==
      RunPhase(Shape(width, height, kernelWidth, kernelHeight), kernel[..], Void16,
               Progress(old(binArray[..]), old(rankArray[..]),
                        Blur(Shape(width, height, kernelWidth, kernelHeight), old(binArray[..]), kernel[..])),
               from, Handover(from, to) - from)
    ensures PointSymmetric(Shape(width, height, kernelWidth, kernelHeight), kernel[..]) ==>
      blurred[..] == Blur(Shape(width, height, kernelWidth, kernelHeight), binArray[..], kernel[..])
  {
    BlurWrap(binArray, width, height, kernel, blurred, kernelWidth, kernelHeight);
    rank := FillVoids(binArray, rankArray, blurred, width, height, kernel, kernelWidth, kernelHeight, from, to, lo, seed);
  }

  /**
   * Phase 3 as a whole: invert `binArray` into `temp`, blur the inverted
   * pattern into `blurred`, then run FillRemaining from rank `from`. The
   * arrays end as the run of Remaining16 from the blur of the inverted
   * pattern leaves them.
   */
  method Phase3(binArray: array<int>, rankArray: array<int>, blurred: array<real>, temp: array<int>,
                width: int, height: int, kernel: array<real>, kernelWidth: int, kernelHeight: int,
                from: int, ghost lo: int, ghost seed: seq<int>)
    requires Shape(width, height, kernelWidth, kernelHeight).Valid()
    requires binArray.Length == rankArray.Length == blurred.Length == temp.Length == width * height
    requires kernel.Length == kernelWidth * kernelHeight && blurred != kernel
    requires binArray != rankArray && binArray != temp && rankArray != temp
    requires Binary(binArray[..]) && Binary(seed) && Within(seed, binArray[..]) && Ones(binArray[..]) == from
    requires lo <= from
    requires Ranked(seed, binArray[..], rankArray[..], 0, lo, from)
    modifies binArray, rankArray, blurred, temp
    ensures Full(binArray[..]) && Block(seed, rankArray[..], 0, lo, binArray.Length)
    ensures Untouched(seed, 0, rankArray[..], old(rankArray[..]))
    ensures Progress(binArray[..], rankArray[..], blurred[..]) ==
      RunPhase(Shape(width, height, kernelWidth, kernelHeight), kernel[..], Remaining16,
               Progress(old(binArray[..]), old(rankArray[..]),
                        Blur(Shape(width, height, kernelWidth, kernelHeight), Complement(old(binArray[..])), kernel[..])),
               from, binArray.Length - from)
    ensures PointSymmetric(Shape(width, height, kernelWidth, kernelHeight), kernel[..]) ==>
      blurred[..] == Blur(Shape(width, height, kernelWidth, kernelHeight), Complement(binArray[..]), kernel[..])
  {
    Invert(binArray, temp);
    BlurWrap(temp, width, height, kernel, blurred, kernelWidth, kernelHeight);
    FillRemaining(binArray, rankArray, blurred, width, height, kernel, kernelWidth, kernelHeight, from, lo, seed);
  }

  /** `for (i...) temp[i] = 1 ^ binArray[i]`: the inverted pattern phase 3
      blurs. */
  method Invert(binArray: array<int>, temp: array<int>)
    requires binArray.Length == temp.Length && binArray != temp && Binary(binArray[..])
    modifies temp
    ensures temp[..] == Complement(binArray[..]) && Binary(temp[..])
  {
    for i := 0 to temp.Length
      invariant forall j :: 0 <= j < i ==> temp[j] == 1 - binArray[j]
    {
      assert binArray[..][i] == 0 || binArray[..][i] == 1;
      temp[i] := 1 - binArray[i];
    }
  }

  // ---------------------------------------------------------------------------
  // Ranking a seed
  // ---------------------------------------------------------------------------

  /**
   * Phases 2 and 3 on the seed in `binArray`: blur it, fill voids up to rank
   * `to`, then blur the inverted pattern and fill the rest. The ranks end as
   * Fill16 gives them: `binArray` ends full, the empty cells of the seed hold
   * distinct ranks in [filled1, N), and the dots keep their ranks.
   */
  method FillPhases(binArray: array<int>, rankArray: array<int>, blurred: array<real>, temp: array<int>,
                    width: int, height: int, kernel: array<real>, kernelWidth: int, kernelHeight: int,
                    filled1: int, to: int)
    requires Shape(width, height, kernelWidth, kernelHeight).Valid()
    requires binArray.Length == rankArray.Length == blurred.Length == temp.Length == width * height
    requires kernel.Length == kernelWidth * kernelHeight && blurred != kernel
    requires binArray != rankArray && binArray != temp && rankArray != temp
    requires Binary(binArray[..]) && Ones(binArray[..]) == filled1 && to <= binArray.Length
    modifies binArray, rankArray, blurred, temp
    ensures Full(binArray[..]) && Block(old(binArray[..]), rankArray[..], 0, filled1, binArray.Length)
    ensures Untouched(old(binArray[..]), 0, rankArray[..], old(rankArray[..]))
    ensures rankArray[..] ==
      Fill16(Shape(width, height, kernelWidth, kernelHeight), kernel[..], old(binArray[..]), old(rankArray[..]), filled1, to)
  {
    ghost var s, k := Shape(width, height, kernelWidth, kernelHeight), kernel[..];
    ghost var seed, before := binArray[..], rankArray[..];
    ghost var p2, p3 := Fill16Runs(s, k, seed, before, filled1, to);
    RankedNone(seed, before, 0, filled1, filled1);
    var rank := Phase2(binArray, rankArray, blurred, width, height, kernel, kernelWidth, kernelHeight,
                       filled1, to, filled1, seed);
    assert Progress(binArray[..], rankArray[..], blurred[..]) == p2;
    Phase3(binArray, rankArray, blurred, temp, width, height, kernel, kernelWidth, kernelHeight, rank, filled1, seed);
    assert Progress(binArray[..], rankArray[..], blurred[..]) == p3;
    UntouchedTrans(seed, 0, before, p2.ranks, p3.ranks);
  }

  /** After the original phase 1, the one dot left in `temp` still has rank 0
      and the cleared dots have distinct ranks in [1, filled1): together the
      dots hold distinct ranks in [0, filled1). */
  lemma OriginalDotBlock(seed: seq<int>, temp: seq<int>, ranks: seq<int>, filled1: int)
    requires |seed| == |temp| == |ranks| && Within(temp, seed) && Ones(seed) == filled1
    requires Ones(temp) == if filled1 == 0 then 0 else 1
    requires Ranked(seed, temp, ranks, 1, 1, filled1)
    requires forall i :: 0 <= i < |temp| && temp[i] == 1 ==> ranks[i] == 0
    ensures Block(seed, ranks, 1, 0, filled1)
  {
    if filled1 == 0 {
      NoOnes(seed);
    } else {
      forall i, j | 0 <= i < j < |seed| && seed[i] == 1 && seed[j] == 1 ensures ranks[i] != ranks[j] {
        if temp[i] == 1 {
          AtMostOneDot(temp, i, j);
        } else if temp[j] == 1 {
          AtMostOneDot(temp, j, i);
        }
      }
    }
  }

  /**
   * What the extended generator's three phases do to a binary seed with
   * filled1 dots, phase 1 giving its k-th cleared dot the rank `top - k`:
   * the dots hold distinct ranks in [top - filled1 + 1, top] and the empty
   * cells distinct ranks in [filled1, sqSz). With the source's
   * `top = filled1` and at least one dot, no cell gets rank 0 and the ranks
   * are not a permutation.
   */
  lemma Extended16Ranks(s: Shape, k: seq<real>, seed: seq<int>, scaled: int, top: int)
    requires Fits(s, seed, k) && Binary(seed) && Ones(seed) <= scaled <= |seed|
    ensures var r, f := Extended16(s, k, seed, scaled, top), Ones(seed);
      && Block(seed, r, 1, top - f + 1, top + 1)
      && Block(seed, r, 0, f, |seed|)
      && (top == f >= 1 ==> (forall i :: 0 <= i < |r| ==> r[i] != 0) && !IsPermutation(r))
      && (top == f - 1 ==> IsPermutation(r) && forall i :: 0 <= i < |seed| ==> (seed[i] == 1 <==> r[i] < f))
  {
    var p1 := ClearAllRanks(s, k, seed, Zeros(|seed|), Blur(s, seed, k), top);
    Fill16Ranks(s, k, seed, p1.ranks, Ones(seed), scaled);
    BlockKept(seed, p1.ranks, Extended16(s, k, seed, scaled, top), 1, 0, top - Ones(seed) + 1, top + 1);
    if top == Ones(seed) >= 1 {
      ShiftedRanks(seed, Extended16(s, k, seed, scaled, top), Ones(seed));
    }
    if top == Ones(seed) - 1 {
      Combine(seed, Extended16(s, k, seed, scaled, top), Ones(seed));
    }
  }

  /** What the original generator's three phases do to a binary seed: the
      ranks form a permutation of [0, sqSz) in which the dots hold exactly
      the ranks below their number. */
  lemma Original16Ranks(s: Shape, k: seq<real>, seed: seq<int>)
    requires Fits(s, seed, k) && Binary(seed)
    ensures var r := Original16(s, k, seed);
      && IsPermutation(r)
      && forall i :: 0 <= i < |seed| ==> (seed[i] == 1 <==> r[i] < Ones(seed))
  {
    var p1 := ClearAllButOneRanks(s, k, seed, Zeros(|seed|), Blur(s, seed, k));
    OriginalDotBlock(seed, p1.bits, p1.ranks, Ones(seed));
    Fill16Ranks(s, k, seed, p1.ranks, Ones(seed), |seed| / 2);
    BlockKept(seed, p1.ranks, Original16(s, k, seed), 1, 0, 0, Ones(seed));
    Combine(seed, Original16(s, k, seed), Ones(seed));
  }

  /**
   * The three phases of the extended generator on a binary seed with
   * `filled1` dots, phase 1 giving its k-th cleared dot the rank `top - k`
   * (the source passes `top = filled1`) and phase 2 handing over to phase 3 at
   * rank `scaled`. The ranks are Extended16 of the seed, so (Extended16Ranks)
   * the dots hold distinct ranks in [top - filled1 + 1, top], the empty
   * cells distinct ranks in [filled1, sqSz); `binArray` ends full.
   */
  method ExtendedRanks(binArray: array<int>, width: int, height: int,
                       kernel: array<real>, kernelWidth: int, kernelHeight: int,
                       filled1: int, scaled: int, top: int)
    returns (rankArray: array<int>)
    requires Shape(width, height, kernelWidth, kernelHeight).Valid()
    requires binArray.Length == width * height && kernel.Length == kernelWidth * kernelHeight
    requires Binary(binArray[..]) && Ones(binArray[..]) == filled1 <= scaled <= binArray.Length
    modifies binArray
    ensures fresh(rankArray) && rankArray.Length == binArray.Length && Full(binArray[..])
    ensures rankArray[..] == Extended16(Shape(width, height, kernelWidth, kernelHeight), kernel[..], old(binArray[..]), scaled, top)
    ensures Block(old(binArray[..]), rankArray[..], 1, top - filled1 + 1, top + 1)
    ensures Block(old(binArray[..]), rankArray[..], 0, filled1, binArray.Length)
    ensures top == filled1 >= 1 ==>
      (forall i :: 0 <= i < rankArray.Length ==> rankArray[i] != 0) && !IsPermutation(rankArray[..])
  {
    ShapeSizes(width, height, kernelWidth, kernelHeight);
    var sqSz := width * height;
    ghost var seed := binArray[..];
    rankArray := new int[sqSz](_ => 0);
    var blurred := new real[sqSz](_ => 0.0);
    var temp := new int[sqSz](i requires 0 <= i < sqSz reads binArray => binArray[i]);
    assert temp[..] == seed && rankArray[..] == Zeros(sqSz);
    BlurWrap(binArray, width, height, kernel, blurred, kernelWidth, kernelHeight);
    ExtendedPhase1(temp, rankArray, blurred, width, height, kernel, kernelWidth, kernelHeight, filled1, top);
    FillPhases(binArray, rankArray, blurred, temp, width, height, kernel, kernelWidth, kernelHeight, filled1, scaled);
    Extended16Ranks(Shape(width, height, kernelWidth, kernelHeight), kernel[..], seed, scaled, top);
  }

  /**
   * The three phases of the original generator on a binary seed with
   * `filled1` dots: phase 1 ranks all dots but one, phase 2 runs up to
   * `floor(sqSz / 2)`, phase 3 to the end. The ranks are Original16 of the
   * seed, so (Original16Ranks) they form a permutation of [0, sqSz) in
   * which the dots hold exactly the ranks below filled1.
   */
  method OriginalRanks(binArray: array<int>, width: int, height: int,
                       kernel: array<real>, kernelWidth: int, kernelHeight: int, filled1: int)
    returns (rankArray: array<int>)
    requires Shape(width, height, kernelWidth, kernelHeight).Valid()
    requires binArray.Length == width * height && kernel.Length == kernelWidth * kernelHeight
    requires Binary(binArray[..]) && Ones(binArray[..]) == filled1
    modifies binArray
    ensures fresh(rankArray) && rankArray.Length == binArray.Length && Full(binArray[..])
    ensures rankArray[..] == Original16(Shape(width, height, kernelWidth, kernelHeight), kernel[..], old(binArray[..]))
    ensures IsPermutation(rankArray[..])
    ensures forall i :: 0 <= i < binArray.Length ==> (old(binArray[i]) == 1 <==> rankArray[i] < filled1)
  {
    ShapeSizes(width, height, kernelWidth, kernelHeight);
    var sqSz := width * height;
    ghost var seed := binArray[..];
    rankArray := new int[sqSz](_ => 0);
    var blurred := new real[sqSz](_ => 0.0);
    var temp := new int[sqSz](i requires 0 <= i < sqSz reads binArray => binArray[i]);
    assert temp[..] == seed && rankArray[..] == Zeros(sqSz);
    ghost var s, k := Shape(width, height, kernelWidth, kernelHeight), kernel[..];
    BlurWrap(binArray, width, height, kernel, blurred, kernelWidth, kernelHeight);
    assert Progress(temp[..], rankArray[..], blurred[..]) == Progress(seed, Zeros(sqSz), Blur(s, seed, k));
    OriginalPhase1(temp, rankArray, blurred, width, height, kernel, kernelWidth, kernelHeight, filled1);
    ghost var p1 := Progress(temp[..], rankArray[..], blurred[..]);
    assert p1 == RunPhase(s, k, Clear16, Progress(seed, Zeros(sqSz), Blur(s, seed, k)), filled1 - 1,
                          if filled1 >= 1 then filled1 - 1 else 0);
    assert binArray[..] == seed && kernel[..] == k;
    var halfSqSz := sqSz / 2;
    FillPhases(binArray, rankArray, blurred, temp, width, height, kernel, kernelWidth, kernelHeight, filled1, halfSqSz);
    assert rankArray[..] == Fill16(s, k, seed, p1.ranks, filled1, halfSqSz);
    Original16Ranks(s, k, seed);
  }

  /**
   * Phase 1 of the extended generator as evidently intended, giving its k-th
   * cleared dot the rank `filled1 - 1 - k` as the float64 generator does:
   * the ranks are Extended16 of the seed with `top = filled1 - 1`, so
   * (Extended16Ranks) they form a permutation of [0, sqSz) in which
   * the dots hold exactly the ranks below their number.
   */
  method CorrectedExtendedRanks(binArray: array<int>, width: int, height: int,
                                kernel: array<real>, kernelWidth: int, kernelHeight: int, scaled: int)
    returns (rankArray: array<int>)
    requires Shape(width, height, kernelWidth, kernelHeight).Valid()
    requires binArray.Length == width * height && kernel.Length == kernelWidth * kernelHeight
    requires Binary(binArray[..]) && Ones(binArray[..]) <= scaled <= binArray.Length
    modifies binArray
    ensures fresh(rankArray) && rankArray.Length == binArray.Length && Full(binArray[..])
    ensures rankArray[..] == Extended16(Shape(width, height, kernelWidth, kernelHeight), kernel[..], old(binArray[..]),
                                        scaled, Ones(old(binArray[..])) - 1)
    ensures IsPermutation(rankArray[..])
    ensures forall i :: 0 <= i < binArray.Length ==>
      (old(binArray[i]) == 1 <==> rankArray[i] < Ones(old(binArray[..])))
  {
    ghost var seed := binArray[..];
    SumOfBinary(binArray[..]);
    var filled1 := Sum(binArray[..]);
    rankArray := ExtendedRanks(binArray, width, height, kernel, kernelWidth, kernelHeight, filled1, scaled, filled1 - 1);
    Extended16Ranks(Shape(width, height, kernelWidth, kernelHeight), kernel[..], seed, scaled, filled1 - 1);
  }

  // ---------------------------------------------------------------------------
  // The generators
  // ---------------------------------------------------------------------------

  /**
   * `_extendedVoidAndCluster`. `noise` is what `noiseArray(width, height,
   * density)` returned, `initArray` the flattened initial array when one is
   * given; `kernel` is the custom kernel or the Gaussian table of `sigma`, and
   * `adaptiveKernel` the table the adaptive candidate refinement builds.
   *
   * An initial array of the right length is used as the seed as it is;
   * otherwise the noise is refined by `_adaptiveCandidateAlgoInPlace`. The
   * dots of the seed get distinct ranks in [1, filled1] and the empty cells
   * distinct ranks in [filled1, sqSz): as soon as the seed has a dot, no cell
   * gets rank 0 and the result is not a permutation.
   */
  method ExtendedVoidAndCluster(width: int, height: int, sigma: Value, kernelGiven: bool, ratio: Value,
                                noise: seq<int>, initArray: Option<seq<int>>,
                                kernel: array<real>, kernelWidth: int, kernelHeight: int,
                                adaptiveKernel: array<real>, adaptiveKernelWidth: int, adaptiveKernelHeight: int,
                                fuel: nat)
    returns (r: Check, rankArray: array<int>, ghost seed: seq<int>)
    requires Shape(width, height, kernelWidth, kernelHeight).Valid()
    requires Shape(width, height, adaptiveKernelWidth, adaptiveKernelHeight).Valid()
    requires kernel.Length == kernelWidth * kernelHeight
    requires adaptiveKernel.Length == adaptiveKernelWidth * adaptiveKernelHeight
    requires |noise| == width * height && Binary(noise)
    requires initArray.Some? ==> Binary(initArray.value)
    ensures var check := CheckExtended16(Num(width as real), Num(height as real), sigma, kernelGiven);
      var initialised := initArray.Some? && |initArray.value| == width * height;
      && (check != Pass ==> r == check)
      && (check == Pass && initialised ==> r == Pass && seed == initArray.value)
      && (check == Pass && !initialised ==>
            var g := AdaptiveGuard16(TypedArray, Ones(noise));
            (g.Reject? && r == Throw(g.err)) || (g == Run && (r == Pass || r == Throw(OutOfFuel))))
      && (check == Pass && !initialised && r == Pass ==> Ones(seed) == Ones(noise) - 1)
    ensures r == Pass ==>
      && rankArray.Length == width * height && |seed| == width * height && Binary(seed)
      && Block(seed, rankArray[..], 1, 1, Ones(seed) + 1)
      && Block(seed, rankArray[..], 0, Ones(seed), width * height)
      && (Ones(seed) >= 1 ==> (forall i :: 0 <= i < rankArray.Length ==> rankArray[i] != 0) && !IsPermutation(rankArray[..]))
    ensures r == Pass ==>
      rankArray[..] == Extended16(Shape(width, height, kernelWidth, kernelHeight), kernel[..], seed,
                                  FillingRatioScaled(Ones(seed), width * height, RatioOrDefault(ratio)), Ones(seed))
    ensures var s := Shape(width, height, adaptiveKernelWidth, adaptiveKernelHeight);
      (r == Pass && !(initArray.Some? && |initArray.value| == width * height) && PointSymmetric(s, adaptiveKernel[..])) ==>
      exists c :: SettledAt(s, seed, adaptiveKernel[..], c)
    ensures var s := Shape(width, height, adaptiveKernelWidth, adaptiveKernelHeight);
      var o := Refine(s, adaptiveKernel[..], noise, Blur(s, noise, adaptiveKernel[..]), fuel);
      (CheckExtended16(Num(width as real), Num(height as real), sigma, kernelGiven) == Pass &&
       !(initArray.Some? && |initArray.value| == width * height) && AdaptiveGuard16(TypedArray, Ones(noise)) == Run) ==>
      (r == Pass <==> o.stopped) && (r == Pass ==> seed == o.p)
  {
    ShapeSizes(width, height, kernelWidth, kernelHeight);
    var sqSz := width * height;
    rankArray := new int[sqSz](_ => 0);
    seed := noise;
    r := CheckExtended16(Num(width as real), Num(height as real), sigma, kernelGiven);
    if r != Pass {
      return;
    }
    var fillingRatio := RatioOrDefault(ratio);
    var binArray;
    r, binArray := InitialSeed(width, height, noise, initArray,
                               adaptiveKernel, adaptiveKernelWidth, adaptiveKernelHeight, fuel);
    if r != Pass {
      return;
    }
    SumOfBinary(binArray[..]);
    var filled1 := Sum(binArray[..]);
    var scaled := FillingRatioScaled(filled1, sqSz, fillingRatio);
    seed := binArray[..];
    rankArray := ExtendedRanks(binArray, width, height, kernel, kernelWidth, kernelHeight, filled1, scaled, filled1);
  }

  /**
   * The seed of the extended generator: the noise, replaced by the initial
   * array when that has sqSz cells, or else refined by
   * `_adaptiveCandidateAlgoInPlace`, which throws on a noise without dots.
   */
  method InitialSeed(width: int, height: int, noise: seq<int>, initArray: Option<seq<int>>,
                     adaptiveKernel: array<real>, adaptiveKernelWidth: int, adaptiveKernelHeight: int, fuel: nat)
    returns (r: Check, binArray: array<int>)
    requires Shape(width, height, adaptiveKernelWidth, adaptiveKernelHeight).Valid()
    requires adaptiveKernel.Length == adaptiveKernelWidth * adaptiveKernelHeight
    requires |noise| == width * height && Binary(noise)
    requires initArray.Some? ==> Binary(initArray.value)
    ensures fresh(binArray) && binArray.Length == width * height && Binary(binArray[..])
    ensures var initialised := initArray.Some? && |initArray.value| == width * height;
      && (initialised ==> r == Pass && binArray[..] == initArray.value)
      && (!initialised ==>
            var g := AdaptiveGuard16(TypedArray, Ones(noise));
            (g.Reject? && r == Throw(g.err)) || (g == Run && (r == Pass || r == Throw(OutOfFuel))))
      && (!initialised && r == Pass ==> Ones(binArray[..]) == Ones(noise) - 1)
    ensures var s := Shape(width, height, adaptiveKernelWidth, adaptiveKernelHeight);
      (!(initArray.Some? && |initArray.value| == width * height) && r == Pass && PointSymmetric(s, adaptiveKernel[..])) ==>
      exists c :: SettledAt(s, binArray[..], adaptiveKernel[..], c)
    ensures var s := Shape(width, height, adaptiveKernelWidth, adaptiveKernelHeight);
      var o := Refine(s, adaptiveKernel[..], noise, Blur(s, noise, adaptiveKernel[..]), fuel);
      (!(initArray.Some? && |initArray.value| == width * height) && AdaptiveGuard16(TypedArray, Ones(noise)) == Run) ==>
      (r == Pass <==> o.stopped) && binArray[..] == o.p
  {
    var sqSz := width * height;
    binArray := new int[sqSz](i requires 0 <= i < sqSz => noise[i]);
    assert binArray[..] == noise;
    if initArray.Some? && |initArray.value| == sqSz {
      var init := initArray.value;
      forall i | 0 <= i < sqSz {
        binArray[i] := init[i];
      }
      assert binArray[..] == init;
      r := Pass;
    } else {
      SumOfBinary(noise);
      r := AdaptiveCandidateAlgoInPlace16(TypedArray, binArray, width, height,
                                          adaptiveKernel, adaptiveKernelWidth, adaptiveKernelHeight, fuel);
    }
  }

  /**
   * `_originalVoidAndCluster`: check the dimensions, refine the noise with
   * `_candidateAlgoInPlace` (which, for a typed array, always runs), then rank
   * it with the original phases. `kernel` is the Gaussian table of `sigma`,
   * used by the refinement and by the phases alike. The ranks form a
   * permutation of [0, sqSz) in which the seed's dots hold exactly the ranks
   * below their number. The seed is the refined noise: one dot fewer and,
   * under a point-symmetric kernel, settled.
   */
  method OriginalVoidAndCluster(width: int, height: int, noise: seq<int>,
                                kernel: array<real>, kernelWidth: int, kernelHeight: int, fuel: nat)
    returns (r: Check, rankArray: array<int>, ghost seed: seq<int>)
    requires Shape(width, height, kernelWidth, kernelHeight).Valid()
    requires kernel.Length == kernelWidth * kernelHeight
    requires |noise| == width * height && Binary(noise)
    ensures r == Pass || r == Throw(OutOfFuel)
    ensures r == Pass ==>
      && |seed| == width * height && Binary(seed)
      && Ones(seed) == (if Ones(noise) == 0 then 0 else Ones(noise) - 1)
      && rankArray.Length == width * height && IsPermutation(rankArray[..])
      && (forall i :: 0 <= i < |seed| ==> (seed[i] == 1 <==> rankArray[i] < Ones(seed)))
    ensures r == Pass ==> rankArray[..] == Original16(Shape(width, height, kernelWidth, kernelHeight), kernel[..], seed)
    ensures (r == Pass && PointSymmetric(Shape(width, height, kernelWidth, kernelHeight), kernel[..])) ==>
      exists c :: SettledAt(Shape(width, height, kernelWidth, kernelHeight), seed, kernel[..], c)
    ensures var s := Shape(width, height, kernelWidth, kernelHeight);
      var o := Refine(s, kernel[..], noise, Blur(s, noise, kernel[..]), fuel);
      (r == Pass <==> o.stopped) && (r == Pass ==> seed == o.p)
  {
    ShapeSizes(width, height, kernelWidth, kernelHeight);
    var sqSz := width * height;
    rankArray := new int[sqSz](_ => 0);
    seed := noise;
    r := CheckDims(Num(width as real), Num(height as real));
    if r != Pass {
      return;
    }
    var binArray := new int[sqSz](i requires 0 <= i < sqSz => noise[i]);
    assert binArray[..] == noise;
    r := CandidateAlgoInPlace16(TypedArray, sqSz, binArray, width, height, kernel, kernelWidth, kernelHeight, fuel);
    if r != Pass {
      return;
    }
    SumOfBinary(binArray[..]);
    var filled1 := Sum(binArray[..]);
    seed := binArray[..];
    rankArray := OriginalRanks(binArray, width, height, kernel, kernelWidth, kernelHeight, filled1);
  }
}
