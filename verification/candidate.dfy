/**
 * Ulichney's candidate (initial binary pattern) refinement: repeatedly remove
 * the dot in the tightest cluster and put it in the largest void, until the dot
 * just removed is itself the largest void.
 *
 * The float64 `_candidateMethodInPlace` and the float16 `_candidateAlgoInPlace`
 * and `_adaptiveCandidateAlgoInPlace` run the same loop behind different
 * guards; the loop is RefineInPlace, each guard is a front end below.
 */
module Candidate {
  import opened Convolution
  import opened BlueNoiseUtils
  import opened Patterns
  import opened Scans
  import opened Arguments

  /** The refinement has stopped at cell c: c is the first hottest dot of the
      pattern that still holds it, and once it is removed, c is the first
      coldest empty cell. */
  predicate SettledAt(s: Shape, p: seq<int>, k: seq<real>, c: int)
    requires Fits(s, p, k)
  {
    && 0 <= c < |p| && p[c] == 0
    && FirstBest(p[c := 1], Blur(s, p[c := 1], k), 1, Highest, |p|) == Some(c)
    && FirstBest(p, Blur(s, p, k), 0, Lowest, |p|) == Some(c)
  }

  /** What the refinement leaves behind: whether it stopped by itself, the
      pattern and the energy map. */
  datatype Outcome = Outcome(stopped: bool, p: seq<int>, e: seq<real>)

  /**
   * One round of the loop on values, under the energy map `e` the scans read:
   * clear the first hottest dot (when there is one) with a -1 delta, then take
   * the first coldest empty cell under the updated map; stop if it is the cell
   * just cleared, otherwise set it with a +1 delta. A missing index (no dot,
   * or no empty cell) touches nothing, as `inArray[undefined]` does not.
   */
  function Round(s: Shape, k: seq<real>, p: seq<int>, e: seq<real>): (o: Outcome)
    requires Fits(s, p, k) && |e| == |p|
    ensures |o.p| == |p| && |o.e| == |p|
    ensures forall i :: 0 <= i < |p| && o.p[i] != p[i] ==>
      (Some(i) == FirstBest(p, e, 1, Highest, |p|) && o.p[i] == 0) || (p[i] == 0 && o.p[i] == 1)
  {
    var cluster := FirstBest(p, e, 1, Highest, |p|);
    var p1 := if cluster.Some? then p[cluster.value := 0] else p;
    var e1 := if cluster.Some? then DeltaApplied(s, k, e, cluster.value, -1.0) else e;
    var void := FirstBest(p1, e1, 0, Lowest, |p|);
    if cluster == void then Outcome(true, p1, e1)
    else if void.Some? then Outcome(false, p1[void.value := 1], DeltaApplied(s, k, e1, void.value, 1.0))
    else Outcome(false, p1, e1)
  }

  /** At most `fuel` rounds, from pattern `p` and energy map `e`. */
  function Refine(s: Shape, k: seq<real>, p: seq<int>, e: seq<real>, fuel: nat): (o: Outcome)
    requires Fits(s, p, k) && |e| == |p|
    ensures |o.p| == |p| && |o.e| == |p|
    ensures fuel == 0 ==> !o.stopped && o.p == p
    decreases fuel
  {
    if fuel == 0 then Outcome(false, p, e)
    else
      var o1 := Round(s, k, p, e);
      if o1.stopped then o1 else Refine(s, k, o1.p, o1.e, fuel - 1)
  }

  /** A round that does not stop hands the rest of the run to the next one. */
  lemma RefineNext(s: Shape, k: seq<real>, p: seq<int>, e: seq<real>, fuel: nat)
    requires Fits(s, p, k) && |e| == |p| && !Round(s, k, p, e).stopped
    ensures Refine(s, k, p, e, fuel + 1) == Refine(s, k, Round(s, k, p, e).p, Round(s, k, p, e).e, fuel)
  {
  }

  /**
   * The `while (true)` loop, stopped after `fuel` rounds. Each round clears the
   * first hottest dot and, unless the first coldest empty cell is that same
   * cell, sets it. A round that keeps going therefore keeps the number of dots;
   * the last round leaves the removed dot out, so a run that converges ends with
   * one dot fewer. With a point-symmetric kernel the energy map stays equal to
   * the blur of the pattern, and the pattern it stops at is settled.
   *
   * When the pattern has no dot, the cluster index stays undefined: the source
   * then writes to `inArray[undefined]` and asks for a delta at a NaN cell,
   * neither of which touches a cell, so the model skips both.
   */
  method RefineInPlace(inArray: array<int>, width: int, height: int, kernel: array<real>,
                       kernelWidth: int, kernelHeight: int, fuel: nat) returns (converged: bool)
    requires Shape(width, height, kernelWidth, kernelHeight).Valid()
    requires inArray.Length == width * height && kernel.Length == kernelWidth * kernelHeight
    requires Binary(inArray[..])
    modifies inArray
    ensures Binary(inArray[..])
    ensures Ones(old(inArray[..])) > 0 ==>
      Ones(inArray[..]) == Ones(old(inArray[..])) - (if converged then 1 else 0)
    ensures Ones(old(inArray[..])) == 0 ==> Ones(inArray[..]) <= 1 && (converged ==> Ones(inArray[..]) == 0)
    ensures converged && PointSymmetric(Shape(width, height, kernelWidth, kernelHeight), kernel[..]) ==>
      exists c :: SettledAt(Shape(width, height, kernelWidth, kernelHeight), inArray[..], kernel[..], c)
    ensures var s := Shape(width, height, kernelWidth, kernelHeight);
      var o := Refine(s, kernel[..], old(inArray[..]), Blur(s, old(inArray[..]), kernel[..]), fuel);
      converged == o.stopped && inArray[..] == o.p
  {
    ghost var s := Shape(width, height, kernelWidth, kernelHeight);
    ghost var init := inArray[..];
    ghost var k := kernel[..];
    ghost var sym := PointSymmetric(s, k);
    ShapeSizes(width, height, kernelWidth, kernelHeight);
    assert inArray[..][0] == 0 || inArray[..][0] == 1;
    var blurred := new real[width * height];
    BlurWrap(inArray, width, height, kernel, blurred, kernelWidth, kernelHeight);
    ghost var spec := Refine(s, k, init, blurred[..], fuel);
    converged := false;
    var steps := fuel;
    assert inArray[..] == init;
    assert spec == Refine(s, k, inArray[..], blurred[..], steps);
    while steps > 0
      invariant fresh(blurred) && blurred.Length == width * height && kernel[..] == k
      invariant Binary(inArray[..])
      invariant Ones(inArray[..]) == Ones(init) || (Ones(init) == 0 && Ones(inArray[..]) == 1)
      invariant sym ==> blurred[..] == Blur(s, inArray[..], k)
      invariant !converged
      invariant Fits(s, inArray[..], k) && |blurred[..]| == |inArray[..]|
      invariant spec == Refine(s, k, inArray[..], blurred[..], steps)
      decreases steps
    {
      ghost var p0, e0 := inArray[..], blurred[..];
      ghost var c;
      converged, c := RefineRound(inArray, blurred, width, height, kernel, kernelWidth, kernelHeight);
      assert Round(s, k, p0, e0) == Outcome(converged, inArray[..], blurred[..]);
      if converged {
        assert spec == Outcome(converged, inArray[..], blurred[..]);
        break;
      }
      steps := steps - 1;
      RefineNext(s, k, p0, e0, steps);
    }
  }

  /**
   * One round of the loop: clear the first hottest dot (when there is one),
   * then find the first coldest empty cell; stop if it is the cell just
   * cleared, otherwise set it. `c` is the cell the round stops at.
   */
  method RefineRound(inArray: array<int>, blurred: array<real>, width: int, height: int, kernel: array<real>,
                     kernelWidth: int, kernelHeight: int) returns (stop: bool, ghost c: int)
    requires Shape(width, height, kernelWidth, kernelHeight).Valid()
    requires inArray.Length == width * height && blurred.Length == width * height
    requires kernel.Length == kernelWidth * kernelHeight && blurred != kernel
    requires Binary(inArray[..])
    modifies inArray, blurred
    ensures Binary(inArray[..])
    ensures stop ==> Ones(old(inArray[..])) > 0 && Ones(inArray[..]) == Ones(old(inArray[..])) - 1
    ensures !stop ==> Ones(inArray[..]) == if Ones(old(inArray[..])) == 0 then 1 else Ones(old(inArray[..]))
    ensures (PointSymmetric(Shape(width, height, kernelWidth, kernelHeight), kernel[..]) &&
      old(blurred[..]) == Blur(Shape(width, height, kernelWidth, kernelHeight), old(inArray[..]), kernel[..])) ==>
      && blurred[..] == Blur(Shape(width, height, kernelWidth, kernelHeight), inArray[..], kernel[..])
      && (stop ==> SettledAt(Shape(width, height, kernelWidth, kernelHeight), inArray[..], kernel[..], c))
    ensures Round(Shape(width, height, kernelWidth, kernelHeight), kernel[..], old(inArray[..]), old(blurred[..])) ==
      Outcome(stop, inArray[..], blurred[..])
  {
    ghost var s := Shape(width, height, kernelWidth, kernelHeight);
    ghost var before := inArray[..];
    ghost var sym := PointSymmetric(s, kernel[..]) && blurred[..] == Blur(s, before, kernel[..]);
    ShapeSizes(width, height, kernelWidth, kernelHeight);
    assert before[0] == 0 || before[0] == 1;
    c := 0;
    var cluster := ScanBest(inArray, blurred, 1, Highest);
    if cluster.Some? {
      FlipCell(inArray, blurred, width, height, kernel, kernelWidth, kernelHeight, cluster.value, 0);
      assert inArray[..][cluster.value] == 0;
    } else {
      ZeroWithoutOnes(before);
    }
    ghost var mid := inArray[..];
    var void := ScanBest(inArray, blurred, 0, Lowest);
    if cluster == void {
      assert mid[0] == 0 || mid[0] == 1;
      c := cluster.value;
      RestoreCell(before, c, 0);
      assert sym ==> SettledAt(s, mid, kernel[..], c);
      return true, c;
    }
    FlipCell(inArray, blurred, width, height, kernel, kernelWidth, kernelHeight, void.value, 1);
    stop := false;
  }

  /** Sets cell `idx` of a binary pattern to `v` (it held the other value) and
      applies the matching delta, -1 for a removed dot and +1 for a new one, to
      the energy map. With a point-symmetric kernel an energy map that was the
      blur of the pattern stays the blur of the pattern. */
  method FlipCell(inArray: array<int>, blurred: array<real>, width: int, height: int, kernel: array<real>,
                  kernelWidth: int, kernelHeight: int, idx: int, v: int)
    requires Shape(width, height, kernelWidth, kernelHeight).Valid()
    requires inArray.Length == width * height && blurred.Length == width * height
    requires kernel.Length == kernelWidth * kernelHeight && blurred != kernel
    requires Binary(inArray[..]) && 0 <= idx < inArray.Length && (v == 0 || v == 1) && inArray[idx] == 1 - v
    modifies inArray, blurred
    ensures inArray[..] == old(inArray[..])[idx := v] && Binary(inArray[..])
    ensures Ones(inArray[..]) == Ones(old(inArray[..])) + (if v == 1 then 1 else -1)
    ensures blurred[..] == DeltaApplied(Shape(width, height, kernelWidth, kernelHeight), kernel[..], old(blurred[..]), idx, if v == 1 then 1.0 else -1.0)
    ensures (PointSymmetric(Shape(width, height, kernelWidth, kernelHeight), kernel[..]) &&
      old(blurred[..]) == Blur(Shape(width, height, kernelWidth, kernelHeight), old(inArray[..]), kernel[..])) ==>
      blurred[..] == Blur(Shape(width, height, kernelWidth, kernelHeight), inArray[..], kernel[..])
  {
    ghost var s := Shape(width, height, kernelWidth, kernelHeight);
    ghost var before := inArray[..];
    ShapeSizes(width, height, kernelWidth, kernelHeight);
    inArray[idx] := v;
    var amount := if v == 1 then 1.0 else -1.0;
    DeltaBlurUpdate(width, height, idx, amount, blurred, kernel, kernelWidth, kernelHeight);
    assert inArray[..] == before[idx := v];
    OnesUpdate(before, idx, v);
    if PointSymmetric(s, kernel[..]) {
      DeltaMatchesSet(s, before, kernel[..], idx, v);
    }
  }

  /** The loop that counts the dots of the input: `if (inArray[i] === 1) filled1 += 1`. */
  method CountDots(inArray: array<int>) returns (filled1: int)
    ensures filled1 == Ones(inArray[..])
  {
    filled1 := 0;
    for i := 0 to inArray.Length
      invariant filled1 == Ones(inArray[..i])
    {
      OnesSnoc(inArray[..], i);
      assert inArray[..][..i + 1] == inArray[..i + 1] && inArray[..][..i] == inArray[..i];
      if inArray[i] == 1 {
        filled1 := filled1 + 1;
      }
    }
    assert inArray[..inArray.Length] == inArray[..];
  }

  /**
   * The float64 `_candidateMethodInPlace`. `arr` says how the array argument
   * arrives; `inArray` holds its cells when it is a typed array. The kernel
   * (the custom one, or the Gaussian table of `sigma`) is resolved by the
   * caller. The guard CandidateGuard64 decides the path.
   */
  method CandidateMethodInPlace64(arr: ArrayArg, inArray: array<int>, width: int, height: int,
                                  sigma: Value, kernelGiven: bool,
                                  kernel: array<real>, kernelWidth: int, kernelHeight: int, fuel: nat)
    returns (r: Check)
    requires Shape(width, height, kernelWidth, kernelHeight).Valid()
    requires inArray.Length == width * height && kernel.Length == kernelWidth * kernelHeight
    requires Binary(inArray[..])
    modifies inArray
    ensures Binary(inArray[..])
    ensures var g := CandidateGuard64(arr, Ones(old(inArray[..])), width * height, sigma, kernelGiven);
      && (g.Reject? ==> r == Throw(g.err) && inArray[..] == old(inArray[..]))
      && (g == Skip ==> r == Pass && inArray[..] == old(inArray[..]))
      && (g == Run ==> r == Pass || r == Throw(OutOfFuel))
      && (g == Run && r == Pass ==> Ones(inArray[..]) == Ones(old(inArray[..])) - 1)
      && (g == Run && r != Pass ==> Ones(inArray[..]) == Ones(old(inArray[..])))
    ensures (CandidateGuard64(arr, Ones(old(inArray[..])), width * height, sigma, kernelGiven) == Run && r == Pass &&
             PointSymmetric(Shape(width, height, kernelWidth, kernelHeight), kernel[..])) ==>
      exists c :: SettledAt(Shape(width, height, kernelWidth, kernelHeight), inArray[..], kernel[..], c)
    ensures var s := Shape(width, height, kernelWidth, kernelHeight);
      var o := Refine(s, kernel[..], old(inArray[..]), Blur(s, old(inArray[..]), kernel[..]), fuel);
      CandidateGuard64(arr, Ones(old(inArray[..])), width * height, sigma, kernelGiven) == Run ==> (r == Pass <==> o.stopped) && inArray[..] == o.p
  {
    if arr.NullArray? {
      return Throw(ArrayMissing);
    }
    if !arr.TypedArray? {
      return Throw(NotTypedArray);
    }
    var sqSz := width * height;
    var filled1 := CountDots(inArray);
    if filled1 == 0 || filled1 == sqSz {
      return Pass;
    }
    if !kernelGiven && sigma.Missing? {
      return Throw(SigmaMissing);
    }
    if sigma == Num(0.0) {
      return Throw(DivideByZero);
    }
    var converged := RefineInPlace(inArray, width, height, kernel, kernelWidth, kernelHeight, fuel);
    r := if converged then Pass else Throw(OutOfFuel);
  }

  /**
   * The float16 `_candidateAlgoInPlace`: only a typed array is refined, with
   * no check of its dots or of sigma. `flatLength` is the length of the
   * flattened argument when it is a plain array.
   */
  method CandidateAlgoInPlace16(arr: ArrayArg, flatLength: int, inArray: array<int>, width: int, height: int,
                                kernel: array<real>, kernelWidth: int, kernelHeight: int, fuel: nat)
    returns (r: Check)
    requires Shape(width, height, kernelWidth, kernelHeight).Valid()
    requires inArray.Length == width * height && kernel.Length == kernelWidth * kernelHeight
    requires Binary(inArray[..])
    modifies inArray
    ensures Binary(inArray[..])
    ensures var g := CandidateGuard16(arr, flatLength, width * height);
      && (g.Reject? ==> r == Throw(g.err) && inArray[..] == old(inArray[..]))
      && (g == Run ==> r == Pass || r == Throw(OutOfFuel))
      && (g == Run && r == Pass ==> Ones(inArray[..]) == if Ones(old(inArray[..])) == 0 then 0 else Ones(old(inArray[..])) - 1)
      && (g == Run && r != Pass && Ones(old(inArray[..])) > 0 ==> Ones(inArray[..]) == Ones(old(inArray[..])))
    ensures (CandidateGuard16(arr, flatLength, width * height) == Run && r == Pass &&
             PointSymmetric(Shape(width, height, kernelWidth, kernelHeight), kernel[..])) ==>
      exists c :: SettledAt(Shape(width, height, kernelWidth, kernelHeight), inArray[..], kernel[..], c)
    ensures var s := Shape(width, height, kernelWidth, kernelHeight);
      var o := Refine(s, kernel[..], old(inArray[..]), Blur(s, old(inArray[..]), kernel[..]), fuel);
      CandidateGuard16(arr, flatLength, width * height) == Run ==> (r == Pass <==> o.stopped) && inArray[..] == o.p
  {
    if arr.NullArray? {
      return Throw(ArrayMissing);
    }
    var sqSz := width * height;
    if !arr.TypedArray? {
      if flatLength == sqSz {
        return Throw(NoSetMethod);
      }
      return Throw(DimensionMismatch);
    }
    var converged := RefineInPlace(inArray, width, height, kernel, kernelWidth, kernelHeight, fuel);
    r := if converged then Pass else Throw(OutOfFuel);
  }

  /**
   * The float16 `_adaptiveCandidateAlgoInPlace`. The kernel, built from a
   * sigma derived from the density of dots, is supplied by the caller. An
   * input without dots throws; a plain array is refined as a copy, so the
   * caller sees no change.
   */
  method AdaptiveCandidateAlgoInPlace16(arr: ArrayArg, inArray: array<int>, width: int, height: int,
                                        kernel: array<real>, kernelWidth: int, kernelHeight: int, fuel: nat)
    returns (r: Check)
    requires Shape(width, height, kernelWidth, kernelHeight).Valid()
    requires inArray.Length == width * height && kernel.Length == kernelWidth * kernelHeight
    requires Binary(inArray[..])
    modifies inArray
    ensures Binary(inArray[..])
    ensures var g := AdaptiveGuard16(arr, Sum(old(inArray[..])));
      && (g.Reject? ==> r == Throw(g.err) && inArray[..] == old(inArray[..]))
      && (g == RunOnCopy ==> (r == Pass || r == Throw(OutOfFuel)) && inArray[..] == old(inArray[..]))
      && (g == Run ==> r == Pass || r == Throw(OutOfFuel))
      && (g == Run && r == Pass ==> Ones(inArray[..]) == Ones(old(inArray[..])) - 1)
      && (g == Run && r != Pass ==> Ones(inArray[..]) == Ones(old(inArray[..])))
    ensures (AdaptiveGuard16(arr, Sum(old(inArray[..]))) == Run && r == Pass &&
             PointSymmetric(Shape(width, height, kernelWidth, kernelHeight), kernel[..])) ==>
      exists c :: SettledAt(Shape(width, height, kernelWidth, kernelHeight), inArray[..], kernel[..], c)
    ensures var s := Shape(width, height, kernelWidth, kernelHeight);
      var o := Refine(s, kernel[..], old(inArray[..]), Blur(s, old(inArray[..]), kernel[..]), fuel);
      AdaptiveGuard16(arr, Sum(old(inArray[..]))) == Run ==> (r == Pass <==> o.stopped) && inArray[..] == o.p
  {
    if arr.NullArray? {
      return Throw(ArrayMissing);
    }
    var filled1 := Sum(inArray[..]);
    SumOfBinary(inArray[..]);
    if filled1 == 0 {
      return Throw(NoDots);
    }
    var target := inArray;
    if !arr.TypedArray? {
      target := new int[inArray.Length](i requires 0 <= i < inArray.Length reads inArray => inArray[i]);
      assert target[..] == inArray[..];
    }
    var converged := RefineInPlace(target, width, height, kernel, kernelWidth, kernelHeight, fuel);
    r := if converged then Pass else Throw(OutOfFuel);
  }
}
