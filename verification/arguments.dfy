/**
 * The argument checks that the generators and the candidate refinement make
 * before they touch any array, and the errors they throw.
 *
 * A JavaScript argument is either absent (`null` or `undefined`, which `== null`
 * accepts alike) or a number; an array argument is `null`, a plain (nested)
 * JavaScript array, or a typed array such as `Uint8Array`.
 */
module Arguments {

  /** A numeric argument that may be absent. */
  datatype Value = Missing | Num(x: real)

  /** `Number.isInteger(v)`: a number with no fractional part. */
  predicate IsInteger(v: Value) {
    v.Num? && v.x == v.x.Floor as real
  }

  /** How an array argument arrives. */
  datatype ArrayArg = NullArray | PlainArray | TypedArray

  /** The errors thrown, one per message of the source, plus `OutOfFuel` for a
      refinement loop that the model stops after its step budget. */
  datatype Error =
    | WidthMissing       // "'width' arguments is mandatory"
    | HeightMissing      // "'height' arguments is mandatory"
    | NotIntegers        // "'width' and 'height' must be integers"
    | SigmaMissing       // "kernelCheck is false. 'sigma' arguments is mandatory"
    | DivideByZero       // "Divide by 0"
    | Deprecated         // "originalVoidAndCluster is deprecated ..."
    | ArrayMissing       // "Inputted array is null"
    | NotTypedArray      // "Inputted array is not ArrayBuffer"
    | NoSetMethod        // TypeError: a plain array has no `set` method
    | DimensionMismatch  // "Inputted array dimension does not match WxH"
    | NoDots             // "Inputted array have no dots"
    | OutOfFuel

  /** The verdict of a check: go on, or throw. */
  datatype Check = Pass | Throw(err: Error)

  /** What a candidate refinement does with its input: throw, return at once
      leaving the array as it is, refine it in place, or refine a copy. */
  datatype Guard = Reject(err: Error) | Skip | Run | RunOnCopy

  // ---------------------------------------------------------------------------
  // Generators
  // ---------------------------------------------------------------------------

  /** The width and height checks shared by every generator: present, then
      integers. */
  function CheckDims(width: Value, height: Value): (r: Check)
    ensures r == Pass <==> IsInteger(width) && IsInteger(height)
    ensures r == Throw(WidthMissing) <==> width.Missing?
    ensures r == Throw(HeightMissing) <==> width.Num? && height.Missing?
    ensures r == Throw(NotIntegers) <==> width.Num? && height.Num? && !(IsInteger(width) && IsInteger(height))
  {
    if width.Missing? then Throw(WidthMissing)
    else if height.Missing? then Throw(HeightMissing)
    else if !IsInteger(width) || !IsInteger(height) then Throw(NotIntegers)
    else Pass
  }

  /** The checks of the float64 `_extendedVoidAndCluster`: the dimensions,
      a sigma whenever no custom kernel is given, and a sigma other than 0 even
      when a custom kernel is given. */
  function CheckExtended64(width: Value, height: Value, sigma: Value, kernelGiven: bool): (r: Check)
    ensures r == Pass <==>
      IsInteger(width) && IsInteger(height) && (kernelGiven || sigma.Num?) && sigma != Num(0.0)
    ensures CheckDims(width, height) != Pass ==> r == CheckDims(width, height)
    ensures r == Throw(SigmaMissing) <==> CheckDims(width, height) == Pass && !kernelGiven && sigma.Missing?
    ensures r == Throw(DivideByZero) <==> CheckDims(width, height) == Pass && sigma == Num(0.0)
  {
    var dims := CheckDims(width, height);
    if dims != Pass then dims
    else if !kernelGiven && sigma.Missing? then Throw(SigmaMissing)
    else if sigma == Num(0.0) then Throw(DivideByZero)
    else Pass
  }

  /** The checks of the float16 `_extendedVoidAndCluster`: the same as the
      float64 ones except that a sigma of 0 is not rejected. */
  function CheckExtended16(width: Value, height: Value, sigma: Value, kernelGiven: bool): (r: Check)
    ensures r == Pass <==> IsInteger(width) && IsInteger(height) && (kernelGiven || sigma.Num?)
    ensures CheckDims(width, height) != Pass ==> r == CheckDims(width, height)
    ensures r == Throw(SigmaMissing) <==> CheckDims(width, height) == Pass && !kernelGiven && sigma.Missing?
    ensures r != Throw(DivideByZero)
  {
    var dims := CheckDims(width, height);
    if dims != Pass then dims
    else if !kernelGiven && sigma.Missing? then Throw(SigmaMissing)
    else Pass
  }

  /** The float16 generators accept every sigma the float64 one accepts, and
      also a sigma of 0. */
  lemma Extended16AcceptsMore(width: Value, height: Value, sigma: Value, kernelGiven: bool)
    ensures CheckExtended64(width, height, sigma, kernelGiven) == Pass ==> CheckExtended16(width, height, sigma, kernelGiven) == Pass
    ensures CheckExtended16(width, height, sigma, kernelGiven) == Pass && CheckExtended64(width, height, sigma, kernelGiven) != Pass
      ==> sigma == Num(0.0)
  {
  }

  /** `candidateFillingRatio == null` falls back to 0.5. */
  function RatioOrDefault(ratio: Value): (r: real)
    ensures ratio.Num? ==> r == ratio.x
    ensures ratio.Missing? ==> r == 0.5
  {
    if ratio.Missing? then 0.5 else ratio.x
  }

  // ---------------------------------------------------------------------------
  // Candidate refinement
  // ---------------------------------------------------------------------------

  /** The guard of the float64 `_candidateMethodInPlace`, given the number of
      dots of a typed-array input: null and plain arrays throw; an input with no
      dot or only dots is returned as it is; then sigma is checked as in the
      generator. */
  function CandidateGuard64(arr: ArrayArg, filled1: int, sqSz: int, sigma: Value, kernelGiven: bool): (r: Guard)
    ensures r == Run <==>
      arr.TypedArray? && filled1 != 0 && filled1 != sqSz && (kernelGiven || sigma.Num?) && sigma != Num(0.0)
    ensures r == Reject(ArrayMissing) <==> arr.NullArray?
    ensures r == Reject(NotTypedArray) <==> arr.PlainArray?
    ensures r == Skip <==> arr.TypedArray? && (filled1 == 0 || filled1 == sqSz)
    ensures r != RunOnCopy
  {
    if arr.NullArray? then Reject(ArrayMissing)
    else if arr.PlainArray? then Reject(NotTypedArray)
    else if filled1 == 0 || filled1 == sqSz then Skip
    else if !kernelGiven && sigma.Missing? then Reject(SigmaMissing)
    else if sigma == Num(0.0) then Reject(DivideByZero)
    else Run
  }

  /** The guard of the float16 `_candidateAlgoInPlace`, given the length of
      the flattened input: only typed arrays are refined. A plain array of the
      right length reaches `inArray.set`, which plain arrays do not have, and
      throws a TypeError; one of another length throws the dimension error.
      Neither the number of dots nor sigma is checked. */
  function CandidateGuard16(arr: ArrayArg, flatLength: int, sqSz: int): (r: Guard)
    ensures r == Run <==> arr.TypedArray?
    ensures r == Reject(ArrayMissing) <==> arr.NullArray?
    ensures r == Reject(NoSetMethod) <==> arr.PlainArray? && flatLength == sqSz
    ensures r == Reject(DimensionMismatch) <==> arr.PlainArray? && flatLength != sqSz
  {
    if arr.NullArray? then Reject(ArrayMissing)
    else if arr.TypedArray? then Run
    else if flatLength == sqSz then Reject(NoSetMethod)
    else Reject(DimensionMismatch)
  }

  /** The guard of the float16 `_adaptiveCandidateAlgoInPlace`, given the sum of
      the input's cells: null throws, a pattern without dots throws, and a plain
      array is refined as a `Float16Array` copy, so the caller's array keeps
      its cells. */
  function AdaptiveGuard16(arr: ArrayArg, filled1: int): (r: Guard)
    ensures r == Reject(ArrayMissing) <==> arr.NullArray?
    ensures r == Reject(NoDots) <==> !arr.NullArray? && filled1 == 0
    ensures r == Run <==> arr.TypedArray? && filled1 != 0
    ensures r == RunOnCopy <==> arr.PlainArray? && filled1 != 0
  {
    if arr.NullArray? then Reject(ArrayMissing)
    else if filled1 == 0 then Reject(NoDots)
    else if arr.TypedArray? then Run
    else RunOnCopy
  }
}
