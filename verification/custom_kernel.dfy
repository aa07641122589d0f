/**
 * A custom kernel arrives as a JavaScript array of rows and is flattened row
 * by row (`customKernel.flat()`). The convolution engine reads tap (ky, kx)
 * at flat index `ky * kernelWidth + kx`, so the kernel's width must be the
 * length of a row and its height the number of rows.
 */
module CustomKernel {

  /** A non-empty array of rows of one common length. */
  predicate Rectangular(rows: seq<seq<real>>) {
    |rows| > 0 && forall i :: 0 <= i < |rows| ==> |rows[i]| == |rows[0]|
  }

  /** `customKernel.flat()`: the rows one after another. */
  function Flatten(rows: seq<seq<real>>): seq<real> {
    if |rows| == 0 then [] else rows[0] + Flatten(rows[1..])
  }

  /** The kernel dimensions a generator hands to the engine. */
  datatype Dims = Dims(kernelWidth: int, kernelHeight: int)

  /** `kernelHeight = customKernel.length; kernelWidth = customKernel[0].length`,
      as both float64 entry points and the float16 extended generator read
      them: the taps they describe are exactly the cells of the flat array. */
  function KernelDims(rows: seq<seq<real>>): (d: Dims)
    requires Rectangular(rows)
    ensures d.kernelWidth * d.kernelHeight == |Flatten(rows)|
  {
    FlattenLength(rows);
    Dims(|rows[0]|, |rows|)
  }

  /** `kernelWidth = customKernel.length; kernelHeight = customKernel[0].length`,
      as the float16 `_candidateAlgoInPlace` reads them. The number of taps
      still matches the flat array, so nothing downstream notices. */
  function CandidateKernelDims16(rows: seq<seq<real>>): (d: Dims)
    requires Rectangular(rows)
    ensures d.kernelWidth * d.kernelHeight == |Flatten(rows)|
  {
    FlattenLength(rows);
    Dims(|rows|, |rows[0]|)
  }

  lemma {:induction false} FlattenLength(rows: seq<seq<real>>)
    requires Rectangular(rows)
    ensures |Flatten(rows)| == |rows[0]| * |rows|
  {
    if |rows| > 1 {
      assert Rectangular(rows[1..]) && rows[1..][0] == rows[1];
      FlattenLength(rows[1..]);
    }
  }

  /** With KernelDims, the tap the engine reads at (ky, kx) is row ky, column
      kx of the custom kernel. */
  lemma {:induction false} KernelDimsAddressRows(rows: seq<seq<real>>, ky: int, kx: int)
    requires Rectangular(rows)
    requires 0 <= ky < KernelDims(rows).kernelHeight && 0 <= kx < KernelDims(rows).kernelWidth
    ensures ky * KernelDims(rows).kernelWidth + kx < |Flatten(rows)|
    ensures Flatten(rows)[ky * KernelDims(rows).kernelWidth + kx] == rows[ky][kx]
  {
    var w := |rows[0]|;
    if ky > 0 {
      var rest := rows[1..];
      assert Rectangular(rest) && rest[0] == rows[1];
      KernelDimsAddressRows(rest, ky - 1, kx);
      assert ky * w + kx == w + ((ky - 1) * w + kx);
      assert rest[ky - 1] == rows[ky];
    }
  }

  /** The two readings agree exactly on square kernels. */
  lemma CandidateKernelDims16Square(rows: seq<seq<real>>)
    requires Rectangular(rows)
    ensures CandidateKernelDims16(rows) == KernelDims(rows) <==> |rows| == |rows[0]|
  {
  }

  /** A single row of three taps, read by `_candidateAlgoInPlace`, becomes a
      kernel one tap wide and three tall: the engine then applies it down the
      columns, taking for its tap (1, 0) the second entry of row 0, where the
      kernel has no row 1 at all. */
  lemma CandidateKernelDims16Transposed()
    ensures var rows := [[1.0, 2.0, 3.0]];
      var d := CandidateKernelDims16(rows);
      && Rectangular(rows)
      && d == Dims(1, 3) && KernelDims(rows) == Dims(3, 1)
      && d.kernelHeight != |rows|
      && Flatten(rows)[1 * d.kernelWidth + 0] == rows[0][1]
  {
    var rows := [[1.0, 2.0, 3.0]];
    assert Flatten(rows[1..]) == [];
    assert Flatten(rows) == [1.0, 2.0, 3.0];
  }
}
