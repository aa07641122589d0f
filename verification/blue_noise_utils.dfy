/**
 * The wrap-around convolution engine: a full blur of a binary pattern into an
 * energy map, and the incremental update that adds one cell's contribution.
 * Both loops are verified against the sums of module Convolution.
 */
module BlueNoiseUtils {
  import opened Convolution

  /** The contents of an energy map part-way through a delta update: the
      first `n` taps of footprint `ts` have each added `amount` times their
      weight to the cell they land on. */
  ghost function DeltaPrefix(ts: seq<int>, k: seq<real>, e: seq<real>, amount: real, n: int): (r: seq<real>)
    requires |ts| == |k| && AllBelow(ts, |e|) && 0 <= n <= |ts|
    ensures |r| == |e|
    decreases n
  {
    if n == 0 then e
    else
      var d := DeltaPrefix(ts, k, e, amount, n - 1);
      d[ts[n - 1] := d[ts[n - 1]] + k[n - 1] * amount]
  }

  /** After `n` taps cell `c` holds its old energy plus `amount` times the
      weight of those taps that hit it. */
  lemma {:induction false} DeltaPrefixCell(ts: seq<int>, k: seq<real>, e: seq<real>, amount: real, n: int, c: int)
    requires |ts| == |k| && AllBelow(ts, |e|) && 0 <= n <= |ts| && 0 <= c < |e|
    ensures DeltaPrefix(ts, k, e, amount, n)[c] == e[c] + amount * HitWeight(ts, k, c, 0, n)
  {
    if n > 0 {
      DeltaPrefixCell(ts, k, e, amount, n - 1, c);
      CellStep(e[c], amount, HitWeight(ts, k, c, 0, n - 1), k[n - 1], ts[n - 1] == c);
    }
  }

  /** Once every tap of the footprint is applied, the map is the full update. */
  lemma DeltaPrefixComplete(ts: seq<int>, k: seq<real>, e: seq<real>, amount: real)
    requires |ts| == |k| && AllBelow(ts, |e|)
    ensures DeltaPrefix(ts, k, e, amount, |ts|) == Applied(ts, k, e, amount)
  {
    var d, r := DeltaPrefix(ts, k, e, amount, |ts|), Applied(ts, k, e, amount);
    forall c | 0 <= c < |e|
      ensures d[c] == r[c]
    {
      DeltaPrefixCell(ts, k, e, amount, |ts|, c);
    }
  }

  /** Tap `n` lands on cell `t`, which holds `cur`, and carries weight `w`. */
  lemma DeltaTapStep(ts: seq<int>, k: seq<real>, e: seq<real>, amount: real, n: int, t: int, w: real, cur: real)
    requires |ts| == |k| && AllBelow(ts, |e|) && 0 <= n < |ts|
    requires t == ts[n] && w == k[n] && 0 <= t < |e| && cur == DeltaPrefix(ts, k, e, amount, n)[t]
    ensures DeltaPrefix(ts, k, e, amount, n + 1) == DeltaPrefix(ts, k, e, amount, n)[t := cur + w * amount]
  {
    DeltaPrefixUnfold(ts, k, e, amount, n + 1);
    SameProduct(k[n + 1 - 1], amount, w, amount);
    var d, d' := DeltaPrefix(ts, k, e, amount, n), DeltaPrefix(ts, k, e, amount, n + 1);
    forall i | 0 <= i < |d|
      ensures d'[i] == d[t := cur + w * amount][i]
    {
    }
  }

  lemma DeltaPrefixUnfold(ts: seq<int>, k: seq<real>, e: seq<real>, amount: real, n: int)
    requires |ts| == |k| && AllBelow(ts, |e|) && 0 < n <= |ts|
    ensures var d := DeltaPrefix(ts, k, e, amount, n - 1);
      DeltaPrefix(ts, k, e, amount, n) == d[ts[n - 1] := d[ts[n - 1]] + k[n - 1] * amount]
  {
  }

  /** One tap's share of a cell's update, as real arithmetic. */
  lemma CellStep(ec: real, amount: real, h: real, kn: real, hit: bool)
    ensures ec + amount * (h + (if hit then kn else 0.0))
         == if hit then (ec + amount * h) + kn * amount else ec + amount * h
  {
  }

  /** Tap `o` = (ky, kx) of the kernel centred on cell `c` = (y, x) reads
      grid cell `t`, the one the nested loops compute. */
  lemma FootprintAt(s: Shape, y: int, x: int, ky: int, kx: int, c: int, o: int, t: int)
    requires s.Valid() && 0 <= y < s.height && 0 <= x < s.width
    requires 0 <= ky < s.kernelHeight && 0 <= kx < s.kernelWidth
    requires c == y * s.width + x && o == ky * s.kernelWidth + kx
    requires t == Wrap(y, ky, s.kernelHeight / 2, s.height) * s.width + Wrap(x, kx, s.kernelWidth / 2, s.width)
    ensures 0 <= c < s.Cells() && 0 <= o < s.Taps() && Footprint(s, c)[o] == t
  {
    TapAt(s, y, x, ky, kx);
  }

  /** Row `ky` of the kernel centred on cell (y, x) occupies taps o0 ..
      o0 + kernelWidth - 1 of `ts`, at the wrapped cells the loops compute. */
  predicate RowTaps(ts: seq<int>, o0: int, width: int, height: int, kernelWidth: int, kernelHeight: int,
                    y: int, x: int, ky: int)
    requires width > 0 && height > 0 && 0 <= o0 && o0 + kernelWidth <= |ts|
  {
    forall o :: o0 <= o < o0 + kernelWidth ==>
      ts[o] == Wrap(y, ky, kernelHeight / 2, height) * width + Wrap(x, o - o0, kernelWidth / 2, width)
  }

  lemma FootprintRow(width: int, height: int, kernelWidth: int, kernelHeight: int, y: int, x: int, ky: int, o0: int)
    requires Shape(width, height, kernelWidth, kernelHeight).Valid()
    requires 0 <= y < height && 0 <= x < width && 0 <= ky < kernelHeight && o0 == ky * kernelWidth
    ensures 0 <= y * width + x < width * height && 0 <= o0 && o0 + kernelWidth <= kernelWidth * kernelHeight
    ensures RowTaps(Footprint(Shape(width, height, kernelWidth, kernelHeight), y * width + x), o0,
                    width, height, kernelWidth, kernelHeight, y, x, ky)
  {
    var s := Shape(width, height, kernelWidth, kernelHeight);
    ShapeSizes(width, height, kernelWidth, kernelHeight);
    RowEnd(ky, kernelWidth, kernelHeight);
    CellOf(y, x, width, height);
    var ts := Footprint(s, y * width + x);
    forall o | o0 <= o < o0 + kernelWidth
      ensures ts[o]
           == Wrap(y, ky, kernelHeight / 2, height) * width + Wrap(x, o - o0, kernelWidth / 2, width)
    {
      FootprintAt(s, y, x, ky, o - o0, y * width + x, o,
                  Wrap(y, ky, kernelHeight / 2, height) * width + Wrap(x, o - o0, kernelWidth / 2, width));
    }
  }

  /** Adding the product of the input value `v` at the cell tap `o` reads and
      the tap's weight `w` extends the running sum by one tap. */
  lemma SumStep(p: seq<int>, ts: seq<int>, k: seq<real>, o: int, sum: real, v: int, w: real)
    requires |ts| == |k| && AllBelow(ts, |p|) && 0 <= o < |ts|
    requires sum == WeightedSum(p, ts, k, o) && v == p[ts[o]] && w == k[o]
    ensures sum + (v as real) * w == WeightedSum(p, ts, k, o + 1)
  {
    var n := o + 1;
    assert WeightedSum(p, ts, k, n) == WeightedSum(p, ts, k, n - 1) + (p[ts[n - 1]] as real) * k[n - 1];
    SameProduct(p[ts[n - 1]] as real, k[n - 1], v as real, w);
  }

  /** Equal factors give equal products (the solver does not always see this
      on its own once nonlinear terms are around). */
  lemma SameProduct(a: real, b: real, c: real, d: real)
    requires a == c && b == d
    ensures a * b == c * d
  {
  }

  /** The sizes of a shape built from its four sides. */
  lemma ShapeSizes(width: int, height: int, kernelWidth: int, kernelHeight: int)
    ensures var s := Shape(width, height, kernelWidth, kernelHeight);
      s.width == width && s.height == height && s.kernelWidth == kernelWidth && s.kernelHeight == kernelHeight &&
      s.Cells() == width * height && s.Taps() == kernelWidth * kernelHeight
  {
  }

  lemma MulComm(a: int, b: int)
    ensures a * b == b * a
  {
  }

  /** Row `y` of a `w`-wide grid of `h` rows ends at (y + 1) * w, within the grid. */
  lemma RowEnd(y: int, w: int, h: int)
    requires 0 <= y < h && w > 0
    ensures 0 <= y * w && y * w + w == (y + 1) * w <= w * h
  {
    MulMono(y + 1, h, w);
  }

  /**
   * Full blur with wrap-around: every output cell receives the sum, over all
   * kernel taps, of the input cell the tap lands on times the tap's weight.
   * The input and the kernel are only read.
   */
  method BlurWrap(inArray: array<int>, width: int, height: int, kernel: array<real>, blurred: array<real>,
                  kernelWidth: int, kernelHeight: int)
    requires Shape(width, height, kernelWidth, kernelHeight).Valid()
    requires inArray.Length == width * height && blurred.Length == width * height
    requires kernel.Length == kernelWidth * kernelHeight && blurred != kernel
    modifies blurred
    ensures blurred[..] == Blur(Shape(width, height, kernelWidth, kernelHeight), inArray[..], kernel[..])
  {
    ghost var s := Shape(width, height, kernelWidth, kernelHeight);
    ShapeSizes(width, height, kernelWidth, kernelHeight);
    ghost var e := Blur(s, inArray[..], kernel[..]);
    var y := 0;
    while y < height
      invariant 0 <= y <= height && y * width <= width * height
      invariant forall c :: 0 <= c < y * width ==> blurred[c] == e[c]
    {
      var yOffs := y * width;
      RowEnd(y, width, height);
      var x := 0;
      while x < width
        invariant 0 <= x <= width && yOffs + width <= width * height
        invariant forall c :: 0 <= c < yOffs + x ==> blurred[c] == e[c]
      {
        var sum := CellEnergy(inArray, width, height, kernel, kernelWidth, kernelHeight, y, x);
        blurred[yOffs + x] := sum;
        x := x + 1;
      }
      y := y + 1;
    }
    MulComm(height, width);
  }

  /** The two inner loops of BlurWrap: the energy at cell (y, x). */
  method CellEnergy(inArray: array<int>, width: int, height: int, kernel: array<real>,
                    kernelWidth: int, kernelHeight: int, y: int, x: int) returns (sum: real)
    requires Shape(width, height, kernelWidth, kernelHeight).Valid()
    requires inArray.Length == width * height && kernel.Length == kernelWidth * kernelHeight
    requires 0 <= y < height && 0 <= x < width
    ensures 0 <= y * width + x < width * height
    ensures sum == Energy(Shape(width, height, kernelWidth, kernelHeight), inArray[..], kernel[..], y * width + x)
  {
    ghost var s := Shape(width, height, kernelWidth, kernelHeight);
    ShapeSizes(width, height, kernelWidth, kernelHeight);
    CellOf(y, x, width, height);
    sum := 0.0;
    ghost var ts := Footprint(s, y * width + x);
    ghost var o := 0;
    var ky := 0;
    while ky < kernelHeight
      invariant 0 <= ky <= kernelHeight && o == ky * kernelWidth <= kernelWidth * kernelHeight
      invariant sum == WeightedSum(inArray[..], ts, kernel[..], o)
    {
      RowEnd(ky, kernelWidth, kernelHeight);
      FootprintRow(width, height, kernelWidth, kernelHeight, y, x, ky, o);
      ghost var next := o + kernelWidth;
      sum := KernelRowSum(inArray, width, height, kernel, kernelWidth, kernelHeight, y, x, ky, sum, ts, o, next);
      o := next;
      ky := ky + 1;
    }
    MulComm(kernelHeight, kernelWidth);
  }

  /** The innermost loop of BlurWrap: adds kernel row `ky`, centred on cell
      (y, x), to the running sum. `ts` is the footprint of the cell and the
      ghost counter `o` the flat index of the next tap. */
  method KernelRowSum(inArray: array<int>, width: int, height: int, kernel: array<real>,
                      kernelWidth: int, kernelHeight: int, y: int, x: int, ky: int, sum0: real,
                      ghost ts: seq<int>, ghost o0: int, ghost o1: int) returns (sum: real)
    requires Shape(width, height, kernelWidth, kernelHeight).Valid() && 0 <= ky < kernelHeight
    requires |ts| == kernel.Length && AllBelow(ts, inArray.Length)
    requires 0 <= o0 && o0 == ky * kernelWidth && o1 == o0 + kernelWidth <= |ts|
    requires RowTaps(ts, o0, width, height, kernelWidth, kernelHeight, y, x, ky)
    requires sum0 == WeightedSum(inArray[..], ts, kernel[..], o0)
    ensures sum == WeightedSum(inArray[..], ts, kernel[..], o1)
  {
    ghost var p, k := inArray[..], kernel[..];
    var kHalfW := kernelWidth / 2;
    var kHalfH := kernelHeight / 2;
    var iy := Wrap(y, ky, kHalfH, height);
    var iyOffs := iy * width;
    var kernelYOffs := ky * kernelWidth;
    sum := sum0;
    ghost var o := o0;
    var kx := 0;
    while kx < kernelWidth
      invariant 0 <= kx <= kernelWidth && o == o0 + kx && kernelYOffs == o0
      invariant sum == WeightedSum(p, ts, k, o)
    {
      var ix := Wrap(x, kx, kHalfW, width);
      assert ts[o] == iyOffs + ix;
      var v, w := inArray[iyOffs + ix], kernel[kernelYOffs + kx];
      SumStep(p, ts, k, o, sum, v, w);
      sum := sum + (v as real) * w;
      o := o + 1;
      kx := kx + 1;
    }
  }

  /**
   * Incremental update: adds `amount` times the kernel over the wrapped
   * footprint centred on cell `idx`. A kernel larger than the grid makes the
   * footprint overlap itself, and the contributions accumulate.
   */
  method DeltaBlurUpdate(width: int, height: int, idx: int, amount: real, blurred: array<real>, kernel: array<real>,
                         kernelWidth: int, kernelHeight: int)
    requires Shape(width, height, kernelWidth, kernelHeight).Valid()
    requires blurred.Length == width * height && kernel.Length == kernelWidth * kernelHeight && blurred != kernel
    requires 0 <= idx < width * height
    modifies blurred
    ensures blurred[..] == DeltaApplied(Shape(width, height, kernelWidth, kernelHeight), kernel[..], old(blurred[..]), idx, amount)
  {
    ghost var s := Shape(width, height, kernelWidth, kernelHeight);
    ShapeSizes(width, height, kernelWidth, kernelHeight);
    ghost var k, e := kernel[..], blurred[..];
    ghost var ts := Footprint(s, idx);
    RowColOf(idx, width, height);
    var iy := idx / width;
    var ix := idx % width;
    ghost var o := 0;
    var ky := 0;
    while ky < kernelHeight
      invariant 0 <= ky <= kernelHeight && o == ky * kernelWidth <= kernelWidth * kernelHeight
      invariant kernel[..] == k
      invariant blurred[..] == DeltaPrefix(ts, k, e, amount, o)
    {
      RowEnd(ky, kernelWidth, kernelHeight);
      FootprintRow(width, height, kernelWidth, kernelHeight, iy, ix, ky, o);
      ghost var next := o + kernelWidth;
      DeltaRowUpdate(width, height, iy, ix, amount, blurred, kernel, kernelWidth, kernelHeight, ky, ts, k, e, o, next);
      o := next;
      ky := ky + 1;
    }
    MulComm(kernelHeight, kernelWidth);
    DeltaPrefixComplete(ts, k, e, amount);
  }

  /** The inner loop of DeltaBlurUpdate: applies kernel row `ky`. `ts` is the
      footprint of cell (iy, ix) and the ghost counter `o` the flat index of
      the next tap. */
  method DeltaRowUpdate(width: int, height: int, iy: int, ix: int, amount: real, blurred: array<real>,
                        kernel: array<real>, kernelWidth: int, kernelHeight: int, ky: int,
                        ghost ts: seq<int>, ghost k: seq<real>, ghost e: seq<real>, ghost o0: int, ghost o1: int)
    requires Shape(width, height, kernelWidth, kernelHeight).Valid() && 0 <= ky < kernelHeight
    requires blurred != kernel && k == kernel[..] && |ts| == |k| && |e| == blurred.Length && AllBelow(ts, |e|)
    requires 0 <= o0 && o0 == ky * kernelWidth && o1 == o0 + kernelWidth <= |ts|
    requires RowTaps(ts, o0, width, height, kernelWidth, kernelHeight, iy, ix, ky)
    requires blurred[..] == DeltaPrefix(ts, k, e, amount, o0)
    modifies blurred
    ensures blurred[..] == DeltaPrefix(ts, k, e, amount, o1)
  {
    var kHalfW := kernelWidth / 2;
    var kHalfH := kernelHeight / 2;
    var y := Wrap(iy, ky, kHalfH, height);
    ghost var o := o0;
    var kx := 0;
    while kx < kernelWidth
      invariant 0 <= kx <= kernelWidth && o == o0 + kx
      invariant blurred[..] == DeltaPrefix(ts, k, e, amount, o)
    {
      var x := Wrap(ix, kx, kHalfW, width);
      var kIdx := ky * kernelWidth + kx;
      assert ts[o] == y * width + x;
      var w := kernel[kIdx];
      DeltaTapStep(ts, k, e, amount, o, y * width + x, w, blurred[y * width + x]);
      blurred[y * width + x] := blurred[y * width + x] + w * amount;
      o := o + 1;
      kx := kx + 1;
    }
  }
}
