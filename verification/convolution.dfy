/**
 * Toroidal (wrap-around) convolution of a grid pattern with a kernel: the
 * specification of the energy map used by every void-and-cluster phase.
 *
 * Cells are numbered row-major, cell = y * width + x. Kernel taps are numbered
 * the same way, o = ky * kernelWidth + kx, which is also the order in which the
 * nested loops of the engine visit them, so every sum below is a sum over the
 * flat tap index o in increasing order.
 */
module Convolution {

  /** Grid and kernel dimensions, as the engine receives them. */
  datatype Shape = Shape(width: int, height: int, kernelWidth: int, kernelHeight: int) {

    function Cells(): int { width * height }

    function Taps(): int { kernelWidth * kernelHeight }

    /** What the engine needs so that every wrapped index stays inside the grid:
        the kernel half-sizes may not exceed the grid sides. */
    predicate Valid() {
      && width > 0 && height > 0 && kernelWidth > 0 && kernelHeight > 0
      && kernelWidth / 2 <= width && kernelHeight / 2 <= height
    }

    /** Both kernel sides odd, so that a unique centre tap exists. */
    predicate OddKernel() {
      kernelWidth % 2 == 1 && kernelHeight % 2 == 1
    }
  }

  // ---------------------------------------------------------------------------
  // Integer helpers
  // ---------------------------------------------------------------------------

  /** JavaScript's `%`: the remainder truncates toward zero, so it takes the sign
      of the dividend (Dafny's own `%` is Euclidean). */
  function JsRem(a: int, n: int): int
    requires n > 0
  {
    if a >= 0 then a % n else -((-a) % n)
  }

  /** The wrapped coordinate `(c + t - half + n) % n` of the engine. */
  function Wrap(c: int, t: int, half: int, n: int): int
    requires n > 0
  {
    JsRem(c + t - half + n, n)
  }

  /** A value written q * n + r with 0 <= r < n has quotient q and remainder r. */
  lemma DivModUnique(a: int, q: int, r: int, n: int)
    requires n > 0 && 0 <= r < n && a == q * n + r
    ensures a / n == q && a % n == r
  {
    var q' := a / n;
    var r' := a % n;
    assert a == q' * n + r';
    if q' > q {
      MulAtLeast(q' - q, n);
      assert false;
    } else if q' < q {
      MulAtLeast(q - q', n);
      assert false;
    }
  }

  lemma MulAtLeast(d: int, n: int)
    requires d >= 1 && n > 0
    ensures d * n >= n
  {
  }

  /** Row-major cell numbering: a row and a column in range give a cell in
      range, from which the row and the column are recovered. */
  lemma CellOf(row: int, col: int, width: int, height: int)
    requires width > 0 && 0 <= row < height && 0 <= col < width
    ensures 0 <= row * width + col < width * height
    ensures (row * width + col) / width == row && (row * width + col) % width == col
  {
    DivModUnique(row * width + col, row, col, width);
    assert row * width <= (height - 1) * width by { MulMono(row, height - 1, width); }
    assert (height - 1) * width == height * width - width;
  }

  lemma MulMono(a: int, b: int, n: int)
    requires 0 <= a <= b && n >= 0
    ensures a * n <= b * n
  {
  }

  /** A cell in range has its row in [0, height) and its column in [0, width). */
  lemma RowColOf(cell: int, width: int, height: int)
    requires width > 0 && height > 0 && 0 <= cell < width * height
    ensures 0 <= cell / width < height && 0 <= cell % width < width
    ensures cell == (cell / width) * width + cell % width
  {
    if cell / width >= height {
      MulMono(height, cell / width, width);
      assert false;
    }
  }

  // ---------------------------------------------------------------------------
  // Wrapped indices stay in range exactly when the half-size fits the side
  // ---------------------------------------------------------------------------

  /** With `half <= n`, the dividend `c + t - half + n` is never negative, so the
      JavaScript remainder is the true modulus and lands in [0, n). */
  lemma WrapInRange(c: int, t: int, half: int, n: int)
    requires n > 0 && 0 <= c && 0 <= t && 0 <= half <= n
    ensures Wrap(c, t, half, n) == (c + t - half) % n
    ensures 0 <= Wrap(c, t, half, n) < n
  {
    var a := c + t - half + n;
    assert a == (a / n) * n + a % n;
    assert c + t - half == (a / n - 1) * n + a % n;
    DivModUnique(c + t - half, a / n - 1, a % n, n);
  }

  /** Conversely, once the half-size exceeds a side of two or more cells, the
      first row (or column) reads a tap whose wrapped index is -1. */
  lemma WrapOutOfRange(n: int, half: int)
    requires n >= 2 && half > n
    ensures 0 <= half - n - 1 <= 2 * half
    ensures Wrap(0, half - n - 1, half, n) == -1
  {
    assert 0 + (half - n - 1) - half + n == -1;
    assert 1 % n == 1;
  }

  // ---------------------------------------------------------------------------
  // Taps, energy and footprint
  // ---------------------------------------------------------------------------

  /** The grid cell read (by the blur) or written (by the delta update) when the
      kernel is centred on `cell` and tap `o` is applied. */
  function Tap(s: Shape, cell: int, o: int): (r: int)
    requires s.Valid() && 0 <= cell < s.Cells() && 0 <= o < s.Taps()
    ensures 0 <= r < s.Cells()
  {
    RowColOf(cell, s.width, s.height);
    RowColOf(o, s.kernelWidth, s.kernelHeight);
    var row := Wrap(cell / s.width, o / s.kernelWidth, s.kernelHeight / 2, s.height);
    var col := Wrap(cell % s.width, o % s.kernelWidth, s.kernelWidth / 2, s.width);
    WrapInRange(cell / s.width, o / s.kernelWidth, s.kernelHeight / 2, s.height);
    WrapInRange(cell % s.width, o % s.kernelWidth, s.kernelWidth / 2, s.width);
    CellOf(row, col, s.width, s.height);
    row * s.width + col
  }

  /** The tap at (ky, kx) centred at (y, x) is the one the nested loops compute. */
  lemma TapAt(s: Shape, y: int, x: int, ky: int, kx: int)
    requires s.Valid() && 0 <= y < s.height && 0 <= x < s.width
    requires 0 <= ky < s.kernelHeight && 0 <= kx < s.kernelWidth
    ensures 0 <= y * s.width + x < s.Cells() && 0 <= ky * s.kernelWidth + kx < s.Taps()
    ensures 0 <= Wrap(y, ky, s.kernelHeight / 2, s.height) < s.height
    ensures 0 <= Wrap(x, kx, s.kernelWidth / 2, s.width) < s.width
    ensures Tap(s, y * s.width + x, ky * s.kernelWidth + kx)
         == Wrap(y, ky, s.kernelHeight / 2, s.height) * s.width + Wrap(x, kx, s.kernelWidth / 2, s.width)
  {
    CellOf(y, x, s.width, s.height);
    CellOf(ky, kx, s.kernelWidth, s.kernelHeight);
    WrapInRange(y, ky, s.kernelHeight / 2, s.height);
    WrapInRange(x, kx, s.kernelWidth / 2, s.width);
  }

  /** The cells the kernel touches when centred on `cell`, in tap order. */
  function Footprint(s: Shape, cell: int): (ts: seq<int>)
    requires s.Valid() && 0 <= cell < s.Cells()
    ensures |ts| == s.Taps() && AllBelow(ts, s.Cells())
  {
    seq(s.Taps(), o requires 0 <= o < s.Taps() => Tap(s, cell, o))
  }

  predicate AllBelow(ts: seq<int>, n: int) {
    forall o :: 0 <= o < |ts| ==> 0 <= ts[o] < n
  }

  /** Whether `p` and `k` fit the shape. */
  predicate Fits(s: Shape, p: seq<int>, k: seq<real>) {
    s.Valid() && |p| == s.Cells() && |k| == s.Taps()
  }

  /** Sum over the first `n` taps o of p[ts[o]] * k[o]. */
  function WeightedSum(p: seq<int>, ts: seq<int>, k: seq<real>, n: int): real
    requires |ts| == |k| && AllBelow(ts, |p|) && n <= |ts|
    decreases n
  {
    if n <= 0 then 0.0
    else WeightedSum(p, ts, k, n - 1) + (p[ts[n - 1]] as real) * k[n - 1]
  }

  /** Sum of the weights of the taps o in [lo, hi) with ts[o] == to. */
  function HitWeight(ts: seq<int>, k: seq<real>, to: int, lo: int, hi: int): real
    requires |ts| == |k| && 0 <= lo && hi <= |ts|
    decreases hi - lo
  {
    if hi <= lo then 0.0
    else HitWeight(ts, k, to, lo, hi - 1) + (if ts[hi - 1] == to then k[hi - 1] else 0.0)
  }

  /** Energy at one cell: the full wrap-around convolution sum. */
  function Energy(s: Shape, p: seq<int>, k: seq<real>, cell: int): real
    requires Fits(s, p, k) && 0 <= cell < s.Cells()
  {
    WeightedSum(p, Footprint(s, cell), k, s.Taps())
  }

  /** The energy map of a pattern: one energy per cell. */
  function Blur(s: Shape, p: seq<int>, k: seq<real>): (e: seq<real>)
    requires Fits(s, p, k)
    ensures |e| == s.Cells()
    ensures forall c :: 0 <= c < s.Cells() ==> e[c] == Energy(s, p, k, c)
  {
    seq(s.Cells(), c requires 0 <= c < s.Cells() => Energy(s, p, k, c))
  }

  /** The weight a delta update centred on `from` adds to `to` (per unit of
      amount): the weights of all taps landing on `to`. A kernel larger than the
      grid lands several taps on one cell, and their weights accumulate. */
  function Spread(s: Shape, k: seq<real>, from: int, to: int): real
    requires s.Valid() && |k| == s.Taps() && 0 <= from < s.Cells()
  {
    HitWeight(Footprint(s, from), k, to, 0, s.Taps())
  }

  /** An energy map after every tap of footprint `ts` has added `amount`
      times its weight to the cell it lands on. */
  function Applied(ts: seq<int>, k: seq<real>, e: seq<real>, amount: real): (r: seq<real>)
    requires |ts| == |k|
    ensures |r| == |e|
  {
    seq(|e|, c requires 0 <= c < |e| => e[c] + amount * HitWeight(ts, k, c, 0, |ts|))
  }

  /** The energy map after a delta update of `amount` at `idx`. */
  function DeltaApplied(s: Shape, k: seq<real>, e: seq<real>, idx: int, amount: real): (r: seq<real>)
    requires s.Valid() && |k| == s.Taps() && |e| == s.Cells() && 0 <= idx < s.Cells()
    ensures |r| == |e|
  {
    Applied(Footprint(s, idx), k, e, amount)
  }

  /** Point symmetry: odd sides and k[o] == k[K-1-o], that is the weight at
      (ky, kx) equals the weight at (kh-1-ky, kw-1-kx). */
  predicate PointSymmetric(s: Shape, k: seq<real>) {
    && s.OddKernel()
    && |k| == s.Taps()
    && forall o :: 0 <= o < |k| ==> k[o] == k[|k| - 1 - o]
  }

  // ---------------------------------------------------------------------------
  // Linearity: changing one cell of the pattern changes every energy by the
  // weight of the taps that read it
  // ---------------------------------------------------------------------------

  lemma {:induction false} WeightedSumLinear(p: seq<int>, ts: seq<int>, k: seq<real>, idx: int, a: int, n: int)
    requires |ts| == |k| && AllBelow(ts, |p|) && 0 <= n <= |ts| && 0 <= idx < |p|
    ensures WeightedSum(p[idx := p[idx] + a], ts, k, n)
         == WeightedSum(p, ts, k, n) + (a as real) * HitWeight(ts, k, idx, 0, n)
  {
    var p' := p[idx := p[idx] + a];
    if n > 0 {
      WeightedSumLinear(p, ts, k, idx, a, n - 1);
      var t := ts[n - 1];
      var w := k[n - 1];
      assert p'[t] == p[t] + (if t == idx then a else 0);
      TermSplit(p[t], a, w, t == idx);
      Distribute(a as real, HitWeight(ts, k, idx, 0, n - 1), if t == idx then w else 0.0);
    }
  }

  lemma TermSplit(x: int, a: int, w: real, hit: bool)
    ensures ((x + (if hit then a else 0)) as real) * w == (x as real) * w + (a as real) * (if hit then w else 0.0)
  {
  }

  lemma Distribute(a: real, b: real, c: real)
    ensures a * (b + c) == a * b + a * c
  {
  }

  // ---------------------------------------------------------------------------
  // Reflection: for an odd kernel, tap o from `from` hits `to` exactly when the
  // mirrored tap K-1-o from `to` hits `from`
  // ---------------------------------------------------------------------------

  lemma WrapReflectOneWay(f: int, t: int, k: int, half: int, n: int)
    requires n > 0 && 0 <= f < n && 0 <= t < n && 0 <= k <= 2 * half && half <= n
    requires Wrap(f, k, half, n) == t
    ensures Wrap(t, 2 * half - k, half, n) == f
  {
    WrapInRange(f, k, half, n);
    WrapInRange(t, 2 * half - k, half, n);
    var a := f + k - half + n;
    var q := a / n;
    DivModUnique(a, q, a % n, n);
    assert a == q * n + t;
    var b := t + (2 * half - k) - half + n;
    assert b == f + (2 - q) * n;
    DivModUnique(b, 2 - q, f, n);
  }

  lemma WrapReflect(f: int, t: int, k: int, half: int, n: int)
    requires n > 0 && 0 <= f < n && 0 <= t < n && 0 <= k <= 2 * half && half <= n
    ensures Wrap(f, k, half, n) == t <==> Wrap(t, 2 * half - k, half, n) == f
  {
    if Wrap(f, k, half, n) == t {
      WrapReflectOneWay(f, t, k, half, n);
    }
    if Wrap(t, 2 * half - k, half, n) == f {
      WrapReflectOneWay(t, f, 2 * half - k, half, n);
    }
  }

  lemma TapReflect(s: Shape, from: int, to: int, o: int)
    requires s.Valid() && s.OddKernel()
    requires 0 <= from < s.Cells() && 0 <= to < s.Cells() && 0 <= o < s.Taps()
    ensures 0 <= s.Taps() - 1 - o < s.Taps()
    ensures Tap(s, from, o) == to <==> Tap(s, to, s.Taps() - 1 - o) == from
  {
    var w, h, kw, kh := s.width, s.height, s.kernelWidth, s.kernelHeight;
    RowColOf(from, w, h);
    RowColOf(to, w, h);
    RowColOf(o, kw, kh);
    var fy, fx, ty, tx, ky, kx := from / w, from % w, to / w, to % w, o / kw, o % kw;
    MirrorTap(kw, kh, ky, kx);
    assert from == fy * w + fx && to == ty * w + tx && o == ky * kw + kx;
    assert s.Taps() - 1 - o == (kh - 1 - ky) * kw + (kw - 1 - kx);
    TapAt(s, fy, fx, ky, kx);
    TapAt(s, ty, tx, kh - 1 - ky, kw - 1 - kx);
    ReflectRowCol(fy, fx, ty, tx, ky, kx, w, h, kw, kh);
  }

  /** TapReflect in row and column coordinates. */
  lemma ReflectRowCol(fy: int, fx: int, ty: int, tx: int, ky: int, kx: int, w: int, h: int, kw: int, kh: int)
    requires 0 <= fy < h && 0 <= ty < h && 0 <= fx < w && 0 <= tx < w
    requires 0 <= ky < kh && 0 <= kx < kw && kh % 2 == 1 && kw % 2 == 1
    requires kh / 2 <= h && kw / 2 <= w
    ensures Wrap(fy, ky, kh / 2, h) * w + Wrap(fx, kx, kw / 2, w) == ty * w + tx
        <==> Wrap(ty, kh - 1 - ky, kh / 2, h) * w + Wrap(tx, kw - 1 - kx, kw / 2, w) == fy * w + fx
  {
    assert kh - 1 == 2 * (kh / 2) && kw - 1 == 2 * (kw / 2);
    WrapReflect(fy, ty, ky, kh / 2, h);
    WrapReflect(fx, tx, kx, kw / 2, w);
    WrapInRange(fy, ky, kh / 2, h);
    WrapInRange(fx, kx, kw / 2, w);
    WrapInRange(ty, kh - 1 - ky, kh / 2, h);
    WrapInRange(tx, kw - 1 - kx, kw / 2, w);
    SameCell(Wrap(fy, ky, kh / 2, h), Wrap(fx, kx, kw / 2, w), ty, tx, w, h);
    SameCell(Wrap(ty, kh - 1 - ky, kh / 2, h), Wrap(tx, kw - 1 - kx, kw / 2, w), fy, fx, w, h);
  }

  /** The tap mirrored through the kernel centre has flat index K-1-o. */
  lemma MirrorTap(kw: int, kh: int, ky: int, kx: int)
    requires kw > 0 && kh > 0 && 0 <= ky < kh && 0 <= kx < kw
    ensures (kh - 1 - ky) * kw + (kw - 1 - kx) == kw * kh - 1 - (ky * kw + kx)
  {
  }

  /** Two cells given by row and column are equal exactly when their rows and
      their columns are. */
  lemma SameCell(r1: int, c1: int, r2: int, c2: int, w: int, h: int)
    requires w > 0 && 0 <= r1 < h && 0 <= c1 < w && 0 <= r2 < h && 0 <= c2 < w
    ensures r1 * w + c1 == r2 * w + c2 <==> r1 == r2 && c1 == c2
  {
    CellOf(r1, c1, w, h);
    CellOf(r2, c2, w, h);
  }

  lemma {:induction false} HitWeightFront(ts: seq<int>, k: seq<real>, to: int, lo: int, hi: int)
    requires |ts| == |k| && 0 <= lo < hi <= |ts|
    ensures HitWeight(ts, k, to, lo, hi)
         == (if ts[lo] == to then k[lo] else 0.0) + HitWeight(ts, k, to, lo + 1, hi)
    decreases hi - lo
  {
    if lo + 1 < hi {
      HitWeightFront(ts, k, to, lo, hi - 1);
    }
  }

  /** Reindexing o -> K-1-o turns the taps of `ts1` that hit `b` into the taps of
      `ts2` that hit `a`, provided the two footprints mirror each other and the
      weights do too. */
  lemma {:induction false} HitWeightReflect(ts1: seq<int>, ts2: seq<int>, k: seq<real>, a: int, b: int, lo: int, hi: int)
    requires |ts1| == |k| && |ts2| == |k| && 0 <= lo <= hi <= |k|
    requires forall o :: 0 <= o < |k| ==> k[o] == k[|k| - 1 - o]
    requires forall o :: 0 <= o < |k| ==> (ts1[o] == b <==> ts2[|k| - 1 - o] == a)
    ensures HitWeight(ts1, k, b, lo, hi) == HitWeight(ts2, k, a, |k| - hi, |k| - lo)
    decreases hi - lo
  {
    var K := |k|;
    if lo < hi {
      HitWeightReflect(ts1, ts2, k, a, b, lo, hi - 1);
      HitWeightFront(ts2, k, a, K - hi, K - lo);
      assert K - 1 - (hi - 1) == K - hi;
    }
  }

  /** With a point-symmetric kernel, the weight a change at `from` spreads to
      `to` equals the weight `to` reads from `from`. */
  lemma SpreadSymmetric(s: Shape, k: seq<real>, from: int, to: int)
    requires PointSymmetric(s, k) && s.Valid()
    requires 0 <= from < s.Cells() && 0 <= to < s.Cells()
    ensures Spread(s, k, from, to) == Spread(s, k, to, from)
  {
    var ts1, ts2 := Footprint(s, from), Footprint(s, to);
    forall o | 0 <= o < |k|
      ensures ts1[o] == to <==> ts2[|k| - 1 - o] == from
    {
      TapReflect(s, from, to, o);
    }
    HitWeightReflect(ts1, ts2, k, from, to, 0, |k|);
  }

  // ---------------------------------------------------------------------------
  // The incremental update equals a full re-convolution
  // ---------------------------------------------------------------------------

  /** Applying the delta update of `a` at `idx` to the energy map of `p` gives
      exactly the energy map of `p` with `a` added at `idx`, for every
      point-symmetric kernel. */
  lemma {:induction false} DeltaMatchesBlur(s: Shape, p: seq<int>, k: seq<real>, idx: int, a: int)
    requires Fits(s, p, k) && PointSymmetric(s, k) && 0 <= idx < s.Cells()
    ensures Fits(s, p[idx := p[idx] + a], k)
    ensures DeltaApplied(s, k, Blur(s, p, k), idx, a as real) == Blur(s, p[idx := p[idx] + a], k)
    decreases if a < 0 then -a else a
  {
    if a == 0 {
      assert p[idx := p[idx] + a] == p;
    } else {
      var u := if a > 0 then 1 else -1;
      var q := p[idx := p[idx] + (a - u)];
      DeltaMatchesBlur(s, p, k, idx, a - u);
      DeltaUnit(s, q, k, idx, u);
      assert q[idx := q[idx] + u] == p[idx := p[idx] + a];
      DeltaCompose(s, k, Blur(s, p, k), idx, (a - u) as real, u as real);
    }
  }

  /** The step of size one, the only size the void-and-cluster phases use. */
  lemma DeltaUnit(s: Shape, p: seq<int>, k: seq<real>, idx: int, u: int)
    requires Fits(s, p, k) && PointSymmetric(s, k) && 0 <= idx < s.Cells() && (u == 1 || u == -1)
    ensures Fits(s, p[idx := p[idx] + u], k)
    ensures DeltaApplied(s, k, Blur(s, p, k), idx, u as real) == Blur(s, p[idx := p[idx] + u], k)
  {
    var lhs := DeltaApplied(s, k, Blur(s, p, k), idx, u as real);
    var rhs := Blur(s, p[idx := p[idx] + u], k);
    forall c | 0 <= c < s.Cells()
      ensures lhs[c] == rhs[c]
    {
      DeltaAt(s, p, k, idx, u, c);
    }
  }

  lemma DeltaAt(s: Shape, p: seq<int>, k: seq<real>, idx: int, u: int, c: int)
    requires Fits(s, p, k) && PointSymmetric(s, k) && 0 <= idx < s.Cells() && 0 <= c < s.Cells()
    requires u == 1 || u == -1
    ensures Fits(s, p[idx := p[idx] + u], k)
    ensures Energy(s, p, k, c) + (u as real) * Spread(s, k, idx, c) == Energy(s, p[idx := p[idx] + u], k, c)
  {
    WeightedSumLinear(p, Footprint(s, c), k, idx, u, |k|);
    SpreadSymmetric(s, k, idx, c);
  }

  /** Two delta updates at the same cell add up. */
  lemma DeltaCompose(s: Shape, k: seq<real>, e: seq<real>, idx: int, a: real, b: real)
    requires s.Valid() && |k| == s.Taps() && |e| == s.Cells() && 0 <= idx < s.Cells()
    ensures DeltaApplied(s, k, DeltaApplied(s, k, e, idx, a), idx, b) == DeltaApplied(s, k, e, idx, a + b)
  {
    var lhs := DeltaApplied(s, k, DeltaApplied(s, k, e, idx, a), idx, b);
    var rhs := DeltaApplied(s, k, e, idx, a + b);
    forall c | 0 <= c < |e|
      ensures lhs[c] == rhs[c]
    {
      Distribute2(e[c], a, b, Spread(s, k, idx, c));
    }
  }

  lemma Distribute2(x: real, a: real, b: real, w: real)
    ensures x + a * w + b * w == x + (a + b) * w
  {
  }

  /** The same fact for a cell set to a given value, the form the algorithms use. */
  lemma DeltaMatchesSet(s: Shape, p: seq<int>, k: seq<real>, idx: int, v: int)
    requires Fits(s, p, k) && PointSymmetric(s, k) && 0 <= idx < s.Cells()
    ensures Fits(s, p[idx := v], k)
    ensures DeltaApplied(s, k, Blur(s, p, k), idx, (v - p[idx]) as real) == Blur(s, p[idx := v], k)
  {
    DeltaMatchesBlur(s, p, k, idx, v - p[idx]);
    assert p[idx := p[idx] + (v - p[idx])] == p[idx := v];
  }

  /** A delta of `a` followed by a delta of `-a` at the same cell restores the map. */
  lemma DeltaCancels(s: Shape, k: seq<real>, e: seq<real>, idx: int, a: real)
    requires s.Valid() && |k| == s.Taps() && |e| == s.Cells() && 0 <= idx < s.Cells()
    ensures DeltaApplied(s, k, DeltaApplied(s, k, e, idx, a), idx, -a) == e
  {
  }

  // ---------------------------------------------------------------------------
  // Footprint of the delta update
  // ---------------------------------------------------------------------------

  lemma {:induction false} HitWeightAbsent(ts: seq<int>, k: seq<real>, to: int, n: int)
    requires |ts| == |k| && 0 <= n <= |ts| && to !in ts
    ensures HitWeight(ts, k, to, 0, n) == 0.0
  {
    if n > 0 {
      HitWeightAbsent(ts, k, to, n - 1);
    }
  }

  /** The delta update leaves every cell outside the footprint unchanged. */
  lemma DeltaLocal(s: Shape, k: seq<real>, e: seq<real>, idx: int, a: real, c: int)
    requires s.Valid() && |k| == s.Taps() && |e| == s.Cells() && 0 <= idx < s.Cells()
    requires 0 <= c < s.Cells() && c !in Footprint(s, idx)
    ensures DeltaApplied(s, k, e, idx, a)[c] == e[c]
  {
    HitWeightAbsent(Footprint(s, idx), k, c, s.Taps());
  }

  /** When the kernel fits inside the grid, two different taps never land on the
      same cell. */
  lemma TapInjective(s: Shape, idx: int, o1: int, o2: int)
    requires s.Valid() && s.kernelWidth <= s.width && s.kernelHeight <= s.height
    requires 0 <= idx < s.Cells() && 0 <= o1 < s.Taps() && 0 <= o2 < s.Taps()
    requires Tap(s, idx, o1) == Tap(s, idx, o2)
    ensures o1 == o2
  {
    var w, h, kw, kh := s.width, s.height, s.kernelWidth, s.kernelHeight;
    RowColOf(idx, w, h);
    RowColOf(o1, kw, kh);
    RowColOf(o2, kw, kh);
    var iy, ix := idx / w, idx % w;
    var y1, x1 := Wrap(iy, o1 / kw, kh / 2, h), Wrap(ix, o1 % kw, kw / 2, w);
    var y2, x2 := Wrap(iy, o2 / kw, kh / 2, h), Wrap(ix, o2 % kw, kw / 2, w);
    WrapInRange(iy, o1 / kw, kh / 2, h);
    WrapInRange(iy, o2 / kw, kh / 2, h);
    WrapInRange(ix, o1 % kw, kw / 2, w);
    WrapInRange(ix, o2 % kw, kw / 2, w);
    CellOf(y1, x1, w, h);
    CellOf(y2, x2, w, h);
    assert y1 == y2 && x1 == x2;
    ModInjective(iy - kh / 2, o1 / kw, o2 / kw, h);
    ModInjective(ix - kw / 2, o1 % kw, o2 % kw, w);
  }

  /** Within a window shorter than n, `(base + t) % n` tells t apart. */
  lemma ModInjective(base: int, t1: int, t2: int, n: int)
    requires n > 0 && 0 <= t1 < n && 0 <= t2 < n && (base + t1) % n == (base + t2) % n
    ensures t1 == t2
  {
    var a1, a2 := base + t1, base + t2;
    var q1, q2 := a1 / n, a2 / n;
    assert a1 == q1 * n + a1 % n && a2 == q2 * n + a2 % n;
    assert t1 - t2 == (q1 - q2) * n;
    if q1 > q2 {
      MulAtLeast(q1 - q2, n);
      assert false;
    } else if q1 < q2 {
      MulAtLeast(q2 - q1, n);
      assert false;
    }
  }

  lemma {:induction false} HitWeightSingle(ts: seq<int>, k: seq<real>, o: int, n: int)
    requires |ts| == |k| && 0 <= o < |ts| && 0 <= n <= |ts|
    requires forall i :: 0 <= i < |ts| && ts[i] == ts[o] ==> i == o
    ensures HitWeight(ts, k, ts[o], 0, n) == if o < n then k[o] else 0.0
  {
    if n > 0 {
      HitWeightSingle(ts, k, o, n - 1);
    }
  }

  /** When the kernel fits inside the grid, each footprint cell gains exactly
      `amount` times the weight of the one tap that lands on it. */
  lemma DeltaExactWhenKernelFits(s: Shape, k: seq<real>, e: seq<real>, idx: int, a: real, o: int)
    requires s.Valid() && s.kernelWidth <= s.width && s.kernelHeight <= s.height
    requires |k| == s.Taps() && |e| == s.Cells() && 0 <= idx < s.Cells() && 0 <= o < s.Taps()
    ensures DeltaApplied(s, k, e, idx, a)[Tap(s, idx, o)] == e[Tap(s, idx, o)] + a * k[o]
  {
    var ts := Footprint(s, idx);
    forall i | 0 <= i < |ts| && ts[i] == ts[o]
      ensures i == o
    {
      TapInjective(s, idx, i, o);
    }
    HitWeightSingle(ts, k, o, s.Taps());
  }
}
