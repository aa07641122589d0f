/**
 * The Gaussian kernel tables and their caches.
 *
 * A table of radius r is a square of side 2r + 1; cell (y + r) * side + (x + r)
 * first receives the weight of the squared distance x*x + y*y from the centre,
 * and then every cell is divided by the sum of all cells. The weight itself
 * (an `exp` of floating-point values, plain or "tail" Gaussian) is left
 * abstract: a positive function of the cache key and the squared distance.
 *
 * The float64 generator fills only -r <= y, x < r (its loops stop at `< radius`),
 * so the last row and the last column of its table stay 0; the float16
 * generator and the three builders of the utilities fill -r <= y, x <= r.
 */
module KernelLut {
  import opened Convolution
  import opened BlueNoiseUtils

  /** `Math.ceil`. */
  function Ceil(x: real): (r: int)
    ensures x <= r as real < x + 1.0
  {
    -((-x).Floor)
  }

  /** The side of a table of radius r, `2 * radius + 1` (or `(radius << 1) + 1`). */
  function Side(radius: nat): (n: nat)
    ensures n % 2 == 1 && n > 2 * radius
  {
    2 * radius + 1
  }

  /** The weights must be positive, as every value of `Math.exp` is. */
  ghost predicate PositiveWeight<K(!new)>(weight: (K, int) -> real) {
    forall key, d :: weight(key, d) > 0.0
  }

  /** The sum of a table, accumulated left to right. */
  function Total(t: seq<real>): real {
    if |t| == 0 then 0.0 else Total(t[..|t| - 1]) + t[|t| - 1]
  }

  /** The weight written at cell c before normalisation: 0 in the last row and
      the last column of a half-open table, the weight of the squared distance
      everywhere else. */
  function RawAt<K>(weight: (K, int) -> real, key: K, radius: nat, halfOpen: bool, c: int): real {
    var y := c / Side(radius) - radius;
    var x := c % Side(radius) - radius;
    if halfOpen && (y == radius || x == radius) then 0.0 else weight(key, x * x + y * y)
  }

  /** The whole table before normalisation. */
  function Raw<K>(weight: (K, int) -> real, key: K, radius: nat, halfOpen: bool): (t: seq<real>)
    ensures |t| == Side(radius) * Side(radius)
    ensures forall c :: 0 <= c < |t| ==> t[c] == RawAt(weight, key, radius, halfOpen, c)
  {
    seq(Side(radius) * Side(radius), c => RawAt(weight, key, radius, halfOpen, c))
  }

  /** Every cell divided by `d`. */
  function Divided(t: seq<real>, d: real): (u: seq<real>)
    requires d != 0.0
    ensures |u| == |t| && forall i :: 0 <= i < |t| ==> u[i] == t[i] / d
  {
    seq(|t|, i requires 0 <= i < |t| => t[i] / d)
  }

  // ---------------------------------------------------------------------------
  // Properties of the tables
  // ---------------------------------------------------------------------------

  lemma TotalSnoc(t: seq<real>, n: int)
    requires 0 <= n < |t|
    ensures Total(t[..n + 1]) == Total(t[..n]) + t[n]
  {
    assert t[..n + 1][..n] == t[..n];
  }

  /** Dividing every cell by d divides the sum by d. */
  lemma {:induction false} TotalDivided(t: seq<real>, d: real)
    requires d != 0.0
    ensures Total(Divided(t, d)) == Total(t) / d
  {
    if |t| > 0 {
      var n := |t| - 1;
      assert Divided(t, d)[..n] == Divided(t[..n], d);
      TotalDivided(t[..n], d);
      SumOfQuotients(Total(t[..n]), t[n], d);
    }
  }

  /** A table without negative cells sums to at least its first cell. */
  lemma {:induction false} TotalAtLeastFirst(t: seq<real>)
    requires |t| > 0 && forall i :: 0 <= i < |t| ==> t[i] >= 0.0
    ensures Total(t) >= t[0]
  {
    if |t| > 1 {
      TotalAtLeastFirst(t[..|t| - 1]);
    }
  }

  /** Cell 0 is the corner (-r, -r), which both fills write. */
  lemma RawPositive<K(!new)>(weight: (K, int) -> real, key: K, radius: nat, halfOpen: bool)
    requires PositiveWeight(weight) && (halfOpen ==> radius >= 1)
    ensures Total(Raw(weight, key, radius, halfOpen)) >= Raw(weight, key, radius, halfOpen)[0] > 0.0
  {
    var t := Raw(weight, key, radius, halfOpen);
    assert t[0] == weight(key, radius * radius + radius * radius);
    TotalAtLeastFirst(t);
  }

  /** The normalised table: every cell divided by the sum of the raw table. */
  function Table<K(!new)>(weight: (K, int) -> real, key: K, radius: nat, halfOpen: bool): (k: seq<real>)
    requires PositiveWeight(weight) && (halfOpen ==> radius >= 1)
    ensures |k| == Side(radius) * Side(radius)
  {
    var t := Raw(weight, key, radius, halfOpen);
    RawPositive(weight, key, radius, halfOpen);
    Divided(t, Total(t))
  }

  /** A normalised table sums to 1 and has no negative cell. */
  lemma TableNormalised<K(!new)>(weight: (K, int) -> real, key: K, radius: nat, halfOpen: bool)
    requires PositiveWeight(weight) && (halfOpen ==> radius >= 1)
    ensures Total(Table(weight, key, radius, halfOpen)) == 1.0
    ensures forall c :: 0 <= c < Side(radius) * Side(radius) ==> Table(weight, key, radius, halfOpen)[c] >= 0.0
  {
    var t := Raw(weight, key, radius, halfOpen);
    RawPositive(weight, key, radius, halfOpen);
    var total := Total(t);
    TotalDivided(t, total);
    SelfQuotient(total);
    forall c | 0 <= c < |t| ensures t[c] / total >= 0.0 {
      NonNegativeQuotient(t[c], total);
    }
  }

  lemma SelfQuotient(a: real)
    requires a != 0.0
    ensures a / a == 1.0
  {
  }

  lemma SumOfQuotients(a: real, b: real, d: real)
    requires d != 0.0
    ensures a / d + b / d == (a + b) / d
  {
  }

  lemma NonNegativeQuotient(a: real, b: real)
    requires a >= 0.0 && b > 0.0
    ensures a / b >= 0.0 && (a > 0.0 ==> a / b > 0.0)
  {
  }

  /** Cell (row, col) of a side-n square decodes to that row and column. */
  lemma Decode(c: int, row: int, col: int, n: int)
    requires 0 <= row < n && 0 <= col < n && c == row * n + col
    ensures 0 <= c < n * n && c / n == row && c % n == col
  {
    CellOf(row, col, n, n);
  }

  /** The cell of (y, x) in a table of radius r, away from the last row and
      column when the fill is half-open, holds the weight of x*x + y*y. */
  lemma RawAtCell<K>(weight: (K, int) -> real, key: K, radius: int, halfOpen: bool, y: int, x: int, c: int)
    requires 0 <= radius && -radius <= y <= radius && -radius <= x <= radius
    requires halfOpen ==> y < radius && x < radius
    requires c == (y + radius) * Side(radius) + (x + radius)
    ensures 0 <= c < Side(radius) * Side(radius)
    ensures RawAt(weight, key, radius, halfOpen, c) == weight(key, x * x + y * y)
  {
    Decode(c, y + radius, x + radius, Side(radius));
  }

  /** The cell mirrored through the centre of a side-n square: n*n - 1 - c. */
  lemma Mirror(n: int, row: int, col: int)
    ensures n * n - 1 - (row * n + col) == (n - 1 - row) * n + (n - 1 - col)
  {
    assert (n - 1 - row) * n == n * n - n - row * n;
  }

  /** A fully filled table is point-symmetric: the cell mirrored through the
      centre sits at (-y, -x), the same squared distance. So with it the delta
      update of the convolution engine agrees exactly with a full re-blur. */
  lemma ClosedTableSymmetric<K(!new)>(weight: (K, int) -> real, key: K, radius: nat, s: Shape)
    requires PositiveWeight(weight)
    requires s.kernelWidth == Side(radius) && s.kernelHeight == Side(radius)
    ensures PointSymmetric(s, Table(weight, key, radius, false))
  {
    var k := Table(weight, key, radius, false);
    var n := Side(radius);
    var t := Raw(weight, key, radius, false);
    forall o | 0 <= o < |k| ensures k[o] == k[|k| - 1 - o] {
      RowColOf(o, n, n);
      var row, col := o / n, o % n;
      var m := |k| - 1 - o;
      Mirror(n, row, col);
      Decode(m, n - 1 - row, n - 1 - col, n);
      var y, x := row - radius, col - radius;
      assert (-x) * (-x) + (-y) * (-y) == x * x + y * y;
      assert t[o] == t[m];
    }
  }

  /** The half-open table of the float64 generator is not point-symmetric: its
      first corner holds a positive weight, its last corner 0. */
  lemma HalfOpenTableNotSymmetric<K(!new)>(weight: (K, int) -> real, key: K, radius: nat, s: Shape)
    requires PositiveWeight(weight) && radius >= 1
    requires s.kernelWidth == Side(radius) && s.kernelHeight == Side(radius)
    ensures !PointSymmetric(s, Table(weight, key, radius, true))
  {
    var k := Table(weight, key, radius, true);
    var n := Side(radius);
    var t := Raw(weight, key, radius, true);
    RawPositive(weight, key, radius, true);
    NonNegativeQuotient(t[0], Total(t));
    Mirror(n, 0, 0);
    Decode(|k| - 1, n - 1, n - 1, n);
    assert t[|k| - 1] == 0.0;
    assert k[0] != k[|k| - 1 - 0];
  }

  // ---------------------------------------------------------------------------
  // The fill, sum and divide loops
  // ---------------------------------------------------------------------------

  /** The float64 fill: `for (y = -radius; y < radius; y++) for (x = -radius; x < radius; x++)`,
      into a fresh zeroed table. */
  method FillHalfOpen<K>(weight: (K, int) -> real, key: K, radius: int) returns (kernel: array<real>)
    requires radius >= 0
    ensures fresh(kernel) && kernel[..] == Raw(weight, key, radius, true)
  {
    var kernelSize := 2 * radius + 1;
    var sqSz := kernelSize * kernelSize;
    ghost var t := Raw(weight, key, radius, true);
    kernel := new real[sqSz](_ => 0.0);
    var y := -radius;
    var yOffs := 0;
    while y < radius
      invariant -radius <= y <= radius
      invariant yOffs == (y + radius) * kernelSize && yOffs <= sqSz
      invariant forall c :: 0 <= c < yOffs ==> kernel[c] == t[c]
      invariant forall c :: yOffs <= c < sqSz ==> kernel[c] == 0.0
    {
      RowEnd(y + radius, kernelSize, kernelSize);
      FillHalfOpenRow(kernel, weight, key, radius, y, yOffs, t);
      yOffs := yOffs + kernelSize;
      y := y + 1;
    }
    forall c | yOffs <= c < sqSz ensures t[c] == 0.0 {
      Decode(c, 2 * radius, c - yOffs, kernelSize);
    }
  }

  /** One row of the float64 fill: the inner `x` loop, which leaves the last
      cell of the row at 0. */
  method FillHalfOpenRow<K>(kernel: array<real>, weight: (K, int) -> real, key: K, radius: int, y: int, yOffs: int,
                            ghost t: seq<real>)
    requires radius >= 0 && -radius <= y < radius && yOffs == (y + radius) * (2 * radius + 1)
    requires kernel.Length == |t| && 0 <= yOffs && yOffs + (2 * radius + 1) <= |t|
    requires forall c :: 0 <= c < |t| ==> t[c] == RawAt(weight, key, radius, true, c)
    requires forall c :: yOffs <= c < |t| ==> kernel[c] == 0.0
    modifies kernel
    ensures forall c :: 0 <= c < yOffs ==> kernel[c] == old(kernel[c])
    ensures forall c :: yOffs <= c < yOffs + (2 * radius + 1) ==> kernel[c] == t[c]
    ensures forall c :: yOffs + (2 * radius + 1) <= c < |t| ==> kernel[c] == 0.0
  {
    var kernelSize := 2 * radius + 1;
    var dbY := y * y;
    var x := -radius;
    while x < radius
      invariant -radius <= x <= radius
      invariant forall c :: 0 <= c < yOffs ==> kernel[c] == old(kernel[c])
      invariant forall c :: yOffs <= c < yOffs + (x + radius) ==> kernel[c] == t[c]
      invariant forall c :: yOffs + (x + radius) <= c < |t| ==> kernel[c] == 0.0
    {
      var c := yOffs + (x + radius);
      RawAtCell(weight, key, radius, true, y, x, c);
      var val := weight(key, x * x + dbY);
      kernel[c] := val;
      x := x + 1;
    }
    Decode(yOffs + 2 * radius, y + radius, 2 * radius, kernelSize);
  }

  /** The float16 and utilities fill: `for (y = -radius; y <= radius; y++)
      for (x = -radius; x <= radius; x++)`, adding each weight to `sum` as it
      is written. */
  method FillClosed<K>(weight: (K, int) -> real, key: K, radius: int) returns (kernel: array<real>, sum: real)
    requires radius >= 0
    ensures fresh(kernel) && kernel[..] == Raw(weight, key, radius, false)
    ensures sum == Total(kernel[..])
  {
    var kernelSize := 2 * radius + 1;
    var sqSz := kernelSize * kernelSize;
    ghost var t := Raw(weight, key, radius, false);
    kernel := new real[sqSz];
    sum := 0.0;
    var y := -radius;
    var yOffs := 0;
    while y <= radius
      invariant -radius <= y <= radius + 1
      invariant yOffs == (y + radius) * kernelSize && yOffs <= sqSz
      invariant forall c :: 0 <= c < yOffs ==> kernel[c] == t[c]
      invariant sum == Total(t[..yOffs])
    {
      RowEnd(y + radius, kernelSize, kernelSize);
      sum := FillClosedRow(kernel, weight, key, radius, y, yOffs, t, sum);
      yOffs := yOffs + kernelSize;
      y := y + 1;
    }
    assert kernel[..] == t;
    assert t[..yOffs] == t;
  }

  /** One row of the float16 fill: the inner `x` loop with its running sum. */
  method FillClosedRow<K>(kernel: array<real>, weight: (K, int) -> real, key: K, radius: int, y: int, yOffs: int,
                          ghost t: seq<real>, sum0: real) returns (sum: real)
    requires radius >= 0 && -radius <= y <= radius && yOffs == (y + radius) * (2 * radius + 1)
    requires kernel.Length == |t| && 0 <= yOffs && yOffs + (2 * radius + 1) <= |t|
    requires forall c :: 0 <= c < |t| ==> t[c] == RawAt(weight, key, radius, false, c)
    requires sum0 == Total(t[..yOffs])
    modifies kernel
    ensures forall c :: 0 <= c < yOffs ==> kernel[c] == old(kernel[c])
    ensures forall c :: yOffs <= c < yOffs + (2 * radius + 1) ==> kernel[c] == t[c]
    ensures sum == Total(t[..yOffs + (2 * radius + 1)])
  {
    var kernelSize := 2 * radius + 1;
    sum := sum0;
    var x := -radius;
    var c := yOffs;
    while x <= radius
      invariant -radius <= x <= radius + 1 && c == yOffs + (x + radius)
      invariant forall i :: 0 <= i < yOffs ==> kernel[i] == old(kernel[i])
      invariant forall i :: yOffs <= i < c ==> kernel[i] == t[i]
      invariant sum == Total(t[..c])
    {
      RawAtCell(weight, key, radius, false, y, x, c);
      var val := weight(key, x * x + y * y);
      kernel[c] := val;
      TotalSnoc(t, c);
      sum := sum + val;
      x := x + 1;
      c := c + 1;
    }
  }

  /** The float64 sum loop: `for (i = 0; i < sqSz; i++) sum += kernel[i]`. */
  method SumTable(kernel: array<real>) returns (sum: real)
    ensures sum == Total(kernel[..])
  {
    sum := 0.0;
    for i := 0 to kernel.Length
      invariant sum == Total(kernel[..i])
    {
      TotalSnoc(kernel[..], i);
      assert kernel[..][..i + 1] == kernel[..i + 1] && kernel[..][..i] == kernel[..i];
      sum := sum + kernel[i];
    }
    assert kernel[..kernel.Length] == kernel[..];
  }

  /** `for (i = 0; i < length; i++) kernel[i] /= sum`. */
  method DivideBy(kernel: array<real>, sum: real)
    requires sum != 0.0
    modifies kernel
    ensures kernel[..] == Divided(old(kernel[..]), sum)
  {
    ghost var t := kernel[..];
    for i := 0 to kernel.Length
      invariant forall j :: 0 <= j < i ==> kernel[j] == t[j] / sum
      invariant forall j :: i <= j < kernel.Length ==> kernel[j] == t[j]
    {
      kernel[i] := kernel[i] / sum;
    }
  }

  /** A new float64 table: fill, then sum, then divide. */
  method Build64<K(!new)>(weight: (K, int) -> real, key: K, radius: nat) returns (kernel: array<real>)
    requires PositiveWeight(weight) && radius >= 1
    ensures fresh(kernel) && kernel[..] == Table(weight, key, radius, true)
  {
    kernel := FillHalfOpen(weight, key, radius);
    RawPositive(weight, key, radius, true);
    var sum := SumTable(kernel);
    DivideBy(kernel, sum);
  }

  /** A new float16 (or utilities) table: fill while summing, then divide. */
  method Build16<K(!new)>(weight: (K, int) -> real, key: K, radius: nat) returns (kernel: array<real>)
    requires PositiveWeight(weight)
    ensures fresh(kernel) && kernel[..] == Table(weight, key, radius, false)
  {
    var sum;
    kernel, sum := FillClosed(weight, key, radius);
    RawPositive(weight, key, radius, false);
    DivideBy(kernel, sum);
  }

  // ---------------------------------------------------------------------------
  // The caches
  // ---------------------------------------------------------------------------

  /** The float64 cache key: `sigma + "," + multiplier`, or
      `sigma + "," + exponent + "," + multiplier` for the tail Gaussian. */
  datatype Key64 = Plain(sigma: real, mult: real) | Tail(sigma: real, exp: real, mult: real)

  /** The key the float64 `_getGaussianKernelLUT` builds from its configuration. */
  function KeyOf(sigma: real, mult: real, useTail: bool, tailExp: real): (key: Key64)
    ensures key.sigma == sigma && key.mult == mult && (key.Tail? <==> useTail)
    ensures useTail ==> key.exp == tailExp
  {
    if useTail then Tail(sigma, tailExp, mult) else Plain(sigma, mult)
  }

  /** `Math.ceil(multiplier * sigma)`. */
  function Radius64(key: Key64): int {
    Ceil(key.mult * key.sigma)
  }

  /** The float64 table of a key. */
  function Table64(weight: (Key64, int) -> real, key: Key64): (k: seq<real>)
    requires PositiveWeight(weight) && Radius64(key) >= 1
  {
    Table(weight, key, Radius64(key), true)
  }

  /** The module-level `Map` of the float64 file, from key to table. */
  class GaussianKernelLut64 {
    var entries: map<Key64, array<real>>
    const weight: (Key64, int) -> real

    /** Every cached array holds the table of its key. */
    ghost predicate Valid()
      reads this, entries.Values
    {
      && PositiveWeight(weight)
      && forall key :: key in entries ==> Holds(key, entries[key])
    }

    /** The array `a` holds the table of `key`. */
    ghost predicate Holds(key: Key64, a: array<real>)
      reads a
    {
      PositiveWeight(weight) && Radius64(key) >= 1 && a[..] == Table64(weight, key)
    }

    constructor(weight: (Key64, int) -> real)
      requires PositiveWeight(weight)
      ensures Valid() && entries == map[] && this.weight == weight
    {
      this.weight := weight;
      entries := map[];
    }

    /**
     * `_getGaussianKernelLUT(sigma)` of the float64 file, under the radius
     * multiplier and tail settings given. A key seen before returns the very
     * array cached for it; a new key builds its table (fill, sum, divide),
     * caches it, and returns it.
     */
    method Get(sigma: real, mult: real, useTail: bool, tailExp: real) returns (kernel: array<real>)
      requires Valid() && mult * sigma > 0.0
      modifies this
      ensures Valid()
      ensures var key := KeyOf(sigma, mult, useTail, tailExp);
        && kernel.Length == Side(Radius64(key)) * Side(Radius64(key))
        && kernel[..] == Table64(weight, key)
        && (key in old(entries) ==> kernel == old(entries)[key] && entries == old(entries))
        && (key !in old(entries) ==> fresh(kernel) && entries == old(entries)[key := kernel])
    {
      var key := KeyOf(sigma, mult, useTail, tailExp);
      if key !in entries {
        var radius := Radius64(key);
        kernel := Build64(weight, key, radius);
        ghost var before := entries;
        entries := entries[key := kernel];
        forall other | other in entries ensures Holds(other, entries[other]) {
          if other != key {
            assert entries[other] == before[other] && Holds(other, before[other]);
          }
        }
      }
      kernel := entries[key];
    }
  }

  /** `Math.ceil(3 * sigma)`, the radius of the float16 and utilities tables. */
  function Radius16(sigma: real): int {
    Ceil(3.0 * sigma)
  }

  /** A `Map` from sigma to table: the cache of the float16 `_getGaussianKernelLUT`
      and of each of `_getGaussianKernelLUTFloat16`, `Float32` and `Float64`. */
  class GaussianKernelLut {
    var entries: map<real, array<real>>
    const weight: (real, int) -> real

    ghost predicate Valid()
      reads this, entries.Values
    {
      && PositiveWeight(weight)
      && forall sigma :: sigma in entries ==>
           Radius16(sigma) >= 0 && entries[sigma][..] == Table(weight, sigma, Radius16(sigma), false)
    }

    constructor(weight: (real, int) -> real)
      requires PositiveWeight(weight)
      ensures Valid() && entries == map[] && this.weight == weight
    {
      this.weight := weight;
      entries := map[];
    }

    /** A sigma seen before returns the very array cached for it; a new sigma
        builds its table (fill with running sum, divide), caches it and
        returns it. */
    method Get(sigma: real) returns (kernel: array<real>)
      requires Valid() && sigma > 0.0
      modifies this
      ensures Valid()
      ensures kernel.Length == Side(Radius16(sigma)) * Side(Radius16(sigma))
      ensures kernel[..] == Table(weight, sigma, Radius16(sigma), false)
      ensures sigma in old(entries) ==> kernel == old(entries)[sigma] && entries == old(entries)
      ensures sigma !in old(entries) ==> fresh(kernel) && entries == old(entries)[sigma := kernel]
    {
      if sigma !in entries {
        var radius := Ceil(3.0 * sigma);
        kernel := Build16(weight, sigma, radius);
        entries := entries[sigma := kernel];
      }
      kernel := entries[sigma];
    }
  }
}
