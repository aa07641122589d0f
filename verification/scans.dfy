/**
 * The linear scans every phase uses to pick a cell: the first cell of a given
 * value whose energy is strictly higher (or lower) than that of every earlier
 * candidate, and the variant of the float64 generator that breaks exact energy
 * ties on a second, saved energy map.
 *
 * A scan starts from `value = -Infinity` (or `+Infinity`) and an index that is
 * either undefined or 0; `Ext` is a real extended with the two infinities.
 */
module Scans {

  datatype Option<T> = None | Some(value: T)

  /** Which extreme a scan looks for. */
  datatype Dir = Highest | Lowest

  /** A real number or one of the two infinities a scan starts from. */
  datatype Ext = NegInf | PosInf | Fin(v: real)

  /** The running value a scan starts from: -Infinity when it looks for the
      highest energy, +Infinity when it looks for the lowest. */
  function Start(dir: Dir): Ext {
    if dir == Highest then NegInf else PosInf
  }

  /** `x > value` (or `x < value`) with the infinities of JavaScript. */
  predicate Beats(x: real, value: Ext, dir: Dir) {
    match value
    case NegInf => dir == Highest
    case PosInf => dir == Lowest
    case Fin(w) => if dir == Highest then x > w else x < w
  }

  /** `x` is strictly better than `y` in direction `dir`. */
  predicate Better(x: real, y: real, dir: Dir) {
    if dir == Highest then x > y else x < y
  }

  /** The first cell i < n with bits[i] == want whose energy strictly beats
      every earlier such cell: where the plain scan leaves its index. */
  function FirstBest(bits: seq<int>, e: seq<real>, want: int, dir: Dir, n: int): (r: Option<int>)
    requires |bits| == |e| && 0 <= n <= |bits|
    ensures r.None? <==> forall j :: 0 <= j < n ==> bits[j] != want
    ensures r.Some? ==> 0 <= r.value < n && bits[r.value] == want
    ensures r.Some? ==> forall j {:trigger e[j]} :: 0 <= j < n && bits[j] == want ==> !Better(e[j], e[r.value], dir)
    ensures r.Some? ==> forall j {:trigger e[j]} :: 0 <= j < r.value && bits[j] == want ==> Better(e[r.value], e[j], dir)
  {
    if n == 0 then None
    else
      var r := FirstBest(bits, e, want, dir, n - 1);
      if bits[n - 1] == want && (r.None? || Better(e[n - 1], e[r.value], dir)) then Some(n - 1) else r
  }

  /** The cell a scan must return, stated without the scan: a candidate that no
      candidate beats and that strictly beats every earlier candidate. */
  predicate IsFirstBest(bits: seq<int>, e: seq<real>, want: int, dir: Dir, i: int)
    requires |bits| == |e|
  {
    && 0 <= i < |bits| && bits[i] == want
    && (forall j :: 0 <= j < |bits| && bits[j] == want ==> !Better(e[j], e[i], dir))
    && (forall j :: 0 <= j < i && bits[j] == want ==> Better(e[i], e[j], dir))
  }

  /** The scan returns exactly the cell that satisfies IsFirstBest. */
  lemma FirstBestUnique(bits: seq<int>, e: seq<real>, want: int, dir: Dir, i: int)
    requires |bits| == |e|
    ensures FirstBest(bits, e, want, dir, |bits|) == Some(i) <==> IsFirstBest(bits, e, want, dir, i)
  {
    var r := FirstBest(bits, e, want, dir, |bits|);
    if IsFirstBest(bits, e, want, dir, i) {
      assert r.Some?;
      var c := r.value;
      assert !Better(e[i], e[c], dir) && !Better(e[c], e[i], dir);
    }
  }

  /** The plain scan: `for (j...) if (bits[j] === want && e[j] > value) { value = e[j]; idx = j; }`
      (with `<` when `dir` is Lowest); `idx` stays undefined when no cell qualifies. */
  method ScanBest(bits: array<int>, e: array<real>, want: int, dir: Dir) returns (idx: Option<int>)
    requires bits.Length == e.Length
    ensures idx == FirstBest(bits[..], e[..], want, dir, bits.Length)
  {
    var value := Start(dir);
    idx := None;
    for j := 0 to bits.Length
      invariant idx == FirstBest(bits[..], e[..], want, dir, j)
      invariant value == (if idx.Some? then Fin(e[idx.value]) else Start(dir))
    {
      var blurredValue := e[j];
      if bits[j] == want && Beats(blurredValue, value, dir) {
        value := Fin(blurredValue);
        idx := Some(j);
      }
    }
  }

  // ---------------------------------------------------------------------------
  // The tie-breaking scan of the float64 generator
  // ---------------------------------------------------------------------------

  /** The three variables of the tie-breaking scan. */
  datatype TieState = TieState(value: Ext, valueTemp: Ext, idx: int)

  /** One cell of the tie-breaking scan. A candidate that strictly beats
      `value` takes over; one whose energy equals `value` takes over when its
      saved energy beats `valueTemp`, which only this branch ever updates. */
  function TieStep(st: TieState, candidate: bool, ev: real, tv: real, cell: int, dir: Dir): TieState {
    if !candidate then st
    else if Beats(ev, st.value, dir) then TieState(Fin(ev), st.valueTemp, cell)
    else if st.value == Fin(ev) then
      if Beats(tv, st.valueTemp, dir) then TieState(st.value, Fin(tv), cell) else st
    else st
  }

  /** The cells of `cl` that hold `want`. */
  predicate AnyCandidate(cl: seq<int>, bits: seq<int>, want: int, n: int)
    requires 0 <= n <= |cl| && forall j :: 0 <= j < |cl| ==> 0 <= cl[j] < |bits|
  {
    exists j :: 0 <= j < n && bits[cl[j]] == want
  }

  /** The tie-breaking scan over the first n cells of the list `cl`. */
  function TieBest(cl: seq<int>, bits: seq<int>, want: int, e: seq<real>, et: seq<real>, dir: Dir, n: int): (r: TieState)
    requires |bits| == |e| == |et| && 0 <= n <= |cl|
    requires forall j :: 0 <= j < |cl| ==> 0 <= cl[j] < |bits|
  {
    if n == 0 then TieState(Start(dir), Start(dir), 0)
    else
      var st := TieBest(cl, bits, want, e, et, dir, n - 1);
      var c := cl[n - 1];
      TieStep(st, bits[c] == want, e[c], et[c], c, dir)
  }

  /** The index the tie-breaking scan ends with is a candidate whose energy no
      candidate beats (when there is a candidate), and 0 otherwise. */
  lemma {:induction false} TieBestIsBest(cl: seq<int>, bits: seq<int>, want: int, e: seq<real>, et: seq<real>, dir: Dir, n: int)
    requires |bits| == |e| == |et| && 0 <= n <= |cl|
    requires forall j :: 0 <= j < |cl| ==> 0 <= cl[j] < |bits|
    ensures var r := TieBest(cl, bits, want, e, et, dir, n);
      && (!AnyCandidate(cl, bits, want, n) ==> r == TieState(Start(dir), Start(dir), 0))
      && (AnyCandidate(cl, bits, want, n) ==>
            && r.idx in cl[..n] && bits[r.idx] == want && r.value == Fin(e[r.idx])
            && forall j :: 0 <= j < n && bits[cl[j]] == want ==> !Better(e[cl[j]], e[r.idx], dir))
  {
    if n > 0 {
      TieBestIsBest(cl, bits, want, e, et, dir, n - 1);
      assert cl[..n] == cl[..n - 1] + [cl[n - 1]];
    }
  }

  /** The float64 generator's scan over the list `cl`, as written. */
  method ScanTieBest(cl: seq<int>, bits: array<int>, want: int, e: array<real>, et: array<real>, dir: Dir)
    returns (idx: int)
    requires bits.Length == e.Length == et.Length
    requires forall j :: 0 <= j < |cl| ==> 0 <= cl[j] < bits.Length
    ensures idx == TieBest(cl, bits[..], want, e[..], et[..], dir, |cl|).idx
  {
    idx := 0;
    var value := Start(dir);
    var valueTemp := Start(dir);
    for i := 0 to |cl|
      invariant TieState(value, valueTemp, idx) == TieBest(cl, bits[..], want, e[..], et[..], dir, i)
    {
      var dotsIndex := cl[i];
      if bits[dotsIndex] == want {
        var blurredValue := e[dotsIndex];
        if Beats(blurredValue, value, dir) {
          value := Fin(blurredValue);
          idx := dotsIndex;
        } else if value == Fin(blurredValue) {
          var blurredTempValue := et[dotsIndex];
          if Beats(blurredTempValue, valueTemp, dir) {
            valueTemp := Fin(blurredTempValue);
            idx := dotsIndex;
          }
        }
      }
    }
  }

  /** The phase-2 scan of the float64 generator, which visits every cell in
      order rather than a list: the same steps as ScanTieBest over 0, 1, ..., N-1. */
  method ScanTieBestAll(bits: array<int>, want: int, e: array<real>, et: array<real>, dir: Dir) returns (idx: int)
    requires bits.Length == e.Length == et.Length
    ensures idx == TieBest(AllCells(bits.Length), bits[..], want, e[..], et[..], dir, bits.Length).idx
  {
    ghost var cl := AllCells(bits.Length);
    idx := 0;
    var value := Start(dir);
    var valueTemp := Start(dir);
    for i := 0 to bits.Length
      invariant TieState(value, valueTemp, idx) == TieBest(cl, bits[..], want, e[..], et[..], dir, i)
    {
      assert cl[i] == i;
      if bits[i] == want {
        var blurredValue := e[i];
        if Beats(blurredValue, value, dir) {
          value := Fin(blurredValue);
          idx := i;
        } else if value == Fin(blurredValue) {
          var blurredTempValue := et[i];
          if Beats(blurredTempValue, valueTemp, dir) {
            valueTemp := Fin(blurredTempValue);
            idx := i;
          }
        }
      }
    }
  }

  /** The list 0, 1, ..., n-1: the phase-2 scan visits every cell in order. */
  function AllCells(n: nat): (cl: seq<int>)
    ensures |cl| == n && forall j :: 0 <= j < n ==> cl[j] == j
  {
    seq(n, j => j)
  }

  /** On an exact tie the winner is not the tied cell with the best saved
      energy: `valueTemp` still holds its start value when the first tie is
      met, so the later of two tied cells wins even with a worse saved energy. */
  lemma TieIgnoresLeaderSavedEnergy()
    ensures TieBest([0, 1], [1, 1], 1, [2.0, 2.0], [5.0, 3.0], Highest, 2).idx == 1
  {
    var st0 := TieBest([0, 1], [1, 1], 1, [2.0, 2.0], [5.0, 3.0], Highest, 0);
    var st1 := TieBest([0, 1], [1, 1], 1, [2.0, 2.0], [5.0, 3.0], Highest, 1);
    assert st0 == TieState(NegInf, NegInf, 0);
    assert st1 == TieState(Fin(2.0), NegInf, 0);
  }
}
