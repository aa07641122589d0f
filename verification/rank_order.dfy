/**
 * The order in which the rank phases visit the cells, stated on values. A
 * phase repeats one round a counted number of times: pick a cell (the plain
 * scan, or the float64 tie-breaking scan over a list with a saved energy
 * map), flip it, give it the next rank value and apply its delta to the
 * energy map. The rank arrays of the generators are compositions of such
 * runs, each starting from the energy map the source sets up before it.
 */
module RankOrder {
  import opened Convolution
  import opened Patterns
  import opened Scans
  import opened Ranks

  /** What a phase works on: the pattern whose cells it flips, the rank
      array, and the energy map. */
  datatype Progress = Progress(bits: seq<int>, ranks: seq<int>, e: seq<real>)

  /** How a phase picks its cell: the plain scan over every cell, or the
      tie-breaking scan over the list `cl`, which settles exact ties on the
      saved energy map `et`. */
  datatype Picker = Plain | Tie(cl: seq<int>, et: seq<real>)

  /** A phase: its picker, the cell value it looks for (the picked cell is
      flipped to `1 - want`), the extreme it wants, the delta it applies to
      the picked cell, and the step between consecutive rank values. */
  datatype Phase = Phase(picker: Picker, want: int, dir: Dir, amount: real, stride: int)

  predicate Sized(s: Shape, k: seq<real>, st: Progress) {
    Fits(s, st.bits, k) && |st.ranks| == |st.bits| && |st.e| == |st.bits|
  }

  predicate PickerFits(pk: Picker, n: int) {
    pk.Tie? ==> |pk.et| == n && forall j :: 0 <= j < |pk.cl| ==> 0 <= pk.cl[j] < n
  }

  /** Cell j is one the phase may pick: it holds `want` and, for the
      tie-breaking scan, it is on the list. */
  predicate Eligible(ph: Phase, bits: seq<int>, j: int)
    requires 0 <= j < |bits|
  {
    bits[j] == ph.want && (ph.picker.Tie? ==> j in ph.picker.cl)
  }

  /** The cell a round picks. The plain scan leaves its index undefined when
      no cell qualifies (None); the tie-breaking scan then keeps its initial
      index 0. When some cell qualifies, the pick is a qualifying cell whose
      energy no qualifying cell beats. */
  function Pick(ph: Phase, bits: seq<int>, e: seq<real>): (r: Option<int>)
    requires 0 < |bits| && |e| == |bits| && PickerFits(ph.picker, |bits|)
    ensures r.Some? ==> 0 <= r.value < |bits|
    ensures (exists j :: 0 <= j < |bits| && Eligible(ph, bits, j)) ==>
      && r.Some? && Eligible(ph, bits, r.value)
      && forall j :: 0 <= j < |bits| && Eligible(ph, bits, j) ==> !Better(e[j], e[r.value], ph.dir)
    ensures ph.picker.Plain? && r.None? ==> forall j :: 0 <= j < |bits| ==> !Eligible(ph, bits, j)
    ensures ph.picker.Plain? && r.Some? ==> bits[r.value] == ph.want
  {
    match ph.picker
    case Plain => FirstBest(bits, e, ph.want, ph.dir, |bits|)
    case Tie(cl, et) =>
      TiePickIsBest(ph, bits, e);
      Some(TieBest(cl, bits, ph.want, e, et, ph.dir, |cl|).idx)
  }

  lemma TiePickIsBest(ph: Phase, bits: seq<int>, e: seq<real>)
    requires ph.picker.Tie? && 0 < |bits| && |e| == |bits| && PickerFits(ph.picker, |bits|)
    ensures var r := TieBest(ph.picker.cl, bits, ph.want, e, ph.picker.et, ph.dir, |ph.picker.cl|);
      && 0 <= r.idx < |bits|
      && ((exists j :: 0 <= j < |bits| && Eligible(ph, bits, j)) ==>
            && Eligible(ph, bits, r.idx)
            && forall j :: 0 <= j < |bits| && Eligible(ph, bits, j) ==> !Better(e[j], e[r.idx], ph.dir))
  {
    var cl := ph.picker.cl;
    assert cl[..|cl|] == cl;
    var r := TieBest(cl, bits, ph.want, e, ph.picker.et, ph.dir, |cl|);
    TieBestIsBest(cl, bits, ph.want, e, ph.picker.et, ph.dir, |cl|);
    if exists j :: 0 <= j < |bits| && Eligible(ph, bits, j) {
      var j :| 0 <= j < |bits| && Eligible(ph, bits, j);
      var m :| 0 <= m < |cl| && cl[m] == j;
      assert AnyCandidate(cl, bits, ph.want, |cl|);
      forall j' | 0 <= j' < |bits| && Eligible(ph, bits, j') ensures !Better(e[j'], e[r.idx], ph.dir) {
        var m' :| 0 <= m' < |cl| && cl[m'] == j';
        assert bits[cl[m']] == ph.want;
      }
    }
  }

  /** One round with rank value `value`: the picked cell is flipped to
      `1 - want`, ranked `value`, and its delta applied. Every cell that
      changes now holds `1 - want` with rank `value`, and at most one does. */
  function Step(s: Shape, k: seq<real>, ph: Phase, st: Progress, value: int): (r: Progress)
    requires Sized(s, k, st) && PickerFits(ph.picker, |st.bits|)
    ensures Sized(s, k, r)
  {
    assert 0 < s.width * s.height;
    match Pick(ph, st.bits, st.e)
    case None => st
    case Some(c) => Progress(st.bits[c := 1 - ph.want], st.ranks[c := value], DeltaApplied(s, k, st.e, c, ph.amount))
  }

  /** A round whose pick is the cell `c`. */
  lemma StepAt(s: Shape, k: seq<real>, ph: Phase, st: Progress, value: int, c: int)
    requires Sized(s, k, st) && PickerFits(ph.picker, |st.bits|)
    requires 0 < |st.bits| && Pick(ph, st.bits, st.e) == Some(c)
    ensures 0 <= c < |st.bits|
    ensures Step(s, k, ph, st, value) ==
      Progress(st.bits[c := 1 - ph.want], st.ranks[c := value], DeltaApplied(s, k, st.e, c, ph.amount))
  {
  }

  /** `count` rounds with the rank values first, first + stride, ... */
  function RunPhase(s: Shape, k: seq<real>, ph: Phase, st: Progress, first: int, count: nat): (r: Progress)
    requires Sized(s, k, st) && PickerFits(ph.picker, |st.bits|)
    ensures Sized(s, k, r)
    decreases count
  {
    if count == 0 then st else RunPhase(s, k, ph, Step(s, k, ph, st, first), first + ph.stride, count - 1)
  }

  /** `count` rounds from `st` with the rank values first, first + stride,
      ... end in `goal`. */
  predicate Reaches(s: Shape, k: seq<real>, ph: Phase, st: Progress, first: int, count: nat, goal: Progress) {
    Sized(s, k, st) && PickerFits(ph.picker, |st.bits|) && goal == RunPhase(s, k, ph, st, first, count)
  }

  /** The loop invariant of every phase: the rest of a run from the state
      after one round is what remains of the run from before it. */
  lemma RunPhaseAdvance(s: Shape, k: seq<real>, ph: Phase, spec: Progress, st: Progress, st': Progress,
                        first: int, next: int, count: nat, rest: nat)
    requires Sized(s, k, st) && PickerFits(ph.picker, |st.bits|)
    requires next == first + ph.stride && count == rest + 1
    requires spec == RunPhase(s, k, ph, st, first, count) && st' == Step(s, k, ph, st, first)
    ensures Sized(s, k, st') && spec == RunPhase(s, k, ph, st', next, rest)
  {
  }

  /** A round changes at most one cell, and the cell it changes then holds
      `1 - want` with rank `value`. */
  lemma StepFlips(s: Shape, k: seq<real>, ph: Phase, st: Progress, value: int)
    requires Sized(s, k, st) && PickerFits(ph.picker, |st.bits|)
    ensures var r := Step(s, k, ph, st, value);
      && (forall i :: 0 <= i < |st.bits| && (r.bits[i] != st.bits[i] || r.ranks[i] != st.ranks[i]) ==>
            r.bits[i] == 1 - ph.want && r.ranks[i] == value)
      && (forall i, j :: 0 <= i < j < |st.bits| && (r.bits[i] != st.bits[i] || r.ranks[i] != st.ranks[i]) ==>
            r.bits[j] == st.bits[j] && r.ranks[j] == st.ranks[j])
  {
  }

  /** After a run, every cell whose value or rank it changed holds
      `1 - want`: no round undoes an earlier one. */
  lemma {:induction false} RunPhaseFlips(s: Shape, k: seq<real>, ph: Phase, st: Progress, first: int, count: nat)
    requires Sized(s, k, st) && PickerFits(ph.picker, |st.bits|)
    ensures var r := RunPhase(s, k, ph, st, first, count);
      forall i :: 0 <= i < |st.bits| && (r.bits[i] != st.bits[i] || r.ranks[i] != st.ranks[i]) ==> r.bits[i] == 1 - ph.want
    decreases count
  {
    if count > 0 {
      var mid := Step(s, k, ph, st, first);
      StepFlips(s, k, ph, st, first);
      RunPhaseFlips(s, k, ph, mid, first + ph.stride, count - 1);
    }
  }

  /** A cell that still holds `want` after a run was never picked, so it
      keeps its rank. */
  lemma RunPhaseKeepsUnpicked(s: Shape, k: seq<real>, ph: Phase, st: Progress, first: int, count: nat, r: Progress)
    requires Sized(s, k, st) && PickerFits(ph.picker, |st.bits|)
    requires r == RunPhase(s, k, ph, st, first, count)
    ensures forall i :: 0 <= i < |st.bits| && r.bits[i] == ph.want ==> r.ranks[i] == st.ranks[i]
  {
    RunPhaseFlips(s, k, ph, st, first, count);
  }

  /** With a point-symmetric kernel, a plain phase whose delta is the change
      of the picked cell (+1 when it sets a 0, -1 when it clears a 1) keeps
      the energy map the blur of the pattern, round after round. */
  lemma {:induction false} RunPhaseKeepsBlur(s: Shape, k: seq<real>, ph: Phase, st: Progress, first: int, count: nat,
                                             r: Progress)
    requires Sized(s, k, st) && ph.picker.Plain? && PointSymmetric(s, k)
    requires ph.amount == (1 - 2 * ph.want) as real && st.e == Blur(s, st.bits, k)
    requires r == RunPhase(s, k, ph, st, first, count)
    ensures r.e == Blur(s, r.bits, k)
    decreases count
  {
    if count > 0 {
      var mid := Step(s, k, ph, st, first);
      var pick := Pick(ph, st.bits, st.e);
      if pick.Some? {
        StepAt(s, k, ph, st, first, pick.value);
        DeltaMatchesSet(s, st.bits, k, pick.value, 1 - ph.want);
      }
      RunPhaseKeepsBlur(s, k, ph, mid, first + ph.stride, count - 1, r);
    }
  }

  /** The same for phase 3, whose energy map is the blur of the inverted
      pattern: setting an empty cell clears it in the inverted pattern, which
      the -1 delta accounts for. */
  lemma {:induction false} RunPhaseKeepsComplementBlur(s: Shape, k: seq<real>, ph: Phase, st: Progress,
                                                       first: int, count: nat, r: Progress)
    requires Sized(s, k, st) && ph.picker.Plain? && PointSymmetric(s, k)
    requires ph.want == 0 && ph.amount == -1.0 && st.e == Blur(s, Complement(st.bits), k)
    requires r == RunPhase(s, k, ph, st, first, count)
    ensures r.e == Blur(s, Complement(r.bits), k)
    decreases count
  {
    if count > 0 {
      var mid := Step(s, k, ph, st, first);
      var pick := Pick(ph, st.bits, st.e);
      if pick.Some? {
        StepAt(s, k, ph, st, first, pick.value);
        ComplementDelta(s, st.bits, k, pick.value);
      }
      RunPhaseKeepsComplementBlur(s, k, ph, mid, first + ph.stride, count - 1, r);
    }
  }

  /** The number of cells of a binary pattern that hold `v`. */
  function Holding(bits: seq<int>, v: int): int {
    if v == 1 then Ones(bits) else |bits| - Ones(bits)
  }

  /** Every cell of `seed` that holds `want` is one the phase's picker
      scans: always for the plain scan, and for the tie-breaking scan when
      its list names each such cell. */
  predicate Covers(ph: Phase, seed: seq<int>) {
    && PickerFits(ph.picker, |seed|)
    && (ph.picker.Tie? ==> forall j :: 0 <= j < |seed| && seed[j] == ph.want ==> j in ph.picker.cl)
  }

  /** While some cell holds `want` and the picker scans every such cell, a
      round picks one of them, flips it and ranks it: one cell fewer holds
      `want`. */
  lemma StepMoves(s: Shape, k: seq<real>, ph: Phase, st: Progress, value: int) returns (c: int)
    requires Sized(s, k, st) && Covers(ph, st.bits) && (ph.want == 0 || ph.want == 1)
    requires Binary(st.bits) && Holding(st.bits, ph.want) > 0
    ensures 0 <= c < |st.bits| && st.bits[c] == ph.want
    ensures Step(s, k, ph, st, value) ==
      Progress(st.bits[c := 1 - ph.want], st.ranks[c := value], DeltaApplied(s, k, st.e, c, ph.amount))
    ensures Binary(st.bits[c := 1 - ph.want])
    ensures Holding(st.bits[c := 1 - ph.want], ph.want) == Holding(st.bits, ph.want) - 1
  {
    var j;
    if ph.want == 1 {
      j := SomeOne(st.bits);
    } else {
      j := SomeZero(st.bits);
    }
    assert Eligible(ph, st.bits, j);
    c := Pick(ph, st.bits, st.e).value;
    OnesUpdate(st.bits, c, 1 - ph.want);
  }

  /** A picker that scans every cell of the seed holding `v` scans every
      cell of a tracked pattern holding `v`. */
  lemma CoversTracked(ph: Phase, seed: seq<int>, bits: seq<int>)
    requires Covers(ph, seed) && |bits| == |seed| && StillHeld(seed, bits, ph.want)
    ensures Covers(ph, bits)
  {
  }

  /** The bookkeeping of a phase that moves cells holding `v` in `seed`: the
      pattern is binary, every cell that still holds `v` held it in the
      seed, the cells moved so far carry distinct ranks in [lo, hi), and the
      cells that never held `v` keep the ranks of `before`. */
  predicate Tracked(seed: seq<int>, before: seq<int>, bits: seq<int>, ranks: seq<int>, v: int, lo: int, hi: int) {
    && |seed| == |before| == |bits| == |ranks| && Binary(bits) && StillHeld(seed, bits, v)
    && Ranked(seed, bits, ranks, v, lo, hi) && Untouched(seed, v, ranks, before)
  }

  /** Every cell that holds `v` in `bits` held it in `seed`. */
  predicate StillHeld(seed: seq<int>, bits: seq<int>, v: int)
    requires |seed| == |bits|
  {
    forall i :: 0 <= i < |bits| && bits[i] == v ==> seed[i] == v
  }

  /** A phase starts tracked: its pattern holds `v` only where the seed
      does (for the dots, the pattern lies within the seed; for the empty
      cells, the seed lies within the pattern). */
  lemma TrackedStart(seed: seq<int>, before: seq<int>, bits: seq<int>, ranks: seq<int>, v: int, lo: int, hi: int)
    requires |seed| == |before| == |bits| == |ranks| && Binary(seed) && Binary(bits) && (v == 0 || v == 1)
    requires v == 1 ==> Within(bits, seed)
    requires v == 0 ==> Within(seed, bits)
    requires Ranked(seed, bits, ranks, v, lo, hi) && Untouched(seed, v, ranks, before)
    ensures Tracked(seed, before, bits, ranks, v, lo, hi)
  {
    forall i | 0 <= i < |bits| && bits[i] == v ensures seed[i] == v {
      assert seed[i] == 0 || seed[i] == 1;
    }
  }

  /** ... and a tracked pattern keeps that relation to the seed. */
  lemma TrackedWithin(seed: seq<int>, before: seq<int>, bits: seq<int>, ranks: seq<int>, v: int, lo: int, hi: int)
    requires Tracked(seed, before, bits, ranks, v, lo, hi) && (v == 0 || v == 1)
    ensures v == 1 ==> Within(bits, seed)
    ensures v == 0 ==> Within(seed, bits)
  {
    forall i | 0 <= i < |bits| && seed[i] == 1 && v == 0 ensures bits[i] == 1 {
      assert bits[i] == 0 || bits[i] == 1;
    }
  }

  /** A round of phase 1 ranks its cell just below the ranks given so far;
      the next round's value is one lower still. */
  lemma StepRanksDown(s: Shape, k: seq<real>, ph: Phase, st: Progress, value: int,
                      seed: seq<int>, before: seq<int>, hi: int)
    requires Sized(s, k, st) && Covers(ph, seed) && (ph.want == 0 || ph.want == 1) && ph.stride == -1
    requires Tracked(seed, before, st.bits, st.ranks, ph.want, value + 1, hi) && value < hi
    requires Holding(st.bits, ph.want) > 0
    ensures var r := Step(s, k, ph, st, value);
      && Tracked(seed, before, r.bits, r.ranks, ph.want, value + ph.stride + 1, hi)
      && Holding(r.bits, ph.want) == Holding(st.bits, ph.want) - 1
  {
    CoversTracked(ph, seed, st.bits);
    var c := StepMoves(s, k, ph, st, value);
    RankedDown(seed, st.bits, st.ranks, ph.want, 1 - ph.want, c, value, hi);
    UntouchedStep(seed, st.ranks, before, ph.want, c, value);
  }

  /** A round of phases 2 and 3 ranks its cell just above the ranks given
      so far. */
  lemma StepRanksUp(s: Shape, k: seq<real>, ph: Phase, st: Progress, value: int,
                    seed: seq<int>, before: seq<int>, lo: int)
    requires Sized(s, k, st) && Covers(ph, seed) && (ph.want == 0 || ph.want == 1) && ph.stride == 1
    requires Tracked(seed, before, st.bits, st.ranks, ph.want, lo, value) && lo <= value
    requires Holding(st.bits, ph.want) > 0
    ensures var r := Step(s, k, ph, st, value);
      && Tracked(seed, before, r.bits, r.ranks, ph.want, lo, value + ph.stride)
      && Holding(r.bits, ph.want) == Holding(st.bits, ph.want) - 1
  {
    CoversTracked(ph, seed, st.bits);
    var c := StepMoves(s, k, ph, st, value);
    RankedUp(seed, st.bits, st.ranks, ph.want, 1 - ph.want, c, lo, value);
    UntouchedStep(seed, st.ranks, before, ph.want, c, value);
  }

  /**
   * Phase 1 on values: `count` rounds ranked first, first - 1, ..., lo each
   * move a cell that held `want` in the seed, so the moved cells hold
   * distinct ranks in [lo, hi), no other cell's rank changes, and `count`
   * fewer cells hold `want`.
   */
  lemma {:induction false} RunPhaseRanksDown(s: Shape, k: seq<real>, ph: Phase, st: Progress, first: int, count: nat,
                                             seed: seq<int>, before: seq<int>, lo: int, hi: int, n: int,
                                             r: Progress)
    requires Sized(s, k, st) && Covers(ph, seed) && (ph.want == 0 || ph.want == 1) && ph.stride == -1
    requires Tracked(seed, before, st.bits, st.ranks, ph.want, first + 1, hi) && first < hi
    requires n == Holding(st.bits, ph.want) && count <= n && lo == first - count + 1
    requires r == RunPhase(s, k, ph, st, first, count)
    ensures && Tracked(seed, before, r.bits, r.ranks, ph.want, lo, hi)
      && Holding(r.bits, ph.want) == n - count
    decreases count
  {
    if count > 0 {
      StepRanksDown(s, k, ph, st, first, seed, before, hi);
      RunPhaseNext(s, k, ph, st, first, count - 1);
      RunPhaseRanksDown(s, k, ph, Step(s, k, ph, st, first), first + ph.stride, count - 1, seed, before, lo, hi, n - 1, r);
    }
  }

  /**
   * Phases 2 and 3 on values: `count` rounds ranked first, first + 1, ...,
   * hi - 1 each move a cell that held `want` in the seed, so the moved
   * cells hold distinct ranks in [lo, hi), no other cell's rank changes,
   * and `count` fewer cells hold `want`.
   */
  lemma {:induction false} RunPhaseRanksUp(s: Shape, k: seq<real>, ph: Phase, st: Progress, first: int, count: nat,
                                           seed: seq<int>, before: seq<int>, lo: int, hi: int, n: int,
                                           r: Progress)
    requires Sized(s, k, st) && Covers(ph, seed) && (ph.want == 0 || ph.want == 1) && ph.stride == 1
    requires Tracked(seed, before, st.bits, st.ranks, ph.want, lo, first) && lo <= first
    requires n == Holding(st.bits, ph.want) && count <= n && hi == first + count
    requires r == RunPhase(s, k, ph, st, first, count)
    ensures && Tracked(seed, before, r.bits, r.ranks, ph.want, lo, hi)
      && Holding(r.bits, ph.want) == n - count
    decreases count
  {
    if count > 0 {
      StepRanksUp(s, k, ph, st, first, seed, before, lo);
      RunPhaseNext(s, k, ph, st, first, count - 1);
      RunPhaseRanksUp(s, k, ph, Step(s, k, ph, st, first), first + ph.stride, count - 1, seed, before, lo, hi, n - 1, r);
    }
  }

  /** Setting an empty cell clears it in the inverted pattern: with a
      point-symmetric kernel, a -1 delta at that cell turns the blur of the
      inverted pattern into the blur of the new inverted pattern. */
  lemma ComplementDelta(s: Shape, p: seq<int>, k: seq<real>, idx: int)
    requires Fits(s, p, k) && 0 <= idx < |p| && p[idx] == 0
    ensures Complement(p[idx := 1]) == Complement(p)[idx := 0]
    ensures PointSymmetric(s, k) ==>
      DeltaApplied(s, k, Blur(s, Complement(p), k), idx, -1.0) == Blur(s, Complement(p[idx := 1]), k)
  {
    assert Complement(p[idx := 1]) == Complement(p)[idx := 0];
    if PointSymmetric(s, k) {
      DeltaMatchesSet(s, Complement(p), k, idx, 0);
    }
  }

  /** Peeling the first round off a run. */
  lemma RunPhaseNext(s: Shape, k: seq<real>, ph: Phase, st: Progress, first: int, count: nat)
    requires Sized(s, k, st) && PickerFits(ph.picker, |st.bits|)
    ensures RunPhase(s, k, ph, st, first, count + 1) == RunPhase(s, k, ph, Step(s, k, ph, st, first), first + ph.stride, count)
  {
  }

  /** `new Uint32Array(sqSz)`. */
  function Zeros(n: nat): (z: seq<int>)
    ensures |z| == n && forall i :: 0 <= i < n ==> z[i] == 0
  {
    seq(n, _ => 0)
  }

  // ---------------------------------------------------------------------------
  // The float64 generator
  // ---------------------------------------------------------------------------

  /** Phase 1 of the float64 generator: the dots of `seed`, scanned in
      increasing order, hottest first, exact ties settled on the saved map
      `et`, ranked downward. */
  function Clear64(seed: seq<int>, et: seq<real>): Phase {
    ClearList(OnesIndices(seed, |seed|), et)
  }

  /** Phase 1 of the float64 generator over the dot list `cl`. */
  function ClearList(cl: seq<int>, et: seq<real>): Phase {
    Phase(Tie(cl, et), 1, Highest, -1.0, -1)
  }

  /** The float64 pickers name cells of the pattern only. */
  lemma PickersFit(seed: seq<int>, et: seq<real>)
    requires |et| == |seed|
    ensures PickerFits(Clear64(seed, et).picker, |seed|) && PickerFits(Fill64(|seed|, et).picker, |seed|)
  {
    assert seed[..|seed|] == seed;
  }

  /** Phase 2 of the float64 generator: every cell in order, coldest empty
      cell first, exact ties settled on `et`, ranked upward. */
  function Fill64(n: nat, et: seq<real>): Phase {
    Phase(Tie(AllCells(n), et), 0, Lowest, 1.0, 1)
  }

  /** The state phase 1 of the float64 generator leaves: Ones(seed) rounds of
      Clear64 ranked filled1-1 down to 0, from the pattern `seed` with the
      ranks `ranks`, the energy map `e` and the saved map `et`. */
  function Clear64Run(s: Shape, k: seq<real>, seed: seq<int>, ranks: seq<int>, e: seq<real>, et: seq<real>): (r: Progress)
    requires Fits(s, seed, k) && |ranks| == |e| == |et| == |seed|
    ensures |r.bits| == |r.ranks| == |r.e| == |seed|
  {
    PickersFit(seed, et);
    RunPhase(s, k, Clear64(seed, et), Progress(seed, ranks, e), Ones(seed) - 1, Ones(seed))
  }

  /** The state phase 2 leaves: one round of Fill64 per empty cell of `seed`,
      ranked filled1 up to N-1. */
  function Fill64Run(s: Shape, k: seq<real>, seed: seq<int>, ranks: seq<int>, e: seq<real>, et: seq<real>): (r: Progress)
    requires Fits(s, seed, k) && |ranks| == |e| == |et| == |seed|
    ensures |r.bits| == |r.ranks| == |r.e| == |seed|
  {
    PickersFit(seed, et);
    RunPhase(s, k, Fill64(|seed|, et), Progress(seed, ranks, e), Ones(seed), |seed| - Ones(seed))
  }

  /**
   * The rank array of the float64 generator for the seed `seed`. Phase 1
   * starts from the blur of the seed and ranks its dots filled1-1 down to 0;
   * phase 2 starts again from the seed with the same blur (the snapshot
   * restored), keeps phase 1's ranks and ranks the empty cells filled1 up to
   * N-1. Both phases break ties on that snapshot.
   */
  function Ranks64(s: Shape, k: seq<real>, seed: seq<int>): (r: seq<int>)
    requires Fits(s, seed, k)
    ensures |r| == |seed|
  {
    var b := Blur(s, seed, k);
    Fill64Run(s, k, seed, Clear64Run(s, k, seed, Zeros(|seed|), b, b).ranks, b, b).ranks
  }

  /** Phase 1 of the float64 generator over a binary seed, from any ranks,
      energy map and saved map: the seed ends empty, its dots hold distinct
      ranks in [0, filled1), and the other cells keep their ranks. */
  lemma {:induction false} Clear64Ranks(s: Shape, k: seq<real>, seed: seq<int>, before: seq<int>, e: seq<real>,
                                        et: seq<real>) returns (p1: Progress)
    requires Fits(s, seed, k) && Binary(seed) && |before| == |e| == |et| == |seed|
    ensures p1 == Clear64Run(s, k, seed, before, e, et)
    ensures Empty(p1.bits)
    ensures Ranked(seed, p1.bits, p1.ranks, 1, 0, Ones(seed)) && Block(seed, p1.ranks, 1, 0, Ones(seed))
    ensures Untouched(seed, 1, p1.ranks, before)
  {
    assert seed[..|seed|] == seed;
    var ph := Clear64(seed, et);
    var st := Progress(seed, before, e);
    p1 := Clear64Run(s, k, seed, before, e, et);
    RankedNone(seed, before, 1, Ones(seed), Ones(seed));
    TrackedStart(seed, before, seed, before, 1, Ones(seed), Ones(seed));
    RunPhaseRanksDown(s, k, ph, st, Ones(seed) - 1, Ones(seed), seed, before, 0, Ones(seed), Ones(seed), p1);
    NoOnes(p1.bits);
    RankedAll(seed, p1.bits, p1.ranks, 1, 0, Ones(seed));
  }

  /** Phase 2 of the float64 generator over a binary seed, from any ranks,
      energy map and saved map: the pattern ends full, the empty cells of
      the seed hold distinct ranks in [filled1, N), and the dots keep their
      ranks. */
  lemma {:induction false} Fill64Ranks(s: Shape, k: seq<real>, seed: seq<int>, ranks: seq<int>, e: seq<real>,
                                       et: seq<real>) returns (p2: Progress)
    requires Fits(s, seed, k) && Binary(seed) && |ranks| == |e| == |et| == |seed|
    ensures p2 == Fill64Run(s, k, seed, ranks, e, et)
    ensures Full(p2.bits)
    ensures Ranked(seed, p2.bits, p2.ranks, 0, Ones(seed), |seed|) && Block(seed, p2.ranks, 0, Ones(seed), |seed|)
    ensures Untouched(seed, 0, p2.ranks, ranks)
  {
    var ph := Fill64(|seed|, et);
    var st := Progress(seed, ranks, e);
    p2 := Fill64Run(s, k, seed, ranks, e, et);
    assert Covers(ph, seed) by {
      forall j | 0 <= j < |seed| ensures j in AllCells(|seed|) {
        assert AllCells(|seed|)[j] == j;
      }
    }
    RankedNone(seed, ranks, 0, Ones(seed), Ones(seed));
    TrackedStart(seed, ranks, seed, ranks, 0, Ones(seed), Ones(seed));
    RunPhaseRanksUp(s, k, ph, st, Ones(seed), |seed| - Ones(seed), seed, ranks, Ones(seed), |seed|,
                    |seed| - Ones(seed), p2);
    AllOnes(p2.bits);
    RankedAll(seed, p2.bits, p2.ranks, 0, Ones(seed), |seed|);
  }

  /**
   * The rank array of the float64 generator is a permutation of 0..N-1 in
   * which the dots of the seed hold exactly the ranks below their number.
   */
  lemma {:induction false} Ranks64Ranks(s: Shape, k: seq<real>, seed: seq<int>)
    requires Fits(s, seed, k) && Binary(seed)
    ensures IsPermutation(Ranks64(s, k, seed))
    ensures forall i :: 0 <= i < |seed| ==> (seed[i] == 1 <==> Ranks64(s, k, seed)[i] < Ones(seed))
  {
    var b := Blur(s, seed, k);
    var p1 := Clear64Ranks(s, k, seed, Zeros(|seed|), b, b);
    var p2 := Fill64Ranks(s, k, seed, p1.ranks, b, b);
    BlockKept(seed, p1.ranks, p2.ranks, 1, 0, 0, Ones(seed));
    Combine(seed, Ranks64(s, k, seed), Ones(seed));
  }

  // ---------------------------------------------------------------------------
  // The float16 generators
  // ---------------------------------------------------------------------------

  /** Phase 1 of the float16 generators: hottest dot first, ranked downward. */
  const Clear16 := Phase(Plain, 1, Highest, -1.0, -1)

  /** Phase 2: coldest empty cell first, ranked upward. */
  const Void16 := Phase(Plain, 0, Lowest, 1.0, 1)

  /** Phase 3: hottest empty cell first by the energy of the inverted
      pattern, whose cell is cleared (a -1 delta), ranked upward. */
  const Remaining16 := Phase(Plain, 0, Highest, -1.0, 1)

  /** Phase 1 of the extended generator run over every dot of a binary
      pattern, from any ranks `before` and energy map `e`: the pattern ends
      empty, its dots hold distinct ranks in [top - filled1 + 1, top], the
      other cells keep their ranks, and with a point-symmetric kernel an
      energy map that starts as the blur of the pattern stays so. */
  lemma ClearAllRanks(s: Shape, k: seq<real>, seed: seq<int>, before: seq<int>, e: seq<real>, top: int)
    returns (p1: Progress)
    requires Fits(s, seed, k) && Binary(seed) && |before| == |e| == |seed|
    ensures p1 == RunPhase(s, k, Clear16, Progress(seed, before, e), top, Ones(seed))
    ensures Empty(p1.bits)
    ensures Block(seed, p1.ranks, 1, top - Ones(seed) + 1, top + 1)
    ensures Untouched(seed, 1, p1.ranks, before)
    ensures PointSymmetric(s, k) && e == Blur(s, seed, k) ==> p1.e == Blur(s, p1.bits, k)
  {
    var st := Progress(seed, before, e);
    p1 := RunPhase(s, k, Clear16, st, top, Ones(seed));
    RankedNone(seed, before, 1, top + 1, top + 1);
    TrackedStart(seed, before, seed, before, 1, top + 1, top + 1);
    RunPhaseRanksDown(s, k, Clear16, st, top, Ones(seed), seed, before, top - Ones(seed) + 1, top + 1,
                      Ones(seed), p1);
    NoOnes(p1.bits);
    RankedAll(seed, p1.bits, p1.ranks, 1, top - Ones(seed) + 1, top + 1);
    if PointSymmetric(s, k) && e == Blur(s, seed, k) {
      RunPhaseKeepsBlur(s, k, Clear16, st, top, Ones(seed), p1);
    }
  }

  /** Phase 1 of the original generator, which stops one dot short, from
      any ranks `before` and energy map `e`: the dots it clears hold
      distinct ranks in [1, filled1), one dot (when there is any) stays with
      the rank it had, the other cells keep their ranks, and with a
      point-symmetric kernel an energy map that starts as the blur of the
      pattern stays so. */
  lemma ClearAllButOneRanks(s: Shape, k: seq<real>, seed: seq<int>, before: seq<int>, e: seq<real>)
    returns (p1: Progress)
    requires Fits(s, seed, k) && Binary(seed) && |before| == |e| == |seed|
    ensures p1 == RunPhase(s, k, Clear16, Progress(seed, before, e), Ones(seed) - 1,
                           if Ones(seed) >= 1 then Ones(seed) - 1 else 0)
    ensures Binary(p1.bits) && Within(p1.bits, seed) && Ones(p1.bits) == if Ones(seed) == 0 then 0 else 1
    ensures Ranked(seed, p1.bits, p1.ranks, 1, 1, Ones(seed))
    ensures Untouched(seed, 1, p1.ranks, before)
    ensures forall i :: 0 <= i < |seed| && p1.bits[i] == 1 ==> p1.ranks[i] == before[i]
    ensures PointSymmetric(s, k) && e == Blur(s, seed, k) ==> p1.e == Blur(s, p1.bits, k)
  {
    var st := Progress(seed, before, e);
    p1 := RunPhase(s, k, Clear16, st, Ones(seed) - 1, if Ones(seed) >= 1 then Ones(seed) - 1 else 0);
    ClearAllButOneTracked(s, k, seed, before, e, st, p1);
    RunPhaseKeepsUnpicked(s, k, Clear16, st, Ones(seed) - 1, if Ones(seed) >= 1 then Ones(seed) - 1 else 0, p1);
    if PointSymmetric(s, k) && e == Blur(s, seed, k) {
      RunPhaseKeepsBlur(s, k, Clear16, st, Ones(seed) - 1, if Ones(seed) >= 1 then Ones(seed) - 1 else 0, p1);
    }
  }

  lemma ClearAllButOneTracked(s: Shape, k: seq<real>, seed: seq<int>, before: seq<int>, e: seq<real>,
                               st: Progress, p1: Progress)
    requires Fits(s, seed, k) && Binary(seed) && |before| == |e| == |seed| && st == Progress(seed, before, e)
    requires p1 == RunPhase(s, k, Clear16, st, Ones(seed) - 1, if Ones(seed) >= 1 then Ones(seed) - 1 else 0)
    ensures Binary(p1.bits) && Within(p1.bits, seed) && Ones(p1.bits) == if Ones(seed) == 0 then 0 else 1
    ensures Ranked(seed, p1.bits, p1.ranks, 1, 1, Ones(seed)) && Untouched(seed, 1, p1.ranks, before)
  {
    var f: int := Ones(seed);
    if f >= 1 {
      RankedNone(seed, before, 1, f - 1 + 1, f);
      TrackedStart(seed, before, seed, before, 1, f - 1 + 1, f);
      RunPhaseRanksDown(s, k, Clear16, st, f - 1, f - 1, seed, before, 1, f, f, p1);
      TrackedWithin(seed, before, p1.bits, p1.ranks, 1, 1, f);
    } else {
      assert p1 == st;
      RankedNone(seed, before, 1, 1, f);
    }
  }

  /** Phase 2 from rank `from` up to `to`, on a pattern that holds the seed's
      dots and `from` dots in all, whose cells set so far hold distinct
      ranks in [lo, from): each round sets an empty cell of the seed, so
      those cells hold distinct ranks in [lo, Handover(from, to)), the dots
      keep their ranks, and with a point-symmetric kernel an energy map that
      starts as the blur of the pattern stays so. */
  lemma FillVoidsRanks(s: Shape, k: seq<real>, seed: seq<int>, st: Progress, lo: int, from: int, to: int)
    returns (p2: Progress)
    requires Sized(s, k, st) && |seed| == |st.bits| && Binary(seed) && Binary(st.bits) && Within(seed, st.bits)
    requires Ones(st.bits) == from && lo <= from && to <= |seed|
    requires Ranked(seed, st.bits, st.ranks, 0, lo, from)
    ensures p2 == RunPhase(s, k, Void16, st, from, Handover(from, to) - from)
    ensures Fits(s, p2.bits, k) && |p2.ranks| == |seed| && Binary(p2.bits)
    ensures Within(seed, p2.bits) && Ones(p2.bits) == Handover(from, to)
    ensures Ranked(seed, p2.bits, p2.ranks, 0, lo, Handover(from, to))
    ensures Untouched(seed, 0, p2.ranks, st.ranks)
    ensures PointSymmetric(s, k) && st.e == Blur(s, st.bits, k) ==> p2.e == Blur(s, p2.bits, k)
  {
    p2 := RunPhase(s, k, Void16, st, from, Handover(from, to) - from);
    TrackedStart(seed, st.ranks, st.bits, st.ranks, 0, lo, from);
    RunPhaseRanksUp(s, k, Void16, st, from, Handover(from, to) - from, seed, st.ranks, lo, Handover(from, to),
                    |seed| - from, p2);
    TrackedWithin(seed, st.ranks, p2.bits, p2.ranks, 0, lo, Handover(from, to));
    if PointSymmetric(s, k) && st.e == Blur(s, st.bits, k) {
      RunPhaseKeepsBlur(s, k, Void16, st, from, Handover(from, to) - from, p2);
    }
  }

  /** Phase 3 from rank `from` to the end, on a pattern as phase 2 leaves
      it: the pattern ends full, the empty cells of the seed hold distinct
      ranks in [lo, N), the dots keep their ranks, and with a point-symmetric
      kernel an energy map that starts as the blur of the inverted pattern
      stays so. */
  lemma FillRemainingRanks(s: Shape, k: seq<real>, seed: seq<int>, st: Progress, lo: int, from: int)
    returns (p3: Progress)
    requires Sized(s, k, st) && |seed| == |st.bits| && Binary(seed) && Binary(st.bits) && Within(seed, st.bits)
    requires Ones(st.bits) == from && lo <= from
    requires Ranked(seed, st.bits, st.ranks, 0, lo, from)
    ensures p3 == RunPhase(s, k, Remaining16, st, from, |seed| - from)
    ensures Full(p3.bits) && Block(seed, p3.ranks, 0, lo, |seed|)
    ensures Untouched(seed, 0, p3.ranks, st.ranks)
    ensures PointSymmetric(s, k) && st.e == Blur(s, Complement(st.bits), k) ==>
      p3.e == Blur(s, Complement(p3.bits), k)
  {
    p3 := RunPhase(s, k, Remaining16, st, from, |seed| - from);
    TrackedStart(seed, st.ranks, st.bits, st.ranks, 0, lo, from);
    RunPhaseRanksUp(s, k, Remaining16, st, from, |seed| - from, seed, st.ranks, lo, |seed|, |seed| - from, p3);
    AllOnes(p3.bits);
    TrackedWithin(seed, st.ranks, p3.bits, p3.ranks, 0, lo, |seed|);
    RankedAll(seed, p3.bits, p3.ranks, 0, lo, |seed|);
    if PointSymmetric(s, k) && st.e == Blur(s, Complement(st.bits), k) {
      RunPhaseKeepsComplementBlur(s, k, Remaining16, st, from, |seed| - from, p3);
    }
  }

  /** The rank at which phase 2, `while (rank < to)` started at `from`,
      hands over to phase 3: `to`, or `from` when the loop does not run. */
  function Handover(from: int, to: int): (mid: int)
    ensures from <= mid && (mid == from || mid == to)
  {
    if from < to then to else from
  }

  /**
   * Phases 2 and 3 on the seed `seed` with the ranks `ranks`: phase 2 starts
   * from the blur of the seed and fills voids from rank `from` up to `to`
   * (not at all when `to <= from`); phase 3 starts from the blur of the
   * inverted pattern phase 2 left and fills the rest up to N-1.
   */
  function Fill16(s: Shape, k: seq<real>, seed: seq<int>, ranks: seq<int>, from: int, to: int): (r: seq<int>)
    requires Fits(s, seed, k) && |ranks| == |seed| && 0 <= from <= |seed| && to <= |seed|
    ensures |r| == |seed|
  {
    var mid := Handover(from, to);
    var p2 := RunPhase(s, k, Void16, Progress(seed, ranks, Blur(s, seed, k)), from, mid - from);
    RunPhase(s, k, Remaining16, Progress(p2.bits, p2.ranks, Blur(s, Complement(p2.bits), k)), mid, |seed| - mid).ranks
  }

  /** The two runs Fill16 is made of. */
  lemma Fill16Runs(s: Shape, k: seq<real>, seed: seq<int>, ranks: seq<int>, from: int, to: int)
    returns (p2: Progress, p3: Progress)
    requires Fits(s, seed, k) && |ranks| == |seed| && 0 <= from <= |seed| && to <= |seed|
    ensures p2 == RunPhase(s, k, Void16, Progress(seed, ranks, Blur(s, seed, k)), from, Handover(from, to) - from)
    ensures p3 == RunPhase(s, k, Remaining16, Progress(p2.bits, p2.ranks, Blur(s, Complement(p2.bits), k)),
                           Handover(from, to), |seed| - Handover(from, to))
    ensures Fill16(s, k, seed, ranks, from, to) == p3.ranks
  {
    var mid := Handover(from, to);
    p2 := RunPhase(s, k, Void16, Progress(seed, ranks, Blur(s, seed, k)), from, mid - from);
    p3 := RunPhase(s, k, Remaining16, Progress(p2.bits, p2.ranks, Blur(s, Complement(p2.bits), k)), mid, |seed| - mid);
  }

  /**
   * Phases 2 and 3 on a binary seed with filled1 dots: the empty cells of the
   * seed end with distinct ranks in [filled1, N), and the dots keep the ranks
   * they had.
   */
  lemma Fill16Ranks(s: Shape, k: seq<real>, seed: seq<int>, ranks: seq<int>, from: int, to: int)
    requires Fits(s, seed, k) && |ranks| == |seed| && Binary(seed) && Ones(seed) == from && to <= |seed|
    ensures Block(seed, Fill16(s, k, seed, ranks, from, to), 0, from, |seed|)
    ensures Untouched(seed, 0, Fill16(s, k, seed, ranks, from, to), ranks)
  {
    var p2, p3 := Fill16RunsRanks(s, k, seed, ranks, from, to);
    var q2, q3 := Fill16Runs(s, k, seed, ranks, from, to);
  }

  /** The two runs of Fill16 on a binary seed, and the ranks they give the
      seed's empty cells. */
  lemma Fill16RunsRanks(s: Shape, k: seq<real>, seed: seq<int>, ranks: seq<int>, from: int, to: int)
    returns (p2: Progress, p3: Progress)
    requires Fits(s, seed, k) && |ranks| == |seed| && Binary(seed) && Ones(seed) == from && to <= |seed|
    ensures p2 == RunPhase(s, k, Void16, Progress(seed, ranks, Blur(s, seed, k)), from, Handover(from, to) - from)
    ensures p3 == RunPhase(s, k, Remaining16, Progress(p2.bits, p2.ranks, Blur(s, Complement(p2.bits), k)),
                           Handover(from, to), |seed| - Handover(from, to))
    ensures Block(seed, p3.ranks, 0, from, |seed|) && Untouched(seed, 0, p3.ranks, ranks)
  {
    RankedNone(seed, ranks, 0, from, from);
    p2 := FillVoidsRanks(s, k, seed, Progress(seed, ranks, Blur(s, seed, k)), from, from, to);
    p3 := FillRemainingRanks(s, k, seed, Progress(p2.bits, p2.ranks, Blur(s, Complement(p2.bits), k)), from,
                             Handover(from, to));
    UntouchedTrans(seed, 0, ranks, p2.ranks, p3.ranks);
  }

  /**
   * The rank array of the extended float16 generator for the seed `seed`:
   * phase 1 starts from the blur of the seed and ranks the k-th dot it
   * clears `top - k` (the source passes `top = filled1`); phases 2 and 3 hand
   * over at `scaled`.
   */
  function Extended16(s: Shape, k: seq<real>, seed: seq<int>, scaled: int, top: int): (r: seq<int>)
    requires Fits(s, seed, k) && scaled <= |seed|
    ensures |r| == |seed|
  {
    var n, f := |seed|, Ones(seed);
    var p1 := RunPhase(s, k, Clear16, Progress(seed, Zeros(n), Blur(s, seed, k)), top, f);
    Fill16(s, k, seed, p1.ranks, f, scaled)
  }

  /**
   * The rank array of the original float16 generator for the seed `seed`:
   * phase 1 starts from the blur of the seed and ranks filled1-1 down to 1
   * (one dot keeps rank 0); phase 2 runs up to floor(N / 2), phase 3 to the
   * end.
   */
  function Original16(s: Shape, k: seq<real>, seed: seq<int>): (r: seq<int>)
    requires Fits(s, seed, k)
    ensures |r| == |seed|
  {
    var n, f := |seed|, Ones(seed);
    var p1 := RunPhase(s, k, Clear16, Progress(seed, Zeros(n), Blur(s, seed, k)), f - 1, if f >= 1 then f - 1 else 0);
    Fill16(s, k, seed, p1.ranks, f, n / 2)
  }
}
