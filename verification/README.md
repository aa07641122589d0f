# blue-noise.js void-and-cluster, modelled in Dafny

This project models the core of blue-noise.js, a generator of blue-noise
dither arrays by Ulichney's void-and-cluster method. It covers three parts.

- **The toroidal convolution engine** of `blueNoiseUtils`. `_blurWrap`
  computes a full energy map. `_deltaBlurUpdate` adds `amount` times the
  kernel over the wrapped footprint of one cell. The module `Convolution`
  defines the energy map as a function (`Blur`) and the update as
  `DeltaApplied`. The module `BlueNoiseUtils` proves the two loops against
  them. The central fact is that, with a point-symmetric kernel, a delta
  update of the blur of a pattern is the blur of the pattern with that one
  cell changed.
- **The candidate refinement** (module `Candidate`): `_candidateMethodInPlace`
  (float64) and `_candidateAlgoInPlace` / `_adaptiveCandidateAlgoInPlace`
  (float16). These clear the hottest dot and fill the coldest empty cell
  until the two coincide. Their argument checks live in module `Arguments`.
- **The rank assignment.**
  - `BlueNoiseFloat64` covers the float64 `_extendedVoidAndCluster` (two
    phases) and its deprecated `_originalVoidAndCluster`.
  - `BlueNoiseFloat16` covers the float16 `_extendedVoidAndCluster` and
    `_originalVoidAndCluster` (three phases each).
  - Every phase is an imperative loop over arrays. It is proved against the
    first-best scans of `Scans`, the energy-map specification and the rank
    bookkeeping predicates of `Ranks`.
  - The module `RankOrder` states the void-and-cluster order on values. A
    phase is a run of rounds (`RunPhase`): pick the hottest or coldest
    eligible cell, flip it, rank it and apply its delta. Every phase loop is
    proved to leave its arrays exactly as that run does. Every generator is
    proved to return the composition of its runs: `Ranks64` for the float64
    generator, `Extended16` and `Original16` for the float16 ones. Separate
    lemmas then prove what those rank arrays are (a permutation, or not).
  - The float64 generator and the float16 original generator are proved to
    return a permutation of `[0, N)` in which the seed's dots hold exactly the
    ranks below their number. The seed is the refined input, and the
    generators state what the refinement made of it. When the refinement is
    skipped, the seed is the input itself. When it runs, the seed is the
    pattern `Candidate.Refine` computes from the input and its blur, for any
    kernel. That pattern has one dot fewer than the input. With a
    point-symmetric kernel it is also a pattern the refinement has settled on
    (`Candidate.SettledAt`).
  - The float16 extended generator is proved NOT to return a permutation
    whenever its seed has a dot (see Findings).

The Gaussian tables and their `Map` caches are modelled as classes with a
`map` field (`KernelLut`). How a custom kernel given as rows is read is
modelled in `CustomKernel`. Energies are `real`. Patterns are `array<int>`
holding 0 and 1. Randomness (the shuffle and `noiseArray`) is an input.

The algorithm is usually described as putting the removed dot back when the
refinement stops. The code (`src/blue-noise-float64.js:589-615`,
`src/blue-noise-float16.js:398-412`) leaves it cleared, so the refined
pattern has one dot fewer. The model follows the code.

## Model

| member | source | states |
|---|---|---|
| Convolution.WrapInRange | src/blue-noise-utils.js:217-222 | when the kernel half-size is at most the grid side, the wrapped index `(c + t - half + n) % n` is the true modulus and lies in [0, n) |
| Convolution.WrapOutOfRange | src/blue-noise-utils.js:250-253 | when the half-size exceeds a side of two or more cells, the first row or column reads a tap whose wrapped index is -1, outside the grid |
| Convolution.Tap | src/blue-noise-utils.js:217-223 | every cell a tap reads or writes lies inside the grid |
| Convolution.TapAt | src/blue-noise-utils.js:215-223 | the tap (ky, kx) centred at (y, x) is the wrapped row times width plus the wrapped column, as the nested loops compute it |
| Convolution.Blur | src/blue-noise-utils.js:205-230 | the energy map has one entry per cell, each the convolution sum over all taps |
| Convolution.SpreadSymmetric | src/blue-noise-utils.js:205-260 | with a point-symmetric kernel, the weight a delta at `from` adds to `to` equals the weight the blur at `to` reads from `from` |
| Convolution.DeltaMatchesBlur | src/blue-noise-utils.js:205-260 | with a point-symmetric kernel, the delta update of `a` at idx applied to the blur of p equals the blur of p with cell idx increased by a |
| Convolution.DeltaUnit | src/blue-noise-utils.js:243-260 | the same for steps of +1 and -1, the only steps the phases use |
| Convolution.DeltaAt | src/blue-noise-utils.js:243-260 | cell by cell: the energy after the change is the old energy plus the step times the spread weight |
| Convolution.DeltaMatchesSet | src/blue-noise-utils.js:243-260 | setting a cell to v and applying a delta of v minus its old value keeps the map equal to the blur |
| Convolution.DeltaCompose | src/blue-noise-utils.js:249-258 | two delta updates at one cell add up to one update by the sum of the amounts |
| Convolution.DeltaCancels | src/blue-noise-utils.js:257 | a delta of `a` followed by a delta of `-a` at the same cell restores the energy map |
| Convolution.DeltaLocal | src/blue-noise-utils.js:243-260 | a delta update leaves every cell outside the footprint unchanged |
| Convolution.TapInjective | src/blue-noise-utils.js:249-256 | when the kernel fits in the grid, two different taps never land on the same cell |
| Convolution.DeltaExactWhenKernelFits | src/blue-noise-utils.js:249-258 | when the kernel fits in the grid, each footprint cell gains exactly amount times the weight of its one tap |
| BlueNoiseUtils.BlurWrap | src/blue-noise-utils.js:205-230 | after the loops, `blurred` is the energy map `Blur` of the input; only `blurred` is written |
| BlueNoiseUtils.DeltaBlurUpdate | src/blue-noise-utils.js:243-260 | after the loops, `blurred` is `DeltaApplied` of its old contents; only `blurred` is written |
| Patterns.SumOfBinary | src/blue-noise-float16.js:57 | for a 0/1 pattern, `reduce((sum, v) => sum + v, 0)` is the number of dots |
| Patterns.OnesIndices | src/blue-noise-float64.js:303-305 | the dot indices below n, one per dot, each a dot and every dot listed |
| Patterns.OnesIndicesSorted | src/blue-noise-float64.js:303-305 | `clusterIndexes` holds the dot indices in increasing order, as the scan pushes them |
| Patterns.PermutationOnto | src/blue-noise-float64.js:325-411 | a permutation of [0, N) takes every value of [0, N) |
| Scans.FirstBest | src/blue-noise-float16.js:229-235 | the plain scan's result: None exactly when no cell holds `want`; otherwise a cell holding `want` that no cell strictly beats and that strictly beats every earlier candidate |
| Scans.FirstBestUnique | src/blue-noise-float16.js:229-235 | the scan returns i if and only if i is a candidate, no candidate is strictly better, and every earlier candidate is strictly worse |
| Scans.ScanBest | src/blue-noise-float16.js:70-76 | the `value = ±Infinity` scan loop returns exactly FirstBest |
| Scans.TieBestIsBest | src/blue-noise-float64.js:329-351 | with no candidate the scan keeps its start state; otherwise it picks a listed candidate whose energy no listed candidate strictly beats |
| Scans.ScanTieBest | src/blue-noise-float64.js:329-351 | the phase-1 tie-breaking loop over `clusterIndexes` returns TieBest's index |
| Scans.ScanTieBestAll | src/blue-noise-float64.js:376-396 | the phase-2 tie-breaking loop over all cells returns TieBest's index |
| Scans.AllCells | src/blue-noise-float64.js:376 | the cells visited by the phase-2 scan are 0 .. N-1 in order |
| Scans.TieIgnoresLeaderSavedEnergy | src/blue-noise-float64.js:341-349 | `valueTemp` is not reset when a new leader is found, so on an exact tie the later cell wins although its saved energy is below the leader's |
| Arguments.CheckDims | src/blue-noise-float16.js:39-41 | passes exactly when width and height are both integers; a missing width, a missing height and a non-integer each throw their own error |
| Arguments.CheckExtended64 | src/blue-noise-float64.js:243-254 | passes exactly when the dimensions are integers, sigma is given or a custom kernel is, and sigma is not 0; each failure throws its own error |
| Arguments.CheckExtended16 | src/blue-noise-float16.js:169-176 | the same without the sigma-0 check: passes exactly when the dimensions are integers and sigma or a custom kernel is given |
| Arguments.Extended16AcceptsMore | src/blue-noise-float16.js:169-176 | everything the float64 checks accept the float16 checks accept; the only extra input they accept is sigma 0 |
| Arguments.RatioOrDefault | src/blue-noise-float16.js:178-181 | a missing filling ratio becomes 0.5; a given one is kept |
| Arguments.CandidateGuard64 | src/blue-noise-float64.js:521-545 | null and non-typed arrays throw; no dots or all dots return unchanged; then missing sigma without a kernel and sigma 0 throw; the loop runs exactly otherwise |
| Arguments.CandidateGuard16 | src/blue-noise-float16.js:355-363 | only a typed array is refined; null throws; a plain array throws the missing-`set` TypeError at the right length and the dimension error otherwise |
| Arguments.AdaptiveGuard16 | src/blue-noise-float16.js:431-440 | null throws; no dots throws; a typed array is refined in place; a plain array is refined as a copy |
| Candidate.CountDots | src/blue-noise-float64.js:524-529 | the counting loop returns the number of dots |
| Candidate.Round | src/blue-noise-float64.js:573-615 | one round on values, under the energy map the scans read: a cell it changes is either the first hottest dot (cleared) or an empty cell (set); a missing index touches nothing, as `inArray[undefined]` does not |
| Candidate.Refine | src/blue-noise-float64.js:563-629 | the `while (true)` loop on values, at most `fuel` rounds: with no fuel left it has not stopped and the pattern is unchanged; otherwise it runs rounds until one stops |
| Candidate.FlipCell | src/blue-noise-float64.js:589-600 | the one cell changes and the dot count moves by one; for every kernel the energy map becomes `DeltaApplied` of the old map at that cell by ±1, so with a point-symmetric kernel it stays the blur of the pattern |
| Candidate.RefineRound | src/blue-noise-float64.js:573-629 | for every kernel, the round does what `Round` says: it clears the first hottest dot under the current map, applies the -1 delta, and stops exactly when the first coldest empty cell under the updated map is that cell; otherwise it sets that empty cell with a +1 delta. A round that goes on keeps the dot count, the last drops one dot, and with a point-symmetric kernel the final pattern is settled |
| Candidate.RefineInPlace | src/blue-noise-float64.js:563-629 | for every kernel, the loop converges exactly when `Refine`, started from the input and its blur, stops within `fuel` rounds, and it leaves `Refine`'s pattern; the pattern stays 0/1, a converged run ends with one dot fewer, and with a point-symmetric kernel it stops at a settled pattern |
| Candidate.CandidateMethodInPlace64 | src/blue-noise-float64.js:520-630 | rejected and skipped inputs are left unchanged with the guard's verdict; a run passes exactly when `Refine` from the input and its blur stops, leaves `Refine`'s pattern for every kernel (the half-open Gaussian table included), and ends with one dot fewer or keeps the count; with a point-symmetric kernel a converged run is settled |
| Candidate.CandidateAlgoInPlace16 | src/blue-noise-float16.js:354-418 | rejected inputs are unchanged; past the array checks a typed array always runs, even without dots or with all dots, passes exactly when `Refine` stops and leaves `Refine`'s pattern; with a point-symmetric kernel a converged run is settled |
| Candidate.AdaptiveCandidateAlgoInPlace16 | src/blue-noise-float16.js:430-483 | rejected inputs are unchanged; a plain array is refined as a copy, so the caller's cells do not change; a typed array is refined in place, passing exactly when `Refine` stops and leaving `Refine`'s pattern, settled under a point-symmetric kernel |
| KernelLut.Ceil | src/blue-noise-float64.js:675 | `Math.ceil`: the least integer at or above x |
| KernelLut.Side | src/blue-noise-float64.js:676 | the table side `(radius << 1) + 1` is odd and exceeds twice the radius |
| KernelLut.TotalDivided | src/blue-noise-float64.js:706 | dividing every cell by d divides the sum by d |
| KernelLut.TableNormalised | src/blue-noise-float64.js:704-706 | a normalised table sums to 1 and has no negative cell |
| KernelLut.ClosedTableSymmetric | src/blue-noise-float16.js:504-515 | a table filled over -r <= y, x <= r is point-symmetric |
| KernelLut.HalfOpenTableNotSymmetric | src/blue-noise-float64.js:694-701 | a table filled over -r <= y, x < r is not point-symmetric |
| KernelLut.FillHalfOpen | src/blue-noise-float64.js:694-701 | the float64 fill loops produce the raw half-open table, whose last row and last column are 0 |
| KernelLut.FillClosed | src/blue-noise-float16.js:504-513 | the float16 fill loops produce the raw closed table and its running sum |
| KernelLut.SumTable | src/blue-noise-float64.js:704-705 | the sum loop returns the sum of the table |
| KernelLut.DivideBy | src/blue-noise-float64.js:706 | every cell is divided by the sum |
| KernelLut.Build64 | src/blue-noise-float64.js:674-706 | a new array holding the normalised half-open table of the key |
| KernelLut.Build16 | src/blue-noise-utils.js:97-113 | a new array holding the normalised closed table of sigma |
| KernelLut.KeyOf | src/blue-noise-float64.js:668-672 | the cache key holds sigma and the multiplier, plus the tail exponent exactly when the tail Gaussian is on |
| KernelLut.GaussianKernelLut64.Get | src/blue-noise-float64.js:665-712 | returns the table of its key, of side `2 * ceil(multiplier * sigma) + 1`; a key seen before returns the very cached array; a new key is built and cached, and nothing else changes |
| KernelLut.GaussianKernelLut.Get | src/blue-noise-float16.js:492-521 | returns the closed table of sigma, of side `2 * ceil(3 * sigma) + 1`; a sigma seen before returns the very cached array; a new one is built and cached (the same class models each cache of `src/blue-noise-utils.js:92-193`) |
| CustomKernel.KernelDims | src/blue-noise-float64.js:260-264 | width = row length and height = row count, so width times height is the length of the flattened kernel |
| CustomKernel.FlattenLength | src/blue-noise-float64.js:263 | `customKernel.flat()` of a rectangular kernel has row length times row count entries |
| CustomKernel.KernelDimsAddressRows | src/blue-noise-float16.js:188-191 | with these dims, the flat index `ky * kernelWidth + kx` the engine reads is row ky, column kx of the kernel |
| CustomKernel.CandidateKernelDims16 | src/blue-noise-float16.js:372-375 | the swapped reading also has width times height equal to the flat length, so nothing downstream notices |
| CustomKernel.CandidateKernelDims16Square | src/blue-noise-float16.js:372-375 | the swapped and the correct readings agree exactly on square kernels |
| CustomKernel.CandidateKernelDims16Transposed | src/blue-noise-float16.js:372-375 | on `[[1, 2, 3]]` the swapped reading gives a kernel 1 wide and 3 tall, so the engine's tap (1, 0) is entry 1 of row 0 |
| Ranks.Combine | src/blue-noise-float64.js:325-411 | dots ranked distinctly in [0, filled1) and empty cells ranked distinctly in [filled1, N) form a permutation of [0, N) in which the dots hold exactly the ranks below filled1 |
| Ranks.MissingZero | src/blue-noise-float16.js:239 | a rank array in which no cell holds 0 is not a permutation |
| Ranks.ShiftedRanks | src/blue-noise-float16.js:239-264 | dots ranked in [1, filled1] next to empty cells ranked in [filled1, N), with at least one dot: no cell holds 0 and the ranks are not a permutation |
| RankOrder.Pick | src/blue-noise-float16.js:229-235 | the cell a round picks: whenever some cell may be picked (it holds the wanted value, and for the float64 scan it is on the list), the pick is such a cell and no such cell has a strictly better energy; the plain scan picks nothing exactly when no cell holds the wanted value |
| RankOrder.TiePickIsBest | src/blue-noise-float64.js:329-351 | the float64 tie-breaking scan picks a listed cell holding the wanted value whose energy no such cell strictly beats, and an index inside the grid in every case |
| RankOrder.StepAt | src/blue-noise-float16.js:237-241 | a round whose pick is c flips c, gives it the rank value and applies its delta to the energy map |
| RankOrder.StepFlips | src/blue-noise-float16.js:237-241 | a round changes at most one cell, and that cell ends holding the flipped value with the round's rank |
| RankOrder.RunPhaseNext | src/blue-noise-float16.js:225-242 | a run of count + 1 rounds is one round followed by a run of count rounds from the next rank value |
| RankOrder.RunPhaseAdvance | src/blue-noise-float16.js:249-267 | the invariant every phase loop keeps: the rest of the run from the state after a round ends where the run from before it ends |
| RankOrder.RunPhaseFlips | src/blue-noise-float16.js:225-242 | after a run, every cell whose value or rank changed holds the flipped value: no round undoes an earlier one |
| RankOrder.RunPhaseKeepsUnpicked | src/blue-noise-float16.js:65-83 | a cell that still holds the wanted value after a run keeps its rank |
| RankOrder.RunPhaseKeepsBlur | src/blue-noise-float16.js:225-267 | with a point-symmetric kernel, a plain phase whose delta is the change of the picked cell keeps the energy map the blur of the pattern through the whole run |
| RankOrder.RunPhaseKeepsComplementBlur | src/blue-noise-float16.js:272-293 | with a point-symmetric kernel, phase 3 keeps the energy map the blur of the inverted pattern through the whole run |
| RankOrder.ComplementDelta | src/blue-noise-float16.js:272-292 | setting an empty cell clears it in the inverted pattern, and a -1 delta there gives the blur of the new inverted pattern |
| RankOrder.StepMoves | src/blue-noise-float16.js:229-241 | while some cell holds the wanted value and the picker scans every such cell, a round flips one such cell: the pattern stays 0/1 and one cell fewer holds the wanted value |
| RankOrder.StepRanksDown | src/blue-noise-float16.js:225-242 | a phase-1 round ranks a seed dot just below the ranks given so far and keeps every other rank |
| RankOrder.StepRanksUp | src/blue-noise-float16.js:249-267 | a phase-2 or phase-3 round ranks an empty seed cell just above the ranks given so far and keeps every other rank |
| RankOrder.RunPhaseRanksDown | src/blue-noise-float16.js:225-242 | count rounds ranked first down to first - count + 1 give count seed dots distinct ranks in that range, keep every other rank, and leave count fewer dots |
| RankOrder.RunPhaseRanksUp | src/blue-noise-float16.js:249-293 | count rounds ranked first up to first + count - 1 give count empty seed cells distinct ranks in that range, keep every other rank, and leave count fewer empty cells |
| RankOrder.Zeros | src/blue-noise-float64.js:270 | `new Uint32Array(sqSz)`: n cells, all 0 |
| RankOrder.PickersFit | src/blue-noise-float64.js:303-305 | the float64 pickers name only cells of the grid |
| RankOrder.Clear64Ranks | src/blue-noise-float64.js:325-366 | the float64 phase-1 run (`Clear64Run`: one round per dot, ranks filled1-1 down to 0, hottest listed dot first, ties on the saved map) empties the seed, gives its dots distinct ranks in [0, filled1) and keeps every other rank |
| RankOrder.Fill64Ranks | src/blue-noise-float64.js:370-411 | the float64 phase-2 run (`Fill64Run`: one round per empty cell, ranks filled1 up to N-1, coldest empty cell first, ties on the saved map) fills the pattern, gives the empty seed cells distinct ranks in [filled1, N) and keeps the dots' ranks |
| RankOrder.Ranks64Ranks | src/blue-noise-float64.js:297-411 | `Ranks64`, the rank array of phase 1 from the blur of the seed followed by phase 2 from the restored snapshot, is a permutation of [0, N) in which the dots hold exactly the ranks below their number |
| RankOrder.ClearAllRanks | src/blue-noise-float16.js:225-242 | the extended phase-1 run of Clear16 (hottest dot first) over every dot, ranks top down to top - filled1 + 1: the pattern ends empty, the dots hold distinct ranks in that range, no other rank changes, and a blur stays the blur of the pattern under a point-symmetric kernel |
| RankOrder.ClearAllButOneRanks | src/blue-noise-float16.js:65-83 | the original phase-1 run of Clear16 over all dots but one, ranks filled1-1 down to 1: the cleared dots hold distinct ranks in [1, filled1), one dot (if any) remains with its old rank, no other rank changes, and a blur stays the blur of the pattern under a point-symmetric kernel |
| RankOrder.FillVoidsRanks | src/blue-noise-float16.js:249-267 | the run of Void16 (coldest empty cell first) from `from` up to the handover: the pattern stays 0/1 and holds the seed's dots, the cells it sets are empty seed cells with distinct ranks up to the handover, and no other rank changes |
| RankOrder.FillRemainingRanks | src/blue-noise-float16.js:278-293 | the run of Remaining16 (hottest empty cell of the inverted pattern's energy first) to the end: the pattern ends full, the empty seed cells hold distinct ranks up to N, and the dots keep their ranks |
| RankOrder.Handover | src/blue-noise-float16.js:249 | the rank where phase 2 hands over: `to` when the loop runs, `from` otherwise, never below `from` |
| RankOrder.Fill16Runs | src/blue-noise-float16.js:246-293 | `Fill16` is the run of Void16 from the blur of the seed followed by the run of Remaining16 from the blur of the inverted pattern phase 2 left |
| RankOrder.Fill16RunsRanks | src/blue-noise-float16.js:246-293 | those two runs give the empty seed cells distinct ranks in [filled1, N) and keep the dots' ranks |
| RankOrder.Fill16Ranks | src/blue-noise-float16.js:246-293 | the ranks `Fill16` returns give the empty seed cells distinct ranks in [filled1, N) and keep the dots' ranks |
| BlueNoiseFloat64.OriginalVoidAndCluster | src/blue-noise-float64.js:33-37 | always throws the deprecation error |
| BlueNoiseFloat64.SeedPattern | src/blue-noise-float64.js:273-277 | the seed before the shuffle is 0/1 and holds a dot exactly at the cells below the count |
| BlueNoiseFloat64.SeedPatternOnes | src/blue-noise-float64.js:273-277 | the seed holds the count of dots, clamped to [0, N] |
| BlueNoiseFloat64.SeedFill | src/blue-noise-float64.js:269-277 | the fill loop produces SeedPattern |
| BlueNoiseFloat64.CollectOnes | src/blue-noise-float64.js:297-308 | `clusterIndexes` lists exactly the dots in increasing order, so its length is the number of dots |
| BlueNoiseFloat64.Phase1Step | src/blue-noise-float64.js:326-365 | clears the dot the tie-breaking scan picks and gives it `rank`; the arrays become one `Step` of the phase-1 run, so the loop stays on course for `Clear64Run`; for every kernel the energy map becomes the -1 `DeltaApplied` of the old map at that dot, so with a point-symmetric kernel it stays the blur of `temp` |
| BlueNoiseFloat64.Phase1Rounds | src/blue-noise-float64.js:325-366 | the loop leaves the arrays exactly as the run of the phase-1 picker over `clusterIndexes` (ranks filled1-1 down to 0) leaves them, and keeps the energy map the blur of `temp` under a point-symmetric kernel |
| BlueNoiseFloat64.Phase1 | src/blue-noise-float64.js:325-366 | the arrays end as `Clear64Run` of the seed leaves them: the seed's dots are cleared in void-and-cluster order (hottest first, ties on the saved map); `temp` ends empty, the dots hold distinct ranks below filled1 and no other rank changes |
| BlueNoiseFloat64.Phase2Step | src/blue-noise-float64.js:371-410 | sets the empty cell the tie-breaking scan picks and gives it `rank`; the arrays become one `Step` of the phase-2 run; for every kernel the energy map becomes the +1 `DeltaApplied` of the old map at that cell, so with a point-symmetric kernel it stays the blur of `binArray` |
| BlueNoiseFloat64.Phase2 | src/blue-noise-float64.js:370-411 | the arrays end as `Fill64Run` of the seed leaves them: the empty cells are set coldest first (ties on the saved map); `binArray` ends full, the empty cells hold distinct ranks in [filled1, N) and the dots keep their ranks |
| BlueNoiseFloat64.RankSeed | src/blue-noise-float64.js:297-411 | the ranks are `Ranks64` of the seed, the void-and-cluster order of the two phases; they form a permutation of [0, N) in which the seed's dots hold exactly the ranks below their number |
| BlueNoiseFloat64.ShuffledIsBinary | src/blue-noise-float64.js:279 | a rearrangement of a 0/1 pattern is 0/1 |
| BlueNoiseFloat64.ExtendedVoidAndCluster | src/blue-noise-float64.js:234-417 | argument errors pass through; density 0 or 1 skips the refinement; otherwise the refinement guard decides: a rejection throws its error, a skip passes with the shuffled input as the seed, and a run passes exactly when `Refine` from the shuffled input and its blur stops, the seed then being `Refine`'s pattern (one dot fewer; settled under a point-symmetric candidate kernel); on success the ranks are `Ranks64` of the seed, a permutation in which the seed's dots hold the ranks below their number |
| BlueNoiseFloat16.Clamp01 | src/blue-noise-float16.js:218 | the clamped ratio lies in [0, 1] and equals the ratio when that already does |
| BlueNoiseFloat16.FillingRatioScaled | src/blue-noise-float16.js:216-218 | filled1 <= scaled <= N; a ratio <= 0 gives filled1; a ratio >= 1 gives N |
| BlueNoiseFloat16.FillingRatioMonotone | src/blue-noise-float16.js:217-218 | a larger ratio never hands over to phase 3 earlier |
| BlueNoiseFloat16.ClearHottest | src/blue-noise-float16.js:226-241 | clears the first hottest dot (FirstBest) and gives it the rank; the arrays become one `Step` of Clear16, so the loop stays on course for its run; for every kernel the energy map becomes the -1 `DeltaApplied` of the old map at that dot, so with a point-symmetric kernel it stays the blur of `temp` |
| BlueNoiseFloat16.FillColdest | src/blue-noise-float16.js:250-266 | sets the first coldest empty cell and gives it the rank; the arrays become one `Step` of Void16; for every kernel the energy map becomes the +1 `DeltaApplied` of the old map at that cell, so with a point-symmetric kernel it stays the blur of `binArray` |
| BlueNoiseFloat16.FillHottestVoid | src/blue-noise-float16.js:279-292 | sets the empty cell hottest in the inverted pattern's energy; the arrays become one `Step` of Remaining16; for every kernel the map becomes the -1 `DeltaApplied` of the old map at that cell, so with a point-symmetric kernel it stays the blur of the inverted pattern |
| BlueNoiseFloat16.ExtendedPhase1 | src/blue-noise-float16.js:225-242 | the arrays end as the run of Clear16 (hottest dot first) ranked top, top - 1, ... leaves them; `temp` ends empty; the dots hold distinct ranks in [top - filled1 + 1, top], where the source passes top = filled1; no other rank changes |
| BlueNoiseFloat16.OriginalPhase1 | src/blue-noise-float16.js:65-83 | the arrays end as the run of Clear16 ranked filled1-1 down to 1 leaves them; every dot but one is ranked distinctly in [1, filled1); one dot, if any, stays in `temp` with its old rank; no other rank changes |
| BlueNoiseFloat16.OriginalDotBlock | src/blue-noise-float16.js:65-83 | the dot phase 1 leaves keeps its initial rank 0, so all dots hold distinct ranks in [0, filled1) |
| BlueNoiseFloat16.Extended16Ranks | src/blue-noise-float16.js:220-294 | `Extended16`, the ranks of the three extended phases in void-and-cluster order, gives the dots distinct ranks in [top - filled1 + 1, top] and the empty cells distinct ranks in [filled1, N); with top = filled1 >= 1 no cell holds 0 and the ranks are not a permutation; with top = filled1 - 1 they are a permutation with the dots below filled1 |
| BlueNoiseFloat16.Original16Ranks | src/blue-noise-float16.js:59-138 | `Original16`, the ranks of the three original phases in void-and-cluster order, is a permutation of [0, N) in which the dots hold exactly the ranks below filled1 |
| BlueNoiseFloat16.FillVoids | src/blue-noise-float16.js:249-267 | the arrays end as the run of Void16 (coldest empty cell first) from `from` leaves them; phase 2 stops at its bound, or does nothing when it starts past the bound; the cells it fills are empty seed cells with distinct ranks from filled1 up |
| BlueNoiseFloat16.Phase2 | src/blue-noise-float16.js:246-267 | blurring the pattern and then filling voids leaves the arrays as the run of Void16 from the blur of the pattern leaves them, with the ranks FillVoids states |
| BlueNoiseFloat16.Invert | src/blue-noise-float16.js:272 | `temp` becomes the complement of `binArray` |
| BlueNoiseFloat16.FillRemaining | src/blue-noise-float16.js:278-293 | the arrays end as the run of Remaining16 (hottest empty cell of the inverted energy first) leaves them; `binArray` ends full, and the empty cells of the seed hold distinct ranks up to N |
| BlueNoiseFloat16.Phase3 | src/blue-noise-float16.js:270-293 | inverting, blurring the inverted pattern and filling the rest leaves the arrays as the run of Remaining16 from that blur leaves them; `binArray` ends full and the empty seed cells hold distinct ranks up to N |
| BlueNoiseFloat16.FillPhases | src/blue-noise-float16.js:246-293 | phases 2 and 3 together leave the ranks `Fill16` gives: the seed's empty cells hold distinct ranks in [filled1, N) and the dots keep their ranks |
| BlueNoiseFloat16.ExtendedRanks | src/blue-noise-float16.js:220-294 | the ranks are `Extended16` of the seed; the dots hold distinct ranks in [top - filled1 + 1, top]; the empty cells hold distinct ranks in [filled1, N); with top = filled1 (line 239) and at least one dot, no cell holds 0 and the ranks are not a permutation |
| BlueNoiseFloat16.CorrectedExtendedRanks | src/blue-noise-float16.js:225-242 | with phase 1 ranking `filled1 - 1 - rank`, the ranks are `Extended16` with top = filled1 - 1, a permutation in which the dots hold exactly the ranks below filled1 |
| BlueNoiseFloat16.OriginalRanks | src/blue-noise-float16.js:59-138 | the ranks are `Original16` of the seed, a permutation of [0, N) in which the dots hold exactly the ranks below filled1 |
| BlueNoiseFloat16.InitialSeed | src/blue-noise-float16.js:205-214 | an initial array of N cells becomes the seed as it is; otherwise the noise is refined by the adaptive algorithm, which throws on a noise without dots and otherwise passes exactly when `Refine` stops, the seed being `Refine`'s pattern (one dot fewer; settled under a point-symmetric kernel) |
| BlueNoiseFloat16.ExtendedVoidAndCluster | src/blue-noise-float16.js:158-297 | argument and refinement errors pass through; a seed refined from the noise is `Refine`'s pattern (one dot fewer; settled under a point-symmetric adaptive kernel); on success the ranks are `Extended16` of the seed with top = filled1: the dots hold ranks in [1, filled1] and the empty cells ranks in [filled1, N), and with at least one dot no cell holds 0 and the result is not a permutation |
| BlueNoiseFloat16.OriginalVoidAndCluster | src/blue-noise-float16.js:37-141 | passes exactly when `Refine` from the noise and its blur stops, and otherwise runs out of fuel; on success the seed is `Refine`'s pattern, with one dot fewer than the noise (none when the noise has none) and settled under a point-symmetric kernel; the ranks are `Original16` of the seed, a permutation in which the seed's dots hold exactly the ranks below their number |

## Left out

- Randomness. The float64 shuffle (`src/blue-noise-float64.js:279`) and `noiseArray` (`src/blue-noise-utils.js:74-82`) are inputs. The shuffled seed is any rearrangement of the filled prefix; the noise is any 0/1 pattern of N cells.
- The exponential weights. `Math.exp`, `Math.sqrt`, tail-Gaussian powers and floating-point division are an abstract positive weight of the key and the squared distance (`KernelLut.PositiveWeight`). Only table size, layout, fill range, normalisation and caching are modelled.
- Floating point. Energies and kernel weights are `real`, so `Float16Array`/`Float64Array` rounding is not modelled. Nor are NaN and Infinity from sigma 0 in the float16 tables, or exact energy ties that arise only from rounding.
- Adaptive sigma. The float64 `_adaptiveCandidateMethodInPlace` (`src/blue-noise-float64.js:640-654`) and the float16 sigma (`src/blue-noise-float16.js:442`) compute sigma with `Math.sqrt`. The resulting kernel is a parameter. When `_useAdaptiveSigmaCandidateAlgo` is on and no custom kernel is given (`src/blue-noise-float64.js:287-289`), the source ignores `candidateMethodSigma`. It refines with `sqrt(sqSz / …) * _initialSigmaScale` instead, so a missing `candidateMethodSigma` does not throw. In `BlueNoiseFloat64.ExtendedVoidAndCluster`, `candidateSigma` then stands for that computed sigma, and `candidateKernel` for its table.
- Kernels are resolved by the caller. Each generator and refinement takes the kernel array and its dimensions as parameters: the custom kernel (as `CustomKernel` reads it) or the cached Gaussian table. Their relation to sigma is what `KernelLut` proves.
- Engine names. The generators call `convolveWrapAroundInPlace`, `convolveDeltaUpdateWrapAroundInPlace`, `blurWrapInPlace` and `deltaBlurUpdateInPlace`. The utilities file defines only `_blurWrap` and `_deltaBlurUpdate`, and the named functions are not part of this model. Every call is modelled with the semantics of `_blurWrap` and `_deltaBlurUpdate`. The differing argument orders are not modelled, including the float64 calls and the float16 adaptive call at `src/blue-noise-float16.js:448`, which passes the kernel where the other float16 calls pass the energy array.
- Candidate.RefineInPlace: the `while (true)` loops run at most `fuel` rounds and then report `OutOfFuel`. The model does not prove that the source's loop terminates.
- Candidate.RefineInPlace: with no dot at all, the cluster index stays `undefined`. The source then writes `inArray[undefined]` and asks for a delta at a NaN cell. Neither touches a cell, so the model skips both.
- Integer widths. `Uint32Array` ranks and `Uint8Array` cells would wrap or truncate. Every rank written stays in [0, N], so no wrap occurs. `initArray` is assumed to hold only 0 and 1, so the `Uint8Array` cast of other values is not modelled.
- Dimensions and shapes. The generators take width and height as integers, so their `CheckDims` always passes there; the error cases of `CheckDims` are stated on `Arguments` values. `Shape.Valid` (positive sides, kernel half-sizes at most the grid sides) is required even on the paths that throw before any array is touched.
- The kernel side `(Math.ceil(multiplier * sigma) << 1) + 1` is computed as `2 * ceil + 1`; the 32-bit `<<` would differ only for radii of 2^30 and more.
- An empty custom kernel (`customKernel[0].length` on `[]`) throws a TypeError in the source; `CustomKernel` requires a non-empty rectangular kernel.
- Sigma must be positive for the table caches (`GaussianKernelLut64.Get`, `GaussianKernelLut.Get`); the float16 tables for sigma <= 0 are not modelled.
- Candidate.CandidateAlgoInPlace16: `new Float16Array(2 * Math.ceil(3 * sigma) + 1)` (`src/blue-noise-float16.js:368`) runs before the custom kernel is looked at and throws a RangeError for sigma <= -1/3. The model takes the kernel as a parameter and has no sigma, so it does not capture this throw; "always runs" holds only for the sigmas the allocation accepts.
- BlueNoiseFloat16.OriginalVoidAndCluster: `_candidateAlgoInPlace` allocates `new Float16Array(2 * Math.ceil(3 * sigma) + 1)` (`src/blue-noise-float16.js:368`). That throws a RangeError for sigma <= -1/3, so the source throws there. The model takes the kernel as a parameter and promises only `Pass` or `OutOfFuel`, so it does not capture this throw.
- Not modelled: `_poissonDiskSampling`, Georgiev–Fajardo (both files), `src/void-and-cluster.js`, the module getters and setters, `console.warn`, and timing. These are random, floating point or plumbing outside the void-and-cluster core.

## Findings

| source | as written | input that shows it | evidently intended | confidence | as-written member | corrected member |
|---|---|---|---|---|---|---|
| src/blue-noise-float16.js:239 | phase 1 writes `rankArray[idx] = filled1 - rank` for rank 0 .. filled1-1, so the dots get ranks filled1 .. 1; phase 2 starts at rank filled1 | a 2×1 grid with `initArray` `[[1, 0]]`: the dot gets rank 1 in phase 1 and the empty cell rank 1 in phase 3, so no cell holds 0 | `filled1 - 1 - rank`, as the float64 generator ranks its phase 1, giving a permutation of [0, N) | high; not executed | BlueNoiseFloat16.ExtendedVoidAndCluster | BlueNoiseFloat16.CorrectedExtendedRanks |
| src/blue-noise-float16.js:373-374 | `_candidateAlgoInPlace` reads `kernelWidth = customKernel.length`, `kernelHeight = customKernel[0].length` | custom kernel `[[1, 2, 3]]`: the engine applies a 1-wide, 3-tall kernel and reads entry 1 of row 0 as tap (1, 0) | width = row length, height = row count, as at `src/blue-noise-float16.js:189-190` | high; not executed | CustomKernel.CandidateKernelDims16Transposed | CustomKernel.KernelDimsAddressRows |
| src/blue-noise-float64.js:694-701 | the table loops run `y < radius` and `x < radius`, so the last row and column of a side-(2r+1) table stay 0 | sigma 0.25 with multiplier 4 (radius 1): a 3×3 table whose last row and column are 0, which is not point-symmetric, so the delta update no longer equals re-blurring | `<= radius`, as in `src/blue-noise-float16.js:504-508` | medium; not executed | KernelLut.HalfOpenTableNotSymmetric | KernelLut.ClosedTableSymmetric |
