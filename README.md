# TWAMM timestamp quantizer, modelled in Dafny

The repository computes the valid time nearest to a target time. The grid of
valid times gets coarser as the time moves away from a reference block time.
Within 256 seconds of the reference time the grid spacing (the *step size*)
is 16. Farther out it is the largest power of 16 that does not exceed the
distance: 256, 4096, 65536, and so on.

`toNearestValidTime` rounds a time onto this grid in one of three modes:
- **Down:** align to the current step, and fall back to a finer grid when the
  step is smaller at the rounded-down point.
- **Up:** jump to the next multiple of the step, and start again from there,
  because the step may be larger at the new point.
- **Nearest:** compute both directional results and keep the closer one,
  ties going down.

The project has three modules:
- `powers.dfy` (`Powers`): exact powers and the integer logarithm in base 16,
  plus the divisibility facts the grid relies on.
- `twamm_timestamps.dfy` (`TwammTimestamps`): the source as written.
  - `StepSize` is `timeDifferenceToStepSize`.
  - `RoundDown`, `RoundUp` and `ToNearestValidTime` are `toNearestValidTime`.
    The optional `roundUp` flag becomes the datatype `Rounding = Down | Up | Nearest`.
  - The termination argument for round-up is `UpRank`. From a far, unaligned
    time the recursion stops after at most two jumps. The step grows at most
    once, by a factor of 16, and then stays fixed.
  - Also here: the lemmas about this behaviour, and the two inputs on which it
    misses its evident goal (see Findings).
- `corrected_rounding.dfy` (`CorrectedRounding`): the same algorithm with those
  two branches repaired.
  - Round-up returns the least valid time at or after the target.
  - Round-down returns the greatest valid time at or before it.
  - Nearest returns the closest valid time overall, the earlier one on a tie.
  - Every mode is idempotent.

A *valid time* (`IsValidTime`) is a multiple of the step size at its own
distance from the reference time. This is the fixed point that the round-up
recursion looks for.

All values are unbounded integers. The only precondition is
`0 <= blockTime`. Under it, every `%` and `/` in the model agrees with
JavaScript semantics:
- The near branch uses `Math.floor` and `Math.ceil` of `time / 16`, which agree
  with Dafny's division for every integer `time`.
- The far branch has `time >= blockTime + 256 > 0`, so JavaScript's `%` has a
  non-negative dividend there.
- The boundary fallback divides the positive value `blockTime + stepSize - 1`.

A negative `time` is therefore admitted too. It can only occur in the near
branch.

Two consequences of the code are worth stating up front:
- `blockTime = 0, time = 300` rounds down to 256, not 288. Because
  16^2 <= 300, the step there is 256 (`FarExamples`).
- Round-up and round-down do not always return a valid time, and so are not
  always idempotent. The two cases are under Findings. Round-up recurses, and
  the model keeps the recursion, with a proved bound of two jumps.

## Model

| member | source | states |
|---|---|---|
| Powers.Log16 | scripts/twammTimestamps.ts:6 | `floor(log16 n)` computed exactly: the k with 16^k <= n < 16^(k+1) |
| Powers.FloorToMultiple | scripts/twammTimestamps.ts:72-74 | `Math.floor(x / p) * p` is the greatest multiple of p that is at most x |
| TwammTimestamps.StepSize | scripts/twammTimestamps.ts:3-7 | 16 when the distance is below 256; otherwise a power of 16 with 256 <= step <= distance < 16 * step |
| TwammTimestamps.StepSizeInBand | scripts/twammTimestamps.ts:3-7 | for k >= 1, every distance in [16^k, 16^(k+1)) has step exactly 16^k |
| TwammTimestamps.StepSizeMonotone | scripts/twammTimestamps.ts:3-7 | x <= y implies step(x) <= step(y), and step(x) divides step(y) |
| TwammTimestamps.StepSizeOnSixteenGrid | scripts/twammTimestamps.ts:3-7 | every step size is a multiple of 16 |
| TwammTimestamps.LaterValidTimeOnGrid | scripts/twammTimestamps.ts:3-7 | a valid time at or after t is a multiple of t's own step size |
| TwammTimestamps.NearValidTime | scripts/twammTimestamps.ts:4-5 | below distance 256 a time is valid exactly when it is a multiple of 16 |
| TwammTimestamps.CeilTo16 | scripts/twammTimestamps.ts:45 | `Math.ceil(time / 16) * 16` is the least multiple of 16 at or above time |
| TwammTimestamps.PickCloser | scripts/twammTimestamps.ts:35-39 | returns one of the two candidates, is at least as close to time as either, and returns down when down is no farther |
| TwammTimestamps.ToNearestValidTime | scripts/twammTimestamps.ts:15-76 | round-down does not exceed time, round-up is not below time, nearest lies between the two directional results |
| TwammTimestamps.RoundDown | scripts/twammTimestamps.ts:42-75 | the roundUp = false path never returns a time after the target |
| TwammTimestamps.RoundUp | scripts/twammTimestamps.ts:42-64 | the roundUp = true path terminates, by the measure UpRank, and never returns a time before the target |
| TwammTimestamps.UpJump | scripts/twammTimestamps.ts:59 | a far-region jump lands on the current step's grid, strictly after time and less than one step ahead |
| TwammTimestamps.UpSettlesWithinTwoJumps | scripts/twammTimestamps.ts:57-64 | from a far, unaligned time, the first or the second jump reaches a point that is aligned under its own step |
| TwammTimestamps.UpRankDecreases | scripts/twammTimestamps.ts:60-64 | the termination measure strictly decreases on every recursive call |
| TwammTimestamps.ResultOnSixteenGrid | scripts/twammTimestamps.ts:15-76 | every result, in every mode, is a multiple of 16 |
| TwammTimestamps.RoundDownOnSixteenGrid | scripts/twammTimestamps.ts:42-75 | every round-down result is a multiple of 16 |
| TwammTimestamps.RoundUpOnSixteenGrid | scripts/twammTimestamps.ts:42-64 | every round-up result is a multiple of 16 |
| TwammTimestamps.NearRegionRounding | scripts/twammTimestamps.ts:44-45 | below distance 256: down is the greatest and up the least multiple of 16 around time, each within 15 of it |
| TwammTimestamps.AlreadyAligned | scripts/twammTimestamps.ts:44-55 | a valid time is returned unchanged in every mode: a multiple of 16 in the near region, a multiple of its step in the far region |
| TwammTimestamps.RoundUpLeastValid | scripts/twammTimestamps.ts:48-64 | far region: round-up returns a valid time at or after time, and every time it skips is invalid |
| TwammTimestamps.NoValidTimeBeforeUpNext | scripts/twammTimestamps.ts:57-59 | no valid time lies between an unaligned far time and the next multiple of its step |
| TwammTimestamps.RoundUpIdempotent | scripts/twammTimestamps.ts:44-64 | round-up applied to its own result returns that result, for far times and for near times whose ceiling stays near |
| TwammTimestamps.RoundDownKeepsStep | scripts/twammTimestamps.ts:65-71 | when the step at next = time - mod equals stepSize, the result is next: the greatest multiple of the step at or below time, valid, and no valid time lies in (next, time] |
| TwammTimestamps.NoValidTimeAfterStepBack | scripts/twammTimestamps.ts:67-71 | in that case a valid time after next is at least one step past next |
| TwammTimestamps.StepBackBelowStep | scripts/twammTimestamps.ts:67-69 | when the step at next differs from stepSize, next is less than one step from blockTime, and the smaller step divides both stepSize and next |
| TwammTimestamps.RoundDownAtBoundary | scripts/twammTimestamps.ts:66-75 | when the step shrank: the result is the greatest multiple of stepSizePrev at or below blockTime + stepSize - 1, and next <= result < time |
| TwammTimestamps.NearestPicksCloser | scripts/twammTimestamps.ts:24-40 | nearest mode returns down when time - down <= up - time, otherwise up |
| TwammTimestamps.RoundUpNearOvershoots | scripts/twammTimestamps.ts:44-45 | blockTime 10, time 260: up is 272, which is not valid (its step is 256), and rounding 272 up gives 512 |
| TwammTimestamps.RoundDownBoundaryOvershoots | scripts/twammTimestamps.ts:66-75 | blockTime 4000, time 8101: down is 8080, which is not valid (its step is 256), while 7936 is valid, and rounding 8080 down gives 7936 |
| TwammTimestamps.NearExamples | scripts/twammTimestamps.ts:24-45 | blockTime 0, time 10: down 0, up 16, nearest 16; blockTime 1000, time 1005: nearest 1008 |
| TwammTimestamps.FarExamples | scripts/twammTimestamps.ts:48-75 | blockTime 0: time 300 rounds down to 256, and time 10000 rounds up to 12288 |
| CorrectedRounding.RoundDownCorrected | scripts/twammTimestamps.ts:65-75 | corrected round-down never returns a time after the target |
| CorrectedRounding.RoundUpCorrected | scripts/twammTimestamps.ts:44-45 | corrected round-up never returns a time before the target |
| CorrectedRounding.ToNearestValidTimeCorrected | scripts/twammTimestamps.ts:24-40 | the corrected composition: down does not exceed time, up is not below it |
| CorrectedRounding.RoundUpAgrees | scripts/twammTimestamps.ts:44-64 | the corrected round-up equals the source's except when the near-region ceiling leaves the near region |
| CorrectedRounding.RoundDownAgrees | scripts/twammTimestamps.ts:65-75 | the corrected round-down equals the source's except in the boundary case where stepSizePrev < stepSize / 16 |
| CorrectedRounding.RoundDownIdempotent | scripts/twammTimestamps.ts:42-75 | round-down as written, applied to its own result, returns that result everywhere outside the boundary case under Findings |
| CorrectedRounding.StepOneBelow | scripts/twammTimestamps.ts:68-69 | a smaller step that is at least one sixteenth of a larger step is exactly that sixteenth |
| CorrectedRounding.NoValidTimeAboveFallback | scripts/twammTimestamps.ts:72-74 | no valid time lies above the corrected fallback and at or below time |
| CorrectedRounding.NoValidTimeBelowBoundary | scripts/twammTimestamps.ts:72-74 | just below blockTime + 16^k the grid is 16^(k-1), and no valid time lies between that grid's last multiple and the boundary |
| CorrectedRounding.RoundDownGreatestValid | scripts/twammTimestamps.ts:65-75 | corrected round-down returns a valid time at or before time, with no valid time in between |
| CorrectedRounding.NoValidTimeAfterFloor | scripts/twammTimestamps.ts:45 | near region: no valid time lies in (floor16(time), time] |
| CorrectedRounding.NoValidTimeBeforeCeil | scripts/twammTimestamps.ts:45 | near region: a valid time at or after time is at least ceil16(time) |
| CorrectedRounding.RoundUpLeastValidCorrected | scripts/twammTimestamps.ts:44-64 | corrected round-up returns a valid time at or after time, with no valid time in between |
| CorrectedRounding.NearestClosestValid | scripts/twammTimestamps.ts:24-40 | corrected nearest returns a valid time at least as close to time as any valid time, and the earliest among equally close ones |
| CorrectedRounding.ResultIsValid | scripts/twammTimestamps.ts:15-76 | every corrected result is a valid time |
| CorrectedRounding.ValidTimeIsFixed | scripts/twammTimestamps.ts:52-55 | a valid time is returned unchanged by every corrected mode |
| CorrectedRounding.CorrectedIdempotent | scripts/twammTimestamps.ts:15-76 | every corrected mode is idempotent |
| CorrectedRounding.CorrectedExamples | scripts/twammTimestamps.ts:44-75 | on the two inputs under Findings the corrected modes return 512 and 7936 |

## Findings

| source | as written | input that shows it | evidently intended | confidence | as-written member | corrected member |
|---|---|---|---|---|---|---|
| scripts/twammTimestamps.ts:44-45 | near-region round-up returns `Math.ceil(time / 16) * 16` without re-checking the step at that point, though the ceiling can cross distance 256 | blockTime 10, time 260 returns 272. At distance 262 the step is 256 and 272 % 256 = 16. Rounding 272 up again gives 512 | re-validate the ceiling like every far-region jump, returning the least valid time at or after time (512) | medium (not executed) | TwammTimestamps.RoundUpNearOvershoots | CorrectedRounding.RoundUpLeastValidCorrected |
| scripts/twammTimestamps.ts:68-74 | the boundary fallback uses the grid of stepSizePrev, the step at next. That step can be finer than the step just below blockTime + stepSize, which is stepSize / 16 | blockTime 4000, time 8101 returns 8080. At distance 4080 the step is 256 and 8080 % 256 = 144. The greatest valid time at or below 8101 is 7936, and rounding 8080 down again gives 7936 | fall back to the grid of stepSize / 16, returning the greatest valid time at or before time (7936) | medium (not executed) | TwammTimestamps.RoundDownBoundaryOvershoots | CorrectedRounding.RoundDownGreatestValid |

## Left out

- The command-line block (scripts/twammTimestamps.ts:78-91) is I/O glue and is not modelled: argument parsing, `parseInt`, console output, exit codes. It always passes a boolean, so nearest mode is never reached from it.
- StepSize: `16 ** Math.floor(Math.log(diff) / Math.log(16))` is modelled as an exact integer logarithm. This is a deliberate idealisation. Floating-point rounding that might misclassify exact powers of 16 is not reproduced.
- ToNearestValidTime: values are unbounded integers. Loss of precision above 2^53, `NaN` and `Infinity` are not modelled.
- ToNearestValidTime: requires `0 <= blockTime`. With a negative reference time the far branch can take JavaScript's `%` of a negative number, which has the dividend's sign. That case is not modelled.
- The outer `Math.floor` at scripts/twammTimestamps.ts:72 is a no-op on integers and is not modelled separately.
