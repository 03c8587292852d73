/**
 * The TWAMM timestamp quantizer as written: step-size selection and
 * toNearestValidTime with its three rounding modes.
 *
 * Times are unbounded integers. The only demand on callers is a
 * non-negative reference time; under it every `%` and `/` below agrees with
 * the JavaScript original (see README).
 */
module TwammTimestamps {
  import opened Powers

  /** The three-way `roundUp?: boolean` parameter: false, true, absent. */
  datatype Rounding = Down | Up | Nearest

  // ---------------------------------------------------------------------
  // Step-size selection
  // ---------------------------------------------------------------------

  /**
   * The grid spacing for a distance from the reference time: 16 below 256,
   * otherwise the largest power of 16 that does not exceed the distance.
   */
  function StepSize(diff: int): (s: nat)
    ensures diff < 256 ==> s == 16
    ensures 256 <= diff ==> 256 <= s <= diff < 16 * s
    ensures IsPowerOf16(s)
  {
    assert Pow16(1) == 16 && Pow16(2) == 256;
    if diff < 256 then 16 else Pow16(Log16(diff))
  }

  /** The exponent of the step size: StepSize(diff) == 16^StepExp(diff). */
  ghost function StepExp(diff: int): (k: nat)
    ensures 1 <= k && Pow16(k) == StepSize(diff)
  {
    assert Pow16(1) == 16;
    if diff < 256 then 1 else Log16(diff)
  }

  /** Inside the band [16^k, 16^(k+1)), k >= 1, the step size is 16^k. */
  lemma StepSizeInBand(diff: int, k: nat)
    requires 1 <= k && Pow16(k) <= diff < 16 * Pow16(k)
    ensures StepSize(diff) == Pow16(k)
  {
    if diff < 256 {
      assert Pow16(1) == 16;
      if 1 < k {
        Pow16Grows(1, k);
      }
    } else {
      Log16Unique(diff, k);
    }
  }

  /** The step size never shrinks as the distance grows, and a smaller step divides a larger one. */
  lemma StepSizeMonotone(x: int, y: int)
    requires x <= y
    ensures StepSize(x) <= StepSize(y)
    ensures StepSize(y) % StepSize(x) == 0
  {
    var kx, ky := StepExp(x), StepExp(y);
    if ky < kx {
      Pow16Grows(ky, kx);
    }
    assert kx <= ky;
    if kx < ky {
      Pow16Grows(kx, ky);
    }
    Pow16Divides(kx, ky);
  }

  /** Every step size is a multiple of 16. */
  lemma StepSizeOnSixteenGrid(diff: int)
    ensures StepSize(diff) % 16 == 0
  {
    assert Pow16(1) == 16;
    Pow16Divides(1, StepExp(diff));
  }

  /** A valid time is aligned to the step size of its own distance from the reference time. */
  predicate IsValidTime(blockTime: int, time: int) {
    time % StepSize(time - blockTime) == 0
  }

  /** A valid time at or after `time` lies on the grid of `time`'s own step size. */
  lemma LaterValidTimeOnGrid(blockTime: int, time: int, v: int)
    requires time <= v && IsValidTime(blockTime, v)
    ensures v % StepSize(time - blockTime) == 0
  {
    StepSizeMonotone(time - blockTime, v - blockTime);
    DividesTrans(v, StepSize(v - blockTime), StepSize(time - blockTime));
  }

  /** In the near region (distance below 256) a time is valid exactly when it is a multiple of 16. */
  lemma NearValidTime(blockTime: int, v: int)
    requires v - blockTime < 256
    ensures IsValidTime(blockTime, v) <==> v % 16 == 0
  {
  }

  // ---------------------------------------------------------------------
  // Rounding up to the fixed 16 grid (Math.ceil of time / 16)
  // ---------------------------------------------------------------------

  /** Math.ceil(time / 16) * 16: the least multiple of 16 at or above `time`. */
  function CeilTo16(time: int): (r: int)
    ensures r % 16 == 0 && time <= r < time + 16
  {
    FloorMultiple(time + 15, 16);
    ((time + 15) / 16) * 16
  }

  // ---------------------------------------------------------------------
  // Termination of the round-up recursion
  // ---------------------------------------------------------------------

  /** The round-up recursion returns at once at `time`: near region, or aligned to its own step. */
  predicate UpStops(blockTime: int, time: int) {
    time - blockTime < 256 || time % StepSize(time - blockTime) == 0
  }

  /** The time the round-up recursion moves to: the next multiple of the current step size. */
  function UpNext(blockTime: int, time: int): int {
    var s := StepSize(time - blockTime);
    time + (s - time % s)
  }

  /** How many further jumps the round-up recursion makes from `time` (at most two). */
  ghost function UpRank(blockTime: int, time: int): nat {
    if UpStops(blockTime, time) then 0
    else if UpStops(blockTime, UpNext(blockTime, time)) then 1
    else 2
  }

  /** One far-region jump lands on the current step's grid, strictly ahead and less than a step away. */
  lemma UpJump(blockTime: int, time: int)
    requires !UpStops(blockTime, time)
    ensures var s := StepSize(time - blockTime);
      UpNext(blockTime, time) % s == 0 && time < UpNext(blockTime, time) < time + s
  {
    var s := StepSize(time - blockTime);
    assert UpNext(blockTime, time) == time + (s - time % s);
    NextMultiple(time, s);
  }

  /**
   * From a far, unaligned time the round-up recursion stops after at most
   * two jumps: the step grows by at most one factor of 16 along the way.
   */
  lemma UpSettlesWithinTwoJumps(blockTime: int, time: int)
    requires !UpStops(blockTime, time)
    ensures UpStops(blockTime, UpNext(blockTime, time))
      || UpStops(blockTime, UpNext(blockTime, UpNext(blockTime, time)))
  {
    var k := StepExp(time - blockTime);
    var s := Pow16(k);
    var n1 := UpNext(blockTime, time);
    UpJump(blockTime, time);
    var d1 := n1 - blockTime;
    assert s < d1 < 17 * s;
    if d1 < 16 * s {
      StepSizeInBand(d1, k);
      assert UpStops(blockTime, n1);
    } else {
      assert Pow16(k + 1) == 16 * s;
      StepSizeInBand(d1, k + 1);
      if !UpStops(blockTime, n1) {
        var n2 := UpNext(blockTime, n1);
        UpJump(blockTime, n1);
        StepSizeInBand(n2 - blockTime, k + 1);
        assert UpStops(blockTime, n2);
      }
    }
  }

  /** The termination measure of the round-up recursion decreases on every jump. */
  lemma UpRankDecreases(blockTime: int, time: int)
    requires !UpStops(blockTime, time)
    ensures UpRank(blockTime, UpNext(blockTime, time)) < UpRank(blockTime, time)
  {
    UpSettlesWithinTwoJumps(blockTime, time);
  }

  // ---------------------------------------------------------------------
  // toNearestValidTime
  // ---------------------------------------------------------------------

  /**
   * Nearest-mode selection: the candidate closer to `time`, `down` on a tie.
   */
  function PickCloser(time: int, down: int, up: int): (r: int)
    ensures r == down || r == up
    ensures Abs(r - time) <= Abs(down - time) && Abs(r - time) <= Abs(up - time)
    ensures Abs(down - time) <= Abs(up - time) ==> r == down
  {
    if Abs(down - time) <= Abs(up - time) then down else up
  }

  /**
   * The source's toNearestValidTime: the directional modes are RoundDown
   * and RoundUp, and nearest mode computes both and keeps the closer one.
   */
  function ToNearestValidTime(blockTime: int, time: int, rounding: Rounding): (r: int)
    requires 0 <= blockTime
    ensures rounding == Down ==> r <= time
    ensures rounding == Up ==> time <= r
    ensures rounding == Nearest ==> RoundDown(blockTime, time) <= r <= RoundUp(blockTime, time)
  {
    match rounding
    case Down => RoundDown(blockTime, time)
    case Up => RoundUp(blockTime, time)
    case Nearest => PickCloser(time, RoundDown(blockTime, time), RoundUp(blockTime, time))
  }

  /**
   * toNearestValidTime with roundUp false. Near the reference time it snaps
   * down to a multiple of 16; farther away it steps back to the previous
   * multiple of the step, and when the step is smaller there it falls back
   * to the greatest multiple of that smaller step below the boundary
   * blockTime + stepSize.
   */
  function RoundDown(blockTime: int, time: int): (r: int)
    requires 0 <= blockTime
    ensures r <= time
  {
    var diff := time - blockTime;
    if diff < 256 then
      FloorToMultiple(time, 16)
    else
      var stepSize := StepSize(diff);
      var mod := time % stepSize;
      if mod == 0 then
        time
      else
        var next := time - mod;
        var stepSizePrev := StepSize(next - blockTime);
        if stepSizePrev == stepSize then
          next
        else
          FloorToMultiple(blockTime + stepSize - 1, stepSizePrev)
  }

  /**
   * toNearestValidTime with roundUp true. Near the reference time it snaps
   * up to a multiple of 16; farther away it jumps to the next multiple of
   * the step and starts again from there, since the step may be larger at
   * the new time.
   */
  function RoundUp(blockTime: int, time: int): (r: int)
    requires 0 <= blockTime
    ensures time <= r
    decreases UpRank(blockTime, time)
  {
    var diff := time - blockTime;
    if diff < 256 then
      CeilTo16(time)
    else
      var stepSize := StepSize(diff);
      var mod := time % stepSize;
      if mod == 0 then
        time
      else
        var next := time + (stepSize - mod);
        UpRankDecreases(blockTime, time);
        RoundUp(blockTime, next)
  }

  // ---------------------------------------------------------------------
  // Properties of the source as written
  // ---------------------------------------------------------------------

  /** Every result, in every mode, is a multiple of 16. */
  lemma ResultOnSixteenGrid(blockTime: int, time: int, rounding: Rounding)
    requires 0 <= blockTime
    ensures ToNearestValidTime(blockTime, time, rounding) % 16 == 0
  {
    match rounding
    case Down => RoundDownOnSixteenGrid(blockTime, time);
    case Up => RoundUpOnSixteenGrid(blockTime, time);
    case Nearest =>
      RoundDownOnSixteenGrid(blockTime, time);
      RoundUpOnSixteenGrid(blockTime, time);
  }

  lemma RoundDownOnSixteenGrid(blockTime: int, time: int)
    requires 0 <= blockTime
    ensures RoundDown(blockTime, time) % 16 == 0
  {
    if 256 <= time - blockTime {
      var s := StepSize(time - blockTime);
      StepSizeOnSixteenGrid(time - blockTime);
      if time % s == 0 {
        DividesTrans(time, s, 16);
      } else if StepSize(time - time % s - blockTime) == s {
        RoundDownKeepsStep(blockTime, time);
        DividesTrans(RoundDown(blockTime, time), s, 16);
      } else {
        var prev := StepSize(time - time % s - blockTime);
        RoundDownAtBoundary(blockTime, time);
        StepSizeOnSixteenGrid(time - time % s - blockTime);
        DividesTrans(RoundDown(blockTime, time), prev, 16);
      }
    }
  }

  lemma RoundUpOnSixteenGrid(blockTime: int, time: int)
    requires 0 <= blockTime
    ensures RoundUp(blockTime, time) % 16 == 0
    decreases UpRank(blockTime, time)
  {
    if 256 <= time - blockTime {
      var s := StepSize(time - blockTime);
      if time % s == 0 {
        StepSizeOnSixteenGrid(time - blockTime);
        DividesTrans(time, s, 16);
      } else {
        var next := UpNext(blockTime, time);
        assert RoundUp(blockTime, time) == RoundUp(blockTime, next);
        UpRankDecreases(blockTime, time);
        RoundUpOnSixteenGrid(blockTime, next);
      }
    }
  }

  /** Near region: round-down gives the greatest and round-up the least multiple of 16 around `time`. */
  lemma NearRegionRounding(blockTime: int, time: int)
    requires 0 <= blockTime && time - blockTime < 256
    ensures var down := RoundDown(blockTime, time);
      down % 16 == 0 && time - 16 < down <= time
    ensures var up := RoundUp(blockTime, time);
      up % 16 == 0 && time <= up < time + 16
  {
  }

  /** A time that is already valid is returned unchanged in every mode. */
  lemma AlreadyAligned(blockTime: int, time: int, rounding: Rounding)
    requires 0 <= blockTime && IsValidTime(blockTime, time)
    ensures ToNearestValidTime(blockTime, time, rounding) == time
  {
    if time - blockTime < 256 {
      NearValidTime(blockTime, time);
      var down, up := FloorToMultiple(time, 16), CeilTo16(time);
      if down < time {
        MultiplesApart(down, time, 16);
      }
      if time < up {
        MultiplesApart(time, up, 16);
      }
    }
  }

  /**
   * Far region: round-up returns the least valid time at or after `time`;
   * every time it skips over is invalid.
   */
  lemma RoundUpLeastValid(blockTime: int, time: int)
    requires 0 <= blockTime && 256 <= time - blockTime
    ensures var up := RoundUp(blockTime, time);
      IsValidTime(blockTime, up) && time <= up
      && forall v :: time <= v < up ==> !IsValidTime(blockTime, v)
    decreases UpRank(blockTime, time)
  {
    if !UpStops(blockTime, time) {
      var next := UpNext(blockTime, time);
      UpJump(blockTime, time);
      UpRankDecreases(blockTime, time);
      RoundUpLeastValid(blockTime, next);
      forall v | time <= v < next
        ensures !IsValidTime(blockTime, v)
      {
        NoValidTimeBeforeUpNext(blockTime, time, v);
      }
    }
  }

  /** No valid time lies between an unaligned far time and the next multiple of its step. */
  lemma NoValidTimeBeforeUpNext(blockTime: int, time: int, v: int)
    requires !UpStops(blockTime, time) && time <= v
    ensures IsValidTime(blockTime, v) ==> UpNext(blockTime, time) <= v
  {
    if IsValidTime(blockTime, v) {
      var s := StepSize(time - blockTime);
      StepBackMultiple(time, s);
      LaterValidTimeOnGrid(blockTime, time, v);
      MultiplesApart(time - time % s, v, s);
    }
  }

  /** Round-up is idempotent whenever its result is valid: far times, and near times whose ceiling stays near. */
  lemma RoundUpIdempotent(blockTime: int, time: int)
    requires 0 <= blockTime
    requires 256 <= time - blockTime || CeilTo16(time) - blockTime < 256
    ensures var up := RoundUp(blockTime, time);
      RoundUp(blockTime, up) == up
  {
    var up := RoundUp(blockTime, time);
    if 256 <= time - blockTime {
      RoundUpLeastValid(blockTime, time);
    } else {
      NearValidTime(blockTime, up);
    }
    AlreadyAligned(blockTime, up, Up);
  }

  /**
   * Far round-down when the step is the same at the previous multiple of
   * the step: the result is that multiple, the greatest valid time at or
   * below `time`.
   */
  lemma RoundDownKeepsStep(blockTime: int, time: int)
    requires 0 <= blockTime && 256 <= time - blockTime
    requires var s := StepSize(time - blockTime);
      time % s != 0 && StepSize(time - time % s - blockTime) == s
    ensures var s := StepSize(time - blockTime);
      var down := RoundDown(blockTime, time);
      down == time - time % s && down % s == 0 && time - s < down < time
      && IsValidTime(blockTime, down)
      && forall v :: down < v <= time ==> !IsValidTime(blockTime, v)
  {
    var s := StepSize(time - blockTime);
    var down := time - time % s;
    assert RoundDown(blockTime, time) == down;
    StepBackMultiple(time, s);
    forall v | down < v <= time
      ensures !IsValidTime(blockTime, v)
    {
      NoValidTimeAfterStepBack(blockTime, time, v);
    }
  }

  /** When the step is unchanged at the previous multiple of the step, no valid time lies after that multiple. */
  lemma NoValidTimeAfterStepBack(blockTime: int, time: int, v: int)
    requires var s := StepSize(time - blockTime);
      StepSize(time - time % s - blockTime) == s && time - time % s < v <= time
    ensures IsValidTime(blockTime, v) ==> time - time % StepSize(time - blockTime) + StepSize(time - blockTime) <= v
  {
    var s := StepSize(time - blockTime);
    var down := time - time % s;
    if IsValidTime(blockTime, v) {
      StepBackMultiple(time, s);
      StepSizeMonotone(down - blockTime, v - blockTime);
      StepSizeMonotone(v - blockTime, time - blockTime);
      MultiplesApart(down, v, s);
    }
  }

  /**
   * Far round-down when the step shrank at the previous multiple of the
   * step: the result is the greatest multiple of that smaller step that is
   * below the boundary blockTime + stepSize, and it is not below that
   * previous multiple.
   */
  lemma RoundDownAtBoundary(blockTime: int, time: int)
    requires 0 <= blockTime && 256 <= time - blockTime
    requires var s := StepSize(time - blockTime);
      time % s != 0 && StepSize(time - time % s - blockTime) != s
    ensures var s := StepSize(time - blockTime);
      var prev := StepSize(time - time % s - blockTime);
      var down := RoundDown(blockTime, time);
      prev < s && down % prev == 0 && down <= blockTime + s - 1 < down + prev
      && time - time % s <= down < time
  {
    var s := StepSize(time - blockTime);
    var next := time - time % s;
    var prev := StepSize(next - blockTime);
    var down := FloorToMultiple(blockTime + s - 1, prev);
    assert RoundDown(blockTime, time) == down;
    StepBackBelowStep(blockTime, time);
    if down < next {
      MultiplesApart(down, next, prev);
    }
  }

  /**
   * When the step shrinks at the previous multiple of the step, that
   * multiple lies less than one step from the reference time, and it is
   * also on the smaller step's grid.
   */
  lemma StepBackBelowStep(blockTime: int, time: int)
    requires 256 <= time - blockTime
    requires var s := StepSize(time - blockTime);
      time % s != 0 && StepSize(time - time % s - blockTime) != s
    ensures var s := StepSize(time - blockTime);
      var next := time - time % s;
      var prev := StepSize(next - blockTime);
      next - blockTime < s && prev < s && s % prev == 0 && next % prev == 0
  {
    var s := StepSize(time - blockTime);
    var next := time - time % s;
    var prev := StepSize(next - blockTime);
    StepBackMultiple(time, s);
    StepSizeMonotone(next - blockTime, time - blockTime);
    if s <= next - blockTime {
      StepSizeInBand(next - blockTime, StepExp(time - blockTime));
    }
    DividesTrans(next, s, prev);
  }

  /**
   * Nearest mode returns the closer of the two directional results, ties
   * going down; since down <= time <= up the distances are time - down and
   * up - time.
   */
  lemma NearestPicksCloser(blockTime: int, time: int)
    requires 0 <= blockTime
    ensures var down, up := RoundDown(blockTime, time), RoundUp(blockTime, time);
      var r := ToNearestValidTime(blockTime, time, Nearest);
      (time - down <= up - time ==> r == down) && (up - time < time - down ==> r == up)
  {
  }

  /** The source's near-region round-up can land on an invalid time, so applying it twice moves again. */
  lemma RoundUpNearOvershoots()
    ensures RoundUp(10, 260) == 272
    ensures StepSize(272 - 10) == 256 && !IsValidTime(10, 272)
    ensures RoundUp(10, 272) == 512
  {
    assert CeilTo16(260) == 272;
    Log16Unique(262, 2);
    Log16Unique(502, 2);
    assert StepSize(262) == 256 && StepSize(502) == 256;
    assert RoundUp(10, 512) == 512;
  }

  /** The source's round-down boundary case can return an invalid time, above the greatest valid one. */
  lemma RoundDownBoundaryOvershoots()
    ensures RoundDown(4000, 8101) == 8080
    ensures StepSize(8080 - 4000) == 256 && !IsValidTime(4000, 8080)
    ensures IsValidTime(4000, 7936)
    ensures RoundDown(4000, 8080) == 7936
  {
    Log16Unique(4101, 3);
    Log16Unique(4080, 2);
    Log16Unique(3936, 2);
    assert StepSize(4101) == 4096 && StepSize(96) == 16;
    assert StepSize(4080) == 256 && StepSize(3936) == 256;
  }

  /** Worked examples of the rounding modes near the reference time. */
  lemma NearExamples()
    ensures ToNearestValidTime(0, 10, Down) == 0
    ensures ToNearestValidTime(0, 10, Up) == 16
    ensures ToNearestValidTime(0, 10, Nearest) == 16
    ensures ToNearestValidTime(1000, 1005, Nearest) == 1008
  {
    assert FloorToMultiple(10, 16) == 0 && CeilTo16(10) == 16;
    assert FloorToMultiple(1005, 16) == 992 && CeilTo16(1005) == 1008;
  }

  /** Worked examples of the rounding modes far from the reference time. */
  lemma FarExamples()
    ensures ToNearestValidTime(0, 300, Down) == 256
    ensures ToNearestValidTime(0, 10000, Up) == 12288
  {
    Log16Unique(300, 2);
    Log16Unique(256, 2);
    Log16Unique(10000, 3);
    Log16Unique(12288, 3);
    assert StepSize(300) == 256 && StepSize(256) == 256;
    assert StepSize(10000) == 4096 && StepSize(12288) == 4096;
    assert RoundUp(0, 12288) == 12288;
  }
}
