/**
 * The rounding the quantizer is evidently meant to perform: every result is
 * a valid time (aligned to the step size of its own distance from the
 * reference time), round-up gives the least valid time at or after the
 * target, round-down the greatest at or before it, and nearest the closest
 * valid time overall. Two branches differ from the source: the near-region
 * round-up re-checks its result, and the round-down boundary case uses the
 * grid just below the step's boundary, stepSize / 16.
 */
module CorrectedRounding {
  import opened Powers
  import opened TwammTimestamps

  /** Round-down whose boundary case falls back to the grid of the region just below blockTime + stepSize. */
  function RoundDownCorrected(blockTime: int, time: int): (r: int)
    requires 0 <= blockTime
    ensures r <= time
  {
    var diff := time - blockTime;
    if diff < 256 then
      FloorToMultiple(time, 16)
    else
      var stepSize := StepSize(diff);
      var mod := time % stepSize;
      if mod == 0 then
        time
      else
        var next := time - mod;
        if StepSize(next - blockTime) == stepSize then
          next
        else
          FloorToMultiple(blockTime + stepSize - 1, stepSize / 16)
  }

  /** Round-up whose near-region result is re-validated like every far-region jump. */
  function RoundUpCorrected(blockTime: int, time: int): (r: int)
    requires 0 <= blockTime
    ensures time <= r
  {
    if time - blockTime < 256 then
      var up := CeilTo16(time);
      if up - blockTime < 256 then up else RoundUp(blockTime, up)
    else
      RoundUp(blockTime, time)
  }

  /** toNearestValidTime built from the corrected directional modes. */
  function ToNearestValidTimeCorrected(blockTime: int, time: int, rounding: Rounding): (r: int)
    requires 0 <= blockTime
    ensures rounding == Down ==> r <= time
    ensures rounding == Up ==> time <= r
  {
    match rounding
    case Down => RoundDownCorrected(blockTime, time)
    case Up => RoundUpCorrected(blockTime, time)
    case Nearest => PickCloser(time, RoundDownCorrected(blockTime, time), RoundUpCorrected(blockTime, time))
  }

  // ---------------------------------------------------------------------
  // Agreement with the source
  // ---------------------------------------------------------------------

  /** The corrected round-up agrees with the source except where the near-region ceiling leaves the near region. */
  lemma RoundUpAgrees(blockTime: int, time: int)
    requires 0 <= blockTime
    requires 256 <= time - blockTime || CeilTo16(time) - blockTime < 256
    ensures RoundUpCorrected(blockTime, time) == RoundUp(blockTime, time)
  {
  }

  /**
   * The corrected round-down agrees with the source except in the boundary
   * case where the step at the previous multiple is smaller than
   * stepSize / 16.
   */
  lemma RoundDownAgrees(blockTime: int, time: int)
    requires 0 <= blockTime
    requires var s := StepSize(time - blockTime);
      time - blockTime < 256 || time % s == 0 || s <= 16 * StepSize(time - time % s - blockTime)
    ensures RoundDownCorrected(blockTime, time) == RoundDown(blockTime, time)
  {
    var d := time - blockTime;
    var s := StepSize(d);
    if 256 <= d && time % s != 0 {
      var e := time - time % s - blockTime;
      var prev := StepSize(e);
      if prev != s {
        assert e <= d;
        StepOneBelow(e, d);
        assert RoundDown(blockTime, time) == FloorToMultiple(blockTime + s - 1, prev);
        assert RoundDownCorrected(blockTime, time) == FloorToMultiple(blockTime + s - 1, s / 16);
      }
    }
  }

  /**
   * Round-down as written is idempotent outside the boundary case where the
   * step at the previous multiple is smaller than stepSize / 16.
   */
  lemma RoundDownIdempotent(blockTime: int, time: int)
    requires 0 <= blockTime
    requires var s := StepSize(time - blockTime);
      time - blockTime < 256 || time % s == 0 || s <= 16 * StepSize(time - time % s - blockTime)
    ensures var down := RoundDown(blockTime, time);
      RoundDown(blockTime, down) == down
  {
    var down := RoundDown(blockTime, time);
    RoundDownAgrees(blockTime, time);
    RoundDownGreatestValid(blockTime, time);
    AlreadyAligned(blockTime, down, Down);
  }

  /** A strictly smaller step that is at least a sixteenth of a larger step is exactly that sixteenth. */
  lemma StepOneBelow(x: int, y: int)
    requires x <= y && StepSize(x) != StepSize(y) && StepSize(y) <= 16 * StepSize(x)
    ensures 16 * StepSize(x) == StepSize(y)
  {
    var a, c := StepExp(x), StepExp(y);
    StepSizeMonotone(x, y);
    if c < a {
      Pow16Grows(c, a);
    }
    assert a < c;
    if a + 1 < c {
      Pow16Grows(a + 1, c);
    }
    assert Pow16(a + 1) == 16 * Pow16(a);
  }

  // ---------------------------------------------------------------------
  // The intended properties
  // ---------------------------------------------------------------------

  /** In the boundary case, no valid time lies above the fallback result and at or below `time`. */
  lemma NoValidTimeAboveFallback(blockTime: int, time: int, v: int)
    requires 256 <= time - blockTime
    requires var s := StepSize(time - blockTime);
      time % s != 0 && StepSize(time - time % s - blockTime) != s
      && FloorToMultiple(blockTime + s - 1, s / 16) < v
    ensures IsValidTime(blockTime, v) ==> time < v
  {
    var k := StepExp(time - blockTime);
    var s := Pow16(k);
    var next := time - time % s;
    StepBackBelowStep(blockTime, time);
    if v - blockTime < s {
      assert Pow16(k - 1) == s / 16;
      NoValidTimeBelowBoundary(blockTime, k, FloorToMultiple(blockTime + s - 1, s / 16), v);
    } else if v <= time {
      StepSizeInBand(v - blockTime, k);
      StepBackMultiple(time, s);
      if v % s == 0 {
        MultiplesApart(next, v, s);
      }
    }
  }

  /**
   * Just below the boundary blockTime + 16^k the grid is 16^(k-1): no valid
   * time lies between the greatest such multiple and the boundary.
   */
  lemma NoValidTimeBelowBoundary(blockTime: int, k: nat, r: int, v: int)
    requires 2 <= k
    requires var q := Pow16(k - 1);
      r == FloorToMultiple(blockTime + Pow16(k) - 1, q) && r < v < blockTime + Pow16(k)
    ensures !IsValidTime(blockTime, v)
  {
    var q := Pow16(k - 1);
    assert Pow16(k) == 16 * q;
    StepSizeInBand(v - blockTime, k - 1);
    if v % q == 0 {
      MultiplesApart(r, v, q);
    }
  }

  /** The corrected round-down gives the greatest valid time at or before `time`. */
  lemma RoundDownGreatestValid(blockTime: int, time: int)
    requires 0 <= blockTime
    ensures var down := RoundDownCorrected(blockTime, time);
      IsValidTime(blockTime, down) && down <= time
      && forall v :: down < v <= time ==> !IsValidTime(blockTime, v)
  {
    var d := time - blockTime;
    var down := RoundDownCorrected(blockTime, time);
    if d < 256 {
      forall v | down < v <= time
        ensures !IsValidTime(blockTime, v)
      {
        NoValidTimeAfterFloor(blockTime, time, v);
      }
    } else {
      var s := StepSize(d);
      if time % s != 0 {
        var e := time - time % s - blockTime;
        if StepSize(e) == s {
          RoundDownAgrees(blockTime, time);
          RoundDownKeepsStep(blockTime, time);
        } else {
          var k := StepExp(d);
          var q := s / 16;
          assert Pow16(k - 1) == q;
          assert down == FloorToMultiple(blockTime + s - 1, q);
          StepSizeInBand(down - blockTime, k - 1);
          forall v | down < v <= time
            ensures !IsValidTime(blockTime, v)
          {
            NoValidTimeAboveFallback(blockTime, time, v);
          }
        }
      }
    }
  }

  /** In the near region no valid time lies between the floor of `time` and `time`. */
  lemma NoValidTimeAfterFloor(blockTime: int, time: int, v: int)
    requires time - blockTime < 256 && FloorToMultiple(time, 16) < v <= time
    ensures !IsValidTime(blockTime, v)
  {
    if v % 16 == 0 {
      MultiplesApart(FloorToMultiple(time, 16), v, 16);
    }
  }

  /** The corrected round-up gives the least valid time at or after `time`. */
  lemma RoundUpLeastValidCorrected(blockTime: int, time: int)
    requires 0 <= blockTime
    ensures var up := RoundUpCorrected(blockTime, time);
      IsValidTime(blockTime, up) && time <= up
      && forall v :: time <= v < up ==> !IsValidTime(blockTime, v)
  {
    if time - blockTime < 256 {
      var c := CeilTo16(time);
      if 256 <= c - blockTime {
        assert RoundUpCorrected(blockTime, time) == RoundUp(blockTime, c);
        RoundUpLeastValid(blockTime, c);
      } else {
        assert RoundUpCorrected(blockTime, time) == c;
      }
      forall v | time <= v < c
        ensures !IsValidTime(blockTime, v)
      {
        NoValidTimeBeforeCeil(blockTime, time, v);
      }
    } else {
      RoundUpLeastValid(blockTime, time);
    }
  }

  /** Every valid time is a multiple of 16, so none lies between a near time and its ceiling. */
  lemma NoValidTimeBeforeCeil(blockTime: int, time: int, v: int)
    requires time - blockTime < 256 && time <= v
    ensures IsValidTime(blockTime, v) ==> CeilTo16(time) <= v
  {
    if IsValidTime(blockTime, v) {
      var c := CeilTo16(time);
      LaterValidTimeOnGrid(blockTime, time, v);
      MultiplesApart(c - 16, v, 16);
    }
  }

  /**
   * Corrected nearest mode returns the valid time closest to `time`; among
   * equally close valid times it returns the earlier one.
   */
  lemma NearestClosestValid(blockTime: int, time: int)
    requires 0 <= blockTime
    ensures var r := ToNearestValidTimeCorrected(blockTime, time, Nearest);
      IsValidTime(blockTime, r)
      && forall v :: IsValidTime(blockTime, v) ==>
        Abs(r - time) <= Abs(v - time) && (Abs(v - time) == Abs(r - time) ==> r <= v)
  {
    RoundDownGreatestValid(blockTime, time);
    RoundUpLeastValidCorrected(blockTime, time);
  }

  /** Every corrected result is a valid time. */
  lemma ResultIsValid(blockTime: int, time: int, rounding: Rounding)
    requires 0 <= blockTime
    ensures IsValidTime(blockTime, ToNearestValidTimeCorrected(blockTime, time, rounding))
  {
    RoundDownGreatestValid(blockTime, time);
    RoundUpLeastValidCorrected(blockTime, time);
  }

  /** A valid time is a fixed point of every corrected mode. */
  lemma ValidTimeIsFixed(blockTime: int, time: int, rounding: Rounding)
    requires 0 <= blockTime && IsValidTime(blockTime, time)
    ensures ToNearestValidTimeCorrected(blockTime, time, rounding) == time
  {
    RoundDownGreatestValid(blockTime, time);
    RoundUpLeastValidCorrected(blockTime, time);
  }

  /** Every corrected mode is idempotent. */
  lemma CorrectedIdempotent(blockTime: int, time: int, rounding: Rounding)
    requires 0 <= blockTime
    ensures var r := ToNearestValidTimeCorrected(blockTime, time, rounding);
      ToNearestValidTimeCorrected(blockTime, r, rounding) == r
  {
    ResultIsValid(blockTime, time, rounding);
    ValidTimeIsFixed(blockTime, ToNearestValidTimeCorrected(blockTime, time, rounding), rounding);
  }

  /** On the inputs where the source goes wrong, the corrected modes give the valid times. */
  lemma CorrectedExamples()
    ensures RoundUpCorrected(10, 260) == 512
    ensures RoundDownCorrected(4000, 8101) == 7936
  {
    assert CeilTo16(260) == 272;
    Log16Unique(262, 2);
    Log16Unique(502, 2);
    Log16Unique(4101, 3);
    assert StepSize(262) == 256 && StepSize(502) == 256;
    assert RoundUp(10, 512) == 512;
    assert StepSize(4101) == 4096 && StepSize(96) == 16;
  }
}
