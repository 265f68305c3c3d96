/**
 * Timeseries::Transformer: a cursor that walks a period forward from a start time and, on
 * each call, yields the times it passes up to the input time, never past its stop time.
 */
module Transformation {
  import opened Results
  import opened Periods
  import Clock

  class Transformer {
    const zone: Clock.Calendar
    const period: PeriodData
    const startTime: Option<Clock.Time>
    const stopTime: Option<Clock.Time>
    var currentTime: Option<Clock.Time>

    /** Transformer#initialize: the period, start and stop are kept as given and the
        current time begins at the start, absent when the start is. */
    constructor (zone: Clock.Calendar, period: PeriodData, startTime: Option<Clock.Time>, stopTime: Option<Clock.Time>)
      ensures this.zone == zone && this.period == period
      ensures this.startTime == startTime && this.stopTime == stopTime
      ensures currentTime == startTime
    {
      this.zone := zone;
      this.period := period;
      this.startTime := startTime;
      this.stopTime := stopTime;
      this.currentTime := startTime;
    }

    /** The loop condition of each_to: `t` is within the stop, when there is one, and no
        later than the input time. */
    predicate Open(t: Clock.Time, input: Clock.Time) {
      (stopTime.None? || t <= stopTime.value) && t <= input
    }

    /** Transformer#each_to: an absent current time is first set to the input; then, while
        the current time is open, it is yielded and advanced by the period.  The period must
        move every time up to the input forward, or the loop would not end. */
    method EachTo(input: Clock.Time) returns (yielded: seq<Clock.Time>)
      requires forall t :: t <= input ==> Clock.Advance(zone, t, period) > t
      modifies this
      ensures currentTime.Some? && !Open(currentTime.value, input)
      ensures forall k :: 0 <= k < |yielded| ==> Open(yielded[k], input)
      ensures |yielded| > 0 ==> yielded[0] == old(currentTime).GetOr(input)
      ensures forall k :: 0 < k < |yielded| ==> yielded[k] == Clock.Advance(zone, yielded[k - 1], period)
      ensures |yielded| > 0 ==> currentTime == Some(Clock.Advance(zone, yielded[|yielded| - 1], period))
      ensures |yielded| == 0 ==> currentTime == Some(old(currentTime).GetOr(input))
      ensures |yielded| == 0 <==> !Open(old(currentTime).GetOr(input), input)
    {
      if currentTime.None? {
        currentTime := Some(input);
      }
      ghost var first := currentTime.value;
      yielded := [];
      while Open(currentTime.value, input)
        invariant currentTime.Some?
        invariant forall k :: 0 <= k < |yielded| ==> Open(yielded[k], input)
        invariant |yielded| > 0 ==> yielded[0] == first
        invariant forall k :: 0 < k < |yielded| ==> yielded[k] == Clock.Advance(zone, yielded[k - 1], period)
        invariant |yielded| > 0 ==> currentTime == Some(Clock.Advance(zone, yielded[|yielded| - 1], period))
        invariant |yielded| == 0 ==> currentTime == Some(first)
        decreases input - currentTime.value
      {
        yielded := yielded + [currentTime.value];
        currentTime := Some(Clock.Advance(zone, currentTime.value, period));
      }
    }
  }

  /** Once a time is past the stop or the input, it is past any earlier input too: a second
      each_to with an input no later than the first one's yields nothing. */
  lemma ClosedStaysClosed(tr: Transformer, t: Clock.Time, input: Clock.Time, earlier: Clock.Time)
    requires !tr.Open(t, input) && earlier <= input
    ensures !tr.Open(t, earlier)
  {
  }

  /** The yields of one each_to call come in strictly increasing order. */
  lemma YieldsIncrease(zone: Clock.Calendar, period: PeriodData, input: Clock.Time, yielded: seq<Clock.Time>)
    requires forall t :: t <= input ==> Clock.Advance(zone, t, period) > t
    requires forall k :: 0 <= k < |yielded| ==> yielded[k] <= input
    requires forall k :: 0 < k < |yielded| ==> yielded[k] == Clock.Advance(zone, yielded[k - 1], period)
    ensures forall j, k :: 0 <= j < k < |yielded| ==> yielded[j] < yielded[k]
  {
    forall j, k | 0 <= j < k < |yielded|
      ensures yielded[j] < yielded[k]
    {
      LaterYield(zone, period, input, yielded, j, k);
    }
  }

  lemma {:induction false} LaterYield(zone: Clock.Calendar, period: PeriodData, input: Clock.Time, yielded: seq<Clock.Time>, j: nat, k: nat)
    requires forall t :: t <= input ==> Clock.Advance(zone, t, period) > t
    requires forall k :: 0 <= k < |yielded| ==> yielded[k] <= input
    requires forall k :: 0 < k < |yielded| ==> yielded[k] == Clock.Advance(zone, yielded[k - 1], period)
    requires j < k < |yielded|
    ensures yielded[j] < yielded[k]
    decreases k
  {
    assert yielded[k - 1] < yielded[k];
    if j < k - 1 {
      LaterYield(zone, period, input, yielded, j, k - 1);
    }
  }

  /** A period of hours, minutes and seconds adding up to more than nothing moves every
      time forward, so each_to ends for it whatever the input. */
  lemma SubDayMovesForward(zone: Clock.Calendar, period: PeriodData, input: Clock.Time)
    requires Clock.NoDateUnits(period) && Clock.SubDayMicros(period) > 0
    ensures forall t :: t <= input ==> Clock.Advance(zone, t, period) > t
  {
  }
}
