/**
 * Timeseries::Iterator: a cursor over a series that remembers the previous step, so that a
 * stream of times can be cut into intervals, and that can switch to a new period midway
 * while its apparent index runs on without a jump.
 */
module Iteration {
  import opened Results
  import opened Periods
  import Clock
  import opened Timeseries

  class Iterator {
    const zone: Clock.Calendar
    var timeseries: Series
    var index: int
    var offset: int
    var time: Option<Clock.Time>
    var lastTime: Option<Clock.Time>
    const requireLastTime: bool
    const streamForever: bool

    /** What the fields keep between calls: when `advance` can compare with the step count,
        a present time is the step at the index and an absent one means the series is
        exhausted; a streaming Iterator always has a time; and the last time is absent only
        before the first step or past the end. */
    predicate Valid()
      reads this
    {
      && (Comparable() && time.Some? ==> time.value == At(zone, timeseries, index))
      && (Comparable() && time.None? ==> Exhausted())
      && (streamForever ==> time.Some?)
      && (lastTime.None? ==> index == 0 || time.None?)
    }

    /** The fields of a new Iterator, before the optional first advance. */
    constructor (zone: Clock.Calendar, timeseries: Series, requireLastTime: bool, streamForever: bool)
      ensures Valid()
      ensures this.zone == zone && this.timeseries == timeseries
      ensures this.requireLastTime == requireLastTime && this.streamForever == streamForever
      ensures index == 0 && offset == 0 && lastTime.None?
      ensures time == Some(timeseries.start)
    {
      this.zone := zone;
      this.timeseries := timeseries;
      this.index := 0;
      this.offset := 0;
      this.time := Some(At(zone, timeseries, 0));
      this.lastTime := None;
      this.requireLastTime := requireLastTime;
      this.streamForever := streamForever;
      new;
      AtZero(zone, timeseries);
    }

    /** Iterator#initialize: the fields above, then one `advance` when `require_last_time`
        is set, which raises when there is no step count to compare with. */
    static method Initialize(zone: Clock.Calendar, timeseries: Series, requireLastTime: bool, streamForever: bool)
      returns (r: Result<Iterator>)
      ensures r.Ok? ==> fresh(r.value) && r.value.Valid() && r.value.zone == zone && r.value.offset == 0
      ensures r.Ok? ==> (r.value.timeseries == timeseries &&
        r.value.requireLastTime == requireLastTime && r.value.streamForever == streamForever)
      ensures !requireLastTime ==> (r.Ok? && r.value.index == 0 && r.value.lastTime.None? &&
        r.value.time == Some(timeseries.start))
      ensures requireLastTime && (streamForever || timeseries.nSteps.Some?) ==>
        (r.Ok? && r.value.index == 1 && r.value.lastTime == Some(timeseries.start) &&
         r.value.time == r.value.TimeAt(1))
      ensures requireLastTime && !streamForever && timeseries.nSteps.None? ==> r == Err(NilComparison)
    {
      var it := new Iterator(zone, timeseries, requireLastTime, streamForever);
      if requireLastTime {
        var outcome := it.Advance();
        if outcome.Fail? {
          return Err(outcome.error);
        }
      }
      return Ok(it);
    }

    /** Whether `advance` can compare the index with the step count. */
    predicate Comparable()
      reads this
    {
      streamForever || timeseries.nSteps.Some?
    }

    /** The time `advance` moves to at index `i`: the step, or nil past the last one. */
    function TimeAt(i: int): Option<Clock.Time>
      reads this
      requires Comparable()
    {
      if streamForever || i < timeseries.nSteps.value then Some(At(zone, timeseries, i)) else None
    }

    /** Past the last step of a finite series. */
    predicate Exhausted()
      reads this
    {
      !streamForever && timeseries.nSteps.Some? && index >= timeseries.nSteps.value
    }

    /** Iterator#advance: the current time becomes the last time and the index moves on by
        one; the new time is the step at that index, or nil past the end.  With no step
        count and no `stream_forever`, the comparison raises after the first two updates. */
    method Advance() returns (r: Outcome)
      requires Valid()
      modifies this
      ensures Valid()
      ensures lastTime == old(time) && index == old(index) + 1
      ensures offset == old(offset) && timeseries == old(timeseries)
      ensures Comparable() ==> r == Pass && time == TimeAt(index)
      ensures !Comparable() ==> r == Fail(NilComparison) && time == old(time)
      ensures old(Exhausted()) ==> Exhausted() && time.None?
    {
      lastTime := time;
      index := index + 1;
      if streamForever {
        time := Some(At(zone, timeseries, index));
      } else if timeseries.nSteps.None? {
        return Fail(NilComparison);
      } else if index < timeseries.nSteps.value {
        time := Some(At(zone, timeseries, index));
      } else {
        time := None;
      }
      return Pass;
    }

    /** Iterator#apparent_index */
    function ApparentIndex(): int
      reads this
    {
      index + offset
    }

    /** Iterator#each_until: yields `(last_time, time, apparent_index)` and advances while the
        time is present and within the stop.  A streaming Iterator must move strictly, or
        the loop would not end. */
    method EachUntil(stop: Clock.Time) returns (emitted: seq<(Option<Clock.Time>, Clock.Time, int)>, r: Outcome)
      requires Valid()
      requires streamForever ==> StrictlyIncreasing(zone, timeseries) || StrictlyDecreasing(zone, timeseries)
      modifies this
      ensures Valid()
      ensures timeseries == old(timeseries) && offset == old(offset)
      ensures index == old(index) + |emitted|
      ensures forall k :: 0 <= k < |emitted| ==> Within(Increasing(zone, timeseries), emitted[k].1, stop)
      ensures forall k :: 0 <= k < |emitted| ==> emitted[k].2 == old(ApparentIndex()) + k
      ensures |emitted| > 0 ==> old(time).Some? && emitted[0] == (old(lastTime), old(time).value, old(ApparentIndex()))
      ensures Comparable() ==> forall k :: 0 <= k < |emitted| ==> emitted[k].1 == At(zone, timeseries, old(index) + k)
      ensures forall k :: 0 < k < |emitted| ==> emitted[k].0 == Some(emitted[k - 1].1)
      ensures |emitted| > 0 ==> lastTime == Some(emitted[|emitted| - 1].1)
      ensures |emitted| == 0 ==> time == old(time) && lastTime == old(lastTime)
      ensures r == Pass ==> time.None? || !Within(Increasing(zone, timeseries), time.value, stop)
      ensures r.Fail? ==> r == Fail(NilComparison) && !Comparable() && |emitted| == 1
    {
      ghost var index0, time0, lastTime0, apparent0 := index, time, lastTime, ApparentIndex();
      ghost var series := timeseries;
      ghost var comparable := Comparable();
      var increasing := Increasing(zone, timeseries);
      emitted := [];
      r := Pass;
      while time.Some? && Within(increasing, time.value, stop)
        invariant Valid()
        invariant timeseries == series && offset == old(offset)
        invariant index == index0 + |emitted|
        invariant AllWithin(increasing, stop, emitted)
        invariant Chained(lastTime0, apparent0, emitted)
        invariant |emitted| > 0 ==> time0.Some? && emitted[0].1 == time0.value
        invariant comparable ==> StepsFrom(zone, series, index0, emitted)
        invariant |emitted| > 0 ==> lastTime == Some(emitted[|emitted| - 1].1)
        invariant |emitted| == 0 ==> time == time0 && lastTime == lastTime0
        invariant comparable || |emitted| == 0
        invariant r == Pass
        // a finite series has fewer steps left; a streaming one comes closer to `stop`
        decreases if time.Some? then 1 else 0,
          if !streamForever && series.nSteps.Some? then series.nSteps.value - index
          else if time.None? then 0
          else if increasing then stop - time.value
          else time.value - stop
      {
        ghost var previous := emitted;
        var step := (lastTime, time.value, index + offset);
        if comparable {
          StepsFromAppend(zone, series, index0, emitted, step);
        }
        ChainedAppend(lastTime0, apparent0, emitted, step);
        AllWithinAppend(increasing, stop, emitted, step);
        emitted := emitted + [step];
        r := Advance();
        if r.Fail? {
          ChainedAt(lastTime0, apparent0, emitted);
          return;
        }
        if streamForever {
          MovesInItsDirection(zone, timeseries, index - 1);
        }
      }
      if comparable {
        StepsFromAt(zone, series, index0, emitted);
      }
      ChainedAt(lastTime0, apparent0, emitted);
      AllWithinAt(increasing, stop, emitted);
    }

    /** Iterator#set_period.  With a last time, the series is re-based there with the new
        period and the index restarts at 1, the offset absorbing the difference so that the
        apparent index does not move; without one, only the period changes.  `reconfigure`
        is taken to replace those fields of the series. */
    method SetPeriod(period: PeriodData)
      requires Valid()
      modifies this
      ensures Valid()
      ensures old(lastTime).Some? ==>
        (timeseries == old(timeseries).(start := old(lastTime).value, period := period) &&
         index == 1 && offset == old(offset) + old(index) - 1 && time == Some(At(zone, timeseries, 1)))
      ensures old(lastTime).Some? ==> ApparentIndex() == old(ApparentIndex())
      ensures old(lastTime).None? ==>
        (timeseries == old(timeseries).(period := period) &&
         index == old(index) && offset == old(offset) && time == old(time))
      ensures lastTime == old(lastTime)
    {
      if lastTime.Some? {
        timeseries := timeseries.(start := lastTime.value, period := period);
        offset := offset + (index - 1);
        index := 1;
        time := Some(At(zone, timeseries, index));
      } else {
        AtZero(zone, timeseries);
        timeseries := timeseries.(period := period);
        AtZero(zone, timeseries);
      }
    }
  }

  /** Whether `t` is still within `stop` in the series' direction: `<=` when increasing,
      `>=` when decreasing. */
  predicate Within(increasing: bool, t: Clock.Time, stop: Clock.Time) {
    if increasing then t <= stop else t >= stop
  }

  /** Every yielded time is within the stop. */
  predicate AllWithin<L, I>(increasing: bool, stop: Clock.Time, emitted: seq<(L, Clock.Time, I)>)
    decreases |emitted|
  {
    |emitted| == 0 || (Within(increasing, emitted[0].1, stop) && AllWithin(increasing, stop, emitted[1..]))
  }

  lemma {:induction false} AllWithinAppend<L, I>(increasing: bool, stop: Clock.Time,
                                                emitted: seq<(L, Clock.Time, I)>, step: (L, Clock.Time, I))
    requires AllWithin(increasing, stop, emitted) && Within(increasing, step.1, stop)
    ensures AllWithin(increasing, stop, emitted + [step])
    decreases |emitted|
  {
    if |emitted| > 0 {
      AllWithinAppend(increasing, stop, emitted[1..], step);
      assert (emitted + [step])[1..] == emitted[1..] + [step];
    }
  }

  lemma {:induction false} AllWithinAt<L, I>(increasing: bool, stop: Clock.Time, emitted: seq<(L, Clock.Time, I)>)
    requires AllWithin(increasing, stop, emitted)
    ensures forall k :: 0 <= k < |emitted| ==> Within(increasing, emitted[k].1, stop)
    decreases |emitted|
  {
    if |emitted| > 0 {
      AllWithinAt(increasing, stop, emitted[1..]);
      forall k | 0 < k < |emitted|
        ensures Within(increasing, emitted[k].1, stop)
      {
        assert emitted[k] == emitted[1..][k - 1];
      }
    }
  }

  /** A strictly monotone series moves each step the way `increasing?` says. */
  lemma MovesInItsDirection(zone: Clock.Calendar, s: Series, i: int)
    requires StrictlyIncreasing(zone, s) || StrictlyDecreasing(zone, s)
    ensures Increasing(zone, s) ==> At(zone, s, i) < At(zone, s, i + 1)
    ensures !Increasing(zone, s) ==> At(zone, s, i) > At(zone, s, i + 1)
  {
    if StrictlyIncreasing(zone, s) {
      assert At(zone, s, 0) < At(zone, s, 1);
      assert At(zone, s, i) < At(zone, s, i + 1);
    } else {
      assert At(zone, s, 0) > At(zone, s, 1);
      assert At(zone, s, i) > At(zone, s, i + 1);
    }
  }

  /** Each yield carries the previous yield's time as its last time, and the apparent
      indices count up by one. */
  predicate Chained(last: Option<Clock.Time>, apparent: int, emitted: seq<(Option<Clock.Time>, Clock.Time, int)>)
    decreases |emitted|
  {
    |emitted| == 0 ||
    (emitted[0].0 == last && emitted[0].2 == apparent && Chained(Some(emitted[0].1), apparent + 1, emitted[1..]))
  }

  lemma {:induction false} ChainedAppend(last: Option<Clock.Time>, apparent: int,
                                         emitted: seq<(Option<Clock.Time>, Clock.Time, int)>,
                                         step: (Option<Clock.Time>, Clock.Time, int))
    requires Chained(last, apparent, emitted)
    requires step.0 == (if |emitted| == 0 then last else Some(emitted[|emitted| - 1].1))
    requires step.2 == apparent + |emitted|
    ensures Chained(last, apparent, emitted + [step])
    decreases |emitted|
  {
    if |emitted| > 0 {
      ChainedAppend(Some(emitted[0].1), apparent + 1, emitted[1..], step);
      assert (emitted + [step])[1..] == emitted[1..] + [step];
    }
  }

  lemma {:induction false} ChainedAt(last: Option<Clock.Time>, apparent: int,
                                     emitted: seq<(Option<Clock.Time>, Clock.Time, int)>)
    requires Chained(last, apparent, emitted)
    ensures |emitted| > 0 ==> emitted[0].0 == last
    ensures forall k :: 0 <= k < |emitted| ==> emitted[k].2 == apparent + k
    ensures forall k :: 0 < k < |emitted| ==> emitted[k].0 == Some(emitted[k - 1].1)
    decreases |emitted|
  {
    if |emitted| > 0 {
      var rest := emitted[1..];
      ChainedAt(Some(emitted[0].1), apparent + 1, rest);
      forall k | 0 < k < |emitted|
        ensures emitted[k].2 == apparent + k && emitted[k].0 == Some(emitted[k - 1].1)
      {
        assert emitted[k] == rest[k - 1];
        if k > 1 {
          assert emitted[k - 1] == rest[k - 2];
        }
      }
    }
  }

  /** The yielded times are the steps `from`, `from + 1`, ... of the series. */
  predicate StepsFrom<L, I>(zone: Clock.Calendar, s: Series, from: int, emitted: seq<(L, Clock.Time, I)>)
    decreases |emitted|
  {
    |emitted| == 0 || (emitted[0].1 == At(zone, s, from) && StepsFrom(zone, s, from + 1, emitted[1..]))
  }

  lemma {:induction false} StepsFromAppend<L, I>(zone: Clock.Calendar, s: Series, from: int,
                                                emitted: seq<(L, Clock.Time, I)>, step: (L, Clock.Time, I))
    requires StepsFrom(zone, s, from, emitted) && step.1 == At(zone, s, from + |emitted|)
    ensures StepsFrom(zone, s, from, emitted + [step])
    decreases |emitted|
  {
    if |emitted| > 0 {
      StepsFromAppend(zone, s, from + 1, emitted[1..], step);
      assert (emitted + [step])[1..] == emitted[1..] + [step];
    }
  }

  lemma {:induction false} StepsFromAt<L, I>(zone: Clock.Calendar, s: Series, from: int, emitted: seq<(L, Clock.Time, I)>)
    requires StepsFrom(zone, s, from, emitted)
    ensures forall k :: 0 <= k < |emitted| ==> emitted[k].1 == At(zone, s, from + k)
    decreases |emitted|
  {
    if |emitted| > 0 {
      StepsFromAt(zone, s, from + 1, emitted[1..]);
      forall k | 0 < k < |emitted|
        ensures emitted[k].1 == At(zone, s, from + k)
      {
        assert emitted[k] == emitted[1..][k - 1];
      }
    }
  }

  /** Re-basing a series of hours, minutes and seconds at its own step `j` (the last time,
      where `set_period` re-bases), keeping the period, continues it: the re-based step `k`
      is the old step `j + k`. */
  lemma RebaseContinues(zone: Clock.Calendar, s: Series, j: int, k: int)
    requires Clock.NoDateUnits(s.period)
    ensures At(zone, s.(start := At(zone, s, j)), k) == At(zone, s, j + k)
  {
    var m := Clock.SubDayMicros(s.period);
    var r := s.(start := At(zone, s, j));
    var jk := j + k;
    AtSubDay(zone, s, j);
    AtSubDay(zone, r, k);
    AtSubDay(zone, s, jk);
    Distributes(j, k, m);
  }

  lemma Distributes(j: int, k: int, m: int)
    ensures j * m + k * m == (j + k) * m
  {
  }
}
