/**
 * The class-level solver of Timeseries: building a series from an options hash, counting
 * its steps to a stop time, snapping times to the period's grid, and filling in whichever
 * of stop time, period and step count is missing.
 *
 * The options hash becomes the `Options` record: a key that is absent is `None`.  The
 * current time (`Time.now`) is the parameter `now`, and the zone is its calendar `zone`.
 */
module Solver {
  import opened Results
  import opened Periods
  import opened Clock
  import opened Grid
  import opened Timeseries

  /** A snap directive: `:previous`, `:next`, or any other value. */
  datatype SnapType = Previous | Next | OtherSnap(name: string)

  datatype Options = Options(
    startTime: Option<Time>,
    stopTime: Option<Time>,
    period: Option<PeriodSource>,
    nSteps: Option<int>,
    snapStartTime: Option<SnapType>,
    snapStopTime: Option<SnapType>,
    offset: Option<int>)

  /** `options.fetch(:period, {})` */
  function Source(o: Options): PeriodSource {
    o.period.GetOr(FromHash(map[]))
  }

  /** `options.fetch(:start_time, Time.now)` */
  function StartOf(o: Options, now: Time): Time {
    o.startTime.GetOr(now)
  }

  /** `options.fetch(:stop_time, start_time)` */
  function StopOf(o: Options, now: Time): Time {
    o.stopTime.GetOr(StartOf(o, now))
  }

  /** The series `Timeseries.new(options)` builds, or the error coercing its period raises. */
  function Described(o: Options, now: Time): Result<Series>
    reads Footprint(Source(o))
  {
    var data :- CoercedData(Source(o));
    Ok(Series(StartOf(o, now), o.nSteps, data, o.offset.GetOr(0)))
  }

  /** Timeseries#initialize: defaults for the absent keys, and the period coerced. */
  method New(o: Options, now: Time) returns (r: Result<Series>)
    ensures r == Described(o, now)
  {
    var period :- Coerce(Source(o));
    return Ok(Series(StartOf(o, now), o.nSteps, period.data, o.offset.GetOr(0)));
  }

  /** Timeseries.snap_time: no directive keeps the time; `:previous` and `:next` snap it to the
      period's grid; anything else is an error. */
  function SnapTime(zone: Calendar, period: PeriodData, t: Time, snap: Option<SnapType>): (r: Result<Time>)
    ensures snap.None? ==> r == Ok(t)
    ensures snap.Some? && snap.value.OtherSnap? ==> r == Err(InvalidSnapType(snap.value.name))
    ensures snap == Some(Previous) && PositiveGrid(period) && NoDateUnits(period) && Finest(period).Some? ==>
      r.Ok? && r.value <= t && t - r.value < SubDayMicros(period)
    ensures snap == Some(Next) && PositiveGrid(period) && NoDateUnits(period) && Finest(period).Some? ==>
      r.Ok? && t <= r.value && r.value - t <= SubDayMicros(period) && (r.value == t <==> OnGrid(period, t))
    ensures snap.Some? && !snap.value.OtherSnap? ==> (r.Err? <==> HasZeroGridUnit(period))
  {
    SnapFacts(zone, period, t);
    match snap
    case None => Ok(t)
    case Some(Previous) => SnapPrevious(zone, period, t)
    case Some(Next) => SnapNext(zone, period, t)
    case Some(OtherSnap(name)) => Err(InvalidSnapType(name))
  }

  /** What the grid lemmas give for one time, in the form snap_time states it. */
  lemma SnapFacts(zone: Calendar, period: PeriodData, t: Time)
    ensures SnapPrevious(zone, period, t).Err? <==> HasZeroGridUnit(period)
    ensures SnapNext(zone, period, t).Err? <==> HasZeroGridUnit(period)
    ensures PositiveGrid(period) && NoDateUnits(period) && Finest(period).Some? ==>
      var prev := SnapPrevious(zone, period, t);
      var next := SnapNext(zone, period, t);
      prev.Ok? && next.Ok? && prev.value <= t && t - prev.value < SubDayMicros(period) &&
      t <= next.value && next.value - t <= SubDayMicros(period) && (next.value == t <==> OnGrid(period, t))
  {
    SnapRaisesIffZeroUnit(zone, period, t);
    if PositiveGrid(period) && NoDateUnits(period) && Finest(period).Some? {
      SnapsBracket(zone, period, t);
      StepWithinPeriod(period);
      var _ := PreviousIsBoundary(zone, period, t);
    }
  }

  // ---------------------------------------------------------------------------------------
  // n_steps, solve_n_steps, solve_stop_time, normalize.

  /** Timeseries.n_steps: the series the options describe, counted up to the stop time, which
      defaults to the series' start. */
  method NSteps(zone: Calendar, o: Options, now: Time) returns (r: Result<int>)
    requires Described(o, now).Ok? ==> Regular(zone, Described(o, now).value)
    ensures Described(o, now).Err? ==> r == Err(Described(o, now).error)
    ensures Described(o, now).Ok? ==> Answers(zone, Described(o, now).value, StopOf(o, now), r)
  {
    var series :- New(o, now);
    var stopTime := o.stopTime.GetOr(series.start);
    r := NStepsTo(zone, series, stopTime);
  }

  /** The start and stop solve_n_steps counts between, each snapped by its own directive. */
  function Endpoints(zone: Calendar, o: Options, now: Time, period: PeriodData): Result<(Time, Time)> {
    var start :- SnapTime(zone, period, StartOf(o, now), o.snapStartTime);
    var stop :- SnapTime(zone, period, StopOf(o, now), o.snapStopTime);
    Ok((start, stop))
  }

  /** The period option of a solved options record holds the coerced Period. */
  predicate HoldsPeriod(o: Options, data: PeriodData)
    reads Footprint(Source(o))
  {
    o.period.Some? && o.period.value.FromPeriod? && o.period.value.period.data == data
  }

  /** What solve_n_steps leaves: the snapped start and stop, the coerced period and the step
      count between them; or the error of the first step that fails. */
  ghost predicate SolvedNSteps(zone: Calendar, o: Options, now: Time, r: Result<Options>)
    reads Footprint(Source(o)), if r.Ok? then Footprint(Source(r.value)) else {}
  {
    match CoercedData(Source(o))
    case Err(e) => r == Err(e)
    case Ok(period) =>
      match Endpoints(zone, o, now, period)
      case Err(e) => r == Err(e)
      case Ok((start, stop)) =>
        var s := Series(start, o.nSteps, period, o.offset.GetOr(0));
        if FlatAverage(zone, s) && start != stop then r == Err(EmptyPeriod)
        else
          r.Ok? && HoldsPeriod(r.value, period) && r.value.nSteps.Some? &&
          r.value == o.(startTime := Some(start), stopTime := Some(stop),
                        period := r.value.period, nSteps := r.value.nSteps) &&
          Counted(zone, s, stop, r.value.nSteps.value)
  }

  /** Timeseries.solve_n_steps */
  method SolveNSteps(zone: Calendar, o: Options, now: Time) returns (r: Result<Options>)
    requires CoercedData(Source(o)).Ok? ==> RegularPeriod(zone, CoercedData(Source(o)).value)
    ensures SolvedNSteps(zone, o, now, r)
  {
    var period :- Coerce(Source(o));
    var startTime := o.startTime.GetOr(now);
    var stopTime := o.stopTime.GetOr(startTime);
    var snappedStart :- SnapTime(zone, period.data, startTime, o.snapStartTime);
    var snappedStop :- SnapTime(zone, period.data, stopTime, o.snapStopTime);
    var filled := o.(startTime := Some(snappedStart), stopTime := Some(snappedStop),
                     period := Some(FromPeriod(period)));
    assert Described(filled, now) == Ok(Series(snappedStart, o.nSteps, period.data, o.offset.GetOr(0)));
    var n :- NSteps(zone, filled, now);
    return Ok(filled.(nSteps := Some(n)));
  }

  /** What solve_stop_time leaves: the snapped start and the coerced period, everything else
      as given; or the error of the first step that fails. */
  ghost predicate SolvedStopTime(zone: Calendar, o: Options, now: Time, r: Result<Options>)
    reads Footprint(Source(o)), if r.Ok? then Footprint(Source(r.value)) else {}
  {
    match CoercedData(Source(o))
    case Err(e) => r == Err(e)
    case Ok(period) =>
      match SnapTime(zone, period, StartOf(o, now), o.snapStartTime)
      case Err(e) => r == Err(e)
      case Ok(start) =>
        r.Ok? && HoldsPeriod(r.value, period) &&
        r.value == o.(startTime := Some(start), period := r.value.period)
  }

  /** Timeseries.solve_stop_time: despite its name it leaves stop_time and n_steps alone. */
  method SolveStopTime(zone: Calendar, o: Options, now: Time) returns (r: Result<Options>)
    ensures SolvedStopTime(zone, o, now, r)
  {
    var period :- Coerce(Source(o));
    var startTime := o.startTime.GetOr(now);
    var snappedStart :- SnapTime(zone, period.data, startTime, o.snapStartTime);
    return Ok(o.(startTime := Some(snappedStart), period := Some(FromPeriod(period))));
  }

  /** Which of stop_time, period and n_steps the options hold. */
  function Signature(o: Options): (bool, bool, bool) {
    (o.stopTime.Some?, o.period.Some?, o.nSteps.Some?)
  }

  /** Timeseries.normalize: dispatches on which of stop_time, period and n_steps are present;
      start_time plays no part in the choice. */
  method Normalize(zone: Calendar, o: Options, now: Time) returns (r: Result<Options>)
    requires Signature(o) == (true, true, false) && CoercedData(Source(o)).Ok? ==>
      RegularPeriod(zone, CoercedData(Source(o)).value)
    ensures Signature(o) == (true, true, false) ==> SolvedNSteps(zone, o, now, r)
    ensures Signature(o) == (true, false, true) ==> r == Err(NotImplemented)
    ensures Signature(o) == (false, true, true) ==> SolvedStopTime(zone, o, now, r)
    ensures Signature(o) == (true, true, true) ==> r == Err(TooMuchInformation)
    ensures Signature(o) !in {(true, true, false), (true, false, true), (false, true, true), (true, true, true)} ==>
      r == Err(NotEnoughInformation)
  {
    match Signature(o)
    case (true, true, false) =>
      r := SolveNSteps(zone, o, now);
    case (true, false, true) =>
      r := Err(NotImplemented);
    case (false, true, true) =>
      r := SolveStopTime(zone, o, now);
    case (true, true, true) =>
      r := Err(TooMuchInformation);
    case _ =>
      r := Err(NotEnoughInformation);
  }

  // ---------------------------------------------------------------------------------------
  // The solves the library's tests check, on a 15-minute period, on any day.

  const Quarter: PeriodData := map[Minutes := 15]
  const QuarterMicros: int := 15 * MicrosPerMinute

  function QuarterOptions(start: Time, stop: Time, snapStart: Option<SnapType>, snapStop: Option<SnapType>): Options {
    Options(Some(start), Some(stop), Some(FromHash(Quarter)), None, snapStart, snapStop, None)
  }

  /** The quarter-hour boundaries around 00:23. */
  lemma EarlySnaps(zone: Calendar, day: int)
    ensures SnapPrevious(zone, Quarter, Compose(day, 0, 23, 0, 0)) == Ok(Compose(day, 0, 15, 0, 0))
    ensures SnapNext(zone, Quarter, Compose(day, 0, 23, 0, 0)) == Ok(Compose(day, 0, 30, 0, 0))
  {
    assert Finest(Quarter) == Some(1);
    var early := Compose(day, 0, 23, 0, 0);
    FieldsOfCompose(day, 0, 23, 0, 0);
    var g := PreviousIsBoundary(zone, Quarter, early);
    SnapsBracket(zone, Quarter, early);
  }

  /** The quarter-hour boundaries around 00:56. */
  lemma LateSnaps(zone: Calendar, day: int)
    ensures SnapPrevious(zone, Quarter, Compose(day, 0, 56, 0, 0)) == Ok(Compose(day, 0, 45, 0, 0))
    ensures SnapNext(zone, Quarter, Compose(day, 0, 56, 0, 0)) == Ok(Compose(day, 1, 0, 0, 0))
  {
    assert Finest(Quarter) == Some(1);
    var late := Compose(day, 0, 56, 0, 0);
    FieldsOfCompose(day, 0, 56, 0, 0);
    var g := PreviousIsBoundary(zone, Quarter, late);
    SnapsBracket(zone, Quarter, late);
  }

  /** A solved quarter-hour record whose ends snap to `start` and `stop`, with `stop` in the
      `n`-th step from `start`, holds those ends and the count `n`. */
  lemma QuarterSolved(zone: Calendar, now: Time, a: Time, b: Time, sa: Option<SnapType>, sb: Option<SnapType>,
                      r: Result<Options>, start: Time, stop: Time, n: int)
    requires SnapTime(zone, Quarter, a, sa) == Ok(start) && SnapTime(zone, Quarter, b, sb) == Ok(stop)
    requires start + (n - 1) * QuarterMicros <= stop < start + n * QuarterMicros
    requires SolvedNSteps(zone, QuarterOptions(a, b, sa, sb), now, r)
    ensures r.Ok? && r.value.startTime == Some(start) && r.value.stopTime == Some(stop) && r.value.nSteps == Some(n)
  {
    QuarterCount(zone, start, stop, n);
    SubDayRegular(zone, Series(start, None, Quarter, 0));
  }

  /** From `start` by quarter hours, `n` is the only count of `stop` when step `n - 1` is at
      or before it and step `n` after it. */
  lemma QuarterCount(zone: Calendar, start: Time, stop: Time, n: int)
    requires start + (n - 1) * QuarterMicros <= stop < start + n * QuarterMicros
    ensures forall m :: Counted(zone, Series(start, None, Quarter, 0), stop, m) <==> m == n
  {
    var s := Series(start, None, Quarter, 0);
    assert SubDayMicros(Quarter) == QuarterMicros;
    SubDayRegular(zone, s);
    AtSubDay(zone, s, n - 1);
    AtSubDay(zone, s, n);
    assert Bracketed(zone, s, stop, n);
    forall m | Counted(zone, s, stop, m) ensures m == n {
      BracketUnique(zone, s, stop, m, n);
    }
  }

  /** 00:00 to 01:00 by 15 minutes is 5 steps: both ends count. */
  lemma SolvedInclusive(zone: Calendar, now: Time, day: int, r: Result<Options>)
    requires SolvedNSteps(zone, QuarterOptions(Compose(day, 0, 0, 0, 0), Compose(day, 1, 0, 0, 0), None, None), now, r)
    ensures r.Ok? && r.value.nSteps == Some(5)
  {
    QuarterSolved(zone, now, Compose(day, 0, 0, 0, 0), Compose(day, 1, 0, 0, 0), None, None, r,
                  Compose(day, 0, 0, 0, 0), Compose(day, 1, 0, 0, 0), 5);
  }

  /** A start of 00:23 snapped to the previous boundary is 00:15, four steps before 01:00. */
  lemma SolvedStartPrevious(zone: Calendar, now: Time, day: int, r: Result<Options>)
    requires SolvedNSteps(zone, QuarterOptions(Compose(day, 0, 23, 0, 0), Compose(day, 1, 0, 0, 0), Some(Previous), None), now, r)
    ensures r.Ok? && r.value.startTime == Some(Compose(day, 0, 15, 0, 0)) && r.value.nSteps == Some(4)
  {
    EarlySnaps(zone, day);
    QuarterSolved(zone, now, Compose(day, 0, 23, 0, 0), Compose(day, 1, 0, 0, 0), Some(Previous), None, r,
                  Compose(day, 0, 15, 0, 0), Compose(day, 1, 0, 0, 0), 4);
  }

  /** A start of 00:23 snapped to the next boundary is 00:30, three steps before 01:00. */
  lemma SolvedStartNext(zone: Calendar, now: Time, day: int, r: Result<Options>)
    requires SolvedNSteps(zone, QuarterOptions(Compose(day, 0, 23, 0, 0), Compose(day, 1, 0, 0, 0), Some(Next), None), now, r)
    ensures r.Ok? && r.value.startTime == Some(Compose(day, 0, 30, 0, 0)) && r.value.nSteps == Some(3)
  {
    EarlySnaps(zone, day);
    QuarterSolved(zone, now, Compose(day, 0, 23, 0, 0), Compose(day, 1, 0, 0, 0), Some(Next), None, r,
                  Compose(day, 0, 30, 0, 0), Compose(day, 1, 0, 0, 0), 3);
  }

  /** A stop of 00:56 snapped to the previous boundary is 00:45: four steps from 00:00. */
  lemma SolvedStopPrevious(zone: Calendar, now: Time, day: int, r: Result<Options>)
    requires SolvedNSteps(zone, QuarterOptions(Compose(day, 0, 0, 0, 0), Compose(day, 0, 56, 0, 0), None, Some(Previous)), now, r)
    ensures r.Ok? && r.value.stopTime == Some(Compose(day, 0, 45, 0, 0)) && r.value.nSteps == Some(4)
  {
    LateSnaps(zone, day);
    QuarterSolved(zone, now, Compose(day, 0, 0, 0, 0), Compose(day, 0, 56, 0, 0), None, Some(Previous), r,
                  Compose(day, 0, 0, 0, 0), Compose(day, 0, 45, 0, 0), 4);
  }

  /** A stop of 00:56 snapped to the next boundary is 01:00: five steps from 00:00. */
  lemma SolvedStopNext(zone: Calendar, now: Time, day: int, r: Result<Options>)
    requires SolvedNSteps(zone, QuarterOptions(Compose(day, 0, 0, 0, 0), Compose(day, 0, 56, 0, 0), None, Some(Next)), now, r)
    ensures r.Ok? && r.value.stopTime == Some(Compose(day, 1, 0, 0, 0)) && r.value.nSteps == Some(5)
  {
    LateSnaps(zone, day);
    QuarterSolved(zone, now, Compose(day, 0, 0, 0, 0), Compose(day, 0, 56, 0, 0), None, Some(Next), r,
                  Compose(day, 0, 0, 0, 0), Compose(day, 1, 0, 0, 0), 5);
  }
}
