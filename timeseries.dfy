/**
 * A Timeseries: a start time, a period, an optional number of steps and an offset.  Step `i`
 * is the start advanced by the period times `i`; n_steps_to counts the steps up to a stop
 * time; each, pair_data, collate and intervals enumerate and pair the steps.
 */
module Timeseries {
  import opened Results
  import opened Periods
  import opened Clock

  /** The state of a Timeseries object; `start` is start_time_in_zone. */
  datatype Series = Series(start: Time, nSteps: Option<int>, period: PeriodData, offset: int)

  /** Timeseries#at: the start advanced by `period * index`. */
  function At(zone: Calendar, s: Series, index: int): Time {
    Advance(zone, s.start, Scale(s.period, index))
  }

  /** Timeseries#increasing?: `at(0) <= at(1)`. */
  predicate Increasing(zone: Calendar, s: Series) {
    At(zone, s, 0) <= At(zone, s, 1)
  }

  /** avg_sec_per_step is zero: ten steps end where they start. */
  predicate FlatAverage(zone: Calendar, s: Series) {
    At(zone, s, 10) == s.start
  }

  ghost predicate StrictlyIncreasing(zone: Calendar, s: Series) {
    forall i, j :: i < j ==> At(zone, s, i) < At(zone, s, j)
  }

  ghost predicate StrictlyDecreasing(zone: Calendar, s: Series) {
    forall i, j :: i < j ==> At(zone, s, i) > At(zone, s, j)
  }

  /** What n_steps_to relies on: either the average step is zero, or the steps are strictly
      monotone in the index. */
  ghost predicate Regular(zone: Calendar, s: Series) {
    FlatAverage(zone, s) || StrictlyIncreasing(zone, s) || StrictlyDecreasing(zone, s)
  }

  /** The first step is the start itself. */
  lemma AtZero(zone: Calendar, s: Series)
    ensures At(zone, s, 0) == s.start
  {
    AdvanceByZero(zone, s.start, s.period);
  }

  /** A series of hours, minutes and seconds moves by the same elapsed time every step. */
  lemma {:induction false} AtSubDay(zone: Calendar, s: Series, index: int)
    requires NoDateUnits(s.period)
    ensures At(zone, s, index) == s.start + index * SubDayMicros(s.period)
  {
    SubDayScale(s.period, index);
    AdvanceSubDay(zone, s.start, Scale(s.period, index));
  }

  /** A series moving by a non-zero elapsed time per step is strictly monotone, in the
      direction of that time, and does not average zero. */
  lemma SubDayRegular(zone: Calendar, s: Series)
    requires NoDateUnits(s.period) && SubDayMicros(s.period) != 0
    ensures SubDayMicros(s.period) > 0 ==> StrictlyIncreasing(zone, s) && Increasing(zone, s)
    ensures SubDayMicros(s.period) < 0 ==> StrictlyDecreasing(zone, s) && !Increasing(zone, s)
    ensures Regular(zone, s) && !FlatAverage(zone, s)
  {
    forall i, j | i < j
      ensures SubDayMicros(s.period) > 0 ==> At(zone, s, i) < At(zone, s, j)
      ensures SubDayMicros(s.period) < 0 ==> At(zone, s, i) > At(zone, s, j)
    {
      SubDayStep(zone, s, i, j);
    }
    SubDayStep(zone, s, 0, 1);
    SubDayStep(zone, s, 0, 10);
    AtZero(zone, s);
  }

  lemma SubDayStep(zone: Calendar, s: Series, i: int, j: int)
    requires NoDateUnits(s.period) && i < j
    ensures SubDayMicros(s.period) > 0 ==> At(zone, s, i) < At(zone, s, j)
    ensures SubDayMicros(s.period) < 0 ==> At(zone, s, i) > At(zone, s, j)
  {
    var m := SubDayMicros(s.period);
    AtSubDay(zone, s, i);
    AtSubDay(zone, s, j);
    ProductSign(i, j, m);
  }

  lemma ProductSign(i: int, j: int, m: int)
    requires i < j
    ensures m > 0 ==> i * m < j * m
    ensures m < 0 ==> i * m > j * m
  {
    assert j * m - i * m == (j - i) * m;
  }

  // ---------------------------------------------------------------------------------------
  // n_steps_to.

  /** The loop condition of n_steps_to: `current` is past the stop in the series' direction. */
  predicate Overshoots(zone: Calendar, s: Series, stop: Time, current: Time) {
    if Increasing(zone, s) then current > stop else current < stop
  }

  /** `n` steps reach the stop: step `n - 1` is not past it and step `n` is. */
  predicate Bracketed(zone: Calendar, s: Series, stop: Time, n: int) {
    !Overshoots(zone, s, stop, At(zone, s, n - 1)) && Overshoots(zone, s, stop, At(zone, s, n))
  }

  /** The count n_steps_to answers with: zero when the steps average zero (and the stop is
      the start), otherwise the bracketing count. */
  predicate Counted(zone: Calendar, s: Series, stop: Time, n: int) {
    if FlatAverage(zone, s) then s.start == stop && n == 0 else Bracketed(zone, s, stop, n)
  }

  /** n_steps_to's answer: "empty period" when the steps average zero and the stop is not the
      start, otherwise a count. */
  predicate Answers(zone: Calendar, s: Series, stop: Time, r: Result<int>) {
    if FlatAverage(zone, s) && s.start != stop then r == Err(EmptyPeriod)
    else r.Ok? && Counted(zone, s, stop, r.value)
  }

  /** Every series over this period is regular, wherever it starts. */
  ghost predicate RegularPeriod(zone: Calendar, period: PeriodData) {
    forall s: Series :: s.period == period ==> Regular(zone, s)
  }

  /** Ruby's Float#to_i on an exact quotient: division truncating toward zero. */
  function TruncDiv(a: int, b: int): int
    requires b != 0
  {
    var magnitude := (if a < 0 then -a else a) / (if b < 0 then -b else b);
    if (a < 0) == (b < 0) then magnitude else -magnitude
  }

  /** The first guess: `(stop - start) / avg_sec_per_step`, truncated. */
  function Guess(zone: Calendar, s: Series, stop: Time): int
    requires !FlatAverage(zone, s)
  {
    TruncDiv(10 * (stop - s.start), At(zone, s, 10) - s.start)
  }

  /** On a strictly increasing series each step moves at least one microsecond. */
  lemma {:induction false} IncreasingBounds(zone: Calendar, s: Series, n: int)
    requires StrictlyIncreasing(zone, s)
    ensures n >= 0 ==> At(zone, s, n) >= s.start + n
    ensures n <= 0 ==> At(zone, s, n) <= s.start + n
    decreases if n < 0 then -n else n
  {
    if n == 0 {
      AtZero(zone, s);
    } else if n > 0 {
      IncreasingBounds(zone, s, n - 1);
      assert At(zone, s, n - 1) < At(zone, s, n);
    } else {
      IncreasingBounds(zone, s, n + 1);
      assert At(zone, s, n) < At(zone, s, n + 1);
    }
  }

  /** On a strictly decreasing series each step moves back at least one microsecond. */
  lemma {:induction false} DecreasingBounds(zone: Calendar, s: Series, n: int)
    requires StrictlyDecreasing(zone, s)
    ensures n >= 0 ==> At(zone, s, n) <= s.start - n
    ensures n <= 0 ==> At(zone, s, n) >= s.start - n
    decreases if n < 0 then -n else n
  {
    if n == 0 {
      AtZero(zone, s);
    } else if n > 0 {
      DecreasingBounds(zone, s, n - 1);
      assert At(zone, s, n - 1) > At(zone, s, n);
    } else {
      DecreasingBounds(zone, s, n + 1);
      assert At(zone, s, n) > At(zone, s, n + 1);
    }
  }

  function Abs(x: int): nat {
    if x < 0 then -x else x
  }

  /** A regular series that moves runs one way: `increasing?` tells which. */
  lemma Direction(zone: Calendar, s: Series)
    requires Regular(zone, s) && !FlatAverage(zone, s)
    ensures Increasing(zone, s) ==> StrictlyIncreasing(zone, s)
    ensures !Increasing(zone, s) ==> StrictlyDecreasing(zone, s)
  {
    if StrictlyIncreasing(zone, s) {
      assert At(zone, s, 0) < At(zone, s, 1);
    } else {
      assert At(zone, s, 0) > At(zone, s, 1);
    }
  }

  /** Steps past the stop lie above `-distance`, steps short of it at most `distance` away:
      the two correction loops of n_steps_to stop. */
  lemma OvershootBounds(zone: Calendar, s: Series, stop: Time, n: int)
    requires Regular(zone, s) && !FlatAverage(zone, s)
    ensures Overshoots(zone, s, stop, At(zone, s, n)) ==> n + Abs(stop - s.start) > 0
    ensures !Overshoots(zone, s, stop, At(zone, s, n)) ==> n <= Abs(stop - s.start)
  {
    Direction(zone, s);
    if Increasing(zone, s) {
      IncreasingBounds(zone, s, n);
    } else {
      DecreasingBounds(zone, s, n);
    }
  }

  /** Timeseries#n_steps_to: guess from the average step, step back while past the stop,
      then step forward until past it. */
  method NStepsTo(zone: Calendar, s: Series, stop: Time) returns (r: Result<int>)
    requires Regular(zone, s)
    ensures FlatAverage(zone, s) ==> r == if s.start == stop then Ok(0) else Err(EmptyPeriod)
    ensures !FlatAverage(zone, s) ==> r.Ok? && Bracketed(zone, s, stop, r.value)
    ensures Answers(zone, s, stop, r)
  {
    if At(zone, s, 10) == s.start {
      if s.start == stop {
        return Ok(0);
      } else {
        return Err(EmptyPeriod);
      }
    }
    var increasing := At(zone, s, 0) <= At(zone, s, 1);
    var nSteps := Guess(zone, s, stop);
    var current := At(zone, s, nSteps);
    ghost var distance := Abs(stop - s.start);
    OvershootBounds(zone, s, stop, nSteps);
    while if increasing then current > stop else current < stop
      invariant current == At(zone, s, nSteps)
      invariant Overshoots(zone, s, stop, current) ==> nSteps + distance > 0
      invariant !Overshoots(zone, s, stop, current) ==> nSteps <= distance
      decreases nSteps + distance
    {
      nSteps := nSteps - 1;
      current := At(zone, s, nSteps);
      OvershootBounds(zone, s, stop, nSteps);
    }
    while !(if increasing then current > stop else current < stop)
      invariant current == At(zone, s, nSteps)
      invariant !Overshoots(zone, s, stop, At(zone, s, nSteps - 1)) || !Overshoots(zone, s, stop, current)
      invariant !Overshoots(zone, s, stop, current) ==> nSteps <= distance
      decreases distance - nSteps + 1
    {
      nSteps := nSteps + 1;
      current := At(zone, s, nSteps);
      OvershootBounds(zone, s, stop, nSteps);
    }
    return Ok(nSteps);
  }

  /** The indices whose steps are not past the stop are exactly those below the count:
      n_steps_to counts the steps from the start up to the stop, inclusive. */
  lemma {:induction false} BracketCounts(zone: Calendar, s: Series, stop: Time, n: int)
    requires Regular(zone, s) && !FlatAverage(zone, s) && Bracketed(zone, s, stop, n)
    ensures forall i :: !Overshoots(zone, s, stop, At(zone, s, i)) <==> i < n
  {
    Direction(zone, s);
    forall i ensures !Overshoots(zone, s, stop, At(zone, s, i)) <==> i < n {
      if i < n - 1 {
        assert Increasing(zone, s) ==> At(zone, s, i) < At(zone, s, n - 1);
        assert !Increasing(zone, s) ==> At(zone, s, i) > At(zone, s, n - 1);
      } else if i > n {
        assert Increasing(zone, s) ==> At(zone, s, n) < At(zone, s, i);
        assert !Increasing(zone, s) ==> At(zone, s, n) > At(zone, s, i);
      }
    }
  }

  /** At most one count brackets the stop, so n_steps_to's answer does not depend on its
      first guess. */
  lemma BracketUnique(zone: Calendar, s: Series, stop: Time, n: int, m: int)
    requires Regular(zone, s) && !FlatAverage(zone, s)
    requires Bracketed(zone, s, stop, n) && Bracketed(zone, s, stop, m)
    ensures n == m
  {
    BracketCounts(zone, s, stop, n);
    assert !Overshoots(zone, s, stop, At(zone, s, m - 1));
    assert Overshoots(zone, s, stop, At(zone, s, m));
  }

  /** A stop equal to the start is one step away, whichever way the series runs. */
  lemma StopAtStart(zone: Calendar, s: Series)
    requires Regular(zone, s) && !FlatAverage(zone, s)
    ensures Bracketed(zone, s, s.start, 1)
  {
    AtZero(zone, s);
    Direction(zone, s);
    assert Increasing(zone, s) ==> At(zone, s, 0) < At(zone, s, 1);
    assert !Increasing(zone, s) ==> At(zone, s, 0) > At(zone, s, 1);
  }

  /** From 00:00:00 to 00:00:05 by two seconds: the step at 00:00:06 is not counted. */
  lemma ExceedingStepNotCounted(zone: Calendar, start: Time)
    ensures var s := Series(start, None, map[Seconds := 2], 0);
      Regular(zone, s) && !FlatAverage(zone, s) && Bracketed(zone, s, start + 5 * MicrosPerSecond, 3)
  {
    var s := Series(start, None, map[Seconds := 2], 0);
    assert SubDayMicros(s.period) == 2 * MicrosPerSecond;
    SubDayRegular(zone, s);
    AtSubDay(zone, s, 2);
    AtSubDay(zone, s, 3);
  }

  /** A stop one step behind the start, against the period's direction, is zero steps away:
      step -1 is within the stop and step 0 is past it. */
  lemma WrongDirectionIsZero(zone: Calendar, start: Time)
    ensures var s := Series(start, None, map[Seconds := 1], 0);
      Regular(zone, s) && Bracketed(zone, s, start - MicrosPerSecond, 0)
    ensures var s := Series(start, None, map[Seconds := -1], 0);
      Regular(zone, s) && Bracketed(zone, s, start + MicrosPerSecond, 0)
  {
    var up := Series(start, None, map[Seconds := 1], 0);
    var down := Series(start, None, map[Seconds := -1], 0);
    assert SubDayMicros(up.period) == MicrosPerSecond;
    assert SubDayMicros(down.period) == -MicrosPerSecond;
    SubDayRegular(zone, up);
    SubDayRegular(zone, down);
    AtSubDay(zone, up, -1);
    AtSubDay(zone, down, -1);
    AtZero(zone, up);
    AtZero(zone, down);
  }

  /** Further behind, the bracketing count goes negative: 5 seconds behind a 1-second
      series, step -4 is still within the stop and step -5 is not. */
  lemma FarBehindIsNegative(zone: Calendar, start: Time)
    ensures var s := Series(start, None, map[Seconds := 1], 0);
      Regular(zone, s) && Bracketed(zone, s, start - 5 * MicrosPerSecond, -4)
  {
    var s := Series(start, None, map[Seconds := 1], 0);
    assert SubDayMicros(s.period) == MicrosPerSecond;
    SubDayRegular(zone, s);
    AtSubDay(zone, s, -5);
    AtSubDay(zone, s, -4);
  }

  /** The empty period averages zero seconds a step: n_steps_to gives 0 or "empty period". */
  lemma EmptyPeriodIsFlat(zone: Calendar, start: Time)
    ensures FlatAverage(zone, Series(start, None, map[], 0))
  {
    AtSubDay(zone, Series(start, None, map[], 0), 10);
  }

  // ---------------------------------------------------------------------------------------
  // each, pair_data, collate, intervals.

  /** The index of the `k`-th step `each` yields: from `offset`, downward when n_steps is
      negative. */
  function StepIndex(s: Series, k: int): int {
    s.offset + (if s.nSteps.Some? && s.nSteps.value < 0 then -k else k)
  }

  /** How many steps `each` yields to a caller that takes at most `demand` of them. */
  function EachCount(s: Series, demand: nat): nat {
    match s.nSteps
    case Some(n) => if Abs(n) < demand then Abs(n) else demand
    case None => demand
  }

  /** Timeseries#each: yields `|n_steps|` steps, or steps forever when n_steps is nil; the
      caller's `demand` is how many it takes before it stops the enumeration. */
  method Each(zone: Calendar, s: Series, demand: nat) returns (steps: seq<Time>)
    ensures |steps| == EachCount(s, demand)
    ensures forall k :: 0 <= k < |steps| ==> steps[k] == At(zone, s, StepIndex(s, k))
  {
    steps := [];
    var index := s.offset;
    if s.nSteps.Some? {
      var stepSize := if s.nSteps.value < 0 then -1 else 1;
      var count := 0;
      while count < Abs(s.nSteps.value) && count < demand
        invariant 0 <= count <= EachCount(s, demand)
        invariant |steps| == count && index == StepIndex(s, count)
        invariant forall k :: 0 <= k < count ==> steps[k] == At(zone, s, StepIndex(s, k))
      {
        steps := steps + [At(zone, s, index)];
        index := index + stepSize;
        count := count + 1;
      }
    } else {
      while |steps| < demand
        invariant |steps| <= demand && index == StepIndex(s, |steps|)
        invariant forall k :: 0 <= k < |steps| ==> steps[k] == At(zone, s, StepIndex(s, k))
      {
        steps := steps + [At(zone, s, index)];
        index := index + 1;
      }
    }
  }

  /** A series of hours, minutes and seconds run backwards from its last step, with the
      negated count, yields the same steps in reverse order. */
  lemma {:induction false} ReversedSeries(zone: Calendar, s: Series, n: nat, k: int)
    requires NoDateUnits(s.period) && s.nSteps == Some(n as int) && s.offset == 0 && 0 <= k < n
    ensures var back := Series(At(zone, s, StepIndex(s, n - 1)), Some(-(n as int)), s.period, 0);
      At(zone, back, StepIndex(back, k)) == At(zone, s, StepIndex(s, n - 1 - k))
  {
    var back := Series(At(zone, s, n - 1), Some(-(n as int)), s.period, 0);
    var m := SubDayMicros(s.period);
    assert StepIndex(back, k) == -k;
    assert StepIndex(s, n - 1) == n - 1 && StepIndex(s, n - 1 - k) == n - 1 - k;
    AtSubDay(zone, s, n - 1);
    AtSubDay(zone, back, -k);
    AtSubDay(zone, s, n - 1 - k);
    Distribute(n - 1, k, m);
    assert At(zone, back, -k) == s.start + (n - 1) * m - k * m;
  }

  lemma Distribute(a: int, b: int, m: int)
    ensures a * m - b * m == (a - b) * m
    ensures (-b) * m == -(b * m)
  {
  }

  /** pair_data: each datum paired with the next. */
  method PairData<T>(data: seq<T>) returns (pairs: seq<seq<T>>)
    ensures |pairs| == if |data| == 0 then 0 else |data| - 1
    ensures forall i :: 0 <= i < |pairs| ==> pairs[i] == data[i..i + 2]
  {
    pairs := [];
    var index := 0;
    while index < |data|
      invariant 0 <= index <= |data| && |pairs| == index
      invariant forall i :: 0 <= i < index - 1 ==> pairs[i] == data[i..i + 2]
      invariant index > 0 ==> pairs[index - 1] == [data[index - 1]]
    {
      pairs := pairs + [[data[index]]];
      if index > 0 {
        pairs := pairs[index - 1 := pairs[index - 1] + [data[index]]];
      }
      index := index + 1;
    }
    if |pairs| > 0 {
      pairs := pairs[..|pairs| - 1];
    }
  }

  /** Timeseries#intervals: consecutive steps, paired.  The series must be finite. */
  method Intervals(zone: Calendar, s: Series) returns (pairs: seq<seq<Time>>)
    requires s.nSteps.Some?
    ensures |pairs| == if s.nSteps.value == 0 then 0 else Abs(s.nSteps.value) - 1
    ensures forall i :: 0 <= i < |pairs| ==>
      pairs[i] == [At(zone, s, StepIndex(s, i)), At(zone, s, StepIndex(s, i + 1))]
  {
    var steps := Each(zone, s, Abs(s.nSteps.value));
    pairs := PairData(steps);
  }

  /** collate's `interval_type`: `:ending` (the default) or `:beginning`. */
  datatype IntervalType = Ending | Beginning | OtherInterval(name: string)

  /** The step time that keys pair `index`: a pair is filed under the step that ends it, or
      under the step that begins it. */
  function KeyTime(zone: Calendar, s: Series, kind: IntervalType, index: int): Time {
    At(zone, s, index + if kind == Ending then 1 else 0)
  }

  /** `intervals` files the first `count` pairs: every one of their keys is present, and each
      key holds the last of those pairs filed under it. */
  ghost predicate Filed<T>(zone: Calendar, s: Series, kind: IntervalType, pairs: seq<seq<T>>,
                           intervals: map<Time, seq<T>>, count: int)
  {
    0 <= count <= |pairs| &&
    (forall i :: 0 <= i < count ==> KeyTime(zone, s, kind, i) in intervals) &&
    forall key :: key in intervals ==> LastFiledAt(zone, s, kind, pairs, intervals, count, key)
  }

  ghost predicate LastFiledAt<T>(zone: Calendar, s: Series, kind: IntervalType, pairs: seq<seq<T>>,
                                 intervals: map<Time, seq<T>>, count: int, key: Time)
    requires key in intervals && count <= |pairs|
  {
    exists i :: Kept(zone, s, kind, pairs, intervals, count, key, i)
  }

  /** Pair `i` is the one filed under `key`: the key is its key, it holds it, and no later
      pair of the first `count` has that key. */
  ghost predicate Kept<T>(zone: Calendar, s: Series, kind: IntervalType, pairs: seq<seq<T>>,
                          intervals: map<Time, seq<T>>, count: int, key: Time, i: int)
    requires key in intervals && count <= |pairs|
  {
    0 <= i < count && key == KeyTime(zone, s, kind, i) && intervals[key] == pairs[i] &&
    forall j :: i < j < count ==> KeyTime(zone, s, kind, j) != key
  }

  /** Filing the next pair under its key keeps `Filed`. */
  lemma FileNext<T>(zone: Calendar, s: Series, kind: IntervalType, pairs: seq<seq<T>>,
                    intervals: map<Time, seq<T>>, count: int)
    requires Filed(zone, s, kind, pairs, intervals, count) && count < |pairs|
    ensures Filed(zone, s, kind, pairs, intervals[KeyTime(zone, s, kind, count) := pairs[count]], count + 1)
  {
    var key := KeyTime(zone, s, kind, count);
    var next := intervals[key := pairs[count]];
    forall other | other in next
      ensures LastFiledAt(zone, s, kind, pairs, next, count + 1, other)
    {
      FileNextAt(zone, s, kind, pairs, intervals, count, other);
    }
  }

  /** After filing pair `count`, each key still holds the last pair filed under it. */
  lemma FileNextAt<T>(zone: Calendar, s: Series, kind: IntervalType, pairs: seq<seq<T>>,
                      intervals: map<Time, seq<T>>, count: int, other: Time)
    requires Filed(zone, s, kind, pairs, intervals, count) && count < |pairs|
    requires other in intervals[KeyTime(zone, s, kind, count) := pairs[count]]
    ensures LastFiledAt(zone, s, kind, pairs, intervals[KeyTime(zone, s, kind, count) := pairs[count]], count + 1, other)
  {
    var key := KeyTime(zone, s, kind, count);
    var next := intervals[key := pairs[count]];
    if other == key {
      assert Kept(zone, s, kind, pairs, next, count + 1, other, count);
    } else {
      assert LastFiledAt(zone, s, kind, pairs, intervals, count, other);
      var i :| Kept(zone, s, kind, pairs, intervals, count, other, i);
      assert Kept(zone, s, kind, pairs, next, count + 1, other, i);
    }
  }

  /** Timeseries#collate: pairs consecutive data and files each pair under its step time;
      a later pair with the same key replaces an earlier one. */
  method Collate<T>(zone: Calendar, s: Series, data: seq<T>, kind: IntervalType)
    returns (r: Result<map<Time, seq<T>>>)
    ensures kind.OtherInterval? ==> r == Err(InvalidIntervalType(kind.name))
    ensures !kind.OtherInterval? ==> r.Ok?
    ensures r.Ok? ==> forall i :: 0 <= i < |data| - 1 ==> KeyTime(zone, s, kind, i) in r.value
    ensures r.Ok? ==> forall key :: key in r.value ==>
      exists i :: 0 <= i < |data| - 1 && key == KeyTime(zone, s, kind, i) &&
        r.value[key] == data[i..i + 2] &&
        forall j :: i < j < |data| - 1 ==> KeyTime(zone, s, kind, j) != key
  {
    var pairs := PairData(data);
    if kind.OtherInterval? {
      return Err(InvalidIntervalType(kind.name));
    }
    var offset := if kind == Ending then 1 else 0;
    var intervals: map<Time, seq<T>> := map[];
    var index := 0;
    while index < |pairs|
      invariant Filed(zone, s, kind, pairs, intervals, index)
    {
      var stepTime := At(zone, s, index + offset);
      assert stepTime == KeyTime(zone, s, kind, index);
      FileNext(zone, s, kind, pairs, intervals, index);
      intervals := intervals[stepTime := pairs[index]];
      index := index + 1;
    }
    forall key | key in intervals
      ensures exists i :: (0 <= i < |data| - 1 && key == KeyTime(zone, s, kind, i) &&
        intervals[key] == data[i..i + 2] &&
        forall j :: i < j < |data| - 1 ==> KeyTime(zone, s, kind, j) != key)
    {
      assert LastFiledAt(zone, s, kind, pairs, intervals, |pairs|, key);
    }
    return Ok(intervals);
  }

  /** On a strictly monotone series every key is a different step, so every pair is kept. */
  lemma MonotoneKeysDistinct(zone: Calendar, s: Series, kind: IntervalType, i: int, j: int)
    requires StrictlyIncreasing(zone, s) || StrictlyDecreasing(zone, s)
    requires i != j
    ensures KeyTime(zone, s, kind, i) != KeyTime(zone, s, kind, j)
  {
    var o := if kind == Ending then 1 else 0;
    if i < j {
      assert At(zone, s, i + o) != At(zone, s, j + o) by {
        assert i + o < j + o;
      }
    } else {
      assert At(zone, s, j + o) != At(zone, s, i + o) by {
        assert j + o < i + o;
      }
    }
  }
}
