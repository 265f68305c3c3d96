/**
 * Snapping a time to the grid a period draws on the clock: Period#snap_delta,
 * Period#snap_previous and Period#snap_next.  Only the seconds, minutes and hours of a
 * period take part in the grid; they are read finest first.
 */
module Grid {
  import opened Results
  import opened Periods
  import opened Clock

  /** Ruby's Integer#%: the remainder takes the sign of the divisor (`23 % -15 == -7`). */
  function FloorMod(a: int, b: int): (r: int)
    requires b != 0
    ensures b > 0 ==> 0 <= r < b
    ensures b < 0 ==> b < r <= 0
    ensures exists q :: a == q * b + r
  {
    var m := a % b;
    assert a == (a / b) * b + m;
    if b > 0 || m == 0 then m else
      assert a == (a / b - 1) * b + (m + b);
      m + b
  }

  /** The order snap_delta visits the units in. */
  const GridUnits: seq<Unit> := [Seconds, Minutes, Hours]

  /** `time.sec`, `time.min`, `time.hour` for the grid unit with index `i`. */
  function Field(t: Time, i: nat): int
    requires i < 3
  {
    if i == 0 then Sec(t) else if i == 1 then Min(t) else Hour(t)
  }

  /** The elapsed time of one grid unit. */
  function UnitMicros(i: nat): int
    requires i < 3
  {
    if i == 0 then MicrosPerSecond else if i == 1 then MicrosPerMinute else MicrosPerHour
  }

  /** Index of the finest grid unit among the first `k` that the period names. */
  function FinestAmong(p: PeriodData, k: nat): (f: Option<nat>)
    requires k <= 3
    ensures f.Some? ==> f.value < k && GridUnits[f.value] in p
    ensures f.Some? ==> forall i :: 0 <= i < f.value ==> GridUnits[i] !in p
    ensures f.None? ==> forall i :: 0 <= i < k ==> GridUnits[i] !in p
  {
    if k == 0 then None
    else match FinestAmong(p, k - 1)
      case Some(i) => Some(i)
      case None => if GridUnits[k - 1] in p then Some(k - 1) else None
  }

  /** Index of the finest grid unit the period names, if any. */
  function Finest(p: PeriodData): Option<nat> {
    FinestAmong(p, 3)
  }

  /** No grid unit among the first `k` is named with magnitude zero. */
  predicate NoZeroAmong(p: PeriodData, k: nat)
    requires k <= 3
  {
    forall i :: 0 <= i < k && GridUnits[i] in p ==> p[GridUnits[i]] != 0
  }

  /** Some grid unit is named with magnitude zero, which makes `%` raise ZeroDivisionError. */
  predicate HasZeroGridUnit(p: PeriodData) {
    !NoZeroAmong(p, 3)
  }

  /** What the loop has made of the field with index `i` once the first `k` units are read:
      the finest named unit so far is reduced by its magnitude, coarser fields are zero, finer
      fields keep the clock's value. */
  function Reduced(p: PeriodData, t: Time, k: nat, i: nat): int
    requires k <= 3 && i < 3 && NoZeroAmong(p, k)
  {
    match FinestAmong(p, k)
    case None => Field(t, i)
    case Some(f) =>
      if i < f then Field(t, i)
      else if i == f then FloorMod(Field(t, i), p[GridUnits[f]])
      else 0
  }

  /** The fields snap_delta subtracts, before it negates them. */
  function Residue(p: PeriodData, t: Time): PeriodData
    requires !HasZeroGridUnit(p)
  {
    map[Seconds := Reduced(p, t, 3, 0), Minutes := Reduced(p, t, 3, 1), Hours := Reduced(p, t, 3, 2)]
  }

  /** The meaning of snap_delta: the negated residue, or ZeroDivisionError. */
  function GridDelta(p: PeriodData, t: Time): Result<PeriodData> {
    if HasZeroGridUnit(p) then Err(ZeroDivision) else Ok(Negate(Residue(p, t)))
  }

  /** The delta after the first `k` units are read, as a map. */
  function Partial(p: PeriodData, t: Time, k: nat): PeriodData
    requires k <= 3 && NoZeroAmong(p, k)
  {
    map[Seconds := Reduced(p, t, k, 0), Minutes := Reduced(p, t, k, 1), Hours := Reduced(p, t, k, 2)]
  }

  /** Period#snap_delta: start from the clock's hour, minute and second; for each grid unit
      the period names, finest first, reduce that field modulo its magnitude and zero every
      coarser one; negate the result. */
  method SnapDelta(p: PeriodData, t: Time) returns (r: Result<PeriodData>)
    ensures r == GridDelta(p, t)
  {
    var delta: PeriodData := map[Hours := Hour(t), Minutes := Min(t), Seconds := Sec(t)];
    var periodTypes := GridUnits;
    ghost var k: nat := 0;
    assert delta == Partial(p, t, 0);
    while periodTypes != []
      invariant k <= 3 && periodTypes == GridUnits[k..]
      invariant NoZeroAmong(p, k)
      invariant delta == Partial(p, t, k)
      decreases |periodTypes|
    {
      var periodType := periodTypes[0];
      periodTypes := periodTypes[1..];
      assert periodType == GridUnits[k] && periodTypes == GridUnits[k + 1..];
      if periodType !in p {
        SkippedStep(p, t, k);
        k := k + 1;
        continue;
      }
      if p[periodType] == 0 {
        return Err(ZeroDivision);
      }
      delta := delta[periodType := FloorMod(delta[periodType], p[periodType])];
      ghost var reducedOne := delta;
      delta := ZeroUnits(delta, periodTypes);
      ZeroedStep(p, t, k, periodTypes, reducedOne, delta);
      k := k + 1;
    }
    return Ok(Negate(delta));
  }

  /** `units.each { |u| delta[u] = 0 }`: every listed unit is set to zero, the rest kept. */
  method ZeroUnits(delta: PeriodData, units: seq<Unit>) returns (r: PeriodData)
    ensures r.Keys == delta.Keys + (set u | u in units)
    ensures forall u :: u in r ==> r[u] == if u in units then 0 else delta[u]
  {
    r := delta;
    var j := 0;
    while j < |units|
      invariant 0 <= j <= |units|
      invariant r.Keys == delta.Keys + (set u | u in units[..j])
      invariant forall u :: u in r ==> r[u] == if u in units[..j] then 0 else delta[u]
    {
      assert units[..j + 1] == units[..j] + [units[j]];
      r := r[units[j] := 0];
      j := j + 1;
    }
    assert units[..j] == units;
  }

  /** Reading a named, non-zero unit `k`: it becomes the finest if none was named before
      (its field is reduced and every coarser one zeroed), otherwise it reduces 0 to 0. */
  lemma ReducedStep(p: PeriodData, t: Time, k: nat)
    requires k < 3 && NoZeroAmong(p, k) && GridUnits[k] in p && p[GridUnits[k]] != 0
    ensures NoZeroAmong(p, k + 1)
    ensures forall i :: 0 <= i < k ==> Reduced(p, t, k + 1, i) == Reduced(p, t, k, i)
    ensures Reduced(p, t, k + 1, k) == FloorMod(Reduced(p, t, k, k), p[GridUnits[k]])
    ensures k + 1 < 3 ==> Reduced(p, t, k + 1, k + 1) == 0
    ensures k + 2 < 3 ==> Reduced(p, t, k + 1, k + 2) == 0
  {
    match FinestAmong(p, k)
    case None =>
      assert FinestAmong(p, k + 1) == Some(k);
    case Some(f) =>
      assert FinestAmong(p, k + 1) == Some(f);
      assert Reduced(p, t, k, k) == 0;
  }

  /** One pass of the loop for a named unit `k`: reducing it and zeroing the coarser units
      gives the delta after `k + 1` units. */
  lemma ZeroedStep(p: PeriodData, t: Time, k: nat, coarser: seq<Unit>, reducedOne: PeriodData, zeroed: PeriodData)
    requires k < 3 && NoZeroAmong(p, k) && GridUnits[k] in p && p[GridUnits[k]] != 0
    requires coarser == GridUnits[k + 1..]
    requires reducedOne == Partial(p, t, k)[GridUnits[k] := FloorMod(Partial(p, t, k)[GridUnits[k]], p[GridUnits[k]])]
    requires zeroed.Keys == reducedOne.Keys + (set u | u in coarser)
    requires forall u :: u in zeroed ==> zeroed[u] == if u in coarser then 0 else reducedOne[u]
    ensures NoZeroAmong(p, k + 1) && zeroed == Partial(p, t, k + 1)
  {
    ReducedStep(p, t, k);
    if k == 0 {
      assert GridUnits[k + 1..] == [Minutes, Hours];
    } else if k == 1 {
      assert GridUnits[k + 1..] == [Hours];
    } else {
      assert GridUnits[k + 1..] == [];
    }
    assert zeroed[Seconds] == Partial(p, t, k + 1)[Seconds];
    assert zeroed[Minutes] == Partial(p, t, k + 1)[Minutes];
    assert zeroed[Hours] == Partial(p, t, k + 1)[Hours];
  }

  /** Reading a unit the period does not name changes nothing. */
  lemma SkippedStep(p: PeriodData, t: Time, k: nat)
    requires k < 3 && NoZeroAmong(p, k) && GridUnits[k] !in p
    ensures NoZeroAmong(p, k + 1) && Partial(p, t, k + 1) == Partial(p, t, k)
  {
    assert FinestAmong(p, k + 1) == FinestAmong(p, k);
  }

  // ---------------------------------------------------------------------------------------
  // snap_previous and snap_next.

  /** `time.change(:usec => 0)` */
  function TruncateUsec(t: Time): Time {
    t - Usec(t)
  }

  /** Period#snap_previous: advance by snap_delta, then drop the microseconds. */
  function SnapPrevious(cal: Calendar, p: PeriodData, t: Time): Result<Time> {
    match GridDelta(p, t)
    case Err(e) => Err(e)
    case Ok(delta) => Ok(TruncateUsec(Advance(cal, t, delta)))
  }

  /** Period#snap_next: snap_previous, advanced by one period unless it is `t` itself. */
  function SnapNext(cal: Calendar, p: PeriodData, t: Time): Result<Time> {
    match SnapPrevious(cal, p, t)
    case Err(e) => Err(e)
    case Ok(g) => Ok(if g == t then g else Advance(cal, g, p))
  }

  /** The elapsed time the residue stands for. */
  function ResidueMicros(p: PeriodData, t: Time): int
    requires !HasZeroGridUnit(p)
  {
    (Reduced(p, t, 3, 0) + 60 * Reduced(p, t, 3, 1) + 3600 * Reduced(p, t, 3, 2)) * MicrosPerSecond
  }

  /** The finest named grid unit, if any, has a positive magnitude. */
  predicate PositiveFinest(p: PeriodData) {
    match Finest(p)
    case None => true
    case Some(f) => p[GridUnits[f]] > 0
  }

  /** Every grid unit the period names has a positive magnitude. */
  predicate PositiveGrid(p: PeriodData) {
    forall i :: 0 <= i < 3 && GridUnits[i] in p ==> p[GridUnits[i]] > 0
  }

  /** The time has no microseconds and nothing left to reduce. */
  predicate OnGrid(p: PeriodData, t: Time)
    requires !HasZeroGridUnit(p)
  {
    Usec(t) == 0 && Reduced(p, t, 3, 0) == 0 && Reduced(p, t, 3, 1) == 0 && Reduced(p, t, 3, 2) == 0
  }

  /** The clock field `i` of the grid boundary at or before `t`: below the finest named unit
      everything is zero, the finest is rounded down to a multiple of its magnitude, and
      coarser fields are those of `t`. */
  function Aligned(p: PeriodData, t: Time, i: nat): int
    requires i < 3 && !HasZeroGridUnit(p)
  {
    match Finest(p)
    case None => 0
    case Some(f) =>
      if i < f then 0
      else if i == f then Field(t, i) - FloorMod(Field(t, i), p[GridUnits[f]])
      else Field(t, i)
  }

  /** snap_delta and snap_previous raise exactly when a grid unit has magnitude zero. */
  lemma SnapRaisesIffZeroUnit(cal: Calendar, p: PeriodData, t: Time)
    ensures SnapPrevious(cal, p, t).Err? <==> HasZeroGridUnit(p)
    ensures SnapNext(cal, p, t).Err? <==> HasZeroGridUnit(p)
    ensures SnapPrevious(cal, p, t).Err? ==> SnapPrevious(cal, p, t).error == ZeroDivision
  {
  }

  /** Shifting by whole seconds keeps the microseconds. */
  lemma UsecShift(t: Time, k: int)
    ensures Usec(t + k * MicrosPerSecond) == Usec(t)
  {
    DivModUnique(t + k * MicrosPerSecond, MicrosPerSecond, t / MicrosPerSecond + k, t % MicrosPerSecond);
  }

  /** snap_previous moves back by the residue and the microseconds. */
  lemma PreviousTime(cal: Calendar, p: PeriodData, t: Time)
    requires !HasZeroGridUnit(p)
    ensures SnapPrevious(cal, p, t) == Ok(t - Usec(t) - ResidueMicros(p, t))
  {
    var delta := Negate(Residue(p, t));
    assert NoDateUnits(delta);
    assert SubDayMicros(delta) == -ResidueMicros(p, t);
    UsecShift(t, -(Reduced(p, t, 3, 0) + 60 * Reduced(p, t, 3, 1) + 3600 * Reduced(p, t, 3, 2)));
  }

  /** snap_previous lands on the grid boundary at or before `t`, on the same day, less than
      one step of the finest named unit earlier (less than a day when none is named). */
  lemma PreviousAligned(cal: Calendar, p: PeriodData, t: Time)
    requires !HasZeroGridUnit(p) && PositiveFinest(p)
    ensures SnapPrevious(cal, p, t).Ok?
    ensures var g := SnapPrevious(cal, p, t).value;
      Usec(g) == 0 && DayOf(g) == DayOf(t) &&
      Field(g, 0) == Aligned(p, t, 0) && Field(g, 1) == Aligned(p, t, 1) && Field(g, 2) == Aligned(p, t, 2)
    ensures var g := SnapPrevious(cal, p, t).value;
      g <= t && t - g < StepMicros(p)
  {
    PreviousTime(cal, p, t);
    var g := Boundary(p, t);
    FieldsOfCompose(DayOf(t), Aligned(p, t, 2), Aligned(p, t, 1), Aligned(p, t, 0), 0);
  }

  /** One step of the finest named grid unit; a day when none is named. */
  function StepMicros(p: PeriodData): int
    requires PositiveFinest(p)
  {
    match Finest(p)
    case None => 24 * MicrosPerHour
    case Some(f) => p[GridUnits[f]] * UnitMicros(f)
  }

  /** The residue and the microseconds are the distance back to the aligned clock fields. */
  lemma Boundary(p: PeriodData, t: Time) returns (g: Time)
    requires !HasZeroGridUnit(p) && PositiveFinest(p)
    ensures g == t - Usec(t) - ResidueMicros(p, t)
    ensures 0 <= Aligned(p, t, 2) < 24 && 0 <= Aligned(p, t, 1) < 60 && 0 <= Aligned(p, t, 0) < 60
    ensures g == Compose(DayOf(t), Aligned(p, t, 2), Aligned(p, t, 1), Aligned(p, t, 0), 0)
    ensures 0 <= t - g < StepMicros(p)
  {
    match Finest(p)
    case None => g := BoundaryNone(p, t);
    case Some(f) =>
      if f == 0 {
        g := BoundarySeconds(p, t);
      } else if f == 1 {
        g := BoundaryMinutes(p, t);
      } else {
        g := BoundaryHours(p, t);
      }
  }

  lemma BoundaryNone(p: PeriodData, t: Time) returns (g: Time)
    requires !HasZeroGridUnit(p) && Finest(p).None?
    ensures g == t - Usec(t) - ResidueMicros(p, t)
    ensures 0 <= Aligned(p, t, 2) < 24 && 0 <= Aligned(p, t, 1) < 60 && 0 <= Aligned(p, t, 0) < 60
    ensures g == Compose(DayOf(t), Aligned(p, t, 2), Aligned(p, t, 1), Aligned(p, t, 0), 0)
    ensures 0 <= t - g < StepMicros(p)
  {
    assert Reduced(p, t, 3, 0) == Sec(t) && Reduced(p, t, 3, 1) == Min(t) && Reduced(p, t, 3, 2) == Hour(t);
    g := MidnightOf(t);
  }

  lemma BoundarySeconds(p: PeriodData, t: Time) returns (g: Time)
    requires !HasZeroGridUnit(p) && Finest(p) == Some(0) && p[Seconds] > 0
    ensures g == t - Usec(t) - ResidueMicros(p, t)
    ensures 0 <= Aligned(p, t, 2) < 24 && 0 <= Aligned(p, t, 1) < 60 && 0 <= Aligned(p, t, 0) < 60
    ensures g == Compose(DayOf(t), Aligned(p, t, 2), Aligned(p, t, 1), Aligned(p, t, 0), 0)
    ensures 0 <= t - g < StepMicros(p)
  {
    assert Reduced(p, t, 3, 0) == FloorMod(Sec(t), p[Seconds]) && Reduced(p, t, 3, 1) == 0 && Reduced(p, t, 3, 2) == 0;
    assert Aligned(p, t, 0) == Sec(t) - FloorMod(Sec(t), p[Seconds]) && Aligned(p, t, 1) == Min(t) && Aligned(p, t, 2) == Hour(t);
    Decompose(t);
    FloorModBelow(Sec(t), p[Seconds]);
    g := SecondBoundary(t, p[Seconds]);
  }

  lemma BoundaryMinutes(p: PeriodData, t: Time) returns (g: Time)
    requires !HasZeroGridUnit(p) && Finest(p) == Some(1) && p[Minutes] > 0
    ensures g == t - Usec(t) - ResidueMicros(p, t)
    ensures 0 <= Aligned(p, t, 2) < 24 && 0 <= Aligned(p, t, 1) < 60 && 0 <= Aligned(p, t, 0) < 60
    ensures g == Compose(DayOf(t), Aligned(p, t, 2), Aligned(p, t, 1), Aligned(p, t, 0), 0)
    ensures 0 <= t - g < StepMicros(p)
  {
    assert Reduced(p, t, 3, 0) == Sec(t) && Reduced(p, t, 3, 1) == FloorMod(Min(t), p[Minutes]) && Reduced(p, t, 3, 2) == 0;
    assert Aligned(p, t, 0) == 0 && Aligned(p, t, 1) == Min(t) - FloorMod(Min(t), p[Minutes]) && Aligned(p, t, 2) == Hour(t);
    Decompose(t);
    FloorModBelow(Min(t), p[Minutes]);
    g := MinuteBoundary(t, p[Minutes]);
  }

  lemma BoundaryHours(p: PeriodData, t: Time) returns (g: Time)
    requires !HasZeroGridUnit(p) && Finest(p) == Some(2) && p[Hours] > 0
    ensures g == t - Usec(t) - ResidueMicros(p, t)
    ensures 0 <= Aligned(p, t, 2) < 24 && 0 <= Aligned(p, t, 1) < 60 && 0 <= Aligned(p, t, 0) < 60
    ensures g == Compose(DayOf(t), Aligned(p, t, 2), Aligned(p, t, 1), Aligned(p, t, 0), 0)
    ensures 0 <= t - g < StepMicros(p)
  {
    assert Reduced(p, t, 3, 0) == Sec(t) && Reduced(p, t, 3, 1) == Min(t) && Reduced(p, t, 3, 2) == FloorMod(Hour(t), p[Hours]);
    assert Aligned(p, t, 0) == 0 && Aligned(p, t, 1) == 0 && Aligned(p, t, 2) == Hour(t) - FloorMod(Hour(t), p[Hours]);
    Decompose(t);
    FloorModBelow(Hour(t), p[Hours]);
    g := HourBoundary(t, p[Hours]);
  }

  /** Midnight of the day of `t`. */
  lemma MidnightOf(t: Time) returns (g: Time)
    ensures g == t - Usec(t) - (Sec(t) + 60 * Min(t) + 3600 * Hour(t)) * MicrosPerSecond
    ensures g == Compose(DayOf(t), 0, 0, 0, 0) && 0 <= t - g < 24 * MicrosPerHour
  {
    Decompose(t);
    g := t - Usec(t) - (Sec(t) + 60 * Min(t) + 3600 * Hour(t)) * MicrosPerSecond;
  }

  /** The second boundary that is a multiple of `step` at or before `t`. */
  lemma SecondBoundary(t: Time, step: int) returns (g: Time)
    requires step > 0
    ensures g == t - Usec(t) - FloorMod(Sec(t), step) * MicrosPerSecond
    ensures g == Compose(DayOf(t), Hour(t), Min(t), Sec(t) - FloorMod(Sec(t), step), 0)
    ensures 0 <= t - g < step * MicrosPerSecond
  {
    Decompose(t);
    var r := FloorMod(Sec(t), step);
    g := t - Usec(t) - r * MicrosPerSecond;
    StepBound(r, step, Usec(t), MicrosPerSecond);
  }

  /** The minute boundary that is a multiple of `step` at or before `t`. */
  lemma MinuteBoundary(t: Time, step: int) returns (g: Time)
    requires step > 0
    ensures g == t - Usec(t) - (Sec(t) + 60 * FloorMod(Min(t), step)) * MicrosPerSecond
    ensures g == Compose(DayOf(t), Hour(t), Min(t) - FloorMod(Min(t), step), 0, 0)
    ensures 0 <= t - g < step * MicrosPerMinute
  {
    Decompose(t);
    var r := FloorMod(Min(t), step);
    g := t - Usec(t) - (Sec(t) + 60 * r) * MicrosPerSecond;
    StepBound(r, step, Sec(t) * MicrosPerSecond + Usec(t), MicrosPerMinute);
  }

  /** The hour boundary that is a multiple of `step` at or before `t`. */
  lemma HourBoundary(t: Time, step: int) returns (g: Time)
    requires step > 0
    ensures g == t - Usec(t) - (Sec(t) + 60 * Min(t) + 3600 * FloorMod(Hour(t), step)) * MicrosPerSecond
    ensures g == Compose(DayOf(t), Hour(t) - FloorMod(Hour(t), step), 0, 0, 0)
    ensures 0 <= t - g < step * MicrosPerHour
  {
    Decompose(t);
    var r := FloorMod(Hour(t), step);
    g := t - Usec(t) - (Sec(t) + 60 * Min(t) + 3600 * r) * MicrosPerSecond;
    StepBound(r, step, (Min(t) * 60 + Sec(t)) * MicrosPerSecond + Usec(t), MicrosPerHour);
  }

  /** The remainder of a non-negative value by a positive step is at most the value. */
  lemma FloorModBelow(a: int, b: int)
    requires a >= 0 && b > 0
    ensures 0 <= FloorMod(a, b) <= a
  {
    if a < b {
      DivModUnique(a, b, 0, a);
    } else {
      MultipleBound(a / b, b);
    }
  }

  /** `r` whole units and less than one more stay below `step` units when `r < step`. */
  lemma StepBound(r: int, step: int, rest: int, unit: int)
    requires 0 <= r < step && 0 <= rest < unit
    ensures r * unit + rest < step * unit
  {
    MultipleBound(step - r, unit);
  }

  // ---------------------------------------------------------------------------------------
  // What snapping promises.

  /** Rounding a value down to a multiple of a positive step leaves nothing to reduce. */
  lemma FloorModOfMultiple(a: int, b: int)
    requires b > 0
    ensures FloorMod(a - FloorMod(a, b), b) == 0
  {
    DivModUnique(a - a % b, b, a / b, 0);
  }

  /** With a positive finest unit every reduced field is non-negative. */
  lemma ReducedNonNegative(p: PeriodData, t: Time)
    requires !HasZeroGridUnit(p) && PositiveFinest(p)
    ensures Reduced(p, t, 3, 0) >= 0 && Reduced(p, t, 3, 1) >= 0 && Reduced(p, t, 3, 2) >= 0
  {
  }

  /** snap_previous is `t - usec - residue` and lands on the aligned clock fields. */
  lemma PreviousIsBoundary(cal: Calendar, p: PeriodData, t: Time) returns (g: Time)
    requires !HasZeroGridUnit(p) && PositiveFinest(p)
    ensures SnapPrevious(cal, p, t) == Ok(g)
    ensures 0 <= Aligned(p, t, 2) < 24 && 0 <= Aligned(p, t, 1) < 60 && 0 <= Aligned(p, t, 0) < 60
    ensures g == Compose(DayOf(t), Aligned(p, t, 2), Aligned(p, t, 1), Aligned(p, t, 0), 0)
    ensures 0 <= t - g < StepMicros(p)
  {
    PreviousTime(cal, p, t);
    g := Boundary(p, t);
  }

  /** Snapping a snapped time changes nothing. */
  lemma PreviousIdempotent(cal: Calendar, p: PeriodData, t: Time)
    requires !HasZeroGridUnit(p) && PositiveFinest(p)
    ensures SnapPrevious(cal, p, t).Ok?
    ensures SnapPrevious(cal, p, SnapPrevious(cal, p, t).value) == SnapPrevious(cal, p, t)
  {
    var g := PreviousIsBoundary(cal, p, t);
    AlignedOnGrid(p, t, g);
    PreviousTime(cal, p, g);
  }

  /** The time with the aligned clock fields of `t` is on the grid. */
  lemma AlignedOnGrid(p: PeriodData, t: Time, g: Time)
    requires !HasZeroGridUnit(p) && PositiveFinest(p)
    requires 0 <= Aligned(p, t, 2) < 24 && 0 <= Aligned(p, t, 1) < 60 && 0 <= Aligned(p, t, 0) < 60
    requires g == Compose(DayOf(t), Aligned(p, t, 2), Aligned(p, t, 1), Aligned(p, t, 0), 0)
    ensures OnGrid(p, g) && ResidueMicros(p, g) == 0
  {
    FieldsOfCompose(DayOf(t), Aligned(p, t, 2), Aligned(p, t, 1), Aligned(p, t, 0), 0);
    assert Field(g, 0) == Aligned(p, t, 0) && Field(g, 1) == Aligned(p, t, 1) && Field(g, 2) == Aligned(p, t, 2);
    match Finest(p)
    case None =>
    case Some(f) =>
      FloorModOfMultiple(Field(t, f), p[GridUnits[f]]);
  }

  /** A time is left unchanged by snap_previous exactly when it is on the grid. */
  lemma PreviousFixedIffOnGrid(cal: Calendar, p: PeriodData, t: Time)
    requires !HasZeroGridUnit(p) && PositiveFinest(p)
    ensures SnapPrevious(cal, p, t) == Ok(t) <==> OnGrid(p, t)
  {
    PreviousTime(cal, p, t);
    ReducedNonNegative(p, t);
  }

  /** One step of the finest unit is part of one whole period's elapsed time. */
  lemma StepWithinPeriod(p: PeriodData)
    requires Finest(p).Some? && PositiveGrid(p)
    ensures PositiveFinest(p) && !HasZeroGridUnit(p)
    ensures StepMicros(p) <= SubDayMicros(p)
  {
    assert Get(p, Seconds) >= 0 && Get(p, Minutes) >= 0 && Get(p, Hours) >= 0 by {
      assert GridUnits[0] == Seconds && GridUnits[1] == Minutes && GridUnits[2] == Hours;
    }
    var f := Finest(p).value;
    assert p[GridUnits[f]] == Get(p, GridUnits[f]);
  }

  /** For a period of positive hours, minutes and seconds, snap_previous(t) <= t <= snap_next(t),
      the two are one period apart unless `t` is on the grid, and then both are `t`. */
  lemma SnapsBracket(cal: Calendar, p: PeriodData, t: Time)
    requires Finest(p).Some? && PositiveGrid(p) && NoDateUnits(p)
    ensures SnapPrevious(cal, p, t).Ok? && SnapNext(cal, p, t).Ok?
    ensures SnapPrevious(cal, p, t).value <= t <= SnapNext(cal, p, t).value
    ensures SnapNext(cal, p, t).value == t <==> OnGrid(p, t)
    ensures SnapPrevious(cal, p, t).value != t ==>
      SnapNext(cal, p, t).value == SnapPrevious(cal, p, t).value + SubDayMicros(p)
  {
    StepWithinPeriod(p);
    var g := PreviousIsBoundary(cal, p, t);
    PreviousFixedIffOnGrid(cal, p, t);
    AdvanceSubDay(cal, g, p);
  }

  /** Midnight is on every grid. */
  lemma MidnightFixed(cal: Calendar, p: PeriodData, day: int)
    requires !HasZeroGridUnit(p)
    ensures SnapPrevious(cal, p, Compose(day, 0, 0, 0, 0)) == Ok(Compose(day, 0, 0, 0, 0))
    ensures SnapNext(cal, p, Compose(day, 0, 0, 0, 0)) == Ok(Compose(day, 0, 0, 0, 0))
  {
    var m := Compose(day, 0, 0, 0, 0);
    FieldsOfCompose(day, 0, 0, 0, 0);
    assert ResidueMicros(p, m) == 0;
    PreviousTime(cal, p, m);
  }

  // ---------------------------------------------------------------------------------------
  // The documented snap and the cases the library's tests check, on any day.

  /** 01:23:55 on a 15-minute grid: the delta is {hours: 0, minutes: -8, seconds: -55}, the
      previous boundary 01:15:00 and the next 01:30:00. */
  lemma DocumentedSnap(cal: Calendar, day: int)
    ensures GridDelta(map[Minutes := 15], Compose(day, 1, 23, 55, 0)) ==
      Ok(map[Seconds := -55, Minutes := -8, Hours := 0])
    ensures SnapPrevious(cal, map[Minutes := 15], Compose(day, 1, 23, 55, 0)) == Ok(Compose(day, 1, 15, 0, 0))
    ensures SnapNext(cal, map[Minutes := 15], Compose(day, 1, 23, 55, 0)) == Ok(Compose(day, 1, 30, 0, 0))
  {
    var p := map[Minutes := 15];
    var t := Compose(day, 1, 23, 55, 0);
    FieldsOfCompose(day, 1, 23, 55, 0);
    assert Finest(p) == Some(1);
    assert FloorMod(23, 15) == 8;
    var r := Residue(p, t);
    assert r == map[Seconds := 55, Minutes := 8, Hours := 0];
    assert Negate(r) == map[Seconds := -55, Minutes := -8, Hours := 0] by {
      assert Negate(r).Keys == r.Keys;
    }
    var g := PreviousIsBoundary(cal, p, t);
    SnapsBracket(cal, p, t);
  }

  /** A negative finest unit does not back up: on a grid of -15 minutes `23 % -15` is -7, so
      the negated delta is +7 minutes and snap_previous moves 00:23 forward to 00:30. */
  lemma NegativeSnapMovesForward(cal: Calendar, day: int)
    ensures SnapPrevious(cal, map[Minutes := -15], Compose(day, 0, 23, 0, 0)) == Ok(Compose(day, 0, 30, 0, 0))
    ensures Compose(day, 0, 23, 0, 0) < Compose(day, 0, 30, 0, 0)
  {
    var p := map[Minutes := -15];
    var t := Compose(day, 0, 23, 0, 0);
    FieldsOfCompose(day, 0, 23, 0, 0);
    assert Finest(p) == Some(1);
    assert FloorMod(23, -15) == -7;
    assert ResidueMicros(p, t) == -420 * MicrosPerSecond;
    PreviousTime(cal, p, t);
  }

  /** A period naming seconds and hours with magnitude zero next to 15 minutes raises
      ZeroDivisionError, although its test expects the zero units to be ignored. */
  lemma ZeroUnitsRaise(cal: Calendar, t: Time)
    ensures SnapPrevious(cal, map[Minutes := 15, Seconds := 0, Hours := 0], t) == Err(ZeroDivision)
    ensures SnapNext(cal, map[Minutes := 15, Seconds := 0, Hours := 0], t) == Err(ZeroDivision)
  {
    assert HasZeroGridUnit(map[Minutes := 15, Seconds := 0, Hours := 0]) by {
      assert GridUnits[0] == Seconds;
    }
  }

  /** 04:05:06.789 on grids of 1 and 15 seconds. */
  lemma OffGridSeconds(cal: Calendar, day: int)
    ensures SnapPrevious(cal, map[Seconds := 1], Compose(day, 4, 5, 6, 789000)) == Ok(Compose(day, 4, 5, 6, 0))
    ensures SnapNext(cal, map[Seconds := 1], Compose(day, 4, 5, 6, 789000)) == Ok(Compose(day, 4, 5, 7, 0))
    ensures SnapPrevious(cal, map[Seconds := 15], Compose(day, 4, 5, 6, 789000)) == Ok(Compose(day, 4, 5, 0, 0))
    ensures SnapNext(cal, map[Seconds := 15], Compose(day, 4, 5, 6, 789000)) == Ok(Compose(day, 4, 5, 15, 0))
  {
    var t := Compose(day, 4, 5, 6, 789000);
    FieldsOfCompose(day, 4, 5, 6, 789000);
    var one := map[Seconds := 1];
    assert Finest(one) == Some(0);
    var g1 := PreviousIsBoundary(cal, one, t);
    SnapsBracket(cal, one, t);
    var fifteen := map[Seconds := 15];
    assert Finest(fifteen) == Some(0);
    var g15 := PreviousIsBoundary(cal, fifteen, t);
    SnapsBracket(cal, fifteen, t);
  }

  /** 04:05:06.789 on grids of 1 and 15 minutes. */
  lemma OffGridMinutes(cal: Calendar, day: int)
    ensures SnapPrevious(cal, map[Minutes := 1], Compose(day, 4, 5, 6, 789000)) == Ok(Compose(day, 4, 5, 0, 0))
    ensures SnapNext(cal, map[Minutes := 1], Compose(day, 4, 5, 6, 789000)) == Ok(Compose(day, 4, 6, 0, 0))
    ensures SnapPrevious(cal, map[Minutes := 15], Compose(day, 4, 5, 6, 789000)) == Ok(Compose(day, 4, 0, 0, 0))
    ensures SnapNext(cal, map[Minutes := 15], Compose(day, 4, 5, 6, 789000)) == Ok(Compose(day, 4, 15, 0, 0))
  {
    var t := Compose(day, 4, 5, 6, 789000);
    FieldsOfCompose(day, 4, 5, 6, 789000);
    var one := map[Minutes := 1];
    assert Finest(one) == Some(1);
    var g1 := PreviousIsBoundary(cal, one, t);
    SnapsBracket(cal, one, t);
    var fifteen := map[Minutes := 15];
    assert Finest(fifteen) == Some(1);
    var g15 := PreviousIsBoundary(cal, fifteen, t);
    SnapsBracket(cal, fifteen, t);
  }

  /** 04:05:06.789 on grids of 1 and 15 hours. */
  lemma OffGridHours(cal: Calendar, day: int)
    ensures SnapPrevious(cal, map[Hours := 1], Compose(day, 4, 5, 6, 789000)) == Ok(Compose(day, 4, 0, 0, 0))
    ensures SnapNext(cal, map[Hours := 1], Compose(day, 4, 5, 6, 789000)) == Ok(Compose(day, 5, 0, 0, 0))
    ensures SnapPrevious(cal, map[Hours := 15], Compose(day, 4, 5, 6, 789000)) == Ok(Compose(day, 0, 0, 0, 0))
    ensures SnapNext(cal, map[Hours := 15], Compose(day, 4, 5, 6, 789000)) == Ok(Compose(day, 15, 0, 0, 0))
  {
    var t := Compose(day, 4, 5, 6, 789000);
    FieldsOfCompose(day, 4, 5, 6, 789000);
    var one := map[Hours := 1];
    assert Finest(one) == Some(2);
    var g1 := PreviousIsBoundary(cal, one, t);
    SnapsBracket(cal, one, t);
    var fifteen := map[Hours := 15];
    assert Finest(fifteen) == Some(2);
    var g15 := PreviousIsBoundary(cal, fifteen, t);
    SnapsBracket(cal, fifteen, t);
  }
}
