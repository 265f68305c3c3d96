/**
 * Times and the "advance a time by a period" primitive.
 *
 * A time is a whole number of microseconds on the series' zone clock, counted from
 * midnight of day 0; its clock fields are read off by floor division.  Advancing follows
 * ActiveSupport's Time#advance: the date units (days, weeks, months, years) move the date
 * first, through a calendar supplied by the caller, and the hours, minutes and seconds are
 * then added as elapsed time.
 */
module Clock {
  import opened Periods

  type Time = int

  const MicrosPerSecond: int := 1000000
  const MicrosPerMinute: int := 60 * MicrosPerSecond
  const MicrosPerHour: int := 60 * MicrosPerMinute

  function TotalSeconds(t: Time): int { t / MicrosPerSecond }
  function TotalMinutes(t: Time): int { TotalSeconds(t) / 60 }
  function TotalHours(t: Time): int { TotalMinutes(t) / 60 }

  /** `time.usec` */
  function Usec(t: Time): int { t % MicrosPerSecond }
  /** `time.sec` */
  function Sec(t: Time): int { TotalSeconds(t) % 60 }
  /** `time.min` */
  function Min(t: Time): int { TotalMinutes(t) % 60 }
  /** `time.hour` */
  function Hour(t: Time): int { TotalHours(t) % 24 }
  /** The day a time falls on. */
  function DayOf(t: Time): int { TotalHours(t) / 24 }

  /** The time with the given day and clock fields. */
  function Compose(day: int, hour: int, min: int, sec: int, usec: int): Time
    requires 0 <= hour < 24 && 0 <= min < 60 && 0 <= sec < 60 && 0 <= usec < MicrosPerSecond
  {
    (((day * 24 + hour) * 60 + min) * 60 + sec) * MicrosPerSecond + usec
  }

  /** Euclidean division is determined by any quotient and remainder in range. */
  lemma DivModUnique(a: int, b: int, q: int, r: int)
    requires b > 0 && 0 <= r < b && a == q * b + r
    ensures a / b == q && a % b == r
  {
    var k := q - a / b;
    assert k * b == a % b - r;
    MultipleBound(k, b);
  }

  /** A non-zero multiple of `b` is at least `b` away from zero. */
  lemma MultipleBound(k: int, b: int)
    requires b > 0
    ensures k >= 1 ==> k * b >= b
    ensures k <= -1 ==> k * b <= -b
  {
  }

  /** Reading the fields back from a composed time gives the fields it was composed from. */
  lemma {:induction false} FieldsOfCompose(day: int, hour: int, min: int, sec: int, usec: int)
    requires 0 <= hour < 24 && 0 <= min < 60 && 0 <= sec < 60 && 0 <= usec < MicrosPerSecond
    ensures var t := Compose(day, hour, min, sec, usec);
      DayOf(t) == day && Hour(t) == hour && Min(t) == min && Sec(t) == sec && Usec(t) == usec
  {
    var t := Compose(day, hour, min, sec, usec);
    var h := day * 24 + hour;
    var m := h * 60 + min;
    var s := m * 60 + sec;
    DivModUnique(t, MicrosPerSecond, s, usec);
    DivModUnique(s, 60, m, sec);
    DivModUnique(m, 60, h, min);
    DivModUnique(h, 24, day, hour);
  }

  /** Every time is the composition of its own fields. */
  lemma Decompose(t: Time)
    ensures 0 <= Hour(t) < 24 && 0 <= Min(t) < 60 && 0 <= Sec(t) < 60 && 0 <= Usec(t) < MicrosPerSecond
    ensures t == Compose(DayOf(t), Hour(t), Min(t), Sec(t), Usec(t))
  {
  }

  /** The time of day, in microseconds since midnight. */
  function SinceMidnight(t: Time): int {
    ((Hour(t) * 60 + Min(t)) * 60 + Sec(t)) * MicrosPerSecond + Usec(t)
  }

  // ---------------------------------------------------------------------------------------
  // Time#advance.

  /** The zone's calendar: moves a time by whole days, weeks, months and years. */
  type Calendar = (Time, PeriodData) -> Time

  /** `hash.fetch(unit, 0)` */
  function Get(d: PeriodData, u: Unit): int {
    if u in d then d[u] else 0
  }

  /** The part of a period the calendar handles: the date units, an absent one read as 0
      as `Time#advance` reads it. */
  function DatePart(d: PeriodData): PeriodData {
    map[Days := Get(d, Days), Weeks := Get(d, Weeks), Months := Get(d, Months), Years := Get(d, Years)]
  }

  /** A period whose date units are all absent or zero leaves the date alone. */
  predicate NoDateUnits(d: PeriodData) {
    Get(d, Days) == 0 && Get(d, Weeks) == 0 && Get(d, Months) == 0 && Get(d, Years) == 0
  }

  /** `seconds + minutes * 60 + hours * 3600`, in microseconds. */
  function SubDayMicros(d: PeriodData): int {
    (Get(d, Seconds) + 60 * Get(d, Minutes) + 3600 * Get(d, Hours)) * MicrosPerSecond
  }

  /** `time.advance(d)` */
  function Advance(cal: Calendar, t: Time, d: PeriodData): Time {
    (if NoDateUnits(d) then t else cal(t, DatePart(d))) + SubDayMicros(d)
  }

  /** A period of hours, minutes and seconds moves every time by the same elapsed time,
      whatever the calendar. */
  lemma AdvanceSubDay(cal: Calendar, t: Time, d: PeriodData)
    requires NoDateUnits(d)
    ensures Advance(cal, t, d) - t == SubDayMicros(d)
    ensures forall other: Calendar :: Advance(other, t, d) == Advance(cal, t, d)
  {
  }

  /** Scaling a period scales each unit it holds, an absent one staying 0. */
  lemma GetScale(d: PeriodData, factor: int, u: Unit)
    ensures Get(Scale(d, factor), u) == factor * Get(d, u)
  {
  }

  /** A period of sub-day units scales its elapsed time linearly. */
  lemma SubDayScale(d: PeriodData, factor: int)
    ensures SubDayMicros(Scale(d, factor)) == factor * SubDayMicros(d)
    ensures NoDateUnits(d) ==> NoDateUnits(Scale(d, factor))
  {
    var s, m, h := Get(d, Seconds), Get(d, Minutes), Get(d, Hours);
    GetScale(d, factor, Seconds);
    GetScale(d, factor, Minutes);
    GetScale(d, factor, Hours);
    GetScale(d, factor, Days);
    GetScale(d, factor, Weeks);
    GetScale(d, factor, Months);
    GetScale(d, factor, Years);
    LinearSum(factor, s, m, h);
  }

  lemma LinearSum(f: int, s: int, m: int, h: int)
    ensures (f * s + 60 * (f * m) + 3600 * (f * h)) * MicrosPerSecond == f * ((s + 60 * m + 3600 * h) * MicrosPerSecond)
  {
    assert 60 * (f * m) == f * (60 * m);
    assert 3600 * (f * h) == f * (3600 * h);
    assert (f * (s + 60 * m + 3600 * h)) * MicrosPerSecond == f * ((s + 60 * m + 3600 * h) * MicrosPerSecond);
  }

  /** Advancing by a zero multiple of any period is the identity (so `at(0)` is the start). */
  lemma AdvanceByZero(cal: Calendar, t: Time, d: PeriodData)
    ensures Advance(cal, t, Scale(d, 0)) == t
  {
    SubDayScale(d, 0);
  }
}
