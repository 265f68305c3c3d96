# timeseries, modelled in Dafny

This project models the core of the Ruby library `timeseries`. The library describes a
regular series of times by four things: a start time, a period, a step count and an offset.
The period is a hash of signed magnitudes over seconds, minutes, hours, days, weeks, months
and years. Step `i` of a series is the start advanced by the period multiplied by `i`.

The model covers these parts of the library:

- **Periods** (`periods.dfy`, `period_strings.dfy`):
  - the table of unit spellings and `period_type`;
  - the `StringScanner` loop of `Period.parse`, with its pattern, Ruby's `Integer()` (octal on a leading zero) and last-write-wins assignment;
  - `coerce`;
  - the mutable `Period` object and its `multiply!`, `multiply`, `reverse!` and `reverse`.
- **The grid** (`grid.dfy`, `clock.dfy`): `snap_delta`, `snap_previous` and `snap_next`.
  - Times are whole microseconds on the zone's clock.
  - `Time#advance` moves the date through a calendar given as a parameter. It then adds hours, minutes and seconds as elapsed time.
- **The series** (`timeseries.dfy`): `at`, `increasing?`, the guess-and-correct loops of `n_steps_to`, `each`, `pair_data`, `intervals` and `collate`.
- **The class-level solver** (`solver.dfy`): `Timeseries.new`, `n_steps`, `snap_time`, `solve_n_steps`, `solve_stop_time` and `normalize`.
  - The options hash is a record whose absent keys are `None`.
- **`Timeseries::Iterator`** (`iteration.dfy`): a class with the fields of the Ruby object. It has `advance`, `apparent_index`, `each_until` and `set_period`.
- **`Timeseries::Transformer`** (`transformation.dfy`): a class whose `each_to` walks its current time forward.

What is proved, in brief:

- A rendered period parses back to the period it describes.
- `period_type` finds exactly the listed spellings.
- On the grid:
  - for a positive finest grid unit, `snap_previous` lands on the grid boundary at or before the time, less than one step earlier;
  - it is idempotent, and it fixes exactly the on-grid times;
  - for a positive sub-day grid, `snap_previous(t) <= t <= snap_next(t)`;
  - a negative finest unit makes `snap_previous` move forward (`Grid.NegativeSnapMovesForward`).
- `n_steps_to` returns the unique count whose last step is within the stop and whose next step is past it.
- `collate` keeps, under each key, the last pair filed there.
- At every call, the iterator and transformer loops yield exactly the steps their sources yield, in order, with the bookkeeping fields kept consistent.

Integers are unbounded, as Ruby's are. Ruby's `%` takes the sign of its divisor; it is written out as `Grid.FloorMod`.

## Model

| member | source | states |
|---|---|---|
| Periods.UnitOfMeansAlias | lib/timeseries/period.rb:56-64 | a spelling names unit `u` exactly when it is listed in `u`'s row; no spelling is in two rows |
| Periods.AliasInitial | lib/timeseries/period.rb:56-64 | every listed spelling starts with one of s, m, h, d, w, y |
| Periods.PeriodType | lib/timeseries/period.rb:18-26 | returns a unit exactly when some row lists the string, and that row's unit; otherwise fails with "invalid period type" for that string |
| Periods.Skip | lib/timeseries/period.rb:38 | the end of the longest run of characters of one class: all of the run is in the class and the next character is not |
| Periods.MatchAt | lib/timeseries/period.rb:38 | a successful scanner step always moves the position forward, within the string |
| Periods.Lexemes | lib/timeseries/period.rb:37-45 | the repeated `scanner.skip` loop stops at a position within the string |
| Periods.Parse | lib/timeseries/period.rb:33-52 | the scanner loop computes the parse meaning: interpret each lexeme, demand end of input, and fail with "invalid period string" otherwise |
| Periods.ParseFromStep | lib/timeseries/period.rb:38-45 | a lexeme whose unit or number does not interpret fails the whole parse; one that does assigns its magnitude and defers to the rest of the string |
| Periods.ParseFromStop | lib/timeseries/period.rb:46-51 | where the pattern stops matching, the parse succeeds exactly at end of input |
| Periods.Period.constructor | lib/timeseries/period.rb:68-70 | a new Period holds the data it is given |
| Periods.Period.Dup | lib/timeseries/period.rb:72-75 | `dup` gives a fresh object with equal data |
| Periods.Period.MultiplyBang | lib/timeseries/period.rb:85-90 | `multiply!` replaces the receiver's data with every magnitude times the factor, same keys, and returns the receiver |
| Periods.Period.Multiply | lib/timeseries/period.rb:92-95 | `multiply` returns a fresh scaled copy and leaves the receiver unchanged |
| Periods.Period.ReverseBang | lib/timeseries/period.rb:77-79 | `reverse!`, as written, returns a fresh negated copy, a different object from the receiver |
| Periods.Period.Reverse | lib/timeseries/period.rb:81-83 | `reverse` returns a fresh negated copy |
| Periods.Coerce | lib/timeseries/period.rb:7-15 | a Period is returned as the same object; a Hash or a number of seconds becomes a fresh Period with that data; a String fails (undefined `str`); anything else fails with "cannot coerce" |
| Periods.NegateInvolution | lib/timeseries/period.rb:77-83 | reversing twice gives back the original data |
| Periods.ScaleCompose | lib/timeseries/period.rb:85-95 | multiplying by `a`, then by `b`, equals multiplying by `a * b` |
| PeriodStrings.AssignKeys | lib/timeseries/period.rb:44 | after the assignments, a unit has a value exactly when it had one before or some token names it |
| PeriodStrings.AssignLast | lib/timeseries/period.rb:44 | a unit's value is that of the last token naming it |
| PeriodStrings.AssignKept | lib/timeseries/period.rb:44 | a unit that no token names keeps its earlier value |
| PeriodStrings.AliasIsWord | lib/timeseries/period.rb:56-64 | every listed spelling is a non-empty run of letters, so the pattern's `[A-Za-z]+` captures it whole |
| PeriodStrings.IntTextParses | lib/timeseries/period.rb:42 | `Integer()` of a decimal integer's text gives the integer back |
| PeriodStrings.MatchPiece | lib/timeseries/period.rb:38-39 | a written `<integer><alias>` piece, followed by nothing or by another piece, is a single scanner match |
| PeriodStrings.InterpretPiece | lib/timeseries/period.rb:39-42 | a piece's lexeme interprets as its own unit and whole magnitude |
| PeriodStrings.PieceStep | lib/timeseries/period.rb:37-45 | scanning a piece puts its token in front of the tokens of the text after it |
| PeriodStrings.LexemesOfRendered | lib/timeseries/period.rb:37-46 | the scanner consumes rendered pieces to the end, one token per piece, in order |
| PeriodStrings.AssignWhole | lib/timeseries/period.rb:44 | assigning the tokens of rendered pieces gives the last-wins period of those pieces |
| PeriodStrings.RoundTrip | lib/timeseries/period.rb:33-52 | parsing rendered pieces gives back the period they describe, the last piece for a unit winning |
| PeriodStrings.IntegralOfWhole | lib/timeseries/period.rb:42 | data whose magnitudes are all `Integer` results converts back unchanged |
| PeriodStrings.ParseRepeated | test/unit/timeseries/period_test.rb:96-99 | "1s2s3s" parses to three seconds |
| PeriodStrings.ParseDocumented | lib/timeseries/period.rb:31 | "1sec2weeks" parses to one second and two weeks |
| PeriodStrings.ParseBareAlias | test/unit/timeseries/period_test.rb:66-69 | "s" parses to one second: a missing number means 1 |
| PeriodStrings.ParseInvalid | test/unit/timeseries/period_test.rb:111-114 | "invalid" fails with "invalid period string" |
| PeriodStrings.ParseBareNumber | test/unit/timeseries/period_test.rb:106-109 | "1" fails with "invalid period string", since the pattern needs a unit word |
| PeriodStrings.OctalMagnitude | lib/timeseries/period.rb:42 | `Integer("010")` is 8 |
| PeriodStrings.OctalRejectsNine | lib/timeseries/period.rb:42 | `Integer("09")` raises |
| PeriodStrings.ParseOctal | lib/timeseries/period.rb:33-52 | "010s" parses to eight seconds |
| Clock.FieldsOfCompose | lib/timeseries/period.rb:126-128 | `hour`, `min`, `sec` and `usec` read back the fields a time was composed from |
| Clock.Decompose | lib/timeseries/period.rb:126-128 | every time is its day plus its clock fields, each in its range |
| Clock.AdvanceSubDay | lib/timeseries.rb:90-95 | advancing by hours, minutes and seconds adds their elapsed time, whatever the calendar |
| Clock.GetScale | lib/timeseries/period.rb:87 | a scaled period's magnitude for any unit is the factor times the original (0 when absent) |
| Clock.SubDayScale | lib/timeseries.rb:92 | `period * index` scales the elapsed time of its sub-day units by `index` and keeps the date units zero |
| Clock.AdvanceByZero | lib/timeseries.rb:90-95 | advancing by `period * 0` leaves a time unchanged |
| Grid.FloorMod | lib/timeseries/period.rb:135 | Ruby's `%`: `a` is a whole multiple of the divisor plus the remainder, and the remainder lies between 0 and the divisor, on the divisor's side |
| Grid.FinestAmong | lib/timeseries/period.rb:131-137 | finds the first of seconds, minutes and hours the period names, or none |
| Grid.SnapDelta | lib/timeseries/period.rb:124-140 | the loop equals the delta's meaning: reduce the finest named field by its magnitude, zero the coarser fields, negate; or ZeroDivisionError when a named grid unit is 0 |
| Grid.ZeroUnits | lib/timeseries/period.rb:136 | sets every listed unit to 0 and keeps the others |
| Grid.ReducedStep | lib/timeseries/period.rb:132-137 | reading a named unit changes only its own field and the coarser ones |
| Grid.ZeroedStep | lib/timeseries/period.rb:132-137 | one pass for a named unit advances the delta by one unit |
| Grid.SkippedStep | lib/timeseries/period.rb:133 | a unit the period does not name leaves the delta alone |
| Grid.SnapRaisesIffZeroUnit | lib/timeseries/period.rb:135 | `snap_previous` and `snap_next` raise, with ZeroDivisionError, exactly when a named second, minute or hour magnitude is 0 |
| Grid.PreviousTime | lib/timeseries/period.rb:105-107 | `snap_previous` moves back by the residue and the microseconds |
| Grid.PreviousAligned | lib/timeseries/period.rb:97-107 | for a positive finest grid unit, `snap_previous` lands on the same day, with no microseconds and the aligned clock fields, at or before the time and less than one step of the finest unit earlier |
| Grid.PreviousIsBoundary | lib/timeseries/period.rb:105-107 | `snap_previous` is the composed time of the aligned fields |
| Grid.PreviousIdempotent | lib/timeseries/period.rb:97-98 | snapping a snapped time leaves it unchanged |
| Grid.AlignedOnGrid | lib/timeseries/period.rb:97-98 | the aligned time has nothing left to reduce |
| Grid.PreviousFixedIffOnGrid | lib/timeseries/period.rb:97-98 | `snap_previous` leaves a time unchanged exactly when it is on the grid |
| Grid.StepWithinPeriod | lib/timeseries/period.rb:119 | one step of the finest unit is part of one whole period |
| Grid.SnapsBracket | lib/timeseries/period.rb:109-120 | for positive sub-day periods, `snap_previous(t) <= t <= snap_next(t)`; `snap_next` fixes exactly on-grid times; otherwise it is one period past `snap_previous` |
| Grid.MidnightFixed | test/unit/timeseries/period_test.rb:268-276 | midnight is fixed by both snaps on every grid |
| Grid.DocumentedSnap | lib/timeseries/period.rb:100-114 | 01:23:55 on 15 minutes: delta of -8 minutes -55 seconds, previous 01:15, next 01:30 |
| Grid.NegativeSnapMovesForward | lib/timeseries/period.rb:97-107 | on a grid of -15 minutes, `snap_previous` moves 00:23 forward to 00:30: `23 % -15` is -7 and the delta is negated |
| Grid.ZeroUnitsRaise | test/unit/timeseries/period_test.rb:227-237 | 15 minutes with zero seconds and hours raises ZeroDivisionError from both snaps |
| Grid.OffGridSeconds | test/unit/timeseries/period_test.rb:258-266 | 04:05:06.789 snaps to 04:05:06 / 04:05:07 on 1 s, and 04:05:00 / 04:05:15 on 15 s |
| Grid.OffGridMinutes | test/unit/timeseries/period_test.rb:258-266 | 04:05:06.789 snaps to 04:05 / 04:06 on 1 min, and 04:00 / 04:15 on 15 min |
| Grid.OffGridHours | test/unit/timeseries/period_test.rb:258-266 | 04:05:06.789 snaps to 04:00 / 05:00 on 1 hr, and 00:00 / 15:00 on 15 hr |
| Timeseries.AtZero | lib/timeseries.rb:90-95 | step 0 is the start |
| Timeseries.AtSubDay | lib/timeseries.rb:90-95 | for sub-day periods, step `i` is the start plus `i` times the period's elapsed time |
| Timeseries.SubDayRegular | lib/timeseries.rb:90-95 | a sub-day period with non-zero elapsed time gives a strictly monotone series, increasing exactly when the elapsed time is positive |
| Timeseries.IncreasingBounds | lib/timeseries.rb:117-128 | on a strictly increasing series, step `n` is at least `n` microseconds past the start, which bounds the correction loops |
| Timeseries.DecreasingBounds | lib/timeseries.rb:117-128 | on a strictly decreasing series, the same bound in the other direction |
| Timeseries.Direction | lib/timeseries.rb:133-135 | on a regular, moving series, `increasing?` tells which way it runs strictly |
| Timeseries.OvershootBounds | lib/timeseries.rb:120-128 | steps past the stop and steps short of it are bounded by the distance to the stop, so both loops end |
| Timeseries.NStepsTo | lib/timeseries.rb:101-131 | zero or "empty period" when the average step is zero; otherwise the count whose last step is within the stop and whose next step is past it |
| Timeseries.BracketCounts | lib/timeseries.rb:101-131 | the steps within the stop are exactly those with index below the count |
| Timeseries.BracketUnique | lib/timeseries.rb:112-128 | only one count brackets the stop, whatever the first guess |
| Timeseries.StopAtStart | test/unit/timeseries_test.rb:553-569 | a stop equal to the start counts 1, for either direction |
| Timeseries.ExceedingStepNotCounted | test/unit/timeseries_test.rb:544-551 | 00:00:00 to 00:00:05 by 2 seconds counts 3 |
| Timeseries.WrongDirectionIsZero | test/unit/timeseries_test.rb:580-598 | a stop one step behind the start, against the period's direction, counts 0 (both directions) |
| Timeseries.FarBehindIsNegative | lib/timeseries.rb:117-130 | a stop 5 seconds behind the start of a 1-second series is bracketed by the count -4 |
| Timeseries.EmptyPeriodIsFlat | lib/timeseries.rb:104-110 | the empty period averages zero per step |
| Timeseries.Each | lib/timeseries.rb:138-154 | yields `abs(n_steps)` steps from the offset, downward for a negative count, or steps without end; the `k`-th is `at(offset ± k)` |
| Timeseries.ReversedSeries | test/unit/timeseries_test.rb:304-313 | a sub-day series started at its last step, with the negated count, yields the same steps in reverse |
| Timeseries.PairData | lib/timeseries.rb:193-201 | one pair fewer than the data (none for empty data); pair `i` is data `i` and `i + 1` |
| Timeseries.Intervals | lib/timeseries.rb:177-189 | pairs of consecutive steps, one fewer than the steps |
| Timeseries.FileNext | lib/timeseries.rb:168-173 | filing the next pair under its step time keeps every key at the last pair filed under it |
| Timeseries.FileNextAt | lib/timeseries.rb:168-173 | after one more filing, each key still holds the last pair filed under it |
| Timeseries.Collate | lib/timeseries.rb:156-175 | an invalid interval type fails; otherwise every pair's key (`at(i+1)` ending, `at(i)` beginning) is present and holds the last pair with that key |
| Timeseries.MonotoneKeysDistinct | lib/timeseries.rb:168-173 | on a strictly monotone series, different pairs have different keys, so none is overwritten |
| Solver.New | lib/timeseries.rb:79-88 | `Timeseries.new` defaults start to now, offset to 0 and period to `{}`, and coerces the period or fails as coerce fails |
| Solver.SnapTime | lib/timeseries.rb:59-66 | no directive keeps the time; an unknown one fails with "invalid snap type". For a positive sub-day grid, previous is at or before the time, less than one period earlier; next is at or after it, within one period, equal exactly on the grid. Both fail exactly for a zero grid unit |
| Solver.SnapFacts | lib/timeseries.rb:59-66 | the grid facts in the form `snap_time` states them |
| Solver.NSteps | lib/timeseries.rb:9-13 | fails as the series fails; otherwise answers as `n_steps_to` with the stop defaulting to the start |
| Solver.SolveNSteps | lib/timeseries.rb:34-44 | snaps start and stop by their own directives, stores the coerced period and the bracketing count, changes nothing else; or fails with the first error |
| Solver.SolveStopTime | lib/timeseries.rb:50-57 | snaps the start and stores the coerced period; stop time and step count stay as given |
| Solver.Normalize | lib/timeseries.rb:15-26 | dispatches on which of stop time, period and step count are present; too much or not enough information fails |
| Solver.EarlySnaps | test/unit/timeseries_test.rb:103-123 | 00:23 on 15 minutes snaps to 00:15 and 00:30 |
| Solver.LateSnaps | test/unit/timeseries_test.rb:125-145 | 00:56 on 15 minutes snaps to 00:45 and 01:00 |
| Solver.QuarterSolved | lib/timeseries.rb:34-44 | a solved quarter-hour record holds the snapped ends and the count of quarter steps between them |
| Solver.QuarterCount | lib/timeseries.rb:101-131 | by quarter hours, `n` is the only count of a stop in the `n`-th step |
| Solver.SolvedInclusive | test/unit/timeseries_test.rb:94-101 | 00:00 to 01:00 by 15 minutes solves to 5 steps |
| Solver.SolvedStartPrevious | test/unit/timeseries_test.rb:103-112 | start 00:23 snapped back is 00:15, with 4 steps |
| Solver.SolvedStartNext | test/unit/timeseries_test.rb:114-123 | start 00:23 snapped on is 00:30, with 3 steps |
| Solver.SolvedStopPrevious | test/unit/timeseries_test.rb:125-134 | stop 00:56 snapped back is 00:45, with 4 steps |
| Solver.SolvedStopNext | test/unit/timeseries_test.rb:136-145 | stop 00:56 snapped on is 01:00, with 5 steps |
| Iteration.Iterator.constructor | lib/timeseries/iterator.rb:14-22 | index 0, offset 0, no last time, time at the start, the flags as given |
| Iteration.Iterator.Initialize | lib/timeseries/iterator.rb:14-25 | without `require_last_time`, the fresh state. With it, one advance: index 1 and last time the start. Or, with no step count and no streaming, the nil-comparison error |
| Iteration.Iterator.Advance | lib/timeseries/iterator.rb:31-39 | the time becomes the last time and the index moves on by one; the new time is the step at the index, nil past the end, or the comparison with nil raises |
| Iteration.Iterator.EachUntil | lib/timeseries/iterator.rb:45-57 | yields `(last_time, time, apparent_index)` while the time is present and within the stop (`<=` increasing, `>=` decreasing). The yields are consecutive steps, each carrying the previous time and a consecutive apparent index. Afterwards the time is absent or past the stop |
| Iteration.Iterator.SetPeriod | lib/timeseries/iterator.rb:59-71 | with a last time: restart the series there with the new period, index 1, offset absorbing the old index, apparent index unchanged. Without one: only the period changes |
| Iteration.MovesInItsDirection | lib/timeseries.rb:133-135 | a strictly monotone series moves each step the way `increasing?` says |
| Iteration.RebaseContinues | lib/timeseries/iterator.rb:59-67 | re-basing a sub-day series at its own step `j` with the same period continues it: new step `k` is old step `j + k` |
| Transformation.Transformer.constructor | lib/timeseries/transformer.rb:9-14 | period, start and stop kept; the current time is the start |
| Transformation.Transformer.EachTo | lib/timeseries/transformer.rb:16-25 | a nil current time becomes the input. The yields start there, each is the advance of the one before, all are within the input and the stop. The current time ends one advance past the last yield and outside them. Nothing is yielded exactly when the start is already outside |
| Transformation.ClosedStaysClosed | lib/timeseries/transformer.rb:21 | a time outside the loop condition for an input stays outside for any earlier input, so a second `each_to` with an earlier input yields nothing |
| Transformation.YieldsIncrease | lib/timeseries/transformer.rb:21-24 | the yields of one call are strictly increasing |
| Transformation.SubDayMovesForward | lib/timeseries/transformer.rb:21-24 | a sub-day period with positive elapsed time meets `each_to`'s requirement of moving every time forward |

## Where the code, its tests and its documentation disagree

The model follows the code. In each case below the tests or the documentation expect something else:

- `Period.parse("1")`: the tests expect one second. The pattern needs a unit word, so the code fails; see `PeriodStrings.ParseBareNumber`.
- `Period.coerce` of a String calls `parse(str)` with `str` undefined, so it always raises.
- `Period.coerce(:weeks)` is expected to give one week; the code raises "cannot coerce".
- `reverse!` is expected to change the receiver and return it. The code returns `multiply(-1)`, a new negated object, and leaves the receiver alone (`Periods.Period.ReverseBang`).
- `snap_previous` with a period `{minutes: 15, seconds: 0, hours: 0}` is expected to ignore the zeros. The code computes `% 0` and raises ZeroDivisionError (`Grid.ZeroUnitsRaise`).
- `n_steps_to` with a stop behind the start is expected to raise "cannot solve for n_steps". The code returns the bracketing count instead: 0 when the stop is at most one step behind (`Timeseries.WrongDirectionIsZero` proves the tests' case of exactly one step), negative further back, for example -4 for a stop 5 seconds behind a 1-second series (`Timeseries.FarBehindIsNegative`).
- `snap_previous` is documented to back up to the previous grid boundary. With a negative finest unit the code moves forward instead: `{minutes: -15}` takes 00:23 to 00:30 (`Grid.NegativeSnapMovesForward`).
- `normalize` with only a start time, or with only a start and a step count, is expected to assume a 1-second period. The code raises "not enough information".
- `intervals` on an infinite series is expected to raise. The code enumerates the series forever.
- The older test file calls `period.snap`, which the code does not define. It also expects `snap_next` of an on-grid time to move one period on, but the code returns the time itself.
- Three names the tests or the code use are not defined anywhere in the code: `Period#ref_size` (used by `Iterator#step_size`), `Period.format`, and `Timeseries#reconfigure` (used by `Iterator#set_period`).

## Left out

- Floating-point magnitudes: `Period.parse` of "10.01s" is reported as `FractionalMagnitude` rather than a Float magnitude.
- Time zones and daylight saving: the zone is a calendar function for the date units, and all sub-day arithmetic is elapsed time on the zone's clock. `in_time_zone` is the identity.
- `Time.now` is the parameter `now`. The zone's default is not modelled.
- `strftime` formats, and the block forms of `collate` and `each`:
  - `format` keys and `intervals(:format => ...)` are not modelled;
  - `collate` files the pair itself, not a block's result.
- Timeseries.Each: a caller's `demand` stands for how many steps the block takes before it stops the enumeration; the endless form is modelled only up to that demand.
- Timeseries.Intervals: requires a finite series; on an infinite series the source never ends.
- Timeseries.NStepsTo: requires the series to be regular (zero average step or strictly monotone), since otherwise the source's loops need not end. The requirement also rules out series that drift one way without being monotone, such as `{months: 1, days: -30}`; the source does answer those. Its first guess models `to_i` on an exact quotient only.
- Solver.NSteps: requires the described series to be regular, for the same reason; drifting non-monotone series are excluded with it.
- Solver.SolveNSteps: requires the coerced period to make every series regular, for the same reason; drifting non-monotone periods are excluded with it.
- Solver.Normalize: requires the same of the period when it dispatches to `solve_n_steps`.
- Periods.Period.MultiplyBang: `Period.new` keeps the caller's Hash object and `multiply!` rewrites it in place with `data.replace`, so whoever passed that Hash to `new` or `coerce` sees it scaled. `PeriodData` is a value, so this sharing is not modelled; only the Period object's own data changes.
- Options: string keys, nil values stored under a key, and the aliasing of the caller's hash by `solve_n_steps` are not modelled; the solved record is returned.
- `solve_period` raises NotImplementedError and is modelled as that error.
- `Timeseries.create` and the option handling inside `Iterator#initialize`:
  - the iterator is built from an already-made series;
  - `Iteration.Iterator.Initialize` takes the two flags as parameters.
- Iteration.Iterator.SetPeriod: takes parsed period data, and `reconfigure` is taken to replace the start and the period of the series, since it is defined nowhere.
- Iteration.Iterator.EachUntil: requires a streaming iterator's series to be strictly monotone; otherwise the source's loop need not end.
- `Iterator#step_size` calls `Period#ref_size`, which does not exist; it is not modelled.
- Transformation.Transformer.EachTo: requires the period to move every time up to the input forward; otherwise the source's loop need not end.
- `Transformer#last_time` reads an instance variable that is never assigned, so it is always nil; it is not modelled.
- Snapping uses only seconds, minutes and hours, as the source says. `Time#advance`'s date part for snapped deltas is never reached, because deltas hold no date units.
- Clock.DatePart: hands the calendar all four date units, with an absent one as 0, as `Time#advance` reads them. The calendar itself is not modelled.
- `command.rb`, `formatter.rb` and `utils.rb` are not part of this model.
