# BusinessTimeDelta in Dafny

This project models the core of the `businesstimedelta` Python library: a
duration counted in *business time*, meaning time that counts only inside
the active periods of a rule (working hours, for example). Adding such a
duration to a timestamp walks forward over the rule's periods, and
subtracting it walks backward. At each step the walk asks the rule for the
period next to its cursor. A period no longer than the time still to go is
consumed whole. The walk returns inside the first period that is strictly
longer than what remains.

Files:

- `timestamps.dfy` (module `Timestamps`): a timestamp is a wall-clock reading in
  seconds plus an optional UTC offset. `LocalizeUnlocalized` models
  `localize_unlocalized_dt`.
- `timedeltas.dfy` (module `TimeDeltas`): `datetime.timedelta` in Python's
  normal form, as days plus seconds of the day (`0 <= seconds < 86400`).
- `periodwalk.dfy` (module `PeriodWalk`): the specification of the walk, step
  by step, for both directions. It defines the cursor at step i
  (`CursorAt`), the period asked for (`PeriodAt`), the time still to go
  (`RemainingAt`) and the stopping step (`StopsAt`). It also holds the
  lemmas about that specification.
- `businesstimedelta.dfy` (module `BusinessTimeDeltas`): the
  `BusinessTimeDelta` value and its operations. `Add` and `Subtract` are the
  two `while` loops, each proved against `PeriodWalk`.
- `officehours.dfy` (module `OfficeHours`): a concrete rule with one period
  per day, 09:00–17:00 UTC, and worked walks over it.

How the model treats the rule and the timestamps:

- The rule is a value holding two oracle functions, `next` and `previous`.
  The engine assumes nothing about them except where a lemma names its
  hypothesis: `Progressing`, `Adjacent` or `KeepsAware`.
- `Add` and `Subtract` require `Terminates`, meaning some step stops the
  walk. The library leaves that to the rule and does not guard it.
  `ProgressingRuleTerminates` discharges it for any rule whose periods are
  at least one second long.
- Timestamps and durations are whole seconds. Period lengths and the
  comparison `period_delta > td_left` are taken on the UTC time line
  (`Instant`). Adding a duration moves the wall clock and keeps the offset
  (`Shift`), as aware `datetime` arithmetic does.

## Model

| member | source | states |
|---|---|---|
| `Timestamps.LocalizeUnlocalized` | businesstimedelta/businesstimedelta.py:5-12 | the result is aware and keeps the wall-clock reading; an aware input comes back unchanged; a naive one gets offset 0 (UTC) |
| `Timestamps.LocalizeIdempotent` | businesstimedelta/businesstimedelta.py:10-12 | localizing an already localized timestamp changes nothing |
| `Timestamps.NaiveLocalizesAsUtc` | businesstimedelta/businesstimedelta.py:10-12 | a naive timestamp is localized exactly like the same reading given as UTC-aware, so both walk identically |
| `TimeDeltas.FromHoursSeconds` | businesstimedelta/businesstimedelta.py:18-20 | `timedelta(seconds=s, hours=h)` is normalized into days and seconds of the day, and its total is `h*3600 + s` |
| `TimeDeltas.NormalFormUnique` | businesstimedelta/businesstimedelta.py:28-29 | two normalized timedeltas are equal exactly when their totals in seconds are equal |
| `BusinessTimeDeltas.New` | businesstimedelta/businesstimedelta.py:16-20 | the constructor keeps the rule, and the stored duration is `hours*3600 + seconds` (both default 0) |
| `BusinessTimeDeltas.Equal` | businesstimedelta/businesstimedelta.py:28-29 | equality holds exactly when the total durations are equal; the rules are not compared |
| `BusinessTimeDeltas.EqualIgnoresRule` | businesstimedelta/businesstimedelta.py:16-29 | two constructed values are equal exactly when their `hours*3600 + seconds` agree, whatever their rules |
| `BusinessTimeDeltas.Repr` | businesstimedelta/businesstimedelta.py:22-26 | the displayed hours and seconds recompose the duration, `hours*3600 + seconds == days*86400 + secs`, with `0 <= seconds < 3600` |
| `BusinessTimeDeltas.ReprIsFloorDivision` | businesstimedelta/businesstimedelta.py:23-25 | the displayed hours are the floor of the total over 3600, and the displayed seconds are the total mod 3600 |
| `BusinessTimeDeltas.Add` | businesstimedelta/businesstimedelta.py:31-43 | the loop stops at the step where the walk's specification stops, and returns `period_start + td_left` in that step's period |
| `BusinessTimeDeltas.RAdd` | businesstimedelta/businesstimedelta.py:45-46 | `dt + delta` has the same result and stopping step as `delta + dt` |
| `BusinessTimeDeltas.Subtract` | businesstimedelta/businesstimedelta.py:48-60 | the backward loop stops at the step where the specification stops, and returns `period_end - td_left` in that step's period |
| `BusinessTimeDeltas.RSubtract` | businesstimedelta/businesstimedelta.py:62-63 | `dt - delta` runs the same backward walk, with the same result, as `delta - dt` |
| `BusinessTimeDeltas.ProgressingRuleTerminates` | businesstimedelta/businesstimedelta.py:34-60 | if every period is at least a second long, both walks terminate from any timestamp |
| `BusinessTimeDeltas.GapFreeRuleRoundTrip` | businesstimedelta/businesstimedelta.py:31-63 | with a rule without gaps, `(dt - delta) + delta` and `(dt + delta) - delta` denote the same instant as `dt`, localizing included |
| `BusinessTimeDeltas.ResultsAreAware` | businesstimedelta/businesstimedelta.py:31-57 | the walks start from the localized timestamp; with a rule that answers in aware timestamps, both results are aware |
| `PeriodWalk.StopIsUnique` | businesstimedelta/businesstimedelta.py:39-40 | a walk stops at one step at most, so its result is determined |
| `PeriodWalk.RemainingStaysNonNegative` | businesstimedelta/businesstimedelta.py:39-42 | starting from a non-negative duration, `td_left` never becomes negative, because a period is subtracted only when `period_delta <= td_left` |
| `PeriodWalk.ConsumeStep` | businesstimedelta/businesstimedelta.py:39-43 | a consumed period moves the cursor to its end (forward) or its start (backward), and shrinks `td_left` by exactly its length |
| `PeriodWalk.TieIsConsumed` | businesstimedelta/businesstimedelta.py:39-43 | a period exactly as long as what remains is consumed whole; the walk does not stop there, and continues with nothing left |
| `PeriodWalk.ForwardLandsInLastPeriod` | businesstimedelta/businesstimedelta.py:35-42 | for a non-negative duration, the forward result is `start + td_left` with `start <= result < end` in the last period, and the consumed lengths plus `result - start` equal the duration |
| `PeriodWalk.BackwardLandsInLastPeriod` | businesstimedelta/businesstimedelta.py:52-59 | for a non-negative duration, the backward result is `end - td_left` with `start < result <= end` in the last period, and the consumed lengths plus `end - result` equal the duration |
| `PeriodWalk.StopFoundFrom` | businesstimedelta/businesstimedelta.py:34-43 | when every period is at least a second long, a walk that has consumed its first i periods stops within `max(duration, 0)` steps |
| `PeriodWalk.ProgressingWalkTerminates` | businesstimedelta/businesstimedelta.py:34-43 | when every period is at least a second long, the walk stops, after consuming at most `max(duration, 0)` periods |
| `PeriodWalk.CursorMoves` | businesstimedelta/businesstimedelta.py:35-43 | with an adjacent rule, the cursor never moves against the walk's direction |
| `PeriodWalk.NegativeStopsAtOnce` | businesstimedelta/businesstimedelta.py:39-40 | with an adjacent rule, a walk with a negative duration terminates, and it stops at its first step and at no other, since no period is shorter than zero |
| `PeriodWalk.ZeroDurationForward` | businesstimedelta/businesstimedelta.py:35-40 | adding a zero duration at the start of a period of positive length returns the timestamp unchanged |
| `PeriodWalk.ZeroDurationBackward` | businesstimedelta/businesstimedelta.py:52-57 | subtracting a zero duration at the end of a period of positive length returns the timestamp unchanged |
| `PeriodWalk.LongerWalkStopsNoEarlier` | businesstimedelta/businesstimedelta.py:39-42 | with a longer duration, the same walk stops at the same step or a later one |
| `PeriodWalk.ForwardMonotone` | businesstimedelta/businesstimedelta.py:31-43 | with an adjacent rule and any `D1 <= D2`, negative durations included, `add(t, D1) <= add(t, D2)` |
| `PeriodWalk.BackwardMonotone` | businesstimedelta/businesstimedelta.py:48-60 | with an adjacent rule and any `D1 <= D2`, negative durations included, `subtract(t, D2) <= subtract(t, D1)` |
| `PeriodWalk.GapFreeCursor` | businesstimedelta/businesstimedelta.py:35-43 | on a rule without gaps, the cursor after i steps is the start moved by the lengths of the periods consumed so far |
| `PeriodWalk.GapFreeLanding` | businesstimedelta/businesstimedelta.py:31-60 | on a rule without gaps, adding lands exactly `D` seconds after the start and subtracting exactly `D` seconds before it |
| `PeriodWalk.GapFreeRoundTrip` | businesstimedelta/businesstimedelta.py:31-60 | on a rule without gaps, subtract-then-add and add-then-subtract both return to the starting instant, for any duration |
| `PeriodWalk.LandingIsAware` | businesstimedelta/businesstimedelta.py:35-43 | starting aware, under a rule that keeps awareness, every cursor and the result are aware |
| `OfficeHours.OfficeIsWellBehaved` | businesstimedelta/businesstimedelta.py:35-60 | the 09:00–17:00 rule gives periods of positive length, adjacent to the timestamp asked about in each direction, with aware ends |
| `OfficeHours.TenHoursFromMondayMorning` | businesstimedelta/businesstimedelta.py:34-43 | with 09:00–17:00 periods, 10 hours from Monday 09:00 consume Monday and stop on Tuesday at 11:00 |
| `OfficeHours.FourHoursFromMondayMorning` | businesstimedelta/businesstimedelta.py:39-40 | 4 hours from Monday 09:00 stop in the first period, at 13:00 |
| `OfficeHours.EightHoursFromMondayMorning` | businesstimedelta/businesstimedelta.py:39-43 | forward tie: 8 hours from Monday 09:00 land on Tuesday 09:00, not Monday 17:00 |
| `OfficeHours.FourHoursBeforeMondayAfternoon` | businesstimedelta/businesstimedelta.py:56-60 | backward tie: 4 hours before Monday 13:00 land on Sunday 17:00, not Monday 09:00 |
| `OfficeHours.EightHoursBeforeMondayEvening` | businesstimedelta/businesstimedelta.py:56-60 | backward tie: 8 hours before Monday 17:00 consume all of Monday and land on Sunday 17:00 |
| `OfficeHours.EightHoursAfterSundayEvening` | businesstimedelta/businesstimedelta.py:39-43 | forward tie: 8 hours after Sunday 17:00 consume all of Monday and land on Tuesday 09:00 |
| `OfficeHours.RoundTripBrokenByTie` | businesstimedelta/businesstimedelta.py:31-60 | subtracting 8 hours from Monday 17:00 and adding them back gives Tuesday 09:00, not Monday 17:00 |
| `OfficeHours.OfficeAddIsMonotone` | businesstimedelta/businesstimedelta.py:31-43 | over the office rule, adding any business time from any timestamp stops; adding more never lands earlier, and lands on an aware timestamp |
| `OfficeHours.TenHoursAfterNaiveMondayMorning` | businesstimedelta/businesstimedelta.py:31-43 | end to end, `BusinessTimeDelta(rule, hours=10)` plus a naive Monday 09:00 is Tuesday 11:00 UTC |
| `OfficeHours.OneHourAndAnHourIsTwoHours` | businesstimedelta/businesstimedelta.py:16-29 | 1 hour plus 3600 seconds equals 2 hours under any rule, and is displayed as 2 hours 0 seconds |

## Left out

- Time-zone internals, from pytz and `tzinfo.utcoffset`. An aware timestamp carries one fixed offset. A tzinfo that reports no offset counts as naive. pytz's own refusal to localize a datetime that already has a tzinfo is not modelled.
- Mixing naive and aware timestamps. In Python, `period_end - period_start` raises `TypeError` when a rule returns one naive and one aware end. The model does not raise there: it reads the naive end as UTC and returns a timestamp. `Add` and `Subtract` require only `Terminates`, so such a rule is accepted. Only `ResultsAreAware` and `LandingIsAware` assume `KeepsAware`. Two naive period ends subtract by wall clock, as in Python.
- Microseconds and fractions of a second, since durations are whole seconds. Non-integer `hours` and `seconds` arguments are also left out: `New` takes integers, so `timedelta(hours=1.5)` is written `New(rule, 0, 5400)`. Every whole-second duration can still be built through `seconds`. `timedelta`'s range limit is also left out: in Python, more than 999999999 days raises `OverflowError`, while the model's integers are unbounded.
- `datetime`'s range. `period_start + td_left` and `period_end - td_left` raise `OverflowError` when the result falls outside years 1 to 9999. `Shift` works on unbounded seconds and never fails.
- Real rule implementations such as holiday and working-hour calendars. They are not in this repository. The only rule modelled is the example in `OfficeHours`.
- `__repr__`'s string format and Python 3's float `/`. Only the integer hours/seconds decomposition is modelled, and there the division is exact.
- `__eq__` called with an object that has no `timedelta` attribute, which raises `AttributeError` in Python. Only two `BusinessTimeDelta` values are compared.
- BusinessTimeDeltas.Add: requires that the walk terminates (`Terminates`) rather than modelling a walk that never returns. This covers zero-length periods forever and periods with `end < start` that never let it stop. When it does stop, the result is modelled even for such periods. The same holds for Subtract, RAdd and RSubtract.
- The round trip `add(subtract(t, D), D) == t` is proved only for rules without gaps, compared by instant as Python compares aware datetimes (`GapFreeRoundTrip`, `GapFreeRuleRoundTrip`). On a rule with gaps it can fail, because both walks consume a period exactly as long as what remains. `OfficeHours.RoundTripBrokenByTie` shows this: 8 hours before Monday 17:00 is Sunday 17:00, and 8 hours after that is Tuesday 09:00.
