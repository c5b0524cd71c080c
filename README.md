# energym simulation-time and file-name helpers, in Dafny

This project models the helper routines in `energym/utils/common.py` that have
logic worth stating exactly. energym is a building-energy reinforcement-learning
harness.

- **Run-period length** (`get_delta_seconds`). It gives the seconds from
  `year-st_mon-st_day 00:00` to the end of `year-end_mon-end_day`. The end is
  built as 23:00 on the end day plus one hour.
- **Current simulation time** (`get_current_time_info`). It adds the elapsed
  seconds to midnight of the run period's begin date. It returns
  `(day, month, hour)`.
- **Variable list** (`parse_variables`). It keeps the `variable` elements whose
  `source` is `EnergyPlus` and returns the `type` of each one's first child, in
  document order.
- **Name of the perturbed weather file** (`create_variable_weather`). Without a
  variation it returns `None`. Otherwise it returns the original path up to its
  first `.epw`, followed by `_Random_<mu>_<std>.epw`.

Python's `datetime` is modelled in module `Calendar`. It uses the proleptic
Gregorian calendar, with the leap-year rule "divisible by 4, except centuries
not divisible by 400". Day ordinals count 0001-01-01 as day 1. Years are limited
to 1..9999, as in CPython. CPython's constructor first reads each argument as a
C `int`, and one outside -2^31..2^31-1 raises `OverflowError`. Only then does it
raise `ValueError` for a bad year, month, day or time of day, in that order.
`datetime + timedelta` raises `OverflowError` when the result leaves years
1..9999. A `timedelta` too large to build raises `OverflowError` too, and its
date would leave that range anyway. All of these appear as `Err` results in the
same order.
Dates move by whole days with `AddDays`, one day at a time. `AddDays` is proved
to add exactly `n` to the ordinal. Ordinals are proved injective on valid dates,
so `AddDays` always gives the one date with the target ordinal.

Modules:

- `Results`: `Option` and `Result`.
- `Calendar`: the `datetime` model.
- `SimTime`: `get_delta_seconds` and `get_current_time_info`.
- `Variables`: `parse_variables`. Its loop is an imperative method proved equal
  to a recursive specification.
- `WeatherFile`: the file-name part of `create_variable_weather`.

Behaviour of the code worth knowing:

- `get_delta_seconds` (lines 26-28) does not check that the end date is not
  before the start. An end one day before the start gives 0, and an earlier end
  gives a negative value (`SimTime.DeltaSecondsSign`).
- `get_current_time_info` (line 50) accepts a negative `sec_elapsed` and moves
  backwards. The model does the same, because Dafny's `/` and `%` by a positive
  divisor are Python's floor division and modulo.
- The helpers raise Python's own exceptions: `ValueError` and `OverflowError`
  from `datetime`, and `KeyError` and `IndexError` from reading the variable
  file. The model's error values are named after those.

## Model

| member | source | states |
|---|---|---|
| `Calendar.MakeDateTime` | energym/utils/common.py:26-27 | `datetime(y, mo, d, h, mi, s)` succeeds exactly when the fields form a valid date-time with year 1..9999, and then holds those fields; an argument outside the C `int` range is an `OverflowError` before any field check; otherwise the year, then the month, then the day, then the time of day is reported, in CPython's order |
| `Calendar.NextDay` | energym/utils/common.py:27 | the day after a valid date is a valid date with the next ordinal (month and year rollover, Feb 29 in leap years) |
| `Calendar.AddDays` | energym/utils/common.py:50 | moving `n` days from a valid date gives a valid date whose ordinal is larger by exactly `n` |
| `Calendar.AddDaysUnique` | energym/utils/common.py:50 | `AddDays(d, n)` is `e` if and only if `e`'s ordinal is `d`'s plus `n` |
| `Calendar.AddDaysInverse` | energym/utils/common.py:50 | moving `n` days and then `-n` days returns to the start date |
| `Calendar.OrdinalInjective` | energym/utils/common.py:28 | two valid dates with the same ordinal are the same date |
| `Calendar.OrdinalMonotone` | energym/utils/common.py:28 | ordinals follow calendar order |
| `Calendar.InRangeIffOrdinal` | energym/utils/common.py:50 | a valid date has a year in 1..9999 exactly when its ordinal is in 1..3652059 |
| `Calendar.AddSeconds` | energym/utils/common.py:50 | `t + timedelta(seconds=s)`, when it succeeds, is a valid date-time exactly `s` seconds after `t`; its only failure is an overflow |
| `Calendar.AddSecondsOverflow` | energym/utils/common.py:50 | the addition fails exactly when the target day's ordinal leaves 1..3652059 |
| `Calendar.AddSecondsUnique` | energym/utils/common.py:50 | any valid date-time `s` seconds after `t` is the result of the addition |
| `Calendar.SecondsBetween` | energym/utils/common.py:28 | `(b - a).total_seconds()` between valid date-times is 0 exactly when they are equal, and positive exactly when `b` is on a later day or later on the same day |
| `Calendar.SecondsBetweenInjective` | energym/utils/common.py:28 | a valid date-time is determined by its distance in seconds from another one |
| `SimTime.DeltaSeconds` | energym/utils/common.py:11-29 | succeeds exactly for two valid dates in a year of 1..9999 whose end is not 9999-12-31, and then returns 86400 × (ordinal(end) − ordinal(start) + 1) |
| `SimTime.EndOfDay` | energym/utils/common.py:27 | 23:00 plus 3600 s is midnight of the next day, and it overflows only for 9999-12-31 |
| `SimTime.DeltaSecondsErrors` | energym/utils/common.py:26-27 | the exception for each invalid input: the start is built first, then the end, then its last hour is moved on; in each constructor an argument outside the C `int` range is an `OverflowError` before the year, month and day `ValueError`s |
| `SimTime.DeltaSecondsSameDay` | energym/utils/common.py:26-28 | start and end on the same valid date gives exactly 86400 |
| `SimTime.DeltaSecondsSign` | energym/utils/common.py:26-28 | with no ordering check, the result is positive iff the end is not before the start, 0 iff the end is the day before the start, and negative iff the end is earlier still |
| `SimTime.DeltaSecondsOneAndTwoDays` | energym/utils/common.py:26-29 | 2021-01-01 to itself gives 86400, and to 2021-01-02 gives 172800 |
| `SimTime.DeltaSecondsAcrossFebruary` | energym/utils/common.py:26-29 | Feb 28 to Mar 1 is 3 days in 2020 and 2 days in 2021 |
| `SimTime.DeltaSecondsWholeYear` | energym/utils/common.py:26-29 | the default simulation year 1991 lasts 31536000 seconds |
| `SimTime.DeltaSecondsHugeArguments` | energym/utils/common.py:26-27 | a year or day of 2^31 (or below -2^31) is an `OverflowError`, while year 0 is the year `ValueError` |
| `SimTime.DeltaSecondsDegenerate` | energym/utils/common.py:26-28 | an end one day before the start gives 0; Feb 29 of 2021 raises the day error |
| `SimTime.CurrentTimeInfo` | energym/utils/common.py:32-52 | an invalid begin date fails as the constructor does; otherwise the result is the (day, month) of the date `sec_elapsed div 86400` days after the begin date, with hour `(sec_elapsed mod 86400) div 3600`, or an overflow if that date leaves years 1..9999 |
| `SimTime.CurrentTimeInfoAtStart` | energym/utils/common.py:44-52 | with 0 seconds elapsed the result is `(begin_day_of_month, begin_month, 0)` |
| `SimTime.CurrentTimeInfoForward` | energym/utils/common.py:50-52 | for a non-negative offset, the call fails exactly past 9999-12-31; otherwise (day, month) is a valid date, in a year from the begin year to 9999, whose ordinal is the begin date's plus the whole days elapsed, and the hour is the truncated hour of the remainder |
| `SimTime.LastSecondOfRunPeriod` | energym/utils/common.py:11-52 | the last second of a run period measured by `get_delta_seconds` falls in hour 23 of the end day according to `get_current_time_info` |
| `SimTime.CurrentTimeInfoFirstHour` | energym/utils/common.py:44-52 | 3661 s after 1991-01-01 is day 1, month 1, hour 1 |
| `SimTime.CurrentTimeInfoNewYear` | energym/utils/common.py:44-52 | a day after 1991-12-31 is 1 January at hour 0 |
| `SimTime.CurrentTimeInfoLeapDay` | energym/utils/common.py:44-52 | a day after 1992-02-28 is 29 February |
| `SimTime.CurrentTimeInfoCommonYear` | energym/utils/common.py:44-52 | a day after 1991-02-28 is 1 March |
| `SimTime.CurrentTimeInfoBackwards` | energym/utils/common.py:44-52 | one second before 1992-03-01 is 29 February, hour 23 |
| `Variables.EntryType` | energym/utils/common.py:69-71 | an element other than `variable`, or a `variable` whose `source` is not `EnergyPlus`, is skipped; a `variable` without `source` is a `KeyError`; an EnergyPlus one without a child is an `IndexError`, one whose first child lacks `type` a `KeyError`, and otherwise it yields that `type` |
| `Variables.ParseVariables` | energym/utils/common.py:68-73 | the loop that appends each selected `type` returns exactly the specification `EnergyPlusTypes`: the first read error, or all selected types in order |
| `Variables.ParseOkIffWellFormed` | energym/utils/common.py:69-71 | the call succeeds iff every element can be read; otherwise it reports the error of the first element that cannot |
| `Variables.ParseAppend` | energym/utils/common.py:68-73 | parsing a concatenation parses the first part, then the second; nothing after an error matters |
| `Variables.SelectedPositions` | energym/utils/common.py:68-73 | on success the result is no longer than the input and lists, in document order and without deduplication, the `type` of exactly the `variable` elements whose source is `EnergyPlus`; other sources and other tags are skipped |
| `Variables.Contributions` | energym/utils/common.py:69-71 | element `i` contributes a name exactly when its tag is `variable`, its `source` is `EnergyPlus` and its first child carries a `type`, and that name is the first child's `type` |
| `Variables.ParseExample` | energym/utils/common.py:68-73 | an EnergyPlus `Zone Temp` variable followed by an `Other` one gives `["Zone Temp"]` |
| `WeatherFile.PrefixBefore` | energym/utils/common.py:103 | `s.split(sep)[0]` is a prefix of `s` with no occurrence of `sep` starting before its end, ending at the first occurrence or at the end of `s` |
| `WeatherFile.PrefixBeforeUnique` | energym/utils/common.py:103 | those three properties determine the split prefix |
| `WeatherFile.VariableWeatherName` | energym/utils/common.py:89-106 | the result is `None` exactly when there is no variation; otherwise the name handed to `to_epw` and returned begins with the split prefix of the original and ends in `.epw` (the noise step before it, which can raise, is not modelled) |
| `WeatherFile.StemOfEpwName` | energym/utils/common.py:103 | for `base + ".epw"` with no `.epw` inside `base`, the split keeps exactly `base` |
| `WeatherFile.DerivedNameSplitsBack` | energym/utils/common.py:103-104 | the new name is the original's stem, then `_Random_<mu>_<std>`, then `.epw`, and splitting it at `.epw` gives back the stem with that tag (for renderings without 'w') |
| `WeatherFile.VariableWeatherNamePlain` | energym/utils/common.py:89-104 | `X.epw` with variation (0, 2) gives `X_Random_0_2.epw`, and no variation gives `None` |
| `WeatherFile.VariableWeatherNameFirstOccurrence` | energym/utils/common.py:103-104 | `a.epw.b.epw` keeps only `a` |
| `WeatherFile.VariableWeatherNameNoExtension` | energym/utils/common.py:103-104 | a path without `.epw` is kept whole before the tag |

## Left out

- Gaussian noise and its addition to the weather dataframe (lines 93-99) are not modelled. They use random sampling and floating point.
- The weather object's `get_weather_series`, `set_weather_series` and `to_epw` (lines 93, 102, 105) are not modelled. They are library calls and file I/O. `WeatherFile.VariableWeatherName` returns the name that `to_epw` would receive.
- The `columns` argument of `create_variable_weather` is not modelled. It selects the columns that receive noise, and it can make the call fail.
- `WeatherFile.VariableWeatherName` does not model the failures of lines 93-102: `df[columns] += noise` raises `KeyError` when a column is missing, and `np.random.normal` raises `ValueError` when `std` is negative. In those cases the call raises where the model returns the name. The data frame and random sampling they need are not modelled.
- XML parsing with `ET.parse` (lines 65-66) is not modelled. The model starts from the root's already parsed child elements. A malformed document is not modelled.
- The `Logger` class (lines 109-117) is not modelled. It has process-wide logging state and console output, and no logic to state.
- `SimTime.CurrentTimeInfo` takes `epm.RunPeriod[0]` as its two integers, `begin_month` and `begin_day_of_month`. So the `IndexError` or `KeyError` of a missing run period is not modelled.
- `SimTime.CurrentTimeInfo` takes `sim_year` as an ordinary parameter. Python's default value of 1991 is not modelled.
- Seconds are integers, not Python floats. Every value these helpers produce is integral, and far below 2^53. Microseconds never arise.
- `WeatherFile.VariableWeatherName` receives `mu` and `std` as strings already rendered by `str`. Python's number formatting is not modelled.
