# countdown, modelled in Dafny

A model of the countdown date-range tracker: a fixed range from 2024-07-16 to
mid-June 2025, shown as a month grid, a progress/countdown panel and a colour of
the day (the Rust/Yew front end under `src/`), plus the older day-by-day calendar
of the Python variant (`app.py`). Wall-clock reads are parameters; everything
else is integer calendar and millisecond arithmetic, re-derived here from the
proleptic Gregorian calendar.

| file | module | what it holds |
|---|---|---|
| `wrappers.dfy` | `Wrappers` | `Option` and `Result` |
| `numeric.dfy` | `Numeric` | `u8`, `Max`/`Min`, division truncated toward zero (`TDiv`, `TMod`) |
| `civil.dfy` | `Civil` | leap years, month lengths, day numbers (0001-01-01 = 0, a Monday), weekdays, month indices `12 * year + month - 1`, instants in milliseconds |
| `text.dfy` | `Text` | Rust's `{}` on integers, `{:0>w}` zero fill and `{:02X}`, each with a reader |
| `app.dfy` | `App` | `start()`/`end()`, the day seed and the `#RRGGBB` colour (`src/main.rs`) |
| `month_grid.dfy` | `MonthGrid` | `calendar()`: month classification, the month loop over a year-keyed table, sorting the years; `calendar_year`'s completed test |
| `month_cells.dfy` | `MonthCells` | `calendar_months`: counted days, elapsed/remaining split, padding, with `u8` faults |
| `progress.dfy` | `Progress` | `Stats`: `update`, and the arithmetic of `view` (deltas, day line, countdown, day suffix) |
| `day_calendar.dfy` | `DayCalendar` | `app.py`: `MonthData`, `generate_calendar`, `day_total`, `sbk_end`, `start_offset`, the day delta |

Modelling choices:

- An instant is a date plus hour, minute, second and millisecond in UTC. Instants compare by their millisecond count since 0001-01-01.
- chrono's `num_days`/`num_hours`/`num_minutes`/`num_seconds` truncate toward zero. Rust's `%` takes the sign of the dividend. Both are written out as `TDiv`/`TMod`.
- `calendar()` collects the `HashMap`'s values in an unspecified order (a choice from the remaining keys). It sorts them with an in-place insertion sort on an array, which stands for `sort_by`.
- `calendar_months` does its arithmetic on `u8`. An addition past 255 or a subtraction below 0 becomes a `Failure`, which is what a debug build does when it panics.
- In `generate_calendar`, Python mutates the `MonthData` object in place through the dictionary. Here the counters are values: the updated value is stored back under its year and month. The module's `start`/`end` dates and today's date are parameters, and the loop guard `current_date <= end_date` is the calendar order on dates.
- Python's `date` holds the years 1 through 9999. Dates passed to `GenerateCalendar` are in that range, and stepping past 9999-12-31 is the `OverflowError` that `current_date += timedelta(days=1)` raises.

Where the code and its written description disagree, the model follows the code:

- When start and end share a month, the month gets `StartOffset`.
- Completion compares the month number only, not the year.
- A partial month has `Partial(now.day - 1)` elapsed days.
- The countdown's zero fill is not sign-aware.
- No error is raised for an end before the start. The month loop compares months only (`with_day(1)`), so it runs zero times exactly when the end's month is before the start's; an end earlier in the start's own month still gives that one month. The day loop compares dates, so it runs zero times exactly when the end date is before the start date.

## Model

| member | source | states |
|---|---|---|
| App.Start | src/main.rs:26-28 | the start instant 2024-07-16T12:00:00Z is a valid instant |
| App.End | src/main.rs:30-32 | the end instant 2025-06-13T12:00:00Z is a valid instant |
| App.RangeIsOrdered | src/main.rs:26-32 | start is strictly before end, and the range is exactly 332 days of milliseconds |
| App.DaySeed | src/main.rs:36 | for years 0 and later the seed is year*10000 + month*100 + day; for negative years (`as u64` wraps them) the u64 arithmetic overflows, which panics in a debug build |
| App.FormatColor | src/main.rs:39-44 | the colour text is 7 characters: '#' and six upper-case hex digits |
| App.ColorRoundTrip | src/main.rs:39-44 | reading back the formatted colour gives the three drawn bytes in red, green, blue order |
| App.DayColor | src/main.rs:34-45 | a colour exists exactly for years 0 and later (where the seed does not overflow), and it reads back as the generator's bytes for that day's seed |
| App.DaySeedInjective | src/main.rs:36 | distinct valid dates (years 0 and later) get distinct seeds |
| App.DayColorIgnoresTimeOfDay | src/main.rs:34-36 | two instants on the same calendar date get the same colour |
| Civil.DaysInMonth | src/calendar.rs:79 | a month has 28 to 31 days, and February has 29 exactly in a leap year |
| Civil.Weekday | src/calendar.rs:72-76 | the weekday counted from Monday is in 0..6 (day number modulo 7, 0001-01-01 being a Monday) |
| Civil.NextDay | app.py:66 | adding one day gives a valid date whose day number is one more |
| Civil.DayNumberOrder | app.py:51 | calendar order on valid dates is the order of their day numbers, and equal day numbers mean equal dates |
| Civil.MonthStartVersusFirstDay | src/calendar.rs:148 | the loop guard `date.with_day(1) <= end.with_day(1)` holds exactly when the walked month index is at most the end's |
| Civil.InstantVersusMonthStart | src/calendar.rs:163 | `now >= date` (midnight of a month's 1st) holds exactly when now's month index is at least that month's |
| Numeric.TDiv | src/stats.rs:52-55 | the quotient is truncated toward zero: b*q <= a < b*q + b for a >= 0, and b*q - b < a <= b*q for a < 0 |
| Progress.WholeSeconds | src/stats.rs:54 | `num_seconds` leaves less than a second over, with the sign of the duration (truncation toward zero) |
| Progress.WholeMinutes | src/stats.rs:53 | `num_minutes`, truncating whole seconds by 60, equals truncating the milliseconds once by 60 000 |
| Progress.WholeHours | src/stats.rs:52 | `num_hours`, truncating whole seconds by 3600, equals truncating the milliseconds once by 3 600 000 |
| Numeric.TMod | src/stats.rs:53-55 | a == b*TDiv(a, b) + r, with the remainder in [0, b) for a >= 0 and in (-b, 0] for a < 0 |
| MonthGrid.YearCompleted | src/calendar.rs:14-18 | a year is completed exactly when now has reached midnight of January 1st of the next year |
| MonthGrid.DurationOf | src/calendar.rs:155-161 | StartOffset(start.day) exactly for the start's month; EndOffset(end.day) exactly for the end's month when it is not also the start's; Full otherwise |
| MonthGrid.CompletionOf | src/calendar.rs:163-171 | NotStarted iff now's month index is before the month's; Completed iff it is not before and the month numbers differ; Partial iff it is not before and the month numbers match (year ignored), with now.day - 1 elapsed |
| MonthGrid.DurationPattern | src/calendar.rs:155-161 | the first enumerated month has StartOffset(start.day), otherwise the last has EndOffset(end.day), all others Full; a single month is StartOffset |
| MonthGrid.Enumeration | src/calendar.rs:144-148 | (ey-sy)*12 + em - sm + 1 months (none if negative), strictly ascending, the first the start's month and the last the end's |
| MonthGrid.BuildYearTable | src/calendar.rs:142-181 | after the month loop the table's keys are exactly the years from the start's month to the end's, and each year holds that year's months of the enumeration, in order |
| MonthGrid.AddMonth | src/calendar.rs:150-178 | one pass of the month loop leaves the table holding exactly the years and months of the enumeration up to and including the month just pushed |
| MonthGrid.AppendMonth | src/calendar.rs:150-178 | adding the walked month's entry to its year (created empty on first use) extends the filled prefix by one month |
| MonthGrid.CollectYears | src/calendar.rs:183 | every value of the table is collected exactly once |
| MonthGrid.SortByYear | src/calendar.rs:185 | the array ends sorted by year and is a permutation of what it held |
| MonthGrid.InsertLast | src/calendar.rs:185 | one insertion step extends the sorted prefix by one element, leaves the elements after it unchanged and permutes the array |
| MonthGrid.SwapAdjacent | src/calendar.rs:185 | two neighbours are exchanged and every other element is unchanged |
| MonthGrid.CalendarSpec | src/calendar.rs:183-185 | the years are strictly ascending, from the start's year to the end's, and there are none exactly when the start's month is after the end's |
| MonthGrid.BuildCalendar | src/calendar.rs:139-185 | `calendar()` returns the reference year list, and its months, read in order, are the month enumeration |
| MonthGrid.SortedTableIsCalendar | src/calendar.rs:183-185 | any year-sorted collection of the filled table is the reference year list |
| MonthGrid.FlattenCalendar | src/calendar.rs:173-185 | the months of the year list, concatenated, are the enumeration |
| MonthGrid.YearsHoldTheirMonths | src/calendar.rs:150-153 | every year entry is non-empty and holds only months of its own year |
| MonthGrid.PartialsYearsApart | src/calendar.rs:163-171 | two Partial months have now's month number in different years, at least 12 months apart |
| MonthGrid.AtMostOnePartial | src/calendar.rs:163-171 | a range of at most 12 months has at most one Partial month |
| MonthCells.CountedDays | src/calendar.rs:79-90 | a Full month counts its length; StartOffset(d) counts the days after day d; EndOffset(d) counts day 1 through day d |
| MonthCells.MonthDayCells | src/calendar.rs:70-96 | the cells exist exactly when the u8 arithmetic fits; elapsed + remaining is the counted days; padding is in 0..6 and is the weekday of the first counted day; Completed has nothing remaining, NotStarted nothing elapsed, Partial(d) d elapsed |
| MonthCells.ShiftedWeekday | src/calendar.rs:84 | moving d days into a month moves the weekday by d modulo 7 |
| MonthCells.GeneratedCells | src/calendar.rs:79-96 | for enumerated months the padding offset is at most 37, so the u8 addition never overflows; the counted days are length - start.day for the first month, end.day for a later last month and the full length in between, where the cells always fit |
| MonthCells.TotalCountedDays | src/calendar.rs:79-90 | over several months the counted days add up to the days after the start date through the end date; when both share a month, the start's skip wins and they add up to the days after the start date through the month's end |
| Progress.ViewAt | src/stats.rs:32-67 | the view shows now's day, suffix, month and year; the countdown of end - now; total 332 days; day index = whole days since start + 1; days left = whole days to end - 1, all truncated toward zero |
| Progress.WholeDays | src/stats.rs:64-66 | `num_days` is the millisecond count divided by 86 400 000, truncated toward zero |
| Progress.Fields | src/stats.rs:52-55 | the fields `num_hours`, `num_minutes % 60`, `num_seconds % 60` and the milliseconds `% 1000` add back up: hours*3600000 + minutes*60000 + seconds*1000 + millis == remaining; before the end they are clock readings (minutes and seconds below 60, millis below 1000), after it all are zero or negative |
| Progress.Countdown | src/stats.rs:50-56 | `format!("{}:{:0>2}:{:0>2}.{:0>3}", ...)` of the fields (read back by CountdownRoundTrip) |
| Progress.CountdownRoundTrip | src/stats.rs:50-56 | for remaining >= 0 the countdown text reads back as the remaining milliseconds |
| Progress.ParseJoined | src/stats.rs:51 | digits joined as `H:MM:SS.mmm` read back as the clock value of the groups |
| Progress.CountdownAtEnd | src/stats.rs:43-56 | at now == end the countdown is "0:00:00.000" |
| Progress.CountdownJustPastEnd | src/stats.rs:51-55 | 5 ms after the end the countdown is "0:00:00.0-5" |
| Progress.CountdownHalfHourPastEnd | src/stats.rs:51-55 | half an hour after the end the countdown is "0:-30:00.000", with no sign on the hours |
| Progress.DaySuffix | src/stats.rs:35-41 | "st", "nd", "rd" exactly for day % 10 of 1, 2, 3 and "th" otherwise, so the `unreachable!` arm is never reached |
| Progress.TeenSuffixes | src/stats.rs:35-41 | the 11th, 12th and 13th get "st", "nd" and "rd" |
| Progress.DayLineAddsUp | src/stats.rs:63-66 | within the range, day index + days left is the total or one less |
| Progress.DayIndexInRange | src/stats.rs:63-66 | within the range, the day index is 1..total and days left is -1..total-1 |
| Progress.Stats.constructor | src/stats.rs:15-25 | the component starts with the clock reading it is given |
| Progress.Stats.Update | src/stats.rs:27-30 | a tick stores the new clock reading and asks for a redraw |
| Progress.Stats.View | src/stats.rs:32-67 | the view is that of the stored clock reading |
| Text.IntToDecimal | src/stats.rs:52 | `{}` prints a leading '-' exactly for negative numbers, followed by at least one digit whose value is the magnitude |
| Text.IntDecimalRoundTrip | src/stats.rs:52-55 | reading back a printed integer, negative or not, gives the integer |
| Text.PadLeftZeros | src/stats.rs:51 | `{:0>w}` gives max(len, w) characters: zeros, then the text unchanged |
| Text.DecimalRoundTrip | src/stats.rs:51-55 | reading back a printed natural number gives the number |
| Text.PaddedDecimalValue | src/stats.rs:51-55 | zero fill on the left keeps a numeral's value |
| Text.HexByte | src/main.rs:40 | `{:02X}` gives two upper-case hex digits, high nibble first, whose value is the byte |
| DayCalendar.PyStart | app.py:8 | the Python start instant 2024-07-16 12:30 is valid |
| DayCalendar.PyEnd | app.py:10 | the Python end instant 2025-06-18 12:00 is valid |
| DayCalendar.DateDiff | app.py:11 | the date difference is zero exactly for equal dates and positive exactly when the first date is later |
| DayCalendar.DayTotal | app.py:11 | `day_total` is 337, times of day ignored |
| DayCalendar.SbkEnd | app.py:13 | `sbk_end` is 6 whole weeks |
| DayCalendar.StartOffset | app.py:20 | `start_offset` is 1, a Tuesday |
| DayCalendar.DayDelta | app.py:29-31 | the delta is zero exactly on the start date and positive exactly after it; the time of day plays no part |
| DayCalendar.MonthData.Days | app.py:40-42 | the `days` property: completed plus remaining (EntryDays proves it counts the month's visited dates) |
| DayCalendar.GenerateCalendar | app.py:45-67 | the call fails with OverflowError exactly when the end is 9999-12-31 and not before the start; otherwise an end before the start gives an empty table, and any other end gives a table holding exactly the months from the start's to the end's, each with the offset, completed and remaining counts that visiting the days start..end with a budget of max(delta, 0) gives them |
| DayCalendar.VisitDate | app.py:52-64 | one pass of the loop body keeps the table tallied through the visited date and spends one unit of the counter while it is positive |
| DayCalendar.NextPyDate | app.py:66 | the day after a Python date other than 9999-12-31 is again a Python date, one day number later, in the same month or on the 1st of the next |
| DayCalendar.VisitDay | app.py:52-64 | visiting a day keeps the table tallied through that day |
| DayCalendar.FirstVisit | app.py:55-56 | a month's entry is created on its first visited day with that day's weekday and zero counters |
| DayCalendar.StepEntry | app.py:60-64 | a visit adds one to completed while the budget lasts and one to remaining after |
| DayCalendar.EntryDays | app.py:40-42 | a month's `days` is the number of its visited dates |
| DayCalendar.TableTotals | app.py:45-67 | the months add up to every visited day, of which the first min(budget, days) are completed |
| DayCalendar.CalendarTotals | app.py:45-67 | the table's `days` add up to day_total + 1 and its completed days to min(max(delta, 0), day_total + 1) |
| DayCalendar.PyCalendarTotals | app.py:8-11 | with the module's dates the table has 12 months holding 338 days, min(max(delta, 0), 338) of them completed |
| DayCalendar.CompletedBeforeRemaining | app.py:60-64 | once a month has a remaining day no later month has a completed one |
| DayCalendar.TableCompletedFirst | app.py:60-64 | in the built table a month with remaining days is followed only by months with no completed days, so at most one month has both |
| DayCalendar.MonthOffsets | app.py:55-56 | the start's month has the start date's weekday as its offset; later months have the weekday of their 1st |
| DayCalendar.TableOffsets | app.py:55-56 | the same offsets, read from the built table |

## Left out

- UI: the Yew `html!` markup, CSS classes and styles, `Html` collection, month and weekday name tables, the Flask routes and templates, `main.py`, `static/script.js`.
- The `Interval` timer and the component lifecycle. `Stats.Update` is called with each clock reading; `Utc::now()` and `dt.now()` are parameters.
- Floating point: the progress `factor` and its display, and the current-day bar width.
- The `StdRng` generator is a parameter `generator: int -> Rgb`: the three bytes it draws first for a seed.
- chrono's representable range and the `unwrap()`s on its constructors. Years are unbounded integers except for the seed's `u64` arithmetic, where years beyond chrono's range are excluded. Sub-millisecond precision is not modelled.
- Release builds wrap `u8` arithmetic and the seed's `u64` arithmetic instead of panicking, so in a release build a negative year wraps to some seed. The model reports the debug-build fault (`Failure`, `None`) instead.
- Civil.NextDay: years are unbounded integers, so it steps from 9999-12-31 to 10000-01-01 and accepts years below 1. Python's date range and its OverflowError are modelled in DayCalendar.GenerateCalendar (PyDate, MaxDate), not in Civil.
- The iteration order of the `HashMap` is a free choice, and the insertion order of Python dictionaries is not modelled (the table is a `map`).
- Python object identity: `MonthData` counters are values stored back into the table, not shared objects.
- The unused module-level `now` of `app.py` is not modelled.
- Progress.CountdownRoundTrip: stated for remaining >= 0 only. After the end the text ("0:-30:00.000", "0:00:00.0-5") is not a clock reading, and concrete lemmas pin it instead.
- MonthGrid.AtMostOnePartial: stated for ranges of at most 12 months. Longer ranges can hold two Partial months a year apart (MonthGrid.PartialsYearsApart).
