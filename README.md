# Smart meter simulation engine, modelled in Dafny

`SmartMeterSystem` simulates electricity meters against a simulated clock.
Advancing the clock by some minutes, hours, days or months walks a
half-hourly grid and gives every registered meter a cumulative reading at
each tick. Each reading adds a random increment in [0, 1] to the meter's
latest value. The hour from 00:00 to 01:00 is a maintenance window.
In it, the previous day's cached readings are flushed to that day's CSV
file. On the first of a month, the month two back is also summarised into
three monthly files, and the daily directories from 2024-05 up to the
previous month are deleted.

This project models that engine and proves properties of the model.

- The whole engine state (clock, account list, the two in-memory caches,
  the two data directories) is the value `Engine.State`.
- Every operation is a function on that state (`Engine`).
- The class `MeterSystem.SmartMeterSystem` holds the same state in
  fields. Its methods update them in place with the source's own loops,
  and each is proved to move the state exactly as the matching `Engine`
  function does.
- The remaining modules state and prove the properties:
  - `Calendar`: time arithmetic.
  - `Ticks` and `Readings`: the reading grid and the generated readings.
  - `Increments`: how values advance.
  - `Maintenance`: flush, archive and cleanup.
  - `Aggregates`: the three monthly summaries.
  - `Operations`: the public operations and the state invariant.

Time is a whole number of minutes since 2024-05-01T00:00, the simulation
epoch. Dates are the proleptic Gregorian calendar, proved to round-trip
with instants. A month directory is a string name, mapped to the day files
it holds. A day file is the sequence of its rows, in file order. The random
source is a parameter `rng: nat -> Unit`: the engine takes its draws in
order and counts them in `State.draws`.

Three consequences of the code, which the model keeps:

- From one midnight to the next, the walk produces 45 readings per meter,
  at 01:30, 02:00, ..., 23:30. An hour-0 pass moves the walk to 01:00, and a
  reading is always taken half an hour after the point the walk stands on,
  so the first reading of the day is at 01:30
  (`Readings.DayReadingCount`, `Ticks.MidnightToMidnight`).
- A span of at most a day that crosses midnight stops at 23:30: the walk
  breaks as soon as the next tick falls in hour 0 (`Ticks.ScheduleGrid`).
- Registration checks duplicates itself and fails on a known identifier.
  Its zero reading is stamped at the exact clock minute, which need not lie
  on the half-hour grid.

## Model

| member | source | states |
|---|---|---|
| Calendar.NextTime | app.py:142-173 | An unknown unit is exactly the error case. Minutes and hours add exact offsets. Days keep the time of day and move the day number by the amount. Months give the instant whose calendar reading is `AddMonths` of the current one. |
| Calendar.AddMonths | app.py:155-171 | The result is a valid date-time. Its month is `k` months after the start month, with carry into the year. Its day is the start day clamped to the target month's length. Hour and minute are kept. |
| Calendar.DaysLater | app.py:153-154 | Adding `k` whole days moves the day number by `k` and keeps the hour and the minute. |
| Calendar.DaysInMonth | app.py:162 | A month has between 28 and 31 days. |
| Calendar.DayNumberOfDate | app.py:198-200 | The date of day `n` has day number `n`. |
| Calendar.DateOfDayNumber | app.py:198-200 | Every valid date is the date of its own day number. |
| Calendar.OrdinalInjective | app.py:200 | Distinct valid dates have distinct ordinals. |
| Calendar.OrdinalMonotone | app.py:200 | A valid date earlier in the calendar has a smaller ordinal. |
| Calendar.OrdinalOrder | app.py:200 | One valid date is before another exactly when its ordinal, and so its day number, is smaller: comparing dates is comparing day numbers. |
| Calendar.OnOrAfterEpoch | app.py:198-201 | An instant's date is on or after 2024-05-01 exactly when its day number is not negative, which is the test guarding the daily flush. |
| Calendar.FromToCivil | app.py:48 | The calendar reading of an instant names that instant again. |
| Calendar.ToFromCivil | app.py:165-171 | The instant of a valid calendar reading reads back as the same date, hour and minute. |
| Calendar.InstantParts | app.py:165-171 | An instant built from a day number, an hour and a minute splits back into them. |
| Calendar.TruncateToHourCivil | app.py:193 | Truncating to the hour keeps the date and the hour, zeroes the minute, and moves back less than an hour. |
| Calendar.PrevMonth | app.py:283-284 | The month before is a valid month whose index is one less. |
| Calendar.PrevDateOfFirst | app.py:283-284 | The day before the first of a month lies in the previous month. |
| Calendar.DateOfDayBefore | app.py:198 | One day number back from a date is the date before it. |
| MonthDirs.ParseMonthDir | app.py:289-296 | A name that parses gives a month in 1..12 of a year in 1..9999. Every other name is skipped. |
| MonthDirs.ParseFormat | app.py:289-294 | The directory name of a month in Python's year range parses back to that month. |
| MonthDirs.FormatInjective | app.py:40 | Distinct months get distinct directory names. |
| Meters.Insert | app.py:318 | A dictionary assignment maps the key to the new account. A new key goes to the end of the key order, and a known key keeps its place. |
| Meters.ToRegistry | app.py:318 | The dictionary built from the account list is well formed: its order and its map hold the same keys, each mapped to an account carrying it. |
| Meters.RegistryKeys | app.py:318 | The dictionary's keys are exactly the registered identifiers. |
| Meters.RegistryKeysDistinct | app.py:318 | The dictionary's key order has no repeated key. |
| Meters.RegistryLastWins | app.py:318 | A key maps to the last account in the list that carries it. |
| Meters.RegistryOfUnique | app.py:318 | With unique identifiers, the keys come in list order. |
| Increments.ReplayAppend | app.py:217-220 | Recording two runs of readings in turn is recording their concatenation. A run advances every value by [0, 1] exactly when both halves do, the second from the first's result. |
| Increments.StepsMonotone | app.py:217-220 | When each reading advances its meter by [0, 1], every value is at least the meter's value before the run. Values of one meter are non-decreasing in generation order, and no latest value drops. |
| Engine.EmitTagsShape | app.py:215-227 | A tick yields exactly one reading per account, in list order, at the tick's instant. |
| Engine.EmitShape | app.py:215-235 | After a tick, the latest values are the replay of its readings, and the readings are appended to the cache. One draw is taken per account, and nothing else changes. |
| Engine.EmitFrame | app.py:215-235 | A tick changes only the latest values, the cache and the draw count, taking one draw per account. |
| Engine.EmitLatest | app.py:217-220 | After a tick, the latest values are its readings replayed over the old ones. |
| Engine.EmitCache | app.py:230-235 | After a tick, the cache is the old cache followed by the tick's readings. |
| Engine.EmitValues | app.py:217-219 | The k-th reading of a tick is its meter's latest value after the readings before it, plus the k-th draw of the tick. |
| Engine.EmitValueAt | app.py:217-219 | The same for one position `k`. |
| Engine.EmitSteps | app.py:217-219 | Each reading of a tick advances its meter by an amount in [0, 1]. |
| Engine.Flush | app.py:247-272 | An empty cache changes nothing. Otherwise only the daily store changes, and the cache is cleared. |
| Engine.StepBack | app.py:283-284 | Stepping back from the first of a month lands in the previous month. |
| Engine.Archive | app.py:279-347 | The archive changes only the daily store and the monthly directories. |
| Engine.Maintain | app.py:196-203 | The maintenance hour changes only the daily store, the monthly directories and the cache. |
| Engine.Walk | app.py:195-237 | The walk keeps the account list and the clock. |
| Engine.MaintainAndWalk | app.py:196-205 | A pass in hour 0 keeps the account list and the clock. |
| Engine.FinalFlush | app.py:239-243 | The flush after the loop empties the cache and changes only the daily store besides. |
| Engine.Within | app.py:192-245 | A span of at most a day leaves the cache empty and keeps the account list and the clock. |
| Engine.SubSpans | app.py:180-189 | An empty span has no sub-spans. A non-empty one starts with the day from its start, cut at its end. |
| Engine.SubSpansShape | app.py:180-189 | The sub-spans tile the span: the k-th starts k days after the start, is non-empty and at most a day long, ends where the next begins, and the last ends at the span's end. |
| Engine.Spans | app.py:180-189 | Generation over no sub-span changes nothing. Over some, it empties the cache. It always keeps the account list and the clock. |
| Engine.WithinThenSpans | app.py:184-188 | The first sub-span and then the others leave the cache empty and keep the account list and the clock. |
| Engine.Generate | app.py:175-245 | Generation keeps the account list and the clock. |
| Ticks.ScheduleGrid | app.py:195-212 | The walk's reading instants are its base plus 30, 60, ... minutes, never after the end, never in hour 0, and all on the base's day. The walk stops only where the next tick is after the end or in hour 0. |
| Ticks.InSchedule | app.py:195-212 | Each reading instant is a half-hour grid point after the base, not after the end, outside hour 0, on the base's day. |
| Ticks.ScheduleToMidnight | app.py:207-212 | From a half-hour point outside hour 0, the walk to the next midnight takes every half-hour point before it. |
| Ticks.MidnightToMidnight | app.py:193-212 | A walk from one midnight to the next has 45 reading instants. |
| Readings.EmitTags | app.py:215-227 | A tick's readings are one per account, in list order, at the tick. |
| Readings.WalkTags | app.py:195-237 | The walk emits one reading per account, in list order, at each instant of its schedule, and nothing else. |
| Readings.WalkValues | app.py:215-220 | Each reading of the walk advances its meter by one draw in [0, 1]. The latest values end at the replay of all readings, with one draw per reading. |
| Readings.WithinReadings | app.py:175-245 | A span of at most a day emits its schedule's readings in account order, advances values by [0, 1] and takes one draw per reading. |
| Readings.WithinOnSchedule | app.py:193-237 | Every reading is for a listed account, at an instant of the schedule. |
| Readings.WithinTimes | app.py:193-212 | Every reading lies on the half-hour grid after the start's hour, not after the end, outside hour 0, on a single day. |
| Readings.WithinCount | app.py:195-237 | The readings of a span number its schedule's instants times the number of accounts. |
| Readings.DayReadingCount | app.py:193-245 | From one midnight to the next, 45 readings per account are generated. |
| Readings.SpansReadings | app.py:180-189 | Generation over consecutive sub-spans advances values by [0, 1], one draw per reading. |
| Readings.GenerateMonotone | app.py:175-245 | Whatever the span, generation empties the cache, and the latest values are the replay of the readings. Every reading is at least its meter's earlier value, and each meter's values are non-decreasing in generation order. |
| Maintenance.FlushFile | app.py:247-272 | A flush writes the cached readings, dated with the flush day, to the end of that day's file in its month directory. The file starts afresh on the first of a month, and keeps or creates its rows on other days. No other file or directory changes. |
| Maintenance.FlushTwice | app.py:249-250 | A second flush right after the first changes nothing. |
| Maintenance.FlushKeepsLayout | app.py:261-270 | A flush keeps every day file in its own month's directory, holding rows dated with its day. |
| Maintenance.FinalFlushKeepsLayout | app.py:239-243 | The flush after the loop keeps that layout. |
| Maintenance.WriteKeepsLayout | app.py:261-270 | Writing a day's rows into its own month's directory keeps that layout. |
| Maintenance.CleanupExact | app.py:441-458 | Cleanup removes exactly the directories whose names parse to a month from 2024-05 up to but excluding the boundary. Unparsable names, earlier months and later months stay, with their files. |
| Maintenance.CleanupIdempotent | app.py:441-458 | Cleaning up twice with the same boundary is cleaning up once. |
| Maintenance.CleanupTwice | app.py:441-458 | Two cleanups in a row act as one with the later boundary. |
| Maintenance.CleanupKeepsLayout | app.py:441-458 | Cleanup keeps the layout of the daily store. |
| Maintenance.ArchiveMonths | app.py:281-304 | The cleanup boundary is the month before the current one, and the archived month is two before it. |
| Maintenance.ArchiveGate | app.py:298-308 | With fewer than two available months, or an archived month before 2024-05, the archive changes nothing. |
| Maintenance.OnDay | app.py:324 | Selecting a day's rows keeps only rows of that day. |
| Maintenance.MonthRowsOnDay | app.py:316-325 | Reading a range of days gives, for each day in it, exactly that day's file, and nothing dated on any other day. |
| Maintenance.FileDayInMonth | app.py:314-316 | Every file in a month's directory is a day of that month. |
| Maintenance.ArchiveReadsEveryFile | app.py:314-328 | Reading the month day by day reads every file of its directory: the rows of each day are exactly that day's file, and no row comes from elsewhere. |
| Maintenance.ArchiveCleansDaily | app.py:311-347 | Once the gate passes, the daily store after is the cleanup of the store before, at the previous month. |
| Maintenance.SummariesEmptyWhen | app.py:355-401 | The monthly consumption and the area summary are empty exactly when no registered meter has rows. |
| Maintenance.WriteAggregatesWhen | app.py:364-370 | The consumption and area summary files are written exactly when a registered meter has rows. Otherwise the earlier files stay. |
| Maintenance.ArchiveWritesSummaries | app.py:311-344 | Once the gate passes, only the archived month's directory changes. Each of its three summary files is replaced by that summary of the month's daily rows when the summary has rows, and kept otherwise. |
| Maintenance.TouchKeepsLayout | app.py:38-42 | Making sure a directory exists keeps the layout. |
| Maintenance.ArchiveKeepsLayout | app.py:279-347 | The archive keeps the layout of the daily store. |
| Maintenance.MaintainKeepsLayout | app.py:196-203 | The maintenance hour keeps the layout of the daily store. |
| Aggregates.FirstIndex | app.py:352 | The first row of a meter in `date_time` order exists exactly when the meter has rows. No row of the meter is earlier, and equal stamps keep file order. |
| Aggregates.LastIndex | app.py:353 | The last row of a meter in `date_time` order exists exactly when the meter has rows. No row of the meter is later, and equal stamps keep file order. |
| Aggregates.MonthlyConsumptionKeys | app.py:356-362 | The monthly consumption has an entry exactly for each registered meter with rows. |
| Aggregates.MonthlyConsumptionValue | app.py:352-358 | Each entry is the meter's last value minus its first in `date_time` order. |
| Aggregates.FirstNotAboveLast | app.py:352-358 | On per-meter monotone rows, a meter's first value is not above its last. |
| Aggregates.MonthlyConsumptionNonNegative | app.py:358 | On monotone rows, no monthly consumption is negative. |
| Aggregates.MaxOn | app.py:425 | The maximum is the value of one of the meter's rows that day, and no such row exceeds it. |
| Aggregates.MinOn | app.py:425 | The minimum is the value of one of the meter's rows that day, and no such row is below it. |
| Aggregates.Spread | app.py:425 | A day's spread is never negative. |
| Aggregates.MetersWithDataOn | app.py:422-424 | The meters kept are exactly the listed keys that have rows that day, without repeats when the keys have none. |
| Aggregates.KeptPositionsIncrease | app.py:422-424 | The positions of the kept meters increase, lie within the key list, and include every key with rows that day. |
| Aggregates.KeptPositionsHold | app.py:422-424 | The k-th kept meter is the key at the k-th kept position. |
| Aggregates.KeptInKeyOrder | app.py:422-424 | The kept meters are the key list filtered in key order: at increasing positions, each key with rows that day taken once per position. |
| Aggregates.AnalysisForMetersAt | app.py:422-431 | One day's analysis has one row per listed meter with rows that day, in key order, and the i-th row is that meter's day, area, dwelling and spread. |
| Aggregates.AnalysisForDayAt | app.py:418-431 | A day's analysis has one row per registered meter with rows that day, in key order, each describing that meter; a day with no rows gives none. |
| Aggregates.NoMetersOnEmptyDay | app.py:419-421 | When no row carries the date, no meter has rows that day. |
| Aggregates.AnalysisForDayDated | app.py:425-429 | Every row of a day's analysis carries that day. |
| Aggregates.AnalysisForDaysSplit | app.py:417-431 | The analysis of a range of days is the analysis of its first part followed by that of the rest, so the month's analysis is the days' analyses concatenated in date order. |
| Aggregates.AnalysisForDaysWithin | app.py:417-431 | Every row of the analysis of a range of days is dated within the range. |
| Aggregates.AnalysisForDaysOrdered | app.py:417-431 | The rows of the analysis of a range of days come in non-decreasing date order. |
| Aggregates.AnalysisForDayExact | app.py:418-431 | A day's analysis holds a row exactly when some registered meter has rows that day and the row describes it. |
| Aggregates.AnalysisForDaysExact | app.py:417-431 | The analysis over a range of days holds exactly the rows describing a registered meter with rows on a day in the range. |
| Aggregates.AreaAnalysisNonNegative | app.py:425-430 | No area analysis figure is negative. |
| Aggregates.AreaMeters | app.py:382 | An area's meter list holds exactly the keys whose account is in that area, without repeats when the keys have none. |
| Aggregates.AreaMonthlySummaryKeys | app.py:378-401 | The area summary has an entry exactly for each area in which a registered meter has rows. Each entry carries the archived month. |
| Aggregates.AreaTotalIsSumOfConsumption | app.py:389-394 | An area's total is the sum of its meters' monthly consumption entries, and meters without rows add nothing. |
| Aggregates.AreaSummaryTotals | app.py:388-399 | Each area summary total is the sum of the area's monthly consumption entries. |
| Aggregates.MeterCountCountsAccounts | app.py:400 | `meter_count` counts every registered meter of the area, whether it has rows or not. |
| Aggregates.AreaTotalNonNegative | app.py:389-394 | On monotone rows, no area total is negative. |
| Operations.WalkKeepsLayout | app.py:195-237 | The walk keeps the layout of the daily store. |
| Operations.WithinKeepsLayout | app.py:192-245 | Generation over a span of at most a day keeps that layout. |
| Operations.SpansKeepLayout | app.py:180-189 | Generation over consecutive sub-spans keeps that layout. |
| Operations.CollectErrors | app.py:109-114 | Collection fails exactly when there are no accounts (checked first) or the unit is unknown, with the matching error, and a failure changes nothing. |
| Operations.CollectGenerates | app.py:116-140 | A successful collection's state is the generated state with the clock at the span's end. The count is the number of generated readings, and the sample is the first three of them. Months are generated day by day, the other units over the whole span. |
| Operations.CollectMovesClock | app.py:113-140 | A successful collection moves the clock to the span's end and keeps the accounts. It reports the span and samples the first three readings, or fewer. Except for an empty months span, it empties the cache. |
| Operations.MonthsPathIsGenerate | app.py:120-131 | On a non-empty span, the day-by-day months path generates exactly what the other units' path does. |
| Operations.CollectOneDay | app.py:107-140 | Collecting one day from midnight yields 45 readings per account and moves the clock a day. |
| Operations.CollectKeepsInv | app.py:107-140 | Collection keeps identifiers unique and the daily store's layout. |
| Operations.RegisterOutcome | app.py:76-105 | Registration fails, changing nothing, exactly when the identifier is registered. Otherwise the account is appended, stamped with the clock. The latest values gain the meter at 0, and a zero reading at the clock is cached. The draw count, the clock and the files are untouched. |
| Operations.RegisterKeepsInv | app.py:80-81 | Registration keeps identifiers unique and the layout. |
| Operations.RegisterTwice | app.py:80-81 | Registering the same identifier again fails with the duplicate error. |
| Operations.ResetEmpties | app.py:460-483 | A reset satisfies the invariant, and collecting afterwards fails for want of accounts. |
| MeterSystem.AnyHasId | app.py:80 | The scan finds the identifier exactly when some account carries it. |
| MeterSystem.CountAvailable | app.py:286-296 | The count of qualifying directory names is the number of available months. |
| MeterSystem.CountStep | app.py:289-294 | Looking at one more name adds one exactly when it qualifies. |
| MeterSystem.ReadMonth | app.py:314-328 | Reading the month's files day by day gives the month's rows. |
| MeterSystem.WalkFromIsWalk | app.py:195-212 | Carrying the minute of the day beside the instant does not change the walk. |
| MeterSystem.SmartMeterSystem.constructor | app.py:19-30 | A system over existing files starts with empty caches, and files that keep the invariant give a valid system. |
| MeterSystem.SmartMeterSystem.EmitOne | app.py:216-235 | One account's reading at a tick is its latest value plus the next draw, and the other accounts' readings follow. |
| MeterSystem.SmartMeterSystem.EmitTick | app.py:215-235 | The loop over the accounts at a tick moves the state exactly as `Engine.Emit` and returns its readings. |
| MeterSystem.SmartMeterSystem.ProcessDailyData | app.py:247-272 | The flush in place moves the state exactly as `Engine.Flush`. |
| MeterSystem.SmartMeterSystem.CleanupOldReadings | app.py:441-458 | Removing directories one by one gives `Engine.Cleanup` and changes nothing else. |
| MeterSystem.SmartMeterSystem.ArchiveAndPrepare | app.py:279-347 | The archive in place moves the state exactly as `Engine.Archive`. |
| MeterSystem.SmartMeterSystem.RunWalk | app.py:195-237 | The walk loop moves the state exactly as `Engine.Walk` and returns its readings. |
| MeterSystem.SmartMeterSystem.WalkPass | app.py:195-237 | One pass either stops with the walk finished, or advances by up to an hour with the rest of the walk still to come. |
| MeterSystem.SmartMeterSystem.MaintenanceHour | app.py:196-205 | The hour-0 pass is the maintenance of the walk, which then goes on from an hour later. |
| MeterSystem.SmartMeterSystem.ReadingTick | app.py:207-237 | A pass outside hour 0 emits one tick, and the walk goes on from it. |
| MeterSystem.SmartMeterSystem.GenerateWithin | app.py:192-245 | Generation within a span of at most a day moves the state exactly as `Engine.Within`. |
| MeterSystem.SmartMeterSystem.GenerateDay | app.py:182-188 | One day of a long span is generated, and the rest of the span is still to come. |
| MeterSystem.SmartMeterSystem.GenerateDays | app.py:180-189 | The day-by-day loop moves the state exactly as `Engine.Spans` over the sub-spans. |
| MeterSystem.SmartMeterSystem.GenerateReadings | app.py:175-245 | Generation moves the state exactly as `Engine.Generate`. |
| MeterSystem.SmartMeterSystem.CollectReadings | app.py:107-140 | Collection moves the state exactly as `Engine.Collect`, returns its result and keeps the invariant. |
| MeterSystem.SmartMeterSystem.RegisterMeter | app.py:76-105 | Registration moves the state exactly as `Engine.Register`, returns its result and keeps the invariant. |
| MeterSystem.SmartMeterSystem.ResetSystem | app.py:460-483 | The reset gives `Engine.Reset`'s state, succeeds, and keeps the invariant. |

## Left out

- The Flask routes, page rendering, the usage query and JSON persistence are not modelled. The account file and the clock file are fields of the state, and directories are maps.
- `round(value, 3)` is not modelled: values are exact reals. The source keeps the unrounded value in `latest_readings` and stores the rounded one, so the stored values differ from the model's by at most 0.0005.
- Seconds and microseconds of the clock are not modelled: instants are whole minutes, and every operation here moves the clock by whole minutes.
- `random.uniform(0, 1)` is the parameter `rng`, a sequence of draws in [0, 1]. Draws are taken one per reading, in generation order.
- Python's `int()` also accepts signs, surrounding spaces, underscores and any Unicode decimal digits in directory names. The model parses only plain ASCII digits, which is every name the engine itself creates.
- Calendar arithmetic is not limited to Python's years 1..9999. `Maintenance.ArchiveCleansDaily` needs a year up to 9999 for the archived month's name to parse back. `Maintenance.ArchiveReadsEveryFile` needs the same bound on the files' days, because the four-digit names of two months 10000 years apart coincide.
- The model reads back exactly the rows it wrote. The source reads the daily CSV files with pandas, which infers column types: when every meter ID in a file looks numeric, the column is read as numbers and turned back into strings (app.py:322-323). An ID that is not a canonical numeral, such as "007", then comes back as "7", no longer matches its account, and drops out of the monthly consumption and the area analysis (app.py:357, 423). An ID such as "12" comes back unchanged.
- The archiver reads a month's daily files in day order. The source reads them in `os.listdir` order and then sorts by `date_time` with pandas' default sort, which is not stable. The model breaks ties between equal stamps by file order, so only the choice among rows with equal stamps can differ.
- `reset_system` returns `False` when the file system raises. File system failures are not modelled, so `MeterSystem.SmartMeterSystem.ResetSystem` always succeeds.
- Monthly consumption and area totals are proved non-negative only for rows whose values do not fall as time goes on (`Aggregates.MonotoneRows`). Stored rows need not be monotone in the source: a registration's zero reading is stamped at its exact minute while readings sit on the half-hour grid, and a system started over existing files begins every meter at 0 again.
