# TimeTracking: a verified model of the clock-in/clock-out engine

TimeTracking is an Android app in which employees clock in and out. Each
press of the button stores a `TimeRecord`: an instant, an entry
(`CHECK_IN`) or exit (`CHECK_OUT`), an optional note and an `exported`
flag. The app does the following with these records:

- pairs entries with exits into blocks (`TimeRecordBlock`);
- adds up the worked minutes of today and of this week;
- decides whether the next press is an entry or an exit;
- keeps an overtime balance against a weekly baseline of 2250 minutes;
- lists the last four weeks in a history screen where records can be edited;
- exports a week as a PDF document, merged with the one already on the server.

The model keeps the source's own shape:

- The pure utilities are datatypes, functions and lemmas: the block builder,
  the time calculator, the validator, the date helpers, the text handling of
  the PDF export, and the login checks.
- Each loop of the source is a `method` with a `while` or `for` loop. It is
  proved equal to a specification function, and that function's properties
  are proved as lemmas. The loops are:
  - `createBlocksForDay`, `createBlocks` and `findNextCheckOut`;
  - `calculateDayMinutes` and `calculateWorkingMinutes`;
  - the `forEach` totals of the PDF;
  - the week loop of the history screen;
  - the legacy activity's `createBlocks` and day-total loop.
- The record table, the balance table, the repository, and the view models
  of the main, history and login screens are classes. Their methods update
  the fields in place, under `modifies` clauses, and state the whole new
  state.

Conventions:

- Instants are integers: milliseconds since the epoch, with a fixed UTC
  offset. Day 0 of the epoch is a Thursday, so Mondays are the days `d`
  with `(d + 3) % 7 == 0`.
- Kotlin's `/` and `%` on `Long` truncate toward zero. They are written out
  as `Records.KDiv` and `Records.KRem`.
- `sortedBy` is a stable insertion sort (`Seqs.SortBy`).
- `groupBy` keeps the keys in order of first occurrence (`Seqs.GroupBy`).

The app has two generations of code, and both are modelled. The current
code is the `core/` package, the view models and the login screen. The
legacy code is `MainActivity.kt`, the `ui/history/model` block, and the
`data/database` DAO.

- Both generations share one `TimeRecord` datatype, because the two record
  classes have the same fields.
- Both use the one table of `data/database/TimeRecordDao.kt`.
- The core repository imports a `core/data/db/TimeRecordDao`, which is not
  part of this model. Its queries are taken to be the ones of
  `data/database/TimeRecordDao.kt`.

Some behaviour of the code may surprise a reader; the model follows the
code:

- `validateNextAction` never reports an inconsistent sequence. It always
  answers valid, with the opposite of the last record's type.
- The running time of an open entry is not capped at 24 hours. A running
  time of a day or more counts 0.
- Exporting a week neither credits the overtime balance nor marks the
  week exported. `addToOvertimeBalance` and `markWeekAsExported` are
  modelled, but no modelled operation calls them.
- A block pairs an entry with the first exit after it, skipping further
  entries. An entry skipped this way forms no block and adds no minutes
  (`Blocks.StepsCover` names them).
- An orphan exit forms a block of its own in the core, with no exit and
  duration 0. The time calculator ignores it.

## Model

| member | source | states |
|---|---|---|
| Blocks.CalculateDuration | app/src/main/java/com/timetracking/app/core/data/model/TimeRecordBlock.kt:17-24 | a block's minutes are never negative, and a block with no exit lasts 0 minutes |
| Blocks.DurationWholeMinutes | app/src/main/java/com/timetracking/app/core/data/model/TimeRecordBlock.kt:17-24 | for an exit at or after its entry, the duration is the number of whole minutes between the two; an exit earlier than one minute after the entry gives 0 (the clamp at 0) |
| Blocks.NextCheckOut | app/src/main/java/com/timetracking/app/core/data/model/TimeRecordBlock.kt:89-96 | -1 exactly when no exit exists from `start` on; otherwise the index of an exit with only entries before it from `start`, that is, the first exit |
| Blocks.FindNextCheckOut | app/src/main/java/com/timetracking/app/core/data/model/TimeRecordBlock.kt:89-96 | the loop returns the first exit at or after `start`, or -1 when there is none |
| Blocks.Steps | app/src/main/java/com/timetracking/app/core/data/model/TimeRecordBlock.kt:49-81 | every step of the day's walk lies within the records, and a paired step's exit comes after its entry |
| Blocks.BlocksFor | app/src/main/java/com/timetracking/app/core/data/model/TimeRecordBlock.kt:61-65 | one block per step of the walk |
| Blocks.BlocksForAt | app/src/main/java/com/timetracking/app/core/data/model/TimeRecordBlock.kt:61-65 | the k-th block is built from the k-th step |
| Blocks.CreateBlocksForDay | app/src/main/java/com/timetracking/app/core/data/model/TimeRecordBlock.kt:44-84 | the loop over the day's records, sorted by instant, builds exactly the blocks of the pairing walk |
| Blocks.WalkStep | app/src/main/java/com/timetracking/app/core/data/model/TimeRecordBlock.kt:49-81 | one iteration keeps the invariant of the loop: blocks built so far, followed by the blocks of the rest of the walk, are the day's blocks |
| Blocks.StepsUnfold | app/src/main/java/com/timetracking/app/core/data/model/TimeRecordBlock.kt:52-79 | an iteration starts at record `i`; it pairs the record with the next exit when it is an entry that has one, and otherwise leaves it alone; the loop resumes after the exit or after `i` |
| Blocks.StepsPairing | app/src/main/java/com/timetracking/app/core/data/model/TimeRecordBlock.kt:52-79 | a pair is an entry with the first later exit, skipping only entries; an unpaired entry has no exit after it; an exit the walk reaches (an orphan) forms a block alone |
| Blocks.PairedSteps | app/src/main/java/com/timetracking/app/core/data/model/TimeRecordBlock.kt:53-69 | a paired step joins an entry to the first exit after it |
| Blocks.OpenSteps | app/src/main/java/com/timetracking/app/core/data/model/TimeRecordBlock.kt:57-59 | an entry left without an exit has only entries after it |
| Blocks.LoneExits | app/src/main/java/com/timetracking/app/core/data/model/TimeRecordBlock.kt:70-79 | an orphan exit gets a block with no exit |
| Blocks.StepsDisjoint | app/src/main/java/com/timetracking/app/core/data/model/TimeRecordBlock.kt:68 | the index moves strictly forward, so no record belongs to two blocks |
| Blocks.StepsCover | app/src/main/java/com/timetracking/app/core/data/model/TimeRecordBlock.kt:49-81 | no record is lost: each is a block's first record, its exit, or an entry skipped between an entry and its exit |
| Blocks.DayBlocksShape | app/src/main/java/com/timetracking/app/core/data/model/TimeRecordBlock.kt:44-84 | every block of the day carries the day and a duration of at least 0; a block with an exit pairs an entry with an exit; an orphan or unmatched entry has no exit and lasts 0; all records come from the day's list |
| Blocks.CreateBlocks | app/src/main/java/com/timetracking/app/core/data/model/TimeRecordBlock.kt:26-39 | the method (sort, group by day, a `forEach` appending each day's blocks, sort latest day first) computes the specification `AllBlocks` |
| Blocks.GroupStep | app/src/main/java/com/timetracking/app/core/data/model/TimeRecordBlock.kt:34-36 | one iteration of the `forEach` keeps the invariant: blocks so far plus the blocks of the remaining groups are all the groups' blocks |
| Blocks.GroupBlocksShape | app/src/main/java/com/timetracking/app/core/data/model/TimeRecordBlock.kt:28-36 | when the records are grouped by day, every block is dated on the day of its entry and of its exit, and its entry comes from one of the groups |
| Blocks.AllBlocksShape | app/src/main/java/com/timetracking/app/core/data/model/TimeRecordBlock.kt:26-39 | the result is ordered latest day first; each block is dated on its entry's day (and its exit's); its entry is an input record; durations are never negative |
| TimeCalculation.IsToday | app/src/main/java/com/timetracking/app/core/utils/TimeCalculationUtils.kt:103-106 | a day is today exactly when the current instant falls between the midnight that starts that day and the next midnight |
| TimeCalculation.InProgressMinutes | app/src/main/java/com/timetracking/app/core/utils/TimeCalculationUtils.kt:67-73 | the running time of an open entry is between 0 and one minute less than a day |
| TimeCalculation.InProgressWholeMinutes | app/src/main/java/com/timetracking/app/core/utils/TimeCalculationUtils.kt:69-72 | a positive running time is the number of whole minutes since the entry; it is 0 for less than a minute (or an entry in the future) and for a whole day or more; anything between one minute and a day counts |
| TimeCalculation.StepMinutes | app/src/main/java/com/timetracking/app/core/utils/TimeCalculationUtils.kt:53-81 | no step adds negative minutes |
| TimeCalculation.StepsMinutes | app/src/main/java/com/timetracking/app/core/utils/TimeCalculationUtils.kt:49-83 | a day's sum is never negative |
| TimeCalculation.DayMinutesStep | app/src/main/java/com/timetracking/app/core/utils/TimeCalculationUtils.kt:50-82 | one pass of the loop body adds what the specification `LoopMinutes` gives for record `i`, and moves the index strictly forward to `LoopNext` |
| TimeCalculation.CalculateDayMinutes | app/src/main/java/com/timetracking/app/core/utils/TimeCalculationUtils.kt:39-86 | the loop computes the minutes of the day's pairing walk over the records sorted by instant, and the total is never negative |
| TimeCalculation.FirstStepMinutes | app/src/main/java/com/timetracking/app/core/utils/TimeCalculationUtils.kt:52-82 | one pass of the loop at record `i` adds what the first step of the pairing walk is worth |
| TimeCalculation.WalkIsSteps | app/src/main/java/com/timetracking/app/core/utils/TimeCalculationUtils.kt:49-83 | the loop's walk, with its own index jumps, adds up exactly the minutes of the steps that the block builder forms from the same records |
| TimeCalculation.ActiveRecords | app/src/main/java/com/timetracking/app/core/utils/TimeCalculationUtils.kt:20 | only non-exported input records remain |
| TimeCalculation.GroupMinutes | app/src/main/java/com/timetracking/app/core/utils/TimeCalculationUtils.kt:29-31 | the sum over the day groups is never negative |
| TimeCalculation.CalculateWorkingMinutes | app/src/main/java/com/timetracking/app/core/utils/TimeCalculationUtils.kt:15-34 | the `forEach` over the day groups of the non-exported records computes the specification `WorkingMinutes`, which is never negative |
| TimeCalculation.GroupMinutesStep | app/src/main/java/com/timetracking/app/core/utils/TimeCalculationUtils.kt:29-31 | one iteration of the `forEach` keeps the invariant: total so far plus the remaining groups' minutes is the whole sum |
| TimeCalculation.StepsMinutesBlocks | app/src/main/java/com/timetracking/app/core/utils/TimeCalculationUtils.kt:57-66 | without the running entry, the minutes of the steps are the durations of their blocks added up |
| TimeCalculation.DayMinutesBlocks | app/src/main/java/com/timetracking/app/core/utils/TimeCalculationUtils.kt:39-86 | without the running entry, a day's minutes equal the sum of the durations of the blocks the history screen builds for that day |
| TimeCalculation.StepsMinutesInProgress | app/src/main/java/com/timetracking/app/core/utils/TimeCalculationUtils.kt:67-73 | the running time counts only for today and only when asked for; it never lowers the total and adds less than a day per step |
| TimeCalculation.DayMinutesInProgress | app/src/main/java/com/timetracking/app/core/utils/TimeCalculationUtils.kt:67-73 | day form: an open entry changes nothing unless the day is today and asked for, and then adds less than a day per record |
| TimeCalculation.TwoShiftsDay | app/src/main/java/com/timetracking/app/core/utils/TimeCalculationUtils.kt:50-66 | a day with shifts 09:00-13:00 and 14:00-18:00 counts exactly 480 minutes |
| TimeCalculation.RunningEntryDay | app/src/main/java/com/timetracking/app/core/utils/TimeCalculationUtils.kt:67-73 | an entry at 09:00 still open at 10:30 of the same day counts 90 minutes when the running entry is included, and 0 when it is not |
| TimeCalculation.StepsCountBound | app/src/main/java/com/timetracking/app/core/utils/TimeCalculationUtils.kt:49-83 | the loop runs at most once per record |
| TimeCalculation.ExportedIgnored | app/src/main/java/com/timetracking/app/core/utils/TimeCalculationUtils.kt:20 | an exported record, wherever it sits in the list, never changes the worked minutes |
| TimeCalculation.GroupMinutesKeys | app/src/main/java/com/timetracking/app/core/utils/TimeCalculationUtils.kt:23-31 | summing group by group equals summing over the day keys, when each group holds the records of its day |
| TimeCalculation.GroupMinutesSorted | app/src/main/java/com/timetracking/app/core/utils/TimeCalculationUtils.kt:20-31 | grouping the records before or after sorting them by instant gives the same total |
| TimeCalculation.GroupMinutesBlocks | app/src/main/java/com/timetracking/app/core/utils/TimeCalculationUtils.kt:29-31 | without the running entry, a list of day groups is worth the durations of their blocks |
| TimeCalculation.WorkingMinutesBlocks | app/src/main/java/com/timetracking/app/core/utils/TimeCalculationUtils.kt:15-34 | without the running entry, the worked minutes of a list of records equal the sum of the durations of the blocks built from its non-exported records, so the main screen and the history screen agree |
| Validation.LatestRecord | app/src/main/java/com/timetracking/app/core/utils/TimeRecordValidator.kt:20-21 | there is a last record exactly when the list is not empty, and it is one of the records |
| Validation.ValidateNextAction | app/src/main/java/com/timetracking/app/core/utils/TimeRecordValidator.kt:13-28 | the answer is always valid with an empty message, and an empty list asks for a check-in |
| Validation.LastMaxUnique | app/src/main/java/com/timetracking/app/core/utils/TimeRecordValidator.kt:20-21 | the latest record, taken as the last one with the greatest date, is determined by the list |
| Validation.LatestExists | app/src/main/java/com/timetracking/app/core/utils/TimeRecordValidator.kt:20-21 | every non-empty list has a latest record |
| Validation.NextActionLatest | app/src/main/java/com/timetracking/app/core/utils/TimeRecordValidator.kt:20-27 | for a non-empty list, the record kept by the stable sort is the last one with the greatest date, and the proposal is the opposite of its type |
| Validation.NextActionPermutation | app/src/main/java/com/timetracking/app/core/utils/TimeRecordValidator.kt:13-28 | when no two records share an instant, the proposal does not depend on the order the records are given in |
| Validation.LatestInPermutation | app/src/main/java/com/timetracking/app/core/utils/TimeRecordValidator.kt:20-21 | with distinct instants, a list and any permutation of it have the same latest record |
| Validation.ValidateCheckOutTime | app/src/main/java/com/timetracking/app/core/utils/TimeRecordValidator.kt:31-45 | a check-out is accepted exactly when its minute of the day is strictly later than the check-in's; a refusal carries the "exit after entry" message and an acceptance an empty one |
| Validation.CheckOutSameDay | app/src/main/java/com/timetracking/app/core/utils/TimeRecordValidator.kt:36-44 | on one day, the check accepts exactly the check-outs whose instant with seconds cleared is later |
| Validation.ClearSecondsMinute | app/src/main/java/com/timetracking/app/core/utils/DateTimeUtils.kt:7-13 | clearing the seconds gives midnight plus the minute of the day |
| Validation.ClearSecondsUnique | app/src/main/java/com/timetracking/app/core/utils/DateTimeUtils.kt:7-13 | the minute boundary below an instant is the only minute-aligned instant within a minute below it |
| Validation.CheckOutOvernightRefused | app/src/main/java/com/timetracking/app/core/utils/TimeRecordValidator.kt:36-44 | an overnight shift is refused: 23:00 in and 01:00 the next day out |
| DateTimeUtils.DaysSinceMonday | app/src/main/java/com/timetracking/app/core/utils/DateTimeUtils.kt:28-29 | the weekday offset from Monday is between 0 and 6 |
| DateTimeUtils.ClearSeconds | app/src/main/java/com/timetracking/app/core/utils/DateTimeUtils.kt:7-13 | the result is a whole minute, the last one at or before the instant |
| DateTimeUtils.TruncateToDay | app/src/main/java/com/timetracking/app/core/utils/DateTimeUtils.kt:44-52 | the result is a midnight, the last one at or before the instant |
| DateTimeUtils.SetTimeToDate | app/src/main/java/com/timetracking/app/core/utils/DateTimeUtils.kt:15-23 | the result is a whole minute; for an hour and minute in range it stays on the same day, at that hour and minute |
| DateTimeUtils.SetTimeToDateDay | app/src/main/java/com/timetracking/app/core/utils/DateTimeUtils.kt:15-23 | a whole-minute offset of less than a day from midnight stays on that day |
| DateTimeUtils.AddDays | app/src/main/java/com/timetracking/app/core/utils/DateTimeUtils.kt:61-66 | the result is exactly `days` days away from the input |
| DateTimeUtils.GetStartOfWeek | app/src/main/java/com/timetracking/app/core/utils/DateTimeUtils.kt:25-35 | the result is the Monday midnight at or before the instant, less than a week before it |
| DateTimeUtils.GetEndOfWeek | app/src/main/java/com/timetracking/app/core/utils/DateTimeUtils.kt:37-42 | the result is the next Monday midnight, after the instant and at most a week after it: the exclusive end of its week |
| DateTimeUtils.TruncateToDayUnique | app/src/main/java/com/timetracking/app/core/utils/DateTimeUtils.kt:44-52 | the day start is the only midnight within a day at or before the instant |
| DateTimeUtils.ClearSecondsIdempotent | app/src/main/java/com/timetracking/app/core/utils/DateTimeUtils.kt:7-13 | clearing the seconds twice is clearing them once |
| DateTimeUtils.TruncateToDayIdempotent | app/src/main/java/com/timetracking/app/core/utils/DateTimeUtils.kt:44-52 | truncating a midnight leaves it unchanged |
| DateTimeUtils.ClearSecondsSameDay | app/src/main/java/com/timetracking/app/core/utils/DateTimeUtils.kt:7-13 | clearing the seconds never moves an instant to another day |
| DateTimeUtils.StartOfWeekUnique | app/src/main/java/com/timetracking/app/core/utils/DateTimeUtils.kt:25-35 | the week start is the only Monday midnight less than a week at or before the instant |
| DateTimeUtils.StartOfWeekIdempotent | app/src/main/java/com/timetracking/app/core/utils/DateTimeUtils.kt:25-35 | the start of the week of a week start is itself |
| DateTimeUtils.StartOfWeekShift | app/src/main/java/com/timetracking/app/core/utils/DateTimeUtils.kt:25-35 | moving an instant by whole weeks moves its week start by the same amount |
| DateTimeUtils.AddDaysCompose | app/src/main/java/com/timetracking/app/core/utils/DateTimeUtils.kt:61-66 | adding `a` days then `b` days is adding `a + b` days |
| DateTimeUtils.AddDaysTruncate | app/src/main/java/com/timetracking/app/core/utils/DateTimeUtils.kt:61-66 | adding whole days keeps the time of day: the day of the result is that many days after the original day |
| DateTimeUtils.MinuteOfDay | app/src/main/java/com/timetracking/app/core/utils/TimeRecordValidator.kt:37-38 | the hour times 60 plus the minute is the number of whole minutes since midnight, below 1440 |
| DateTimeUtils.FormatTime | app/src/main/java/com/timetracking/app/ui/home/MainViewModel.kt:319-324 | the "HH:mm" text is two digits, a colon and two digits, and reads back as the minute of the day |
| Dao.Lookup | app/src/main/java/com/timetracking/app/data/database/TimeRecordDao.kt:32-33 | a found row is in the table and has the key asked for; nothing is found exactly when no row has that key |
| Dao.LookupUnique | app/src/main/java/com/timetracking/app/data/database/TimeRecordDao.kt:32-33 | when keys are unique, looking up a row's key finds that row |
| Dao.WithoutId | app/src/main/java/com/timetracking/app/data/database/TimeRecordDao.kt:18-19 | a row remains exactly when it was in the table and has a different key |
| Dao.Replace | app/src/main/java/com/timetracking/app/data/database/TimeRecordDao.kt:15-16 | same length; the row with the record's key takes its values and every other row stays |
| Dao.RowsInRange | app/src/main/java/com/timetracking/app/data/database/TimeRecordDao.kt:24-30 | exactly the rows whose instant lies in the half-open range |
| Dao.MarkExported | app/src/main/java/com/timetracking/app/data/database/TimeRecordDao.kt:35-36 | same rows in the same order; those in the half-open range become exported and the rest stay as they were |
| Dao.MarkExportedIdempotent | app/src/main/java/com/timetracking/app/data/database/TimeRecordDao.kt:35-36 | marking a week twice is marking it once |
| Dao.MarkExportedKeeps | app/src/main/java/com/timetracking/app/data/database/TimeRecordDao.kt:35-36 | marking changes only the exported flag; a row ends exported exactly when it already was or lies in the range |
| Dao.LatestRow | app/src/main/java/com/timetracking/app/data/database/TimeRecordDao.kt:21-22 | there is a row exactly when the table is not empty, and it has the greatest date; among rows with equal dates the model takes the first, which SQL leaves open |
| Dao.TimeRecordDao.constructor | app/src/main/java/com/timetracking/app/data/database/TimeRecordDao.kt:7-8 | a new table is empty and well formed |
| Dao.TimeRecordDao.Insert | app/src/main/java/com/timetracking/app/data/database/TimeRecordDao.kt:12-13 | a record with key 0 gets the next generated key; any other key replaces the row with that key; the record is stored, the table stays well formed and the key counter moves past the key |
| Dao.TimeRecordDao.Update | app/src/main/java/com/timetracking/app/data/database/TimeRecordDao.kt:15-16 | the row with the record's key takes its values, nothing else changes, and the table stays well formed |
| Dao.TimeRecordDao.Delete | app/src/main/java/com/timetracking/app/data/database/TimeRecordDao.kt:18-19 | the row with the record's key is removed and nothing else changes |
| Dao.TimeRecordDao.GetAllRecords | app/src/main/java/com/timetracking/app/data/database/TimeRecordDao.kt:9-10 | every row, newest first (stably) |
| Dao.TimeRecordDao.GetLastRecord | app/src/main/java/com/timetracking/app/data/database/TimeRecordDao.kt:21-22 | a row with the greatest date, or none for an empty table |
| Dao.TimeRecordDao.GetDayRecords | app/src/main/java/com/timetracking/app/data/database/TimeRecordDao.kt:24-30 | the rows of the half-open range, oldest first |
| Dao.TimeRecordDao.GetRecordById | app/src/main/java/com/timetracking/app/data/database/TimeRecordDao.kt:32-33 | the row with that key, if any |
| Dao.TimeRecordDao.MarkWeekAsExported | app/src/main/java/com/timetracking/app/data/database/TimeRecordDao.kt:35-36 | the rows of the range become exported and the table stays well formed |
| Dao.WithoutIdKeepsValid | app/src/main/java/com/timetracking/app/data/database/TimeRecordDao.kt:18-19 | deleting keeps keys unique, non-zero and below the counter |
| Dao.FilterUnique | app/src/main/java/com/timetracking/app/data/database/TimeRecordDao.kt:18-19 | any filter of a table with unique keys has unique keys |
| Dao.InsertKeepsValid | app/src/main/java/com/timetracking/app/data/database/TimeRecordDao.kt:12-13 | insert-or-replace keeps keys unique, non-zero and below the updated counter |
| Dao.ReplaceKeepsValid | app/src/main/java/com/timetracking/app/data/database/TimeRecordDao.kt:15-16 | an update keeps keys unique and changes no key |
| Dao.LookupAfterInsert | app/src/main/java/com/timetracking/app/data/database/TimeRecordDao.kt:12-13 | after an insert, its key finds the stored record and every other key finds what it found before |
| Dao.LookupAppend | app/src/main/java/com/timetracking/app/data/database/TimeRecordDao.kt:32-33 | a lookup in two parts finds a row in the first part before the second |
| Dao.LookupWithout | app/src/main/java/com/timetracking/app/data/database/TimeRecordDao.kt:18-19 | deleting one key does not change the lookup of another |
| Dao.LookupAfterReplace | app/src/main/java/com/timetracking/app/data/database/TimeRecordDao.kt:15-16 | after an update, its key finds the new values when it was present (and nothing otherwise), and every other key finds what it found before |
| Dao.LookupReplace | app/src/main/java/com/timetracking/app/data/database/TimeRecordDao.kt:15-16 | the lookup through an update, key by key |
| Dao.DayRecordsExact | app/src/main/java/com/timetracking/app/data/database/TimeRecordDao.kt:24-30 | the range query returns exactly the rows of the range, sorted by instant |
| Dao.AddedToBalance | app/src/main/java/com/timetracking/app/core/data/db/OvertimeBalanceDao.kt:14-15 | the same rows; row 1 gains the minutes when present; every other row stays |
| Dao.AddedToBalanceCompose | app/src/main/java/com/timetracking/app/core/data/db/OvertimeBalanceDao.kt:14-15 | two additions are one addition of their sum |
| Dao.OvertimeBalanceDao.constructor | app/src/main/java/com/timetracking/app/core/data/db/OvertimeBalanceDao.kt:6-7 | a new balance table is empty |
| Dao.OvertimeBalanceDao.GetBalance | app/src/main/java/com/timetracking/app/core/data/db/OvertimeBalanceDao.kt:8-9 | row 1 when present, otherwise nothing |
| Dao.OvertimeBalanceDao.InsertOrUpdateBalance | app/src/main/java/com/timetracking/app/core/data/db/OvertimeBalanceDao.kt:11-12 | the row with the balance's key is set to its minutes, replacing any previous value |
| Dao.OvertimeBalanceDao.AddToBalance | app/src/main/java/com/timetracking/app/core/data/db/OvertimeBalanceDao.kt:14-15 | the minutes are added to row 1; nothing happens when that row is absent |
| Repository.Credited | app/src/main/java/com/timetracking/app/core/data/repository/TimeRecordRepository.kt:80-88 | afterwards row 1 exists and holds the old balance (0 when absent) plus the week's minutes minus the 2250-minute baseline; no other row appears, disappears or changes |
| Repository.CreditedAgreesWithAdd | app/src/main/java/com/timetracking/app/core/data/repository/TimeRecordRepository.kt:80-88 | with a balance row, read-and-replace gives the same table as adding the difference in place; without one, read-and-replace creates the row where the in-place addition would change nothing |
| Repository.CreditedWeeksBalance | app/src/main/java/com/timetracking/app/core/data/repository/TimeRecordRepository.kt:80-88 | after crediting several weeks in turn, the balance is the starting balance plus each week's difference from the baseline |
| Repository.DayRangeExact | app/src/main/java/com/timetracking/app/core/data/repository/TimeRecordRepository.kt:26-40 | the day query returns exactly the records on the same calendar day as the date, sorted by instant |
| Repository.WeekRangeExact | app/src/main/java/com/timetracking/app/core/data/repository/TimeRecordRepository.kt:42-46 | the week query returns exactly the records of the same Monday-to-Sunday week as the date, whatever weekday that is, sorted by instant |
| Repository.TimeRecordRepository.constructor | app/src/main/java/com/timetracking/app/core/data/repository/TimeRecordRepository.kt:11 | the repository wraps the two tables it is given |
| Repository.TimeRecordRepository.InsertRecord | app/src/main/java/com/timetracking/app/core/data/repository/TimeRecordRepository.kt:12-20 | a new record is appended under a fresh key, at the instant with its seconds cleared, not exported |
| Repository.TimeRecordRepository.GetLastRecord | app/src/main/java/com/timetracking/app/core/data/repository/TimeRecordRepository.kt:22-24 | a record of the latest date, if any |
| Repository.TimeRecordRepository.GetDayRecords | app/src/main/java/com/timetracking/app/core/data/repository/TimeRecordRepository.kt:26-40 | the records of the date's calendar day, oldest first |
| Repository.TimeRecordRepository.GetRecordsForWeek | app/src/main/java/com/timetracking/app/core/data/repository/TimeRecordRepository.kt:42-46 | the records of the date's week, oldest first |
| Repository.TimeRecordRepository.UpdateRecordTime | app/src/main/java/com/timetracking/app/core/data/repository/TimeRecordRepository.kt:48-54 | true exactly when the key exists; then only that record moves to the hour and minute on its own day; an unknown key changes nothing |
| Repository.TimeRecordRepository.MarkWeekAsExported | app/src/main/java/com/timetracking/app/core/data/repository/TimeRecordRepository.kt:56-60 | every record of the week of the date becomes exported, and nothing else changes |
| Repository.TimeRecordRepository.DeleteRecord | app/src/main/java/com/timetracking/app/core/data/repository/TimeRecordRepository.kt:62-66 | true exactly when the key exists; then that record is removed; an unknown key changes nothing |
| Repository.TimeRecordRepository.UpdateRecordNote | app/src/main/java/com/timetracking/app/core/data/repository/TimeRecordRepository.kt:68-73 | true exactly when the key exists; then that record's note is replaced; an unknown key changes nothing |
| Repository.TimeRecordRepository.GetOvertimeBalance | app/src/main/java/com/timetracking/app/core/data/repository/TimeRecordRepository.kt:75-78 | the balance of row 1, or 0 when there is none |
| Repository.TimeRecordRepository.AddToOvertimeBalance | app/src/main/java/com/timetracking/app/core/data/repository/TimeRecordRepository.kt:80-88 | the balance table is credited with the week's difference from the baseline |
| Repository.UpdateTimeOnlyThatRecord | app/src/main/java/com/timetracking/app/core/data/repository/TimeRecordRepository.kt:48-54 | for an hour and minute in range, the record finds its new time on the same day, and every other key finds what it found before |
| Repository.DeleteOnlyThatRecord | app/src/main/java/com/timetracking/app/core/data/repository/TimeRecordRepository.kt:62-66 | after a delete the key finds nothing, and every other key finds what it found before |
| Records.Opposite | app/src/main/java/com/timetracking/app/core/utils/TimeRecordValidator.kt:24-27 | the next action always differs from the last record's type |
| Records.KDivRem | app/src/main/java/com/timetracking/app/core/utils/TimeCalculationUtils.kt:60 | truncating division by a positive divisor: quotient times divisor plus remainder gives back the dividend; the remainder is smaller than the divisor and has the dividend's sign; on non-negative values it matches floor division |
| Records.SortByDate | app/src/main/java/com/timetracking/app/core/utils/TimeRecordValidator.kt:20 | sorting by instant is a permutation of the records |
| Records.SortByDateSorted | app/src/main/java/com/timetracking/app/core/utils/TimeRecordValidator.kt:20 | sorting by instant leaves the records in ascending order |
| Seqs.InsertBy | app/src/main/java/com/timetracking/app/core/data/model/TimeRecordBlock.kt:29 | the insertion step adds exactly one element |
| Seqs.InsertBySorted | app/src/main/java/com/timetracking/app/core/data/model/TimeRecordBlock.kt:29 | inserting into an ordered list keeps it ordered |
| Seqs.SortBy | app/src/main/java/com/timetracking/app/core/data/model/TimeRecordBlock.kt:29 | `sortedBy` gives a permutation of its input |
| Seqs.SortByIsSorted | app/src/main/java/com/timetracking/app/core/data/model/TimeRecordBlock.kt:29 | `sortedBy` orders its result by the key |
| Seqs.SortBySorted | app/src/main/java/com/timetracking/app/core/data/model/TimeRecordBlock.kt:29 | sorting a list already in order changes nothing |
| Seqs.SortByIdempotent | app/src/main/java/com/timetracking/app/core/data/model/TimeRecordBlock.kt:29 | sorting twice is sorting once |
| Seqs.Filter | app/src/main/java/com/timetracking/app/core/utils/TimeCalculationUtils.kt:20 | `filter` keeps exactly the elements that pass, and keeps a list whose elements all pass unchanged |
| Seqs.FilterConcat | app/src/main/java/com/timetracking/app/core/utils/TimeCalculationUtils.kt:20 | filtering two lists joined together is joining the two filtered lists |
| Seqs.GroupBy | app/src/main/java/com/timetracking/app/core/data/model/TimeRecordBlock.kt:30 | every group is non-empty and all its members have the group's key |
| Seqs.GroupByShape | app/src/main/java/com/timetracking/app/core/data/model/TimeRecordBlock.kt:30 | `groupBy` has one group per key that occurs, and each group holds every element with that key, in input order |
| Seqs.GroupByKeys | app/src/main/java/com/timetracking/app/core/data/model/TimeRecordBlock.kt:30 | the group keys are exactly the keys that occur |
| Seqs.GroupByDistinct | app/src/main/java/com/timetracking/app/core/data/model/TimeRecordBlock.kt:30 | no key has two groups |
| Seqs.GroupByMembers | app/src/main/java/com/timetracking/app/core/data/model/TimeRecordBlock.kt:30 | each group holds every element with its key, in input order |
| Seqs.SumByConcat | app/src/main/java/com/timetracking/app/core/utils/PDFManager.kt:408 | `sumOf` over two lists joined together is the sum of the two sums |
| Seqs.SumByPermutation | app/src/main/java/com/timetracking/app/core/utils/PDFManager.kt:408 | `sumOf` does not depend on the order of the elements |
| Seqs.RemoveAt | app/src/main/java/com/timetracking/app/core/utils/PDFManager.kt:408 | taking out one element removes it from the multiset and its term from the sum |
| Seqs.WithKeySortBy | app/src/main/java/com/timetracking/app/core/data/model/TimeRecordBlock.kt:28-30 | taking one day's records commutes with the stable sort, so grouping before or after sorting gives each day's records in the same order |
| Seqs.SortByLast | app/src/main/java/com/timetracking/app/core/utils/TimeRecordValidator.kt:20-21 | the last element of the stable sort is the last occurrence of the largest key |
| MainScreen.Hours | app/src/main/java/com/timetracking/app/ui/home/MainViewModel.kt:40 | the hours are the total's whole hours, truncated toward zero for either sign |
| MainScreen.Minutes | app/src/main/java/com/timetracking/app/ui/home/MainViewModel.kt:41 | hours times 60 plus the minutes gives back the total; the minutes lie below 60 and take the total's sign |
| MainScreen.ToString | app/src/main/java/com/timetracking/app/ui/home/MainViewModel.kt:45 | the "Nh Nm" text of a total that is not negative reads back, through the duration pattern, as its hours and minutes |
| MainScreen.Plus | app/src/main/java/com/timetracking/app/ui/home/MainViewModel.kt:53-54 | the sum of two stats shows the combined hours and minutes of both |
| MainScreen.ZeroIdentity | app/src/main/java/com/timetracking/app/ui/home/MainViewModel.kt:43-48 | adding `ZERO` on either side changes nothing, and `isZero` holds only for `ZERO` |
| MainScreen.ToStringRoundTrip | app/src/main/java/com/timetracking/app/ui/home/MainViewModel.kt:45 | the "Nh Nm" text of a non-negative total reads back, with the export's pattern, as whole hours and minutes below 60 that add up to the total |
| MainScreen.StatusOf | app/src/main/java/com/timetracking/app/ui/home/MainViewModel.kt:207-245 | the status line says "check-in" exactly after an entry and "check-out" after an exit |
| MainScreen.Abs | app/src/main/java/com/timetracking/app/ui/home/MainViewModel.kt:344 | the balance's size: never negative, and either the value or its negation |
| MainScreen.LatestCheckIn | app/src/main/java/com/timetracking/app/ui/home/MainViewModel.kt:220-221 | nothing exactly when there is no check-in; otherwise a check-in of the list with the greatest date among check-ins |
| MainScreen.CheckOutRefusedExact | app/src/main/java/com/timetracking/app/ui/home/MainViewModel.kt:220-237 | among today's records, a check-out is refused exactly when today has a check-in whose minute is not earlier than the current minute |
| MainScreen.StatusMatchesNextAction | app/src/main/java/com/timetracking/app/ui/home/MainViewModel.kt:194-198 | the screen shows "checked in" exactly when the validator offers a check-out next |
| MainScreen.NextActionAlternates | app/src/main/java/com/timetracking/app/ui/home/MainViewModel.kt:194-216 | a day without records offers a check-in; otherwise the offer is the opposite of the day's latest record |
| MainScreen.MainViewModel.constructor | app/src/main/java/com/timetracking/app/ui/home/MainViewModel.kt:90-92 | creating the screen loads the state: with no record today, the initial state with the no-records status; otherwise checked in, with its instant, exactly when today's latest record is an entry, and the status of that record; checked in exactly when a check-out is offered next; the latest record, the day and week figures and the size of the stored balance |
| MainScreen.MainViewModel.UpdateTodayTime | app/src/main/java/com/timetracking/app/ui/home/MainViewModel.kt:276-292 | the day figure becomes the worked minutes of today's records, counting a running check-in; it is never negative, and nothing else changes |
| MainScreen.MainViewModel.UpdateWeeklyTime | app/src/main/java/com/timetracking/app/ui/home/MainViewModel.kt:297-314 | the week figure becomes the worked minutes of this week's records; it is never negative, and nothing else changes |
| MainScreen.MainViewModel.UpdateOvertimeBalance | app/src/main/java/com/timetracking/app/ui/home/MainViewModel.kt:339-352 | the balance figure becomes the size of the stored balance; nothing else changes |
| MainScreen.MainViewModel.UpdateFigures | app/src/main/java/com/timetracking/app/ui/home/MainViewModel.kt:258-260 | the three figures are recomputed from the tables; the state and the last record are kept |
| MainScreen.MainViewModel.ClearError | app/src/main/java/com/timetracking/app/ui/home/MainViewModel.kt:329-331 | only the error is cleared |
| MainScreen.MainViewModel.ResetState | app/src/main/java/com/timetracking/app/ui/home/MainViewModel.kt:97-107 | the screen is checked out with the manual-reset status, and the day and week figures are recomputed |
| MainScreen.MainViewModel.LoadLastState | app/src/main/java/com/timetracking/app/ui/home/MainViewModel.kt:113-175 | today's latest record decides the state: checked in with its instant after an entry, checked out after an exit, "no records" on an empty day; the figures are recomputed |
| MainScreen.MainViewModel.HandleCheckInOut | app/src/main/java/com/timetracking/app/ui/home/MainViewModel.kt:181-271 | a check-out not later, to the minute, than today's latest check-in only sets the error and changes nothing else; otherwise the record the validator asks for is appended at the current minute, the state follows it, and the figures are recomputed |
| MainScreen.MainViewModel.StoreRecord | app/src/main/java/com/timetracking/app/ui/home/MainViewModel.kt:207-245 | an accepted record is appended under a fresh key at the current minute, the state shows it, and the figures are recomputed |
| History.SteppedCalendarWeek | app/src/main/java/com/timetracking/app/ui/history/HistoryViewModel.kt:84-105 | stepping a calendar back `i` weeks from now and taking its Monday gives the Monday `i` weeks before the current one |
| History.WeekEndSameWeek | app/src/main/java/com/timetracking/app/ui/history/HistoryViewModel.kt:90-93 | for a Monday, the label's last day is the Sunday of the same week, before the week's exclusive end |
| History.RecordWeeksExact | app/src/main/java/com/timetracking/app/ui/history/HistoryViewModel.kt:88-89 | a Monday's week query is non-empty exactly when some record falls in that week |
| History.ListedWeeks | app/src/main/java/com/timetracking/app/ui/history/HistoryViewModel.kt:83-106 | the loop lists at most one week per step |
| History.ListedWeeksSound | app/src/main/java/com/timetracking/app/ui/history/HistoryViewModel.kt:86-102 | every listed week was inspected, has records, and carries the label of its own first and last day |
| History.ListedWeeksOldestFirst | app/src/main/java/com/timetracking/app/ui/history/HistoryViewModel.kt:101 | inserting at the front lists the weeks oldest first, with no week twice |
| History.ListedWeeksComplete | app/src/main/java/com/timetracking/app/ui/history/HistoryViewModel.kt:86-89 | every inspected week that has records is listed: the future-week check never drops one |
| History.FindWeek | app/src/main/java/com/timetracking/app/ui/history/HistoryViewModel.kt:138-145 | nothing exactly when no listed week has that start; otherwise a listed week with that start |
| History.FindListedWeek | app/src/main/java/com/timetracking/app/ui/history/HistoryViewModel.kt:138-145 | in a list ordered oldest first, searching a listed week's start finds that very week |
| History.HistoryViewModel.constructor | app/src/main/java/com/timetracking/app/ui/history/HistoryViewModel.kt:60-62 | creating the screen lists the weeks with records among the last four, oldest first, and selects and loads the most recent one when there is one |
| History.HistoryViewModel.LoadWeekRecords | app/src/main/java/com/timetracking/app/ui/history/HistoryViewModel.kt:133-153 | the shown blocks become the blocks of that week's records, and the listed week with that start becomes the selection |
| History.HistoryViewModel.HasRecordsFor | app/src/main/java/com/timetracking/app/ui/history/HistoryViewModel.kt:88-89 | a Monday has records exactly when some record falls in its week |
| History.HistoryViewModel.InspectWeeks | app/src/main/java/com/timetracking/app/ui/history/HistoryViewModel.kt:83-106 | the loop's list is the specification `ListedWeeks` over the four inspected weeks |
| History.HistoryViewModel.LoadAvailableWeeks | app/src/main/java/com/timetracking/app/ui/history/HistoryViewModel.kt:67-128 | the list of weeks is set; when it is not empty the most recent is selected and its blocks are loaded; otherwise only the loading flag drops |
| History.HistoryViewModel.ReloadSelectedWeek | app/src/main/java/com/timetracking/app/ui/history/HistoryViewModel.kt:166-173 | after an edit the message is set, and the selected week, if any, is reloaded from the table |
| History.HistoryViewModel.UpdateRecordTime | app/src/main/java/com/timetracking/app/ui/history/HistoryViewModel.kt:158-181 | the repository moves the record (an unknown key changes nothing), the selected week's blocks are reloaded, and success is reported either way; the selection is the listed week with the old selection's start, if any, and the loading flag is down, with the rest of the screen state unchanged |
| History.HistoryViewModel.DeleteRecord | app/src/main/java/com/timetracking/app/ui/history/HistoryViewModel.kt:186-209 | the repository removes the record (an unknown key changes nothing), the selected week's blocks are reloaded, and success is reported either way; the selection is the listed week with the old selection's start, if any, and the loading flag is down, with the rest of the screen state unchanged |
| History.HistoryViewModel.AddRecord | app/src/main/java/com/timetracking/app/ui/history/HistoryViewModel.kt:214-237 | the record is stored at its minute under a fresh key, not exported, and the selected week's blocks are reloaded, and success is reported; the selection is the listed week with the old selection's start, if any, and the loading flag is down, with the rest of the screen state unchanged |
| History.HistoryViewModel.ExportWeekToPdf | app/src/main/java/com/timetracking/app/ui/history/HistoryViewModel.kt:242-279 | with no blocks or no PDF manager the export fails with its message and no document is requested; otherwise a document of the shown blocks is requested, and it succeeds exactly when the upload did; every path ends with the loading and exporting flags down |
| History.HistoryViewModel.ClearMessages | app/src/main/java/com/timetracking/app/ui/history/HistoryViewModel.kt:284-289 | only the error and the message are cleared |
| PdfManager.DurationText | app/src/main/java/com/timetracking/app/core/utils/PDFManager.kt:47 | the duration column of a non-negative duration reads back, through the duration pattern, as its whole hours and the remaining minutes |
| PdfManager.FromTimeRecordBlock | app/src/main/java/com/timetracking/app/core/utils/PDFManager.kt:42-51 | the date cell is the block's day in the date format; the entry time is the entry's "HH:mm"; the exit time is the exit's "HH:mm", and reads "Pendiente" exactly when the block has no exit; its instant is the entry's; the comment is the entry's note, or else the exit's, or else "" |
| PdfManager.RowReadsBack | app/src/main/java/com/timetracking/app/core/utils/PDFManager.kt:42-51 | a row's entry time reads back as the entry's minute of the day, a closed block's exit time as the exit's, and an open block's exit is "Pendiente" |
| PdfManager.RowsOf | app/src/main/java/com/timetracking/app/core/utils/PDFManager.kt:292-294 | one row per block, in order, each built from its block |
| PdfManager.UniqueNewExact | app/src/main/java/com/timetracking/app/core/utils/PDFManager.kt:296-300 | a new row is kept exactly when no existing row has its date and entry time |
| PdfManager.CombineRecords | app/src/main/java/com/timetracking/app/core/utils/PDFManager.kt:302-307 | the existing document is kept exactly when every new row is already listed; otherwise the document lists the existing rows and the unlisted new ones, each once |
| PdfManager.CombineRecordsSorted | app/src/main/java/com/timetracking/app/core/utils/PDFManager.kt:307 | a rebuilt document lists its rows by entry instant |
| PdfManager.CombinedTotal | app/src/main/java/com/timetracking/app/core/utils/PDFManager.kt:353-369 | the loop's hours and minutes add up to the hours and minutes read from the closed rows, with the minutes carried below 60 |
| PdfManager.SumByPrefix | app/src/main/java/com/timetracking/app/core/utils/PDFManager.kt:356-366 | extending the rows read so far by one adds that row's value |
| PdfManager.SumByNonNegative | app/src/main/java/com/timetracking/app/core/utils/PDFManager.kt:356-366 | a sum of values that are never negative is never negative |
| PdfManager.FreshTotal | app/src/main/java/com/timetracking/app/core/utils/PDFManager.kt:408-410 | hours times 60 plus minutes is the total of the durations, and for a non-negative total the minutes are below 60 |
| PdfManager.RowTotalOfBlock | app/src/main/java/com/timetracking/app/core/utils/PDFManager.kt:47 | the duration text of a closed block reads back as its duration, and an open block counts 0 |
| PdfManager.RowsTotal | app/src/main/java/com/timetracking/app/core/utils/PDFManager.kt:353-369 | re-reading the rows' duration texts loses nothing: the total read back is the sum of the blocks' durations |
| PdfManager.FreshAndCombinedAgree | app/src/main/java/com/timetracking/app/core/utils/PDFManager.kt:383-410 | for the blocks of `createBlocks`, a document built fresh and one built by merging into an empty document show the same total |
| PdfText.FirstNonSpace | app/src/main/java/com/timetracking/app/core/utils/PDFManager.kt:247 | the first non-whitespace position, with only whitespace before it |
| PdfText.LastNonSpaceEnd | app/src/main/java/com/timetracking/app/core/utils/PDFManager.kt:247 | the end of the last non-whitespace character, with only whitespace after it |
| PdfText.Trim | app/src/main/java/com/timetracking/app/core/utils/PDFManager.kt:247 | `trim` leaves no whitespace at either end and is empty exactly for a blank text |
| PdfText.TrimIdempotent | app/src/main/java/com/timetracking/app/core/utils/PDFManager.kt:247 | trimming twice is trimming once |
| PdfText.StampHasClock | app/src/main/java/com/timetracking/app/core/utils/PDFManager.kt:256-271 | the automatic-timestamp pattern only rejects comments that the time pattern already rejects |
| PdfText.CleanObservationsField | app/src/main/java/com/timetracking/app/core/utils/PDFManager.kt:244-287 | the result is "" or the trimmed comment, and it is the trimmed comment exactly when the comment is not blank, matches no forbidden pattern and contains a letter |
| PdfText.CleanIdempotent | app/src/main/java/com/timetracking/app/core/utils/PDFManager.kt:244-287 | cleaning a cleaned comment changes nothing |
| PdfText.SubstringBefore | app/src/main/java/com/timetracking/app/core/utils/PDFManager.kt:88 | the text before the first '@' is a prefix with no '@', followed by the '@' when one exists |
| PdfText.Split | app/src/main/java/com/timetracking/app/core/utils/PDFManager.kt:89 | `split` gives at least one piece, and no piece contains the separator |
| PdfText.NameFromEmailAt | app/src/main/java/com/timetracking/app/core/utils/PDFManager.kt:87-91 | the name built from an address is its local part with each dot turned into a space and the first letter of each piece upper-cased |
| PdfText.JoinSplitAt | app/src/main/java/com/timetracking/app/core/utils/PDFManager.kt:89-90 | splitting on dots and joining the capitalised pieces with spaces turns each dot into a space and capitalises each piece's first character |
| PdfText.CapitalizedConcat | app/src/main/java/com/timetracking/app/core/utils/PDFManager.kt:89-90 | a dot-free piece, a dot and the rest become the capitalised piece, a space, and the rest's name |
| PdfText.UserDisplayName | app/src/main/java/com/timetracking/app/core/utils/PDFManager.kt:79-95 | no user, or one with neither display name nor address, gets the fixed fallback; a display name is used as is; otherwise the name is the local part of the address with each dot turned into a space and each piece capitalised |
| PdfText.Underscored | app/src/main/java/com/timetracking/app/core/utils/PDFManager.kt:98 | the same length, with each space and dot replaced by '_' and every other character kept |
| PdfText.FileName | app/src/main/java/com/timetracking/app/core/utils/PDFManager.kt:97-100 | the file name is "RegistroHorario_", then the user's name with every space and dot written as '_' and every other character kept, then ".pdf" |
| PdfText.FileNameOneDot | app/src/main/java/com/timetracking/app/core/utils/PDFManager.kt:97-100 | the file name has exactly one dot, the one before "pdf" |
| Text.HoursMinutesText | app/src/main/java/com/timetracking/app/core/utils/PDFManager.kt:47 | a non-negative duration is written as its decimal hours, "h ", its decimal minutes and "m" |
| Text.FindHoursMinutes | app/src/main/java/com/timetracking/app/core/utils/PDFManager.kt:358-359 | a match is the pattern matched at some position, and no match means the pattern matches nowhere |
| Text.HoursMinutesRoundTrip | app/src/main/java/com/timetracking/app/core/utils/PDFManager.kt:358-361 | the duration pattern reads back the two numbers of an "Nh Nm" text |
| Text.MatchHoursMinutesText | app/src/main/java/com/timetracking/app/core/utils/PDFManager.kt:358-361 | the pattern matches an "Nh Nm" text at its start |
| Text.ParseNatToString | app/src/main/java/com/timetracking/app/core/utils/PDFManager.kt:361-363 | reading back a number's decimal text gives the number |
| Text.TwoDigits | app/src/main/java/com/timetracking/app/ui/home/MainViewModel.kt:321-322 | two digits that read back as the number |
| LegacyBlocks.NewBlock | app/src/main/java/com/timetracking/app/ui/history/model/TimeRecordBlock.kt:11-16 | a block is dated at its entry and keeps its entry and exit; its default duration is 0 without an exit, and otherwise the whole minutes from entry to a later exit |
| LegacyBlocks.LegacyDuration | app/src/main/java/com/timetracking/app/ui/history/model/TimeRecordBlock.kt:18-24 | without an exit 0; otherwise the whole minutes from entry to exit truncated toward zero, with no clamp, so an exit before the entry gives a count of at most 0 |
| LegacyBlocks.CreateBlocks | app/src/main/java/com/timetracking/app/ui/history/model/TimeRecordBlock.kt:26-55 | the loop computes the specification `LegacyBlocksOf` of the records sorted by instant |
| LegacyBlocks.CheckInIndices | app/src/main/java/com/timetracking/app/ui/history/model/TimeRecordBlock.kt:31-51 | the positions of exactly the entries from `i` on, in increasing order |
| LegacyBlocks.BlocksAt | app/src/main/java/com/timetracking/app/ui/history/model/TimeRecordBlock.kt:41-45 | one block per entry position, in order |
| LegacyBlocks.PairsFromEntries | app/src/main/java/com/timetracking/app/ui/history/model/TimeRecordBlock.kt:31-51 | the walk makes exactly one block per entry, in order, paired with the next record only when that is an exit; an exit never starts a block |
| LegacyBlocks.BlocksAtCons | app/src/main/java/com/timetracking/app/ui/history/model/TimeRecordBlock.kt:41-45 | the blocks of a first position and the rest are its block followed by the rest's |
| LegacyBlocks.CheckInIndicesCount | app/src/main/java/com/timetracking/app/ui/history/model/TimeRecordBlock.kt:34 | there are as many entry positions as entries |
| LegacyBlocks.LegacyBlocksPerEntry | app/src/main/java/com/timetracking/app/ui/history/model/TimeRecordBlock.kt:26-55 | one block per entry record, and the blocks' entries are the input's entries, counted with multiplicity |
| LegacyBlocks.FilterPermutation | app/src/main/java/com/timetracking/app/ui/history/model/TimeRecordBlock.kt:27 | filtering two permutations of each other gives permutations of each other of the same length |
| LegacyBlocks.EntriesAt | app/src/main/java/com/timetracking/app/ui/history/model/TimeRecordBlock.kt:34 | the records at the entry positions are the entries, in order |
| LegacyBlocks.EntriesOfCons | app/src/main/java/com/timetracking/app/ui/history/model/TimeRecordBlock.kt:34 | the records at a first position and the rest are its record followed by the rest's |
| LegacyBlocks.EntriesOf | app/src/main/java/com/timetracking/app/ui/history/model/TimeRecordBlock.kt:34 | one record per position, the record at that position |
| LegacyBlocks.FilterMultiset | app/src/main/java/com/timetracking/app/ui/history/model/TimeRecordBlock.kt:34 | filtering keeps each passing element as often as it occurs and drops every other one |
| LegacyBlocks.LegacyBlocksOrdered | app/src/main/java/com/timetracking/app/ui/history/model/TimeRecordBlock.kt:26-55 | because the records are sorted first, no duration is negative, every block is dated at its entry, and the blocks come in ascending order of entry |
| LegacyMain.RunningMinutes | app/src/main/java/com/timetracking/app/MainActivity.kt:199-203 | a last record that is an entry adds the whole minutes from it to now, with no upper bound; otherwise nothing |
| LegacyMain.SumTodayMinutes | app/src/main/java/com/timetracking/app/MainActivity.kt:180-203 | the loop over the day's records, sorted by instant, computes the specification `TodayMinutes` |
| LegacyMain.AdjacentIsBlockSum | app/src/main/java/com/timetracking/app/MainActivity.kt:185-197 | the adjacent-pair loop sums exactly the durations of the blocks the legacy block builder makes from the same records |
| LegacyMain.SumByCons | app/src/main/java/com/timetracking/app/MainActivity.kt:221 | a sum over a first block and the rest is its duration plus the rest's sum |
| LegacyMain.TodayAgreesWithWeek | app/src/main/java/com/timetracking/app/MainActivity.kt:177-231 | the day's figure is the week's computation applied to the same records, plus the running time of a last entry, so the two screens agree on completed work |
| LegacyMain.SumByNonNegative | app/src/main/java/com/timetracking/app/MainActivity.kt:221 | a sum of durations that are never negative is never negative |
| LegacyMain.TotalsNonNegative | app/src/main/java/com/timetracking/app/MainActivity.kt:177-231 | because the records are sorted first, the week's total is never negative, and neither is the day's when no record is after now |
| LegacyMain.LatestRowAppend | app/src/main/java/com/timetracking/app/MainActivity.kt:122 | after appending a record later than every row, the latest record is that record |
| LegacyMain.ToggleKeepsInStep | app/src/main/java/com/timetracking/app/MainActivity.kt:153-175 | when the button agrees with the table, a toggle that stores the record the flipped flag asks for, later than every row, keeps them agreeing; it stores the opposite of the latest record's type |
| LegacyMain.LegacyMainActivity.constructor | app/src/main/java/com/timetracking/app/MainActivity.kt:43-53 | the greeting uses the stored name ("Usuario" when none is stored), and `loadLastState` runs: with no record, not checked in with the no-records status; otherwise checked in exactly when the latest record is an entry, whose instant is then the check-in time, with that record's status text; the day total is computed, the week text is empty and the table is not changed |
| LegacyMain.LegacyMainActivity.OnResume | app/src/main/java/com/timetracking/app/MainActivity.kt:55-60 | the state is reloaded as `loadLastState` does (checked-in flag, check-in time and status text from the latest record), the day and week totals are recomputed, and the greeting is kept |
| LegacyMain.LegacyMainActivity.LoadLastState | app/src/main/java/com/timetracking/app/MainActivity.kt:119-151 | the button shows "checked in" exactly when the latest record is an entry, whose instant is then the check-in time; with no record, checked out; the day's total is refreshed |
| LegacyMain.LegacyMainActivity.HandleCheckInOut | app/src/main/java/com/timetracking/app/MainActivity.kt:153-175 | the flag flips first; an entry is then stored if checked in and an exit otherwise, at the unrounded instant; the status and toast follow; the day's total is refreshed; the button stays in step with the table |
| LegacyMain.LegacyMainActivity.Toggle | app/src/main/java/com/timetracking/app/MainActivity.kt:158-170 | the flip, the insert and the status line of a toggle, before the day's total is refreshed |
| LegacyMain.LegacyMainActivity.UpdateTodayTime | app/src/main/java/com/timetracking/app/MainActivity.kt:177-209 | the day's text becomes the total of the adjacent-pair loop over the day's records; no other state changes |
| LegacyMain.LegacyMainActivity.UpdateWeeklyTime | app/src/main/java/com/timetracking/app/MainActivity.kt:211-231 | the week's text becomes the sum of the legacy blocks' durations over the week's records; no other state changes |
| Login.NormalizedEmail | app/src/main/java/com/timetracking/app/ui/auth/LoginViewModel.kt:49 | the address sent to the service is empty exactly when the typed one is blank, has no capital letter, and has no whitespace at either end |
| Login.Lowercase | app/src/main/java/com/timetracking/app/ui/auth/LoginViewModel.kt:49 | same length, each letter lower-cased and every other character kept |
| Login.PreCheck | app/src/main/java/com/timetracking/app/ui/auth/LoginViewModel.kt:39-47 | the address passes exactly when it ends with the domain; an empty address gets the empty-address message, and any other refusal the domain message |
| Login.ResponseState | app/src/main/java/com/timetracking/app/ui/auth/LoginViewModel.kt:55-76 | logged in exactly when the service authorized the address, with the user it sent back; otherwise an error and no user |
| Login.LoginState | app/src/main/java/com/timetracking/app/ui/auth/LoginViewModel.kt:36-89 | logged in only for an address ending with the domain that the service authorized; otherwise an error and no user, with the empty-address or domain message for a refused address |
| Login.DomainShape | app/src/main/java/com/timetracking/app/ui/auth/LoginViewModel.kt:28 | the domain has 17 characters, no whitespace at either end, and no capital letter |
| Login.TrimKeepsSuffix | app/src/main/java/com/timetracking/app/ui/auth/LoginViewModel.kt:49 | trimming keeps a suffix that starts and ends with a non-space |
| Login.LowercaseKeepsSuffix | app/src/main/java/com/timetracking/app/ui/auth/LoginViewModel.kt:49 | lower-casing keeps a suffix that is already lower case |
| Login.LowercaseHasNoCapital | app/src/main/java/com/timetracking/app/ui/auth/LoginViewModel.kt:49 | a lower-cased text has no capital letter |
| Login.NormalizedInDomain | app/src/main/java/com/timetracking/app/ui/auth/LoginViewModel.kt:44-53 | every address that passes reaches the service in the domain, in lower case, with no surrounding whitespace |
| Login.LowerKeepsNonSpace | app/src/main/java/com/timetracking/app/ui/auth/LoginViewModel.kt:49 | lower-casing never turns a character into whitespace |
| Login.TrailingSpaceRefused | app/src/main/java/com/timetracking/app/ui/auth/LoginViewModel.kt:44-49 | the domain check sees the address as typed: an address in the domain typed with a trailing space is refused, though its normalised form is in the domain |
| Login.GoogleState | app/src/main/java/com/timetracking/app/ui/auth/LoginViewModel.kt:92-134 | logged in exactly when the sign-in gave a user whose address ends with the domain, carrying that address; a user outside the domain is signed out again with the domain message; every failure shows an error and no user |
| Login.GoogleNameIsLocalPart | app/src/main/java/com/timetracking/app/ui/auth/LoginViewModel.kt:110 | a user with no display name is named by the text before the first '@' of the address |
| Login.SameDomainRule | app/src/main/java/com/timetracking/app/ui/auth/LoginViewModel.kt:44-47 | e-mail login passes an address on exactly when a Google account with that address is accepted |
| Login.LoginViewModel.constructor | app/src/main/java/com/timetracking/app/ui/auth/LoginViewModel.kt:32 | the screen starts in the initial state |
| Login.LoginViewModel.Login | app/src/main/java/com/timetracking/app/ui/auth/LoginViewModel.kt:36-89 | the service is asked exactly when the address ends with the domain, and about the normalised address; the final state is `LoginState` |
| Login.LoginViewModel.SignInWithGoogleCredential | app/src/main/java/com/timetracking/app/ui/auth/LoginViewModel.kt:92-134 | the final state, and whether the user is signed out again, are `GoogleState` of the sign-in's answer |
| Login.LoginViewModel.ClearError | app/src/main/java/com/timetracking/app/ui/auth/LoginViewModel.kt:136-138 | only the error is cleared |

## Left out

- Coroutines, the `Mutex` of `handleCheckInOut` and the lifecycle scopes. Each operation is modelled as one atomic step, and a press that finds the mutex taken is not modelled.
- `LiveData` and `StateFlow` are plain fields, and observers are not modelled.
- Exceptions and their `catch` paths are not modelled: database errors, the `Exception` branches of the view models, and the "Error al calcular" text of the legacy weekly total. The only exceptions modelled are those whose outcome is a parameter: the failed upload of the export, and the failed service call or sign-in at login.
- The dead branches of `MainViewModel` are left out, because `validateNextAction` never returns them: the `!isValid` return of `handleCheckInOut`, its `null ->` branch, and the inconsistent-records branch of `loadLastState`.
- Android string resources (`R.string.*`) are named constants or the `StatusText` datatype, not their localised texts. The week labels of the history screen (`dd-dd MMM`) are a parameter `labelOf`, because they are locale formatting.
- Time zones, daylight saving and calendar locales are not modelled. Every day is 86,400,000 ms long, at a fixed offset.
- `Long` overflow is not modelled. Integers are unbounded, so `abs(Long.MIN_VALUE)` and a sum past 2^63 do not wrap as they would in the source.
- Text handling covers ASCII only. `Char.isLetter`, `isWhitespace`, `uppercase` and `lowercase` work on ASCII letters and ASCII whitespace. Each regular expression of `cleanObservationsField` and of the totals is written as a predicate on positions, not as a regex engine.
- `PDFManager` is not modelled beyond its data:
  - not modelled: PDF rendering and reading, the network, files and shared preferences (`createAndUploadPDF`, `checkFileExists`, `downloadExistingPdf`, `uploadToServerDirect`, `savePendingWorkIndicator`, `saveLocally`, `saveLocalCopy`, `isNetworkAvailable`);
  - `createTable` is not modelled. It writes its own comment cell, which is not `RecordInfo.comment`: it takes the exit's note before the entry's and passes it through `cleanObservationsField`, whereas `fromTimeRecordBlock` takes the entry's note first and does not clean it;
  - `extractRecordsFromExistingPDF` is a parameter: the existing rows;
  - modelled: the row conversion, the name and file name, the comment cleaning, the merge with its deduplication, and both totals.
- `FirebaseAuth` is a parameter, in two places: the current user of `getUserDisplayName`, and the results of `signInWithCredential` and `signOut` (`Login.GoogleOutcome`). The answer of the whitelist service is the parameter `Login.ApiOutcome`, and `BuildConfig.API_KEY` is not modelled.
- Clocks are parameters. `Date()` is the parameter `now`.
- `MainActivity`'s legacy repository, `data/repository/TimeRecordRepository.kt`, is not modelled as a class:
  - its `getDayRecords` calls a DAO query, `getRecordsForDay`, that the legacy DAO does not declare;
  - the activity calls a `getRecordsForWeek` that the legacy repository does not have.
  The activity's day and week queries are therefore modelled as `Repository.DayRange` and `Repository.WeekRange` over the legacy table. The legacy `insertRecord` stores the instant without clearing the seconds, and the model does the same.
- `utils/DateUtils.kt` is not part of this model. `MainActivity` calls its `clearSeconds` and `getStartOfWeek`, which are taken to be those of `core/utils/DateTimeUtils.kt`.
- Views, animations, colours, toasts and navigation are not modelled, nor the logout button and `onBackPressed`. The toast text of the legacy `handleCheckInOut` is returned as a value.
- The login flow of `LoginActivity` is not modelled, nor the auth managers, dependency injection (`ServiceLocator`), the Room database classes, the VPN service and the build files.
- `TimeStats.fromMinutes` is not modelled separately. It is the `TimeStats` constructor.
- `Text.HoursMinutesText`: its contract states the text only for non-negative hours and minutes. A negative value is written with a minus sign by `IntToString`, but the model proves nothing about that text.
