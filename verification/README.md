# Help-desk roster scheduler: a Dafny model

This project models the core of a help-desk roster scheduler. The scheduler covers every half-hour
block of a lab's weekly opening hours with exactly one consultant. It does so in four steps:

1. It builds a time grid and an availability matrix: one row per half-hour block, one column per
   consultant, and one preference level (0 unavailable … 3 preferable) per cell.
2. It reads free-text ranges such as `9am-2pm` into 24-hour clock strings.
3. It states the scheduling problem as a 0/1 linear program: duty variables, shift-change
   variables, coverage, weekly and daily limits, and a preference-plus-churn cost.
4. It folds the solved assignment into consolidated shifts and prints two views, one by weekday and
   one by consultant.

Time is measured in integer minutes from midnight on Monday of the current week. Day `d` starts at
`1440 * d` and the calendar date of a timestamp is `t / 1440`. A consultant is a `string`.

Modules, in dependency order:

- `Basics`: `Option`, integer sums, strictly increasing sequences.
- `Decimal`: ASCII digits, decimal value, `Show` (`str(n)`) and `Pad2` (`f"{n:02}"`).
- `Clock`: `datetime.strptime(s, "%H:%M")`, modelled as a partial parser (`ParseClock`), and its
  canonical writer `FormatClock` (`%H:%M`).
- `TimeGrid` (`sched_setup.py`): the opening-hours table, open/close ranges that roll past
  midnight, and the half-hour blocks of each day.
- `Availability` (`sched_setup.py`): the preference levels, the availability matrix, and
  `add_consultant_hours_to_df`. The latter is a label slice of the index with an exclusive end,
  followed by an overwrite of one column.
- `RangeParser` (`read_csv.py`): `convert_to_24h_format`. It does `strip` and `lower`, runs the
  regular expression as a deterministic left-to-right parser, fills in default minutes and
  converts the am/pm hour.
- `ScheduleModel` (`lp.py`): `create_schedule` as a feasibility predicate `Valid` over a solution
  (duty variables `x`, change variables `y`) and the objective `Cost`.
- `Runs`: cutting a sequence into maximal runs wherever a break test fires. This is pandas'
  "new group" mask, then `cumsum`, then `groupby`. The day headings of the weekday view are cut
  the same way.
- `Shifts` (`sched_format.py`): filling the consultant column from the assignment, consolidating
  runs into shifts, and sorting them by start.
- `Text`: `lstrip`, `replace`, and Python's ordering of `str`.
- `Report` (`sched_format.py`): the weekday view, the consultant view and `format_time`.

Points about the code that the model makes explicit:

- `create_schedule` (lp.py:30-36, 99-103) takes per-consultant block limits as a table that the
  docstring says comes from read_csv.py. read_csv.py defines no such allocation, so the table is a
  parameter here. A consultant missing from it is a `KeyError` (`ScheduleModel.MissingLimitsRejected`).
- A change variable `y` exists for every available cell except on the very last block of the
  week, not only on blocks that have a same-day successor. The ones at the end of a day are
  unconstrained (`ScheduleModel.UnconstrainedDayEnd`).
- Consolidated shifts are sorted by start after grouping.

## Model

| member | source | states |
|---|---|---|
| Decimal.Show | read_csv.py:43 | `str(n)`, which `f"{n:02}"` falls back to from 100 up: ASCII digits with no leading zero, whose decimal value is `n`; one digit exactly below 10, two exactly from 10 to 99 |
| Decimal.Pad2 | read_csv.py:43 | `f"{n:02}"`: the value is `n`, and it is two digits wide below 100 |
| Clock.ParseClock | sched_setup.py:50 | `strptime("%H:%M")` accepts only a time of day, from 0 up to but not including 1440 minutes |
| Clock.ParseCanonical | sched_setup.py:50 | a five-character `HH:MM` with hour at most 23 and minute at most 59 reads as `60*HH + MM` |
| Clock.ParseFormatRoundTrip | sched_setup.py:50 | every time of day written as `%H:%M` reads back as itself |
| Clock.FormatClock | sched_format.py:97-98 | `%H:%M` of a time of day: five characters with a colon in the middle; `Clock.ParseFormatRoundTrip` shows it reads back as the same time |
| TimeGrid.RangeBounds | sched_setup.py:39-59 | defined exactly when both clock strings parse; the start is the day's midnight plus the open time; the end has the close time of day and lies in `[start, start + 1 day)`, so a close before the open rolls to the next day |
| TimeGrid.RangeBoundsOf | sched_setup.py:55-57 | closed form: the end moves to the next day exactly when the close time is before the open time |
| TimeGrid.EqualOpenCloseEmpty | sched_setup.py:55-57 | equal open and close times do not roll over and give no blocks |
| TimeGrid.DayBlocks | sched_setup.py:77-83 | blocks start at the open time, step by 30 minutes, each ends by the close, and no further block fits |
| TimeGrid.InDayBlocks | sched_setup.py:77-83 | `t` is a block iff `open <= t`, `t + 30 <= close`, and `t` is a multiple of 30 minutes after `open` |
| TimeGrid.SpanBlocks | sched_setup.py:70-83 | definition: the blocks of each day's span, concatenated in table order; `TimeGrid.GridMembership` and `TimeGrid.GridChronological` state its content and order |
| TimeGrid.ParseTable | sched_setup.py:70-74 | the table parses iff every entry parses, giving one span per entry in table order |
| TimeGrid.GenerateBlocks | sched_setup.py:62-85 | the blocks exist exactly when every entry of the table parses |
| TimeGrid.GridMembership | sched_setup.py:62-85 | a time is in the grid iff it is a block of some day's span |
| TimeGrid.GridChronological | sched_setup.py:62-85 | days listed in order with non-overlapping spans give a strictly increasing index |
| TimeGrid.GridSize | sched_setup.py:77-83 | the grid has `floor(span / 30)` blocks per day, summed over the days |
| TimeGrid.SunlabParses | sched_setup.py:5-15 | the desk's table parses to seven spans; midnight closes roll to the next day |
| TimeGrid.SunlabGridChronological | sched_setup.py:5-15 | the desk's spans do not overlap, so its index is strictly increasing |
| TimeGrid.SunlabBlockCounts | sched_setup.py:5-15 | 30 blocks Monday to Thursday, 26 Friday, 20 Saturday, 24 Sunday: 190 in the week |
| Availability.Level | sched_setup.py:18-21 | each preference level is stored as a code from 0 to 3 |
| Availability.FromLevel | sched_setup.py:18-21 | exactly the codes 0 to 3 name a level |
| Availability.LevelCodes | sched_setup.py:18-21 | codes round-trip and are injective, and UNAVAILABLE is exactly code 0 |
| Availability.Setup | sched_setup.py:88-98 | defined iff the hours table parses; the matrix covers the generated blocks × the given consultants, and every cell is UNAVAILABLE |
| Availability.SunlabSetup | sched_setup.py:88-98 | the desk's matrix exists and is indexed by the desk's 190 blocks |
| Availability.SearchLeft | sched_setup.py:121 | the index position of the first label at or after `x` |
| Availability.SearchLeftSplits | sched_setup.py:121 | on an increasing index, the labels below `x` are exactly those before that position |
| Availability.Slice | sched_setup.py:117-121 | the label slice with the end made exclusive holds exactly the blocks `t` with `start <= t < end` |
| Availability.SetCells | sched_setup.py:121 | writes the level into column `c` at exactly the listed labels; every other cell is kept |
| Availability.Overwrite | sched_setup.py:113-121 | a cell takes the new level iff it is in column `c` and in `[start, end)`; otherwise it keeps its value, and the shape is unchanged |
| Availability.AddHours | sched_setup.py:101-121 | succeeds iff both clock strings parse; then the consultant's column takes the level exactly on the blocks from the open time on that weekday up to, not including, the close time (on the next day when the close is earlier), and every other cell, the index and the columns are unchanged |
| Availability.FreshOverwriteChanges | sched_setup.py:117-121 | on a fresh matrix, the cells that change are exactly those in the range |
| Availability.NineToTenRange | sched_setup.py:117-118 | Monday `09:00`–`10:00` is the span 540–600 |
| Availability.MondayNineBlocks | sched_setup.py:117-118 | the blocks in that span are exactly 9:00 and 9:30, and 10:00 is a block too |
| Availability.NineToTenOnFresh | sched_setup.py:117-118 | that call changes the 9:00 and 9:30 cells only; the 10:00 cell stays UNAVAILABLE |
| Availability.LastWriteWins | sched_setup.py:121 | after two writes, a cell holds the later write's level if in its range, else the earlier one's, else the original |
| Availability.IndependentWritesCommute | sched_setup.py:121 | writes to different columns, or to disjoint ranges, commute |
| Availability.OverwriteIdempotent | sched_setup.py:121 | repeating a write changes nothing |
| RangeParser.Strip | read_csv.py:19 | `str.strip()`: the longest middle slice with no surrounding whitespace, where only whitespace was removed |
| RangeParser.Lower | read_csv.py:19 | `str.lower()` on ASCII: same length, no capital letter left, each capital replaced by its small letter, every other character kept |
| RangeParser.Normalize | read_csv.py:19 | definition: `strip()` then `lower()`; `RangeParser.NormalizeIdempotent` and `RangeParser.StripLower` state its laws |
| RangeParser.NormalizeIdempotent | read_csv.py:19 | stripping and lowering twice is the same as once |
| RangeParser.StripLower | read_csv.py:19 | stripping and lowering commute |
| RangeParser.TakeHour | read_csv.py:18 | `\d{1,2}` takes one or two digits greedily, and fails exactly when no digit comes first |
| RangeParser.TakeMinute | read_csv.py:18 | `(?::(\d{2}))?` takes `:` and two digits when present, and nothing otherwise |
| RangeParser.TakeStartPeriod | read_csv.py:18 | `([ap]m?)?` takes `a`, `p`, `am` or `pm`, preferring the longer |
| RangeParser.TakeSpace | read_csv.py:18 | ` ?` takes one space when present |
| RangeParser.TakeEndPeriod | read_csv.py:18 | `([ap]m)?` takes `am` or `pm` only |
| RangeParser.MatchStart | read_csv.py:18 | the start half is the exact concatenation of the groups it reports |
| RangeParser.MatchEnd | read_csv.py:18 | the end half is the exact concatenation of the groups it reports, and fails iff no digit follows the optional space |
| RangeParser.Match | read_csv.py:17-22 | definition: the start half, then the end half on what remains, reporting the six groups and the unmatched rest; `RangeParser.MatchSound` and `RangeParser.MatchComplete` relate it to rendering |
| RangeParser.MatchSound | read_csv.py:17-20 | a match's groups are well formed, and the input is their rendering followed by the unmatched rest |
| RangeParser.MatchComplete | read_csv.py:17-20 | rendering any well-formed groups with a rest the greedy parse stops at gives back exactly those groups |
| RangeParser.MatchesWhenPrefix | read_csv.py:17-22 | `re.match` anchors at the start only: any text after a well-formed range still matches |
| RangeParser.Convert24 | read_csv.py:13-22 | gives a result iff the stripped, lowered text matches the pattern |
| RangeParser.Hour24 | read_csv.py:33-41 | definition: `pm` adds 12 except to 12, `am` maps 12 to 0, anything else keeps the hour; `RangeParser.Hour24Reference` gives the independent case table |
| RangeParser.Clock24 | read_csv.py:28-43 | definition: the converted hour zero-padded, a colon, and the written minutes or `00`; `RangeParser.Clock24Parses` states what `strptime` reads back |
| RangeParser.Hour24Reference | read_csv.py:33-41 | with `am`/`pm`, the hour becomes `hour mod 12`, plus 12 for `pm` |
| RangeParser.Clock24Parses | read_csv.py:28-43 | the produced `HH:MM` reads back under `strptime` as the converted hour and minute when those are in range, and is rejected otherwise |
| RangeParser.OneDigitClock24 | read_csv.py:43 | a one-digit hour with no minutes is written as two zero-padded digits and `:00` |
| RangeParser.TwoDigitClock24 | read_csv.py:43 | a two-digit hour below 100 after conversion is written as two digits and `:00` |
| RangeParser.ConvertsExactly | read_csv.py:13-43 | a clean rendered range converts to the two converted clock strings |
| RangeParser.ConvertsWithTail | read_csv.py:17-43 | whenever the stripped, lowered answer is the text of well-formed groups followed by text the greedy match cannot extend, the result is the two converted clock strings; the trailing text is ignored |
| RangeParser.Convert24Identity | read_csv.py:13-43 | a range already written as `HH:MM-HH:MM` is returned unchanged |
| RangeParser.NineAmToTwoPm | read_csv.py:15 | `9am-2pm` gives `09:00` and `14:00` |
| RangeParser.TwelveAmToTwelvePm | read_csv.py:33-41 | `12am-12pm` gives `00:00` and `12:00` |
| RangeParser.BareSuffixIgnored | read_csv.py:33-36 | a bare `p` start suffix is accepted but not converted: `1p-5pm` gives `01:00` |
| RangeParser.ThirteenPm | read_csv.py:33-34 | `13pm` becomes `25:00`, which `strptime` rejects |
| RangeParser.CaseInsensitive | read_csv.py:19 | the conversion ignores letter case |
| RangeParser.SurroundingSpaceIgnored | read_csv.py:19 | whitespace around the range is ignored |
| ScheduleModel.PreferenceCostOrder | lp.py:21-26 | a more preferred level always costs strictly less |
| ScheduleModel.PreferenceCost | lp.py:21-26 | definition: preferable 0, neutral 1, not preferable 4 (unavailable cells have no variable) |
| ScheduleModel.Limits | lp.py:93-106 | generic bounds are 4 to 20 blocks (2 to 10 hours); per-consultant bounds come from the table and are missing exactly when the consultant is absent |
| ScheduleModel.MissingLimitsRejected | lp.py:101 | a consultant absent from the per-consultant table makes the problem unbuildable, so no solution is valid |
| ScheduleModel.DaySlots | lp.py:46-47 | a day's slots are exactly the index labels on that date |
| ScheduleModel.DaySlotsIncreasing | lp.py:46-47 | a day's slots keep the index order |
| ScheduleModel.NextInDayAt | lp.py:72-74 | the successor of slot `i` within a day is slot `i + 1` |
| ScheduleModel.Domain | lp.py:49-62 | definition: a 0/1 duty variable for exactly the available cells, and a 0/1 change variable for exactly those not on the index's last block |
| ScheduleModel.ChurnLinked | lp.py:70-77 | definition: for each consultant and each pair of neighbouring slots of one day where both duty variables exist, the change variable is at least their difference both ways |
| ScheduleModel.Covered | lp.py:84-86 | definition: every block's duty variables sum to 1; `ScheduleModel.ExactlyOneOnDuty` states the consequence |
| ScheduleModel.WithinBounds | lp.py:88-106 | definition: each consultant's limits exist and bracket their weekly duty total |
| ScheduleModel.DailyCapped | lp.py:108-112 | definition: each consultant has at most 10 duty blocks on each date of the index |
| ScheduleModel.Valid | lp.py:49-112 | definition: the variable domains and all four constraint families together; `ScheduleModel.ExactlyOneOnDuty`, `ScheduleModel.BoundsBracket` and `ScheduleModel.TightenValid` state its consequences |
| ScheduleModel.Cost | lp.py:64-81 | definition: preference cost of every duty variable plus 6 per change variable set; `ScheduleModel.TightenCost` relates two solutions' costs |
| ScheduleModel.OnDuty | lp.py:85-86 | the consultants whose duty variable at `t` equals 1 |
| ScheduleModel.BinaryColSum | lp.py:85-86 | with 0/1 variables, a block's variable sum counts the consultants on duty |
| ScheduleModel.ExactlyOneOnDuty | lp.py:85-86 | in a valid solution every block has exactly one consultant on duty, and that consultant is available there |
| ScheduleModel.InfeasibleIfUnstaffed | lp.py:84-86 | a block where nobody is available makes the problem infeasible |
| ScheduleModel.FreshMatrixInfeasible | lp.py:84-86 | a non-empty matrix with no availability added has no valid solution |
| ScheduleModel.TotalWithinLimits | lp.py:90-106 | per-consultant limits bracket the grand total of duty variables |
| ScheduleModel.BoundsBracket | lp.py:84-106 | in a valid solution, the sum of minimums is at most the number of blocks, which is at most the sum of maximums |
| ScheduleModel.GenericHeadcount | lp.py:93-96 | with generic bounds, `4 * consultants <= blocks <= 20 * consultants` |
| ScheduleModel.SunlabHeadcount | lp.py:93-96 | the desk's week can be valid with generic bounds only with 10 to 47 consultants |
| ScheduleModel.DailyHeadcount | lp.py:108-112 | under the daily cap, a day has at most `10 * consultants` blocks |
| ScheduleModel.TightenLinked | lp.py:71-77 | setting each change variable to the absolute difference it bounds satisfies every churn constraint |
| ScheduleModel.TightenBelowAt | lp.py:76-77 | that tightening never raises a change variable of a linked solution |
| ScheduleModel.TightenCost | lp.py:79-81 | tightening never raises the objective |
| ScheduleModel.TightenValid | lp.py:65-112 | a valid solution stays valid after tightening and costs no more |
| ScheduleModel.UnconstrainedDayEnd | lp.py:58-62 | the change variable of a day's last block is in no constraint: any 0/1 value keeps a solution valid |
| Shifts.LastAssigned | sched_format.py:44-49 | a block's consultant was assigned there; it is missing exactly when no variable for the block equals 1 |
| Shifts.LastAssignedIsLastOnDuty | sched_format.py:47-49 | when several write the same block, the last on duty in column order wins |
| Shifts.Fill | sched_format.py:44-49 | one row per block, in index order, holding an assigned consultant or None |
| Shifts.FillValid | sched_format.py:44-49 | for a valid solution, every row has a consultant, the only one on duty, who is available there |
| Shifts.ShiftOf | sched_format.py:72-79 | definition: a run's consultant and first start, ending 30 minutes after its last start; its contract gives the duration, and `Shifts.ShiftBounds` ties each grouped shift's fields to the input rows |
| Shifts.ShiftBounds | sched_format.py:72-79 | grouped shift `k` (before the sort by start) has the consultant and the start time of the first row of its run, and ends 30 minutes after the start of the run's last row |
| Shifts.AlternatingOnePerBlock | sched_format.py:60-79 | when every row starts a new shift (the consultant changes at every block, or the blocks are apart), there is one shift per row, and shift `k` is row `k`'s consultant from its start for 30 minutes |
| Shifts.Differs | sched_format.py:62 | definition: `!=` on the object-dtype column, true when either side is None |
| Shifts.Break | sched_format.py:60-66 | definition: the new-shift mask, a consultant change or a gap of more than 30 minutes; `Shifts.RunOfRows` and `Shifts.SameConsultantApart` state what it cuts |
| Shifts.RunShared | sched_format.py:60-66 | every row of a run has the run's consultant, and runs longer than one row have a consultant |
| Shifts.RunSpan | sched_format.py:65 | inside a run on the 30-minute grid, the `j`-th row is `30 * j` minutes after the first |
| Shifts.RunOfRows | sched_format.py:60-69 | each run is non-empty, has no break inside, and stays in time order |
| Shifts.ShiftCovers | sched_format.py:72-79 | every row of a run has the shift's consultant, and its time lies in the shift's `[start, end)` |
| Shifts.UnassignedAlone | sched_format.py:62 | since pandas treats `None != None` as true, an unassigned row is a 30-minute shift of its own |
| Shifts.SameConsultantApart | sched_format.py:60-66 | two neighbouring shifts of the same consultant are separated by a gap |
| Shifts.ShiftLength | sched_format.py:75-79 | a shift lasts 30 minutes per block of its run |
| Shifts.ValidShiftsStaffed | sched_format.py:44-79 | for a valid solution, every row of a shift has the shift's consultant as the only one on duty |
| Shifts.Insert | sched_format.py:82 | inserting into a start-sorted list keeps it sorted and adds exactly that shift |
| Shifts.SortByStart | sched_format.py:82 | `sort_values("start")`: sorted by start, and a permutation of the input |
| Shifts.SortKeepsSorted | sched_format.py:82 | sorting a sorted list changes nothing |
| Shifts.SortedArrangementUnique | sched_format.py:82 | with distinct starts, every sort gives the same list, so an unstable sort cannot differ |
| Shifts.Consolidate | sched_format.py:57-85 | the consolidated shifts are sorted by start and are exactly the grouped runs |
| Shifts.ConsolidateInOrder | sched_format.py:82 | on a chronological index the runs already have increasing starts, so the sort leaves them in run order |
| Runs.CutsBelow | sched_format.py:60-69 | the positions below `n` where the mask is true, in ascending order, starting at 0 |
| Runs.Cuts | sched_format.py:60-69 | the positions where `cumsum` steps up: exactly the first row and every break |
| Runs.PiecesPartition | sched_format.py:60-72 | the groups are non-empty and lay end to end back into the input; no break occurs inside a group, and one separates neighbouring groups |
| Runs.AllBreaks | sched_format.py:60-72 | when the mask is true at every row, `cumsum` steps at every row: there are as many groups as rows, and group `k` is row `k` alone |
| Text.LStrip | sched_format.py:108 | `lstrip("0")`: a suffix that does not start with `0`, where only `0`s were removed |
| Text.ReplaceAll | sched_format.py:108 | definition: non-overlapping left-to-right replacement; `Text.ReplaceSkips`, `Text.ReplaceLeading` and `Text.ReplaceNothing` state its laws |
| Text.ReplaceSkips | sched_format.py:108 | `replace` copies through text that lacks the pattern's first character |
| Text.ReplaceLeading | sched_format.py:108 | `replace` rewrites a leading occurrence of the pattern |
| Text.ReplaceNothing | sched_format.py:108 | `replace` leaves text without the pattern's first character unchanged |
| Text.LessIrreflexive | sched_format.py:113 | no string sorts before itself |
| Text.LessTransitive | sched_format.py:113 | string order is transitive |
| Text.LessTotal | sched_format.py:113 | any two different strings are ordered exactly one way |
| Text.InsertKey | sched_format.py:113 | adding a key keeps the key list ascending, with exactly the old keys plus the new one |
| Text.AscendingUnique | sched_format.py:113 | two ascending key lists with the same keys are equal |
| Report.Weekday | sched_format.py:92 | the weekday index of a timestamp is from 0 (Monday) to 6 |
| Report.DayNamesDistinct | sched_format.py:92-95 | `%A` names of two weekdays are equal iff the weekdays are |
| Report.DayName | sched_format.py:92 | definition: `%A` of a timestamp, the name of its weekday; `Report.DayNamesDistinct` shows names differ exactly when weekdays do |
| Report.ByDayGroups | sched_format.py:89-95 | the day groups list every shift once, in order; each shift sits under its own weekday's heading; neighbouring headings differ |
| Report.LaterHeadingLaterDate | sched_format.py:91-95 | in a start-ordered week, a later heading begins on a strictly later date |
| Report.HeadingsDiffer | sched_format.py:91-95 | in a start-ordered week, two different headings never carry the same day name |
| Report.HeadingsOnce | sched_format.py:91-95 | a start-ordered week prints each weekday heading at most once |
| Report.DayLine | sched_format.py:97-99 | definition: start and end as `%H:%M`, a dash, a space and the consultant; `Report.DayLineTimes` shows both times read back |
| Report.DayLineTimes | sched_format.py:97-99 | both `%H:%M` fields of a weekday-view line read back as the shift's start and end times of day |
| Report.Names | sched_format.py:113 | `groupby(consultant)` keys: ascending, and exactly the consultants with a shift; None forms no group |
| Report.ShiftsOf | sched_format.py:113-115 | a consultant's group holds exactly their shifts, and keeps increasing starts |
| Report.ByConsultant | sched_format.py:113-119 | one group per key in key order, each a start-sorted permutation of that consultant's shifts |
| Report.ByConsultantGroups | sched_format.py:113-119 | groups are in ascending name order; every assigned consultant has one; a shift is in a group iff it is that consultant's |
| Report.ByConsultantInOrder | sched_format.py:119 | on consolidated shifts, each group lists its shifts exactly in schedule order |
| Report.NamesDetermined | sched_format.py:113 | the key order is fixed by the set of consultants alone |
| Report.Hour12 | sched_format.py:107 | `%I`: from 1 to 12, and congruent to the 24-hour hour mod 12 |
| Report.Verbose | sched_format.py:107 | `%I:%M%p`: seven characters, a two-digit hour from 1 to 12 congruent to the 24-hour hour mod 12, a colon, the two-digit minutes, and `AM` exactly before noon, else `PM` |
| Report.StripPaddedHour | sched_format.py:108 | stripping zeros from a padded hour from 1 to 12 leaves the plain hour |
| Report.ReplaceMinutes | sched_format.py:108 | removing `:00` drops the minutes exactly when they are zero |
| Report.StripAndReplace | sched_format.py:108 | strip then replace on `%I:%M%p` gives the plain hour, the minutes unless zero, then the suffix |
| Report.CompactCore | sched_format.py:107-108 | the whole pipeline, lowering included, on any hour, minutes and suffix |
| Report.FormatTime | sched_format.py:105-110 | definition: `%I:%M%p`, then `lstrip("0")`, `replace(":00", "")` and `lower()`; `Report.FormatTimeCompact` states its result |
| Report.CompactTime | sched_format.py:108 | the intended reading, defined independently: hour without a leading zero, `:MM` only when non-zero, `am` or `pm`; `Report.FormatTimeCompact` proves `format_time` equals it |
| Report.FormatTimeCompact | sched_format.py:105-110 | `format_time` is the compact reading for every time of day: hour without a leading zero, `:MM` only when non-zero, then `am`/`pm` |
| Report.NineAm | sched_format.py:105-110 | 9:00 prints as `9am` |
| Report.HalfPastTwoPm | sched_format.py:105-110 | 14:30 prints as `2:30pm` |
| Report.MidnightAndNoon | sched_format.py:105-110 | midnight prints as `12am` and noon as `12pm` |
| Report.ConsultantLine | sched_format.py:120-123 | definition: `%a`, a space, the formatted start, a dash and the formatted end; `Report.ConsultantLineCompact` gives its compact form |
| Report.ConsultantLineCompact | sched_format.py:120-123 | a consultant-view line is `%a`, then the compact start, `-`, and the compact end |

## Left out

- Solving: `prob.solve()` and the solver status are not modelled. `create_schedule` is modelled
  as the set of valid solutions plus the objective. Optimality is not modelled, except that
  tightening the change variables never raises the objective.
- I/O: `parse_availability`, `main.py`, every `print`, the `__main__` blocks, and CSV reading.
  The views are modelled as data (groups and lines), not as printed text.
- `date.today()` is replaced by a fixed origin: minute 0 is midnight starting Monday of the
  current week.
- The fair-share allocation of weekly hours has no implementation in the code. Per-consultant
  limits are taken as given.
- Floating point: `value(x) == 1` is modelled on integer variables, and the `minutes_diff / 30`
  float division as integer floor division, which agrees on the half-hour grid.
- Availability.Overwrite: requires that the consultant is a column and that the index increases.
  In pandas, a new label would add a column of NaN, and a non-monotonic index changes how the
  label slice behaves.
- Availability.AddHours: same requirements as `Overwrite`, for the same reason.
- Availability.FromLevel: codes other than 0 to 3 are not levels. The code would store any integer.
- RangeParser.Lower: lowers ASCII letters only. Non-ASCII lowering never produces a character the
  pattern looks at.
- RangeParser.TakeHour: `\d` is modelled as ASCII digits only, not every Unicode decimal digit.
- RangeParser.TakeMinute: the same ASCII-only reading of `\d`.
- RangeParser.MatchEnd: the same ASCII-only reading of `\d`, for both the end hour and the end minutes.
- Clock.ParseClock: `strptime("%H:%M")` accepts any Unicode decimal digit; the model accepts ASCII digits only.
- Text.ReplaceAll: requires a non-empty pattern. The code only replaces `:00`.
- Report.DayLine: a shift with no consultant is printed as `None`. This never arises for a valid
  solution (`Shifts.FillValid`).
- Shifts.SortByStart: a stable insertion sort stands in for pandas' default quicksort. Ties
  cannot arise, because consolidated shifts have distinct starts (`Shifts.ConsolidateInOrder`,
  `Shifts.SortedArrangementUnique`).
- ScheduleModel.WithinBounds: a consultant missing from the per-consultant limits table makes
  `feasible_blocks[c]` raise `KeyError` before any problem is built. The model has no exceptions,
  so it states this as an empty set of valid solutions (`ScheduleModel.MissingLimitsRejected`),
  which cannot be told apart from an infeasible problem.
- ScheduleModel.Cost: sums over the consultant and block sequences as given. Duplicate column or
  index labels are not modelled.
- Report.ConsultantLine: the end time is read modulo one day, the same as `%I:%M%p` of a
  timestamp at midnight.
