# habit-cli core, modelled in Dafny

This project models the core of the `habits` command-line habit tracker
(`habits.go`). A habit has a name, an optional short name and a list of
completion dates written `YYYY-MM-DD`. The model covers:

- the habit lookup (`findHabit`);
- the record updates made by `add`, `done`, `remove`, `delete`, `edit` and
  `import`;
- the two reminder filters and the two short-name helpers;
- the streak calculator and the completion-rate counter;
- the start days and cells of the tracker grid, the per-day counts of the
  aggregate grid, the row layout and the colour shade of each cell;
- the statistics table: per-habit figures, ranking by current streak, paging
  ten rows at a time, and name truncation.

Days are integers: day 0 is 0001-01-01 and weekdays follow the proleptic
Gregorian calendar, with Sunday = 0 as in Go. "Today" is a parameter
wherever the program reads the clock. `Key(n)` is Go's `Format("2006-01-02")`
and `Parse(s)` is `time.Parse` with that layout. Their round trip is proved:
`Parse(s) == Some(n)` exactly when `s == Key(n)` and the year lies in
0..9999.

Modules, one per file:

- `Calendar` (calendar.dfy): the calendar arithmetic the program gets from
  Go's `time` package.
- `Wrappers`, `Text` (text.dfy): `Option` and the string functions the
  program uses, over ASCII.
- `DateKey` (datekey.dfy): `Key` and `Parse`.
- `Sorting` (sorting.dfy): sorting by a total preorder, standing for
  `sort.Slice` and `sort.Strings`.
- `Streak` (streak.dfy): `calculateStreak`.
- `Completion` (completion.dfy): `calculateCompletionRate`.
- `Store` (store.dfy): the habit list as a class `HabitStore` whose methods
  update its `habits` field. Each method is tied to a pure result function
  (`AddResult`, `MarkDoneResult`, ...), and the lemmas state what those
  functions guarantee.
- `Grid` (grid.dfy): start days, grid cells, daily counts, rows and shades.
- `Stats` (stats.dfy): the statistics bundle, the ranking, the pages and
  truncation.

Where the code and the stated design differ, the model follows the code:

- `calculateStreak` does not remove repeated dates. A repeated day ends a run
  (`Streak.RepeatedDayExample`).
- The aggregate count for a day counts date entries, not distinct habits. The
  two agree when no habit repeats a date (`Grid.OccurrencesOfDistinct`,
  `Grid.RepeatCountsTwice`).
- A merge import compares exact names, so it can bring in a name that differs
  only in case (`Store.MergeKeepsCaseVariants`).
- The year view starts where `calculateStartDate` as written puts it:
  today - 364 on a Sunday, so the year grid then ends yesterday
  (`Grid.RangeLayout`, `Grid.YearRangeMissesToday`), and today - 357 on other
  days. The start the design describes is modelled beside it
  (`Grid.YearStart`, `Grid.IntendedRangeLayout`); see "## Findings".

## Model

| member | source | states |
|---|---|---|
| Calendar.DaysInYear | habits.go:564-567 | a year has 365 or 366 days, 366 exactly in leap years (divisible by 4, and not by 100 unless by 400) |
| Calendar.DaysInMonth | habits.go:740-744 | a month has 28 to 31 days; February has 29 exactly in leap years |
| Calendar.Civil | habits.go:740-744 | every day number has a valid calendar date whose day number is that day |
| Calendar.CivilOfDayNumber | habits.go:740-744 | converting a valid date to its day number and back gives the date |
| Calendar.DayNumberInjective | habits.go:740-744 | distinct valid dates have distinct day numbers |
| Calendar.Weekday | habits.go:522 | the weekday is 0..6 |
| Calendar.YearDay | habits.go:534-535 | the day of the year lies between 1 and the length of the year |
| Calendar.YearDayOf | habits.go:534-535 | a date's year and day of the year are its own year and the days before its month plus its day |
| Calendar.YearDayOrder | habits.go:538 | one day is before another exactly when its (year, day of year) pair is lexicographically smaller |
| Text.Decimal | habits.go:912 | `strconv.Itoa`: one or more digits, one exactly below 10 |
| Text.ParseDecimal | habits.go:233 | `strconv.Atoi` reads back what `strconv.Itoa` writes |
| Text.DecimalInjective | habits.go:912 | distinct positions get distinct decimal strings |
| Text.TrimSpace | habits.go:251 | the result has no white space at either end and is empty exactly when the input is all white space |
| Text.Fields | habits.go:195 | every word returned is non-empty and free of white space |
| Text.StrLeTotal | habits.go:446 | byte order compares any two strings |
| Text.StrLeTransitive | habits.go:446 | byte order is transitive |
| Text.StrLeAntisymmetric | habits.go:446 | strings ordered both ways are equal |
| DateKey.Key | habits.go:432 | the key of a day in years 0..9999 has 10 characters |
| DateKey.ParseKey | habits.go:417 | parsing the key of a day in years 0..9999 gives the day |
| DateKey.KeyOfParse | habits.go:417 | a string that parses is the key of the day it parses to |
| DateKey.ParseIffKey | habits.go:937 | `Parse(s) == Some(n)` exactly when s is the key of n and n's year is in 0..9999 |
| DateKey.KeyInjective | habits.go:432 | distinct days in years 0..9999 have distinct keys |
| DateKey.KeyDayRange | habits.go:432 | the day-number range that keys cover is exactly the years 0..9999 |
| Sorting.Sort | habits.go:945-947 | the result is ordered and a permutation of the input |
| Sorting.SortedUnique | habits.go:446 | under an antisymmetric order, two ordered permutations of the same list are equal |
| Sorting.SortedIntsUnique | habits.go:945-947 | sorting days has exactly one result |
| Streak.ParseAll | habits.go:934-942 | the parse loop keeps exactly the entries that parse, in list order |
| Streak.ParsedDaysMembers | habits.go:934-942 | a day is among the parsed days exactly when some entry parses to it |
| Streak.CurrentStreak | habits.go:955-971 | the backward walk returns 0 when the latest day is before yesterday, otherwise the length of the run of consecutive days ending at the latest day |
| Streak.LongestStreak | habits.go:973-1003 | the forward scan returns the length of the longest run of consecutive days |
| Streak.CalculateStreak | habits.go:929-1004 | the streak is 0 for an empty list, and otherwise the current or longest run of the sorted parsed days |
| Streak.TailRun | habits.go:962-971 | the final run is at most the whole list and empty only for an empty list |
| Streak.TailRunIsRun | habits.go:962-971 | the final run is consecutive and cannot be extended to the left |
| Streak.TailRunMaximal | habits.go:962-971 | no run reaching the end is longer than the final run |
| Streak.LongestRunIsMaximal | habits.go:980-1001 | no run of consecutive days is longer than the longest streak |
| Streak.LongestRunAttained | habits.go:980-1001 | some run of consecutive days is exactly as long as the longest streak |
| Streak.LongestStreakBounds | habits.go:973-1003 | the longest streak is 0 exactly when no entry parses; otherwise it is between 1 and the number of parsed entries |
| Streak.CurrentWithinLongest | habits.go:955-1003 | the current streak never exceeds the longest; when non-zero the latest day is yesterday or later |
| Streak.CurrentStreakZero | habits.go:955-958 | the current streak is 0 exactly when every entry that parses is before yesterday |
| Streak.ConsecutiveDates | habits.go:929-1004 | n consecutive dates give a longest streak of n, and a current streak of n when the last is yesterday or later |
| Streak.StreaksOfOrdered | habits.go:945-947 | when the parsed days are already in order, sorting changes nothing |
| Streak.ThreeDaysExample | habits.go:929-1004 | three consecutive January 2024 dates give streaks of 3 |
| Streak.GapExample | habits.go:929-1004 | a one-day gap gives streaks of 1 |
| Streak.RepeatedDayExample | habits.go:929-1004 | a repeated date breaks the run: 01, 02, 02, 03 gives 2, not 3 |
| Completion.CountWindow | habits.go:1023-1031 | the day loop counts the days from start to today and those among them found done |
| Completion.CountRecorded | habits.go:1012-1031 | the counts use the set of distinct recorded dates |
| Completion.CompletionCounts | habits.go:1007-1031 | an empty list gives no counts; otherwise `period` days ending today are visited |
| Completion.WindowOfPeriod | habits.go:1019-1025 | a period of at least one day visits exactly that many days; a period of 0 or less visits none |
| Completion.RateBounds | habits.go:1033-1037 | the rate is a percentage, 100 exactly when every visited day is done, 0 exactly when none is |
| Completion.CompletionRateBounds | habits.go:1007-1038 | the completion rate is within 0..100, and 0 for an empty list or an empty window |
| Completion.FullAndEmptyWindows | habits.go:1007-1038 | the rate is 100 exactly when every day of the window has its key recorded, and 0 exactly when none has |
| Completion.OnlyDistinctDatesCount | habits.go:1012-1015 | lists with the same members have the same rate, however often a date repeats |
| Store.FirstMatch | habits.go:240-246 | the name or short-name search returns -1 or an index at or after its starting point |
| Store.FirstMatchSpec | habits.go:240-246 | the search returns the first habit whose name matches ignoring case or whose short name matches exactly, and -1 exactly when none does |
| Store.FindSpec | habits.go:231-248 | a 1-based position in range wins; otherwise the first match by name or short name; otherwise -1 |
| Store.FindByPosition | habits.go:233-238 | the decimal position i+1 always finds habit i |
| Store.FindSameNames | habits.go:231-248 | the lookup depends only on names and short names, not on dates |
| Store.SuggestShortName | habits.go:193-211 | the loop builds the lower-cased initials of the words, filtered to short-name characters, or "habit" when nothing is left |
| Store.SuggestedIsValid | habits.go:193-211 | a suggested short name always matches `^[a-z0-9_-]+$` |
| Store.InitialsOfWords | habits.go:197-202 | when every word starts with a letter or digit, the initials are those first characters lower-cased, one per word |
| Store.KeepShortNameChars | habits.go:205-206 | the filter keeps only characters in `[a-z0-9_-]` |
| Store.EnsureUniqueShortName | habits.go:214-229 | the result is the initial name when it is free, otherwise the initial name numbered with the smallest k >= 2 whose result is free |
| Store.UniqueShortNameDetermined | habits.go:214-229 | that characterisation fixes the result uniquely |
| Store.NumberedInjective | habits.go:224 | distinct counters give distinct numbered names |
| Store.NumberedBelowSize | habits.go:221-227 | the candidates tried before counter n number n - 2, so the loop ends within the number of habits plus one tries |
| Store.ShortNamesOf | habits.go:216-219 | the collected set is exactly the habits' short names |
| Store.TargetDate | habits.go:410-432 | the target date is refused only as invalid or as future |
| Store.TargetDateSpec | habits.go:410-432 | the chosen day is never after today; a typed date is chosen as typed, and refused as invalid exactly when it does not parse |
| Store.SortStrings | habits.go:446 | the dates come back in byte order and as a permutation |
| Store.Without | habits.go:1545-1554 | the key is gone and every other date keeps its count |
| Store.FilterDates | habits.go:1545-1554 | the filter loop reports whether the key was there and returns the dates without it |
| Store.HabitStore.constructor | habits.go:146-179 | the store holds the loaded habits |
| Store.HabitStore.FindHabit | habits.go:231-248 | the loop returns the index the lookup specifies |
| Store.HabitStore.NameTaken | habits.go:258-263 | the loop reports whether another habit has the name, ignoring case |
| Store.HabitStore.ShortNameTaken | habits.go:1297-1302 | the loop reports whether another habit has the short name |
| Store.HabitStore.Add | habits.go:250-278 | the new list and status are those of `AddResult` |
| Store.AddSpec | habits.go:250-278 | adding succeeds exactly when the trimmed name is non-empty and no habit has it ignoring case; then it appends one habit with no short name and no dates, otherwise nothing changes; names stay distinct ignoring case |
| Store.AddedIsFound | habits.go:231-278 | a habit just added is found by its name, unless the name reads as a position or is another habit's short name |
| Store.HabitStore.MarkDone | habits.go:399-446 | the new list and status are those of `MarkDoneResult` |
| Store.MarkDoneSpec | habits.go:399-446 | on success only the found habit changes: it gains exactly the chosen day's key, which it lacked, and its dates are in order; a recorded day is refused; on refusal nothing changes |
| Store.MarkDoneRecordsTypedDate | habits.go:410-446 | a date typed with --date is recorded exactly as typed |
| Store.MarkDoneNoRepeats | habits.go:434-446 | marking done never creates a repeated date |
| Store.HabitStore.RemoveDate | habits.go:1505-1561 | the new list and status are those of `RemoveResult` |
| Store.RemoveSpec | habits.go:1505-1561 | on success only the found habit changes: the chosen day's key, which it held, is gone and every other date keeps its count; an unrecorded day is refused without change |
| Store.WithoutKeepsOrder | habits.go:1548-1554 | removal keeps the remaining dates in their order |
| Store.WithoutSorted | habits.go:1548-1554 | removal from an ordered list leaves it ordered |
| Store.DatesRoundTrip | habits.go:434-446 | adding an absent key to an ordered list, sorting and removing it gives the list back |
| Store.DatesRoundTripBack | habits.go:1545-1557 | removing a key from an ordered list without repeats and adding it back gives the list back |
| Store.MarkDoneThenRemove | habits.go:434-446 | `done` then `remove` with the same arguments restores an ordered list |
| Store.RemoveThenMarkDone | habits.go:1545-1557 | `remove` then `done` with the same arguments restores an ordered list without repeats |
| Store.HabitStore.Delete | habits.go:466-500 | the new list and status are those of `DeleteResult` |
| Store.DeleteSpec | habits.go:466-500 | not found exactly when no habit matches; deleted exactly when a habit is found and the answer is "y"/"yes", and then only that habit is cut out and the others keep their order; cancelled exactly on any other answer; names stay distinct |
| Store.HabitStore.Edit | habits.go:1244-1312 | the new list and status are those of `EditResult` |
| Store.EditSpec | habits.go:1266-1307 | each outcome exactly when it happens: not found, nothing to change, a name taken by another habit ignoring case, a short name not matching the pattern, a short name another habit has, and success otherwise; on success only the found habit changes: its name and short name become the values given, the others stay, and its dates stay |
| Store.EditKeepsNamesDistinct | habits.go:1273-1307 | names stay distinct ignoring case and short names stay distinct, however the edit ends |
| Store.HabitStore.Import | habits.go:1428-1448 | the new list is the one `ImportResult` gives: a replacement or a merge |
| Store.ImportMergeSpec | habits.go:1429-1441 | a merge keeps the existing habits in front and appends exactly the imported habits whose exact name is new, in their order |
| Store.NewHabitsMembers | habits.go:1436-1441 | a habit is appended exactly when it is imported and its name is not among the existing names |
| Store.MergeKeepsCaseVariants | habits.go:1431-1441 | merging "run" into a list holding "Run" leaves two names equal ignoring case |
| Store.NamesOf | habits.go:1431-1434 | the collected set is exactly the existing names |
| Store.HabitStore.CheckReminders | habits.go:878-896 | the loop lists, in order, the names of habits not done today |
| Store.HabitStore.CheckRemindersWithIndices | habits.go:898-917 | the loop lists, in order, the 1-based position and name of each habit not done today |
| Store.Contains | habits.go:881-887 | the inner loop finds today's key exactly when the list holds it |
| Store.IndexedRemindersNames | habits.go:878-917 | both reminder functions list the same names |
| Store.IndexedRemindersSpec | habits.go:898-917 | every listed position finds a habit not done today with the listed name, and every such habit is listed |
| Store.DoneTodayNotReminded | habits.go:399-917 | a habit just marked done for today is no longer among the reminders |
| Grid.MonthStartSpec | habits.go:740-744 | the month start is the first of today's month, at most today, and the 35 cells reach past the month's end |
| Grid.WeekStartSpec | habits.go:746-752 | the week start is a Sunday, within the 7 days ending today |
| Grid.Last30Spec | habits.go:755-758 | the window starts 29 days before today, and its 5 weeks end 5 days after today |
| Grid.DaysToAddIsDistance | habits.go:538-554 | when the end day is before today and at most a year earlier, the adjustment is the distance to today plus 7 |
| Grid.YearStartAsWrittenValue | habits.go:512-561 | `calculateStartDate` as written gives today - 364 on a Sunday and today - 357 otherwise |
| Grid.YearGridMissesSunday | habits.go:512-561 | on a Sunday the 52-week grid as written ends yesterday and leaves today out |
| Grid.YearStartOffSunday | habits.go:512-561 | on any other day the start as written falls on today's weekday, not on a Sunday |
| Grid.YearStartSpec | habits.go:511 | the corrected start is a Sunday and its 52 weeks contain today, in the last week |
| Grid.RangeLayout | habits.go:702-718 | an unknown range lays out no weeks; the year range starts at `calculateStartDate` as written |
| Grid.RangeShowsToday | habits.go:702-718 | each known range ("year", "month", "week", "last30") lays out cells that include today, except the year range on a Sunday |
| Grid.YearRangeMissesToday | habits.go:705-708 | on a Sunday the year range as laid out ends the day before today |
| Grid.IntendedRangeShowsToday | habits.go:511 | with the intended year start every known range includes today on every day of the week |
| Grid.Cell | habits.go:726-731 | a cell carries its day and is in the future exactly when the day is after today |
| Grid.BuildGrid | habits.go:720-734 | the grid has numWeeks * 7 cells, cell i for day start + i |
| Grid.LayOut | habits.go:723-734 | the day loop lays out one cell per day from the start |
| Grid.CellMarks | habits.go:726-731 | a single-habit cell is done exactly when its key is recorded; an aggregate cell counts its key |
| Grid.CompletedDates | habits.go:695-698 | the map of completed dates holds exactly the recorded dates |
| Grid.SingleCellDone | habits.go:695-731 | a single-habit cell is done exactly when the habit's list holds the day's key |
| Grid.DailyCounts | habits.go:819-826 | the nested loops count, for every key, the entries equal to it over all habits |
| Grid.OccurrencesOfDistinct | habits.go:819-826 | without repeated dates the count is the number of habits done that day |
| Grid.RepeatCountsTwice | habits.go:819-826 | a habit that repeats a date counts twice for that day |
| Grid.SquaresPerLine | habits.go:581-584 | at least one square per row |
| Grid.Rows | habits.go:589-593 | the row loop produces the row ranges `RowsFrom` defines |
| Grid.RowsSpec | habits.go:589-593 | rows are non-empty, adjacent, cover 0..n, hold perLine cells except the last, and number n / perLine rounded up |
| Grid.AggregateShade | habits.go:611-622 | an aggregate cell's shade level is the day's entry count capped at 3, and it is empty exactly when no habit holds the key |
| Grid.ShadeMonotone | habits.go:611-622 | a higher count never gets a lighter shade |
| Grid.OccurrencesZero | habits.go:819-826 | the count is 0 exactly when no habit holds the key |
| Stats.CompletionRateOf | habits.go:1007-1038 | the rate the day loop yields is the completion rate, within 0..100 |
| Stats.CollectOne | habits.go:1097-1111 | one bundle holds both streaks and the 7-, 30- and 365-day rates of a habit, and its figures are consistent |
| Stats.CollectStats | habits.go:1096-1111 | one bundle per habit, in list order |
| Stats.StatsPlausible | habits.go:1096-1111 | current streak <= longest streak <= entries, every rate within 0..100, and all zero for an empty list |
| Stats.RankByStreak | habits.go:1113-1116 | the ranking is a permutation of the bundles with current streaks non-increasing |
| Stats.TopOfRanking | habits.go:1113-1116 | the first row has the highest current streak of all |
| Stats.StreaksPermuted | habits.go:1113-1116 | permuting the bundles permutes the streak column |
| Stats.StreakColumnDetermined | habits.go:1113-1116 | any two rankings show the same streak column, row by row, though ties may come in either order |
| Stats.TiesEitherWay | habits.go:1113-1116 | two bundles with equal streaks are correctly ranked in either order |
| Stats.TotalPagesSpec | habits.go:1121 | the page count is n / 10 rounded up: enough pages for every row, the last page non-empty, and none for no rows |
| Stats.Pages | habits.go:1124-1172 | one page for up to ten rows, otherwise the page count; pages are adjacent, cover all rows, hold ten rows except the last, and row i is on page i / 10 |
| Stats.PagesCover | habits.go:1138-1142 | full pages of ten and a last page ending at n put every row on page i / 10 |
| Stats.Truncate | habits.go:1191-1193 | a shown name has at most 22 characters, equals the name exactly when the name fits, and is otherwise its first 19 characters plus "..." |
| Stats.TruncateIdempotent | habits.go:1191-1193 | truncating twice is truncating once |
| Stats.TruncateMerges | habits.go:1191-1193 | two long names with the same first 19 characters show alike |

## Left out

- Reading and writing the JSON data file (`loadData`, `saveData`, `export`) is
  I/O. The store starts from a loaded list, and a save error is not modelled.
- The clock is a parameter (`today`). The UTC `Truncate(24h)` in
  `calculateStreak` versus local time elsewhere, time zones and daylight
  saving inside `AddDate` are left out: every day is a whole calendar day.
- Terminal width detection, ANSI colours and all printing are left out. The
  row layout takes the width as a number; `printGrid`'s squares and the
  legend are modelled as shades.
- Interactive input is left out. The delete confirmation is a parameter
  (`answer`). The "press Enter" waits between pages are not modelled; the
  page loop always goes on.
- Command-line flag parsing, argument joining and `main` are left out. The
  identifier, `--date`, `--name`, `--short` and `--merge` values are
  parameters.
- Strings are sequences of characters, not UTF-8 bytes. Case folding and
  white space are ASCII only, and `unicode.IsLetter` is ASCII letters. Go's
  `len` and the slice in name truncation count bytes, so a multi-byte name
  can be cut mid-character; the model counts characters.
- `strconv.Atoi` fails in Go on values outside 64 bits. `Text.ParseInt`
  accepts any length, so a huge numeric identifier is a position here and
  a name lookup in Go.
- The rates are exact rationals, not 64-bit floats. The `int(rate*7/100)`
  day counts printed in the table are not modelled.
- Stats.RankByStreak: `sort.Slice` is not stable, so its output among equal
  streaks is not determined. The model picks one ranking. What holds of
  every ranking is stated through `RankedByStreak`.
- Store.EditResult: when a new name passes but the short name is refused,
  Go has already renamed the habit in memory and exits without saving. The
  model returns that in-memory list; what is saved is unchanged.
- Go distinguishes a nil from an empty date slice (the remove filter can
  leave nil); both are the empty sequence here.
- The habit's `ReminderInfo` map is never read or changed by the core and is
  not modelled.
- The `day` range (`showDayView`) prints a list and builds no grid; it is
  not modelled. The grid takes `today` for the "is in the future" check,
  where Go compares with a fresh `time.Now()`.
- `calculateStreak` gives the same result whichever of equal parsed days
  comes first, so its use of `sort.Slice` is modelled as one ascending
  sort.

## Findings

| source | as written | input that shows it | evidently intended | confidence | as-written member | corrected member |
|---|---|---|---|---|---|---|
| habits.go:512-561 | `calculateStartDate` returns today - 364 on a Sunday, so the 52-week year grid ends yesterday and leaves today out; on other days it returns today - 357, which is not a Sunday | today = 2024-01-07, a Sunday: the grid runs from 2023-01-08 to 2024-01-06 | a Sunday start whose 52 weeks include today, as its comment says; the view ranges with that start are `Grid.IntendedRangeLayout` | not executed | Grid.YearGridMissesSunday | Grid.YearStartSpec |
