/**
 * The contribution grid: the first day each view range starts on, the loop
 * that lays out one cell per day from there (`commandView`,
 * `commandViewAggregate`, `showHabitGrid`), the per-day entry counts the
 * aggregate view reads (`dailyCounts`), the split of the cells into printed
 * rows and the colour each cell gets (`printGrid`).
 *
 * Today is a parameter.  A grid cell's date is a day number; a cell is in the
 * future when its day is after today.
 */
module Grid {
  import opened Calendar
  import opened DateKey
  import opened Store

  // ---------------------------------------------------------------------
  // Start days

  /** `calculateMonthStartDate`: the first day of today's month. */
  function MonthStart(today: int): int {
    var c := Civil(today);
    DayNumber(Date(c.year, c.month, 1))
  }

  /** `calculateWeekStartDate`: the Sunday on or before today. */
  function WeekStart(today: int): int {
    today - Weekday(today)
  }

  /** `calculateLast30DaysStartDate`: 29 days before today. */
  function Last30Start(today: int): int {
    today - 29
  }

  /** The month start is day 1 of today's month, and the 35 days from it hold
      every day of that month, today included. */
  lemma MonthStartSpec(today: int)
    ensures var c := Civil(today);
      && Civil(MonthStart(today)) == Date(c.year, c.month, 1)
      && MonthStart(today) <= today < MonthStart(today) + DaysInMonth(c.year, c.month)
      && DaysInMonth(c.year, c.month) <= 35
  {
    var c := Civil(today);
    CivilOfDayNumber(Date(c.year, c.month, 1));
  }

  /** The week start is a Sunday at most six days before today, so the
      one-week grid holds today. */
  lemma WeekStartSpec(today: int)
    ensures Weekday(WeekStart(today)) == 0
    ensures WeekStart(today) <= today < WeekStart(today) + 7
  {
  }

  /** The last-30 grid runs 35 days from 29 days ago: today is its 30th cell
      and its last five cells are after today. */
  lemma Last30Spec(today: int)
    ensures Last30Start(today) + 29 == today
    ensures Last30Start(today) + 5 * 7 - 1 == today + 5
  {
  }

  /** How many days `calculateStartDate` moves the start forward when the
      end of the 52 weeks is before today: the days left in the end's year
      plus today's day of the year when the years differ, the difference of
      the days of the year otherwise, and a week more. */
  function DaysToAdd(endDate: int, today: int): int {
    var daysToAdd :=
      if YearOf(endDate) < YearOf(today) then (DaysInYear(YearOf(endDate)) - YearDay(endDate)) + YearDay(today)
      else YearDay(today) - YearDay(endDate);
    daysToAdd + 7
  }

  /** `calculateStartDate` as written: go back 52 weeks, then back to that
      week's Sunday; when the 52 weeks from there end before today, move the
      start forward by DaysToAdd. */
  function YearStartAsWritten(today: int): int {
    var weeksToGoBack := 52;
    var oneYearAgo := today - weeksToGoBack * 7;
    var dayOfWeek := Weekday(oneYearAgo);
    var startDate := if dayOfWeek != 0 then oneYearAgo - dayOfWeek else oneYearAgo;
    var endDate := startDate + weeksToGoBack * 7;
    if YearOf(endDate) < YearOf(today) || (YearOf(endDate) == YearOf(today) && YearDay(endDate) < YearDay(today)) then
      startDate + DaysToAdd(endDate, today)
    else startDate
  }

  /** Across at most one new year, DaysToAdd is the distance from the end
      to today plus a week: the leap-year rule gives the length of the end's
      year. */
  lemma DaysToAddIsDistance(endDate: int, today: int)
    requires endDate < today && YearOf(today) <= YearOf(endDate) + 1
    ensures DaysToAdd(endDate, today) == today - endDate + 7
  {
    YearOfBounds(endDate);
    YearOfBounds(today);
    YearDayOrder(endDate, today);
    if YearOf(endDate) < YearOf(today) {
      NextYear(YearOf(endDate));
    }
  }

  /** Days less than a year apart are at most one new year apart. */
  lemma CloseYears(a: int, b: int)
    requires a <= b < a + 365
    ensures YearOf(b) <= YearOf(a) + 1
  {
    YearOfBounds(a);
    YearOfBounds(b);
    YearsApart(YearOf(a), YearOf(b), a, b);
  }

  /** A day of year ya and a later day of year yb less than a year after it
      put yb at most one year after ya. */
  lemma YearsApart(ya: int, yb: int, a: int, b: int)
    requires a < DaysBeforeYear(ya) + DaysInYear(ya) && DaysBeforeYear(yb) <= b
    requires a <= b < a + 365
    ensures yb <= ya + 1
  {
    if yb > ya + 1 {
      YearsIncrease(ya, ya + 1);
      YearsIncrease(ya + 1, yb);
    }
  }

  /** What `calculateStartDate` returns: 364 days back on a Sunday, 357 days
      back on any other day. */
  lemma YearStartAsWrittenValue(today: int)
    ensures YearStartAsWritten(today) == if Weekday(today) == 0 then today - 364 else today - 357
  {
    WeeksBack(today, 52);
    if Weekday(today) == 0 {
      AsWrittenOnSunday(today);
    } else {
      AsWrittenOffSunday(today);
    }
  }

  /** On a Sunday the 52 weeks back already start on a Sunday and end today,
      so no adjustment is made. */
  lemma AsWrittenOnSunday(today: int)
    requires Weekday(today) == 0 && Weekday(today - 52 * 7) == 0
    ensures YearStartAsWritten(today) == today - 364
  {
  }

  /** On another day the 52 weeks from the Sunday before end w days before
      today, and the adjustment moves the start forward by w + 7. */
  lemma AsWrittenOffSunday(today: int)
    requires Weekday(today) != 0 && Weekday(today - 52 * 7) == Weekday(today)
    ensures YearStartAsWritten(today) == today - 357
  {
    var w := Weekday(today);
    var startDate := today - 52 * 7 - w;
    var endDate := startDate + 52 * 7;
    YearDayOrder(endDate, today);
    assert YearOf(endDate) < YearOf(today) || (YearOf(endDate) == YearOf(today) && YearDay(endDate) < YearDay(today));
    CloseYears(endDate, today);
    DaysToAddIsDistance(endDate, today);
    Adjusted(today, w);
  }

  /** When the 52 weeks from the Sunday before end before today, the start is
      moved forward by DaysToAdd. */
  lemma Adjusted(today: int, w: int)
    requires w == Weekday(today - 52 * 7) && w != 0
    requires var endDate := today - w;
      YearOf(endDate) < YearOf(today) || (YearOf(endDate) == YearOf(today) && YearDay(endDate) < YearDay(today))
    ensures YearStartAsWritten(today) == today - 52 * 7 - w + DaysToAdd(today - w, today)
  {
  }

  /** On a Sunday the 52 weeks from the start end the day before today:
      today is not in the year grid. */
  lemma YearGridMissesSunday(today: int)
    requires Weekday(today) == 0
    ensures YearStartAsWritten(today) + 52 * 7 - 1 == today - 1
  {
    YearStartAsWrittenValue(today);
  }

  /** On any other day the start is not a Sunday. */
  lemma YearStartOffSunday(today: int)
    requires Weekday(today) != 0
    ensures Weekday(YearStartAsWritten(today)) == Weekday(today) && Weekday(YearStartAsWritten(today)) != 0
  {
    YearStartAsWrittenValue(today);
    WeeksBack(today, 51);
  }

  /** Whole weeks back fall on the same day of the week. */
  lemma {:induction false} WeeksBack(n: int, weeks: nat)
    ensures Weekday(n - 7 * weeks) == Weekday(n)
  {
    if weeks > 0 {
      WeeksBack(n, weeks - 1);
      assert n - 7 * weeks == (n - 7 * (weeks - 1)) - 7;
    }
  }

  /** The start the year view means to use: the Sunday 51 weeks before the
      Sunday that starts today's week. */
  function YearStart(today: int): int {
    WeekStart(today) - 51 * 7
  }

  /** The year start is a Sunday and its 52 weeks hold today, in the last
      week. */
  lemma YearStartSpec(today: int)
    ensures Weekday(YearStart(today)) == 0
    ensures YearStart(today) <= today < YearStart(today) + 52 * 7
    ensures YearStart(today) + 51 * 7 <= today
  {
  }

  /** The number of weeks and the first day of each view range, as the view
      code picks them (the year view calls `calculateStartDate` as written); a
      range the view does not know gives no weeks. */
  function RangeLayout(viewRange: string, today: int): (layout: (nat, int))
    ensures viewRange !in {"year", "month", "week", "last30"} ==> layout.0 == 0
  {
    if viewRange == "year" then (52, YearStartAsWritten(today))
    else if viewRange == "month" then (5, MonthStart(today))
    else if viewRange == "week" then (1, WeekStart(today))
    else if viewRange == "last30" then (5, Last30Start(today))
    else (0, today)
  }

  /** Every known range shows today, except the year range on a Sunday. */
  lemma RangeShowsToday(viewRange: string, today: int)
    requires viewRange in {"year", "month", "week", "last30"}
    requires viewRange != "year" || Weekday(today) != 0
    ensures var (numWeeks, start) := RangeLayout(viewRange, today);
      start <= today < start + numWeeks * 7
  {
    if viewRange == "month" {
      MonthStartSpec(today);
    } else if viewRange == "year" {
      YearStartAsWrittenValue(today);
    }
  }

  /** On a Sunday the year range, as the view lays it out, ends the day
      before today. */
  lemma YearRangeMissesToday(today: int)
    requires Weekday(today) == 0
    ensures var (numWeeks, start) := RangeLayout("year", today);
      start + numWeeks * 7 == today
  {
    YearGridMissesSunday(today);
  }

  /** The view ranges with the year view starting where it is meant to
      (YearStart): the corrected counterpart of RangeLayout. */
  function IntendedRangeLayout(viewRange: string, today: int): (layout: (nat, int))
    ensures viewRange != "year" ==> layout == RangeLayout(viewRange, today)
    ensures viewRange == "year" ==> layout == (52, YearStart(today))
  {
    if viewRange == "year" then (52, YearStart(today)) else RangeLayout(viewRange, today)
  }

  /** With the intended year start every known range shows today, on every
      day of the week. */
  lemma IntendedRangeShowsToday(viewRange: string, today: int)
    requires viewRange in {"year", "month", "week", "last30"}
    ensures var (numWeeks, start) := IntendedRangeLayout(viewRange, today);
      start <= today < start + numWeeks * 7
  {
    if viewRange == "month" {
      MonthStartSpec(today);
    } else if viewRange == "year" {
      YearStartSpec(today);
    }
  }

  // ---------------------------------------------------------------------
  // Cells

  /** A grid cell (`GridDay`). */
  datatype GridDay = GridDay(date: int, completedCount: int, done: bool, inFuture: bool)

  /** Where the cells' marks come from: one habit's recorded dates (the
      `completedDates` set), or the entry count per date of all habits (the
      `dailyCounts` map). */
  datatype GridSource = SingleHabit(completedDates: set<string>) | AllHabits(dailyCounts: map<string, int>)

  /** A map lookup that reads a missing key as 0, as Go's map index does. */
  function Count(counts: map<string, int>, key: string): int {
    if key in counts then counts[key] else 0
  }

  /** Whether a day's key is among the dates. */
  function DoneOn(completedDates: set<string>): int -> bool {
    d => Key(d) in completedDates
  }

  /** The count under a day's key. */
  function CountOn(dailyCounts: map<string, int>): int -> int {
    d => Count(dailyCounts, Key(d))
  }

  /** The cell the loop lays out for a day: the mark under the day's key
      ("2006-01-02" format), and whether the day is after today. */
  function Cell(source: GridSource, today: int, day: int): (cell: GridDay)
    ensures cell.date == day && (cell.inFuture <==> day > today)
  {
    match source
    case SingleHabit(completedDates) => GridDay(day, 0, DoneOn(completedDates)(day), day > today)
    case AllHabits(dailyCounts) => GridDay(day, CountOn(dailyCounts)(day), false, day > today)
  }

  /** The grid loop: numWeeks * 7 cells, one per day from the start. */
  method BuildGrid(source: GridSource, start: int, numWeeks: nat, today: int) returns (gridData: seq<GridDay>)
    ensures |gridData| == numWeeks * 7
    ensures forall i :: 0 <= i < |gridData| ==> gridData[i] == Cell(source, today, start + i)
  {
    gridData := LayOut(d => Cell(source, today, d), start, numWeeks * 7);
  }

  /** Lay out `count` cells, one per day from the start, stepping the date
      one day at a time. */
  method LayOut(cell: int -> GridDay, start: int, count: nat) returns (gridData: seq<GridDay>)
    ensures |gridData| == count
    ensures forall i :: 0 <= i < count ==> gridData[i] == cell(start + i)
  {
    gridData := [];
    var currentDate := start;
    for i := 0 to count
      invariant currentDate == start + i && |gridData| == i
      invariant forall k :: 0 <= k < i ==> gridData[k] == cell(start + k)
    {
      gridData := gridData + [cell(currentDate)];
      currentDate := currentDate + 1;
    }
  }

  /** A single-habit cell is done exactly when its day's key is recorded; an
      aggregate cell counts the entries with its day's key. */
  lemma CellMarks(source: GridSource, today: int, day: int)
    ensures source.SingleHabit? ==> (Cell(source, today, day).done <==> Key(day) in source.completedDates)
    ensures source.SingleHabit? ==> Cell(source, today, day).completedCount == 0
    ensures source.AllHabits? ==> !Cell(source, today, day).done
    ensures source.AllHabits? ==> Cell(source, today, day).completedCount == Count(source.dailyCounts, Key(day))
  {
  }

  /** The set of a habit's recorded dates. */
  function CompletedDates(dates: seq<string>): (r: set<string>)
    ensures forall s :: s in r <==> s in dates
  {
    set s | s in dates
  }

  /** In a habit's grid, a day is marked done exactly when the day's key is
      one of the habit's dates. */
  lemma SingleCellDone(dates: seq<string>, today: int, day: int)
    ensures Cell(SingleHabit(CompletedDates(dates)), today, day).done <==> Key(day) in dates
  {
    CellMarks(SingleHabit(CompletedDates(dates)), today, day);
  }

  // ---------------------------------------------------------------------
  // Daily counts

  /** How many entries, across all habits, are the key. */
  function Occurrences(habits: seq<Habit>, key: string): (n: nat) {
    if habits == [] then 0
    else Occurrences(habits[..|habits| - 1], key) + multiset(habits[|habits| - 1].dates)[key]
  }

  /** The `dailyCounts` loops: for every habit, count each of its entries
      under its key. */
  method DailyCounts(habits: seq<Habit>) returns (dailyCounts: map<string, int>)
    ensures forall key :: Count(dailyCounts, key) == Occurrences(habits, key)
  {
    dailyCounts := map[];
    for i := 0 to |habits|
      invariant forall key :: Count(dailyCounts, key) == Occurrences(habits[..i], key)
    {
      assert habits[..i + 1][..i] == habits[..i];
      var dates := habits[i].dates;
      for j := 0 to |dates|
        invariant forall key :: Count(dailyCounts, key) == Occurrences(habits[..i], key) + multiset(dates[..j])[key]
      {
        assert dates[..j + 1] == dates[..j] + [dates[j]];
        dailyCounts := dailyCounts[dates[j] := Count(dailyCounts, dates[j]) + 1];
      }
      assert dates[..|dates|] == dates;
    }
    assert habits[..|habits|] == habits;
  }

  /** The habits among the first n that recorded the key. */
  function HabitsDone(habits: seq<Habit>, key: string): (n: nat)
    ensures n <= |habits|
  {
    if habits == [] then 0
    else HabitsDone(habits[..|habits| - 1], key) + (if key in habits[|habits| - 1].dates then 1 else 0)
  }

  /** When no habit repeats a date, the count of a day is the number of
      habits done that day, so it is at most the number of habits. */
  lemma {:induction false} OccurrencesOfDistinct(habits: seq<Habit>, key: string)
    requires forall j :: 0 <= j < |habits| ==> NoRepeats(habits[j].dates)
    ensures Occurrences(habits, key) == HabitsDone(habits, key) <= |habits|
  {
    if habits != [] {
      var last := habits[|habits| - 1].dates;
      assert NoRepeats(last);
      assert multiset(last)[key] <= 1;
      assert key in last <==> key in multiset(last);
      OccurrencesOfDistinct(habits[..|habits| - 1], key);
    }
  }

  /** A repeated entry is counted twice: the count is of entries, not of
      habits. */
  lemma RepeatCountsTwice(key: string)
    ensures Occurrences([Habit("walk", "", [key, key])], key) == 2
    ensures HabitsDone([Habit("walk", "", [key, key])], key) == 1
  {
    var habits := [Habit("walk", "", [key, key])];
    assert habits[..0] == [];
    assert multiset([key, key])[key] == 2;
  }

  // ---------------------------------------------------------------------
  // Printing layout

  /** The view a grid is printed for. */
  datatype ViewMode = ViewSingleHabit | ViewAggregate

  /** Go's integer division, which truncates toward zero. */
  function GoDiv(a: int, b: int): int
    requires b > 0
  {
    if a >= 0 then a / b else -((-a) / b)
  }

  /** How many cells `printGrid` puts on a line: three columns per cell, and
      10 when the width leaves room for none. */
  function SquaresPerLine(width: int): (n: int)
    ensures n >= 1
  {
    var perLine := GoDiv(width, 3);
    if perLine <= 0 then 10 else perLine
  }

  /** The rows `printGrid` prints from cell i on: the first and
      one-past-last index of each, perLine cells to a row, the last row cut
      at n. */
  function RowsFrom(n: int, perLine: int, i: int): (rows: seq<(int, int)>)
    requires perLine >= 1
    decreases n - i
  {
    if i >= n then []
    else [(i, if i + perLine > n then n else i + perLine)] + RowsFrom(n, perLine, i + perLine)
  }

  /** The row loop of `printGrid`. */
  method Rows(n: nat, perLine: int) returns (rows: seq<(int, int)>)
    requires perLine >= 1
    ensures rows == RowsFrom(n, perLine, 0)
  {
    rows := [];
    var i := 0;
    while i < n
      invariant 0 <= i && rows + RowsFrom(n, perLine, i) == RowsFrom(n, perLine, 0)
      decreases n - i
    {
      var end := i + perLine;
      if end > n {
        end := n;
      }
      assert rows + RowsFrom(n, perLine, i) == (rows + [(i, end)]) + RowsFrom(n, perLine, i + perLine);
      rows := rows + [(i, end)];
      i := i + perLine;
    }
  }

  /** The rows cover cells i .. n - 1 in order, with no gap or overlap; each
      holds at most perLine cells and only the last may hold fewer, so there
      are (n - i) / perLine of them, rounded up. */
  lemma RowsSpec(n: int, perLine: int, i: int)
    requires perLine >= 1
    ensures var rows := RowsFrom(n, perLine, i);
      && (rows == [] <==> i >= n)
      && (rows != [] ==> rows[0].0 == i && rows[|rows| - 1].1 == n)
      && (forall k :: 0 <= k < |rows| ==> rows[k].0 < rows[k].1 <= rows[k].0 + perLine)
      && (forall k :: 0 <= k < |rows| - 1 ==> rows[k].1 == rows[k + 1].0 && rows[k].1 - rows[k].0 == perLine)
      && (i < n ==> (|rows| - 1) * perLine < n - i <= |rows| * perLine)
  {
    RowsShape(n, perLine, i);
    RowsCount(n, perLine, i);
  }

  lemma {:induction false} RowsShape(n: int, perLine: int, i: int)
    requires perLine >= 1
    ensures var rows := RowsFrom(n, perLine, i);
      && (rows == [] <==> i >= n)
      && (rows != [] ==> rows[0].0 == i && rows[|rows| - 1].1 == n)
      && (forall k :: 0 <= k < |rows| ==> rows[k].0 < rows[k].1 <= rows[k].0 + perLine)
      && (forall k :: 0 <= k < |rows| - 1 ==> rows[k].1 == rows[k + 1].0 && rows[k].1 - rows[k].0 == perLine)
    decreases n - i
  {
    if i < n {
      RowsShape(n, perLine, i + perLine);
      var rest := RowsFrom(n, perLine, i + perLine);
      var rows := RowsFrom(n, perLine, i);
      var e := if i + perLine > n then n else i + perLine;
      assert rows == [(i, e)] + rest;
      assert forall k :: 1 <= k < |rows| ==> rows[k] == rest[k - 1];
    }
  }

  lemma {:induction false} RowsCount(n: int, perLine: int, i: int)
    requires perLine >= 1
    ensures var rows := RowsFrom(n, perLine, i);
      i < n ==> (|rows| - 1) * perLine < n - i <= |rows| * perLine
    decreases n - i
  {
    if i < n {
      RowsCount(n, perLine, i + perLine);
      var r := |RowsFrom(n, perLine, i + perLine)|;
      assert |RowsFrom(n, perLine, i)| == r + 1;
      assert (r + 1) * perLine == r * perLine + perLine;
      if i + perLine < n {
        assert (r - 1) * perLine == r * perLine - perLine;
      }
    }
  }

  /** The colour a cell is printed in. */
  datatype Shade = FutureDots | Empty | Done | Level1 | Level2 | Level3

  /** The colour choice of `printGrid`: future days first, then done or not
      for a single habit, and four levels of count for all habits. */
  function ShadeOf(cell: GridDay, mode: ViewMode): Shade {
    if cell.inFuture then FutureDots
    else if mode == ViewSingleHabit then (if cell.done then Done else Empty)
    else if cell.completedCount == 0 then Empty
    else if cell.completedCount == 1 then Level1
    else if cell.completedCount == 2 then Level2
    else Level3
  }

  /** The rank of a shade among the aggregate levels. */
  function Level(s: Shade): int {
    match s
    case Empty => 0
    case Level1 => 1
    case Level2 => 2
    case Level3 => 3
    case FutureDots => -1
    case Done => -1
  }

  /** On an aggregate grid (see CellMarks), a past or present day is shaded
      by how many entries have its key, capped at 3, and empty exactly when
      no habit recorded it. */
  lemma AggregateShade(habits: seq<Habit>, counts: map<string, int>, cell: GridDay, key: string)
    requires forall k :: Count(counts, k) == Occurrences(habits, k)
    requires !cell.inFuture && cell.completedCount == Count(counts, key)
    ensures Level(ShadeOf(cell, ViewAggregate)) == if Occurrences(habits, key) >= 3 then 3 else Occurrences(habits, key)
    ensures ShadeOf(cell, ViewAggregate) == Empty <==> forall j :: 0 <= j < |habits| ==> key !in habits[j].dates
  {
    OccurrencesZero(habits, key);
  }

  /** A day with more entries never gets a lighter shade. */
  lemma ShadeMonotone(a: GridDay, b: GridDay)
    requires !a.inFuture && !b.inFuture && 0 <= a.completedCount <= b.completedCount
    ensures Level(ShadeOf(a, ViewAggregate)) <= Level(ShadeOf(b, ViewAggregate))
  {
  }

  /** No entry has the key exactly when no habit recorded it. */
  lemma {:induction false} OccurrencesZero(habits: seq<Habit>, key: string)
    ensures Occurrences(habits, key) == 0 <==> forall j :: 0 <= j < |habits| ==> key !in habits[j].dates
  {
    if habits != [] {
      var front := habits[..|habits| - 1];
      OccurrencesZero(front, key);
      var last := habits[|habits| - 1].dates;
      assert key in last <==> key in multiset(last);
      forall j | 0 <= j < |front| ensures front[j] == habits[j] { }
    }
  }
}
