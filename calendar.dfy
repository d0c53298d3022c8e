/**
 * Calendar arithmetic of the proleptic Gregorian calendar, which is what Go's
 * `time` package uses.
 *
 * A calendar day is an integer day number: day 0 is 0001-01-01, day n + 1 is
 * the day after day n, and negative numbers go back before year 1.  Adding k
 * days to a date (Go's `AddDate(0, 0, k)`) is `n + k`, and comparing two dates
 * by calendar day (`Before`, `After`, `Equal` on midnight values) is comparing
 * their numbers.  `Civil` and `DayNumber` convert between day numbers and
 * (year, month, day) and are proved inverse to each other.
 */
module Calendar {

  /** A civil date: year, month 1..12, day of month 1..31. */
  datatype Date = Date(year: int, month: int, day: int)

  /** Gregorian leap-year rule.  A zero remainder is the same under Go's
      truncating `%` and Dafny's Euclidean `%`, so this holds for every year. */
  predicate IsLeapYear(year: int) {
    year % 4 == 0 && (year % 100 != 0 || year % 400 == 0)
  }

  function DaysInYear(year: int): (n: int)
    ensures n == 365 || n == 366
    ensures n == 366 <==> IsLeapYear(year)
  {
    if IsLeapYear(year) then 366 else 365
  }

  function DaysInMonth(year: int, month: int): (n: int)
    requires 1 <= month <= 12
    ensures 28 <= n <= 31
    ensures month == 2 ==> (n == 29 <==> IsLeapYear(year))
  {
    if month == 2 then (if IsLeapYear(year) then 29 else 28)
    else if month == 4 || month == 6 || month == 9 || month == 11 then 30
    else 31
  }

  /** Number of days in the years before `year`, counted from 0001-01-01. */
  function DaysBeforeYear(year: int): int {
    var p := year - 1;
    365 * p + p / 4 - p / 100 + p / 400
  }

  /** Number of days in the months of `year` before `month`. */
  function DaysBeforeMonth(year: int, month: int): (n: int)
    requires 1 <= month <= 12
    ensures month == 1 ==> n == 0
    ensures month == 12 ==> n + DaysInMonth(year, month) == DaysInYear(year)
  {
    var table := [0, 31, 59, 90, 120, 151, 181, 212, 243, 273, 304, 334];
    table[month - 1] + (if month > 2 && IsLeapYear(year) then 1 else 0)
  }

  predicate ValidDate(dt: Date) {
    1 <= dt.month <= 12 && 1 <= dt.day <= DaysInMonth(dt.year, dt.month)
  }

  /** The day number of a civil date. */
  function DayNumber(dt: Date): int
    requires ValidDate(dt)
  {
    DaysBeforeYear(dt.year) + DaysBeforeMonth(dt.year, dt.month) + dt.day - 1
  }

  /** The year a day number falls in, by counting whole 400-, 100-, 4- and
      1-year cycles. */
  function YearOf(n: int): int {
    var q400, r400 := n / 146097, n % 146097;
    var q100 := if r400 / 36524 < 4 then r400 / 36524 else 3;
    var r100 := r400 - 36524 * q100;
    var q4, r4 := r100 / 1461, r100 % 1461;
    var q1 := if r4 / 365 < 4 then r4 / 365 else 3;
    400 * q400 + 100 * q100 + 4 * q4 + q1 + 1
  }

  /** Day of the year, 1-based (Go's `YearDay`). */
  function YearDay(n: int): (d: int)
    ensures 1 <= d <= DaysInYear(YearOf(n))
  {
    YearOfBounds(n);
    n - DaysBeforeYear(YearOf(n)) + 1
  }

  /** The month that day `r` (0-based) of `year` falls in, searching from `month`. */
  function MonthFrom(year: int, r: int, month: int): (m: int)
    requires 1 <= month <= 12 && DaysBeforeMonth(year, month) <= r < DaysInYear(year)
    ensures month <= m <= 12
    ensures DaysBeforeMonth(year, m) <= r < DaysBeforeMonth(year, m) + DaysInMonth(year, m)
    decreases 12 - month
  {
    if month == 12 then month
    else
      NextMonth(year, month);
      if r < DaysBeforeMonth(year, month + 1) then month
      else MonthFrom(year, r, month + 1)
  }

  /** The civil date of a day number (what Go's `Date()` reports). */
  function Civil(n: int): (dt: Date)
    ensures ValidDate(dt) && DayNumber(dt) == n
    ensures dt.year == YearOf(n)
  {
    YearOfBounds(n);
    var y := YearOf(n);
    var m := MonthFrom(y, n - DaysBeforeYear(y), 1);
    Date(y, m, n - DaysBeforeYear(y) - DaysBeforeMonth(y, m) + 1)
  }

  /** Day of the week, Sunday = 0 .. Saturday = 6 (Go's `Weekday`); 0001-01-01
      was a Monday. */
  function Weekday(n: int): (w: int)
    ensures 0 <= w < 7
  {
    (n + 1) % 7
  }

  lemma NextMonth(year: int, month: int)
    requires 1 <= month < 12
    ensures DaysBeforeMonth(year, month + 1) == DaysBeforeMonth(year, month) + DaysInMonth(year, month)
  {
  }

  lemma Step(p: int, d: int)
    requires d == 4 || d == 100 || d == 400
    ensures (p + 1) / d == p / d + (if (p + 1) % d == 0 then 1 else 0)
  {
  }

  /** Each year begins DaysInYear days after the one before. */
  lemma NextYear(year: int)
    ensures DaysBeforeYear(year + 1) == DaysBeforeYear(year) + DaysInYear(year)
  {
    var p := year - 1;
    Step(p, 4);
    Step(p, 100);
    Step(p, 400);
  }

  /** Years begin in increasing order. */
  lemma {:induction false} YearsIncrease(a: int, b: int)
    requires a < b
    ensures DaysBeforeYear(a) + DaysInYear(a) <= DaysBeforeYear(b)
    decreases b - a
  {
    NextYear(a);
    if a + 1 < b {
      YearsIncrease(a + 1, b);
    }
  }

  /** The days before a year given as a count of 400-, 100-, 4- and 1-year cycles. */
  lemma CycleDays(q400: int, q100: int, q4: int, q1: int)
    requires 0 <= q100 <= 3 && 0 <= q4 <= 24 && 0 <= q1 <= 3
    ensures DaysBeforeYear(400 * q400 + 100 * q100 + 4 * q4 + q1 + 1)
            == 146097 * q400 + 36524 * q100 + 1461 * q4 + 365 * q1
  {
    var p := 400 * q400 + 100 * q100 + 4 * q4 + q1;
    assert p / 4 == 100 * q400 + 25 * q100 + q4;
    assert p / 100 == 4 * q400 + q100;
    assert p / 400 == q400;
  }

  /** Which years of the cycle decomposition are leap years. */
  lemma CycleLeap(q400: int, q100: int, q4: int, q1: int)
    requires 0 <= q100 <= 3 && 0 <= q4 <= 24 && 0 <= q1 <= 3
    ensures IsLeapYear(400 * q400 + 100 * q100 + 4 * q4 + q1 + 1)
            <==> q1 == 3 && (q4 < 24 || q100 == 3)
  {
    var r := 100 * q100 + 4 * q4 + q1 + 1;
    LeapShift(q400, r);
    if q1 < 3 {
      assert r % 4 == q1 + 1;
    } else {
      assert r % 4 == 0;
      if q4 < 24 {
        assert r % 100 == 4 * q4 + 4;
      } else if q100 < 3 {
        assert r % 100 == 0 && r % 400 == 100 * q100 + 100;
      } else {
        assert r == 400;
      }
    }
  }

  /** Whole 400-year cycles do not change whether a year is a leap year. */
  lemma LeapShift(q: int, r: int)
    ensures IsLeapYear(400 * q + r) <==> IsLeapYear(r)
  {
    ModMultiple(100 * q, r, 4);
    ModMultiple(4 * q, r, 100);
    ModMultiple(q, r, 400);
  }

  lemma ModMultiple(k: int, r: int, d: int)
    requires d == 4 || d == 100 || d == 400
    ensures (d * k + r) % d == r % d
  {
  }

  /** `YearOf(n)` is the year whose days include day n. */
  lemma YearOfBounds(n: int)
    ensures DaysBeforeYear(YearOf(n)) <= n < DaysBeforeYear(YearOf(n)) + DaysInYear(YearOf(n))
  {
    var q400, r400 := n / 146097, n % 146097;
    var q100 := if r400 / 36524 < 4 then r400 / 36524 else 3;
    var r100 := r400 - 36524 * q100;
    var q4, r4 := r100 / 1461, r100 % 1461;
    var q1 := if r4 / 365 < 4 then r4 / 365 else 3;
    var r1 := r4 - 365 * q1;
    assert 0 <= q100 <= 3 && 0 <= r100 <= 36524;
    assert q100 < 3 ==> r100 < 36524;
    assert 0 <= q4 <= 24 && 0 <= q1 <= 3;
    assert q4 == 24 ==> r4 == r100 - 35064;
    CycleDays(q400, q100, q4, q1);
    CycleLeap(q400, q100, q4, q1);
  }

  /** A day lies in exactly one year, so the year is determined by the day. */
  lemma YearOfUnique(n: int, y: int)
    requires DaysBeforeYear(y) <= n < DaysBeforeYear(y) + DaysInYear(y)
    ensures YearOf(n) == y
  {
    YearOfBounds(n);
    var z := YearOf(n);
    if z < y {
      YearsIncrease(z, y);
    } else if y < z {
      YearsIncrease(y, z);
    }
  }

  /** Converting a valid civil date to its day number and back gives it back. */
  lemma CivilOfDayNumber(dt: Date)
    requires ValidDate(dt)
    ensures Civil(DayNumber(dt)) == dt
  {
    var n := DayNumber(dt);
    YearOfUnique(n, dt.year);
    var m := Civil(n).month;
    if m < dt.month {
      MonthsIncrease(dt.year, m, dt.month);
    } else if dt.month < m {
      MonthsIncrease(dt.year, dt.month, m);
    }
  }

  lemma {:induction false} MonthsIncrease(year: int, a: int, b: int)
    requires 1 <= a < b <= 12
    ensures DaysBeforeMonth(year, a) + DaysInMonth(year, a) <= DaysBeforeMonth(year, b)
    decreases b - a
  {
    NextMonth(year, a);
    if a + 1 < b {
      MonthsIncrease(year, a + 1, b);
    }
  }

  /** Day numbers of valid dates are distinct. */
  lemma DayNumberInjective(a: Date, b: Date)
    requires ValidDate(a) && ValidDate(b) && DayNumber(a) == DayNumber(b)
    ensures a == b
  {
    CivilOfDayNumber(a);
    CivilOfDayNumber(b);
  }

  /** YearDay is the position of the day within its year. */
  lemma YearDayOf(dt: Date)
    requires ValidDate(dt)
    ensures YearOf(DayNumber(dt)) == dt.year
    ensures YearDay(DayNumber(dt)) == DaysBeforeMonth(dt.year, dt.month) + dt.day
  {
    CivilOfDayNumber(dt);
  }

  /** Comparing (year, day of year) lexicographically, as the source does,
      is comparing day numbers. */
  lemma YearDayOrder(a: int, b: int)
    ensures a < b <==> (YearOf(a) < YearOf(b) || (YearOf(a) == YearOf(b) && YearDay(a) < YearDay(b)))
  {
    YearOfBounds(a);
    YearOfBounds(b);
    if YearOf(a) < YearOf(b) {
      YearsIncrease(YearOf(a), YearOf(b));
    } else if YearOf(b) < YearOf(a) {
      YearsIncrease(YearOf(b), YearOf(a));
    }
  }
}
