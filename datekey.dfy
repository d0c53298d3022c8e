/**
 * The stored form of a date: the key `"YYYY-MM-DD"` that Go writes with
 * `Format("2006-01-02")` and reads with `time.Parse("2006-01-02", s)`.  Habit
 * records keep their completions as such strings; the streak calculator parses
 * them, while the completion-rate counter and the grid builder format each day
 * they visit and look the key up.  `Parse` and `Key` are proved inverse, so the
 * strings that parse are exactly the keys of days in years 0000..9999.
 */
module DateKey {
  import opened Wrappers
  import opened Text
  import opened Calendar

  /** Two digits, zero-padded (Go's `appendInt(b, x, 2)` for 0 <= x < 100). */
  function Pad2(x: int): (s: string)
    requires 0 <= x < 100
    ensures |s| == 2 && AllDigits(s)
  {
    [DigitChar(x / 10), DigitChar(x % 10)]
  }

  /** Four digits, zero-padded (Go's `appendInt(b, x, 4)` for 0 <= x < 10000). */
  function Pad4(x: int): (s: string)
    requires 0 <= x < 10000
    ensures |s| == 4 && AllDigits(s)
  {
    [DigitChar(x / 1000), DigitChar(x / 100 % 10), DigitChar(x / 10 % 10), DigitChar(x % 10)]
  }

  /** The year as the layout element "2006" writes it: a minus sign for
      negative years, then at least four digits. */
  function YearText(year: int): (s: string)
    ensures 0 <= year < 10000 ==> s == Pad4(year)
  {
    var u := if year < 0 then -year else year;
    (if year < 0 then "-" else "") + (if u < 10000 then Pad4(u) else Decimal(u))
  }

  /** `Format("2006-01-02")` of day n. */
  function Key(n: int): (s: string)
    ensures 0 <= YearOf(n) < 10000 ==> |s| == 10
  {
    var dt := Civil(n);
    YearText(dt.year) + "-" + Pad2(dt.month) + "-" + Pad2(dt.day)
  }

  /** The layout "2006-01-02" as `time.Parse` reads it: four digits of year,
      two of month and two of day separated by '-', nothing after; the month
      must lie in 1..12 and the day in the month. */
  function Parse(s: string): (r: Option<int>)
  {
    if Shaped(s) && ValidDate(DateFields(s)) then Some(DayNumber(DateFields(s))) else None
  }

  lemma DivDiv10(x: int)
    requires x >= 0
    ensures x / 10 / 10 == x / 100 && x / 100 / 10 == x / 1000
  {
  }

  /** The digits of `Pad4(x)` read back as x. */
  lemma Pad4Digits(x: int)
    requires 0 <= x < 10000
    ensures 1000 * (x / 1000) + 100 * (x / 100 % 10) + 10 * (x / 10 % 10) + x % 10 == x
  {
    DivDiv10(x);
    assert x == 10 * (x / 10) + x % 10;
    assert x / 10 == 10 * (x / 100) + x / 10 % 10;
    assert x / 100 == 10 * (x / 1000) + x / 100 % 10;
  }

  /** Four digits read as a number and written back with `Pad4` give the
      same digits. */
  lemma DigitsPad4(a: int, b: int, c: int, d: int)
    requires 0 <= a < 10 && 0 <= b < 10 && 0 <= c < 10 && 0 <= d < 10
    ensures var x := 1000 * a + 100 * b + 10 * c + d;
      x / 1000 == a && x / 100 % 10 == b && x / 10 % 10 == c && x % 10 == d
  {
    var x := 1000 * a + 100 * b + 10 * c + d;
    assert x / 10 == 100 * a + 10 * b + c;
    assert x / 100 == 10 * a + b;
  }

  /** A string of the layout's shape: digits and dashes in place. */
  predicate Shaped(s: string) {
    && |s| == 10
    && IsDigit(s[0]) && IsDigit(s[1]) && IsDigit(s[2]) && IsDigit(s[3]) && s[4] == '-'
    && IsDigit(s[5]) && IsDigit(s[6]) && s[7] == '-'
    && IsDigit(s[8]) && IsDigit(s[9])
  }

  /** The year, month and day fields of a string of the layout's shape. */
  function DateFields(s: string): (dt: Date)
    requires Shaped(s)
    ensures 0 <= dt.year < 10000 && 0 <= dt.month < 100 && 0 <= dt.day < 100
  {
    Date(1000 * DigitValue(s[0]) + 100 * DigitValue(s[1]) + 10 * DigitValue(s[2]) + DigitValue(s[3]),
         10 * DigitValue(s[5]) + DigitValue(s[6]),
         10 * DigitValue(s[8]) + DigitValue(s[9]))
  }

  /** The text of a date in the layout. */
  function DateText(dt: Date): (s: string)
    requires 0 <= dt.year < 10000 && 0 <= dt.month < 100 && 0 <= dt.day < 100
    ensures Shaped(s)
  {
    Pad4(dt.year) + "-" + Pad2(dt.month) + "-" + Pad2(dt.day)
  }

  /** Reading the fields of a date's text gives the date back. */
  lemma FieldsOfText(dt: Date)
    requires 0 <= dt.year < 10000 && 0 <= dt.month < 100 && 0 <= dt.day < 100
    ensures DateFields(DateText(dt)) == dt
  {
    var s := DateText(dt);
    Pad4Digits(dt.year);
    assert s[0..4] == Pad4(dt.year);
    assert s[0] == DigitChar(dt.year / 1000);
    assert s[1] == DigitChar(dt.year / 100 % 10);
    assert s[2] == DigitChar(dt.year / 10 % 10);
    assert s[3] == DigitChar(dt.year % 10);
    assert s[5] == DigitChar(dt.month / 10) && s[6] == DigitChar(dt.month % 10);
    assert s[8] == DigitChar(dt.day / 10) && s[9] == DigitChar(dt.day % 10);
  }

  /** Writing the fields of a shaped string gives the string back. */
  lemma TextOfFields(s: string)
    requires Shaped(s)
    ensures DateText(DateFields(s)) == s
  {
    var dt := DateFields(s);
    DigitsPad4(DigitValue(s[0]), DigitValue(s[1]), DigitValue(s[2]), DigitValue(s[3]));
    var t := DateText(dt);
    assert t[0] == s[0] && t[1] == s[1] && t[2] == s[2] && t[3] == s[3];
    assert t[5] == s[5] && t[6] == s[6];
    assert t[8] == s[8] && t[9] == s[9];
    assert forall i | 0 <= i < 10 :: t[i] == s[i];
  }

  /** The text of a valid date of years 0000..9999 parses to its day number. */
  lemma ParseDateText(dt: Date)
    requires ValidDate(dt) && 0 <= dt.year < 10000
    ensures Parse(DateText(dt)) == Some(DayNumber(dt))
  {
    FieldsOfText(dt);
  }

  /** Every day of years 0000..9999 has a key that parses back to it. */
  lemma ParseKey(n: int)
    requires 0 <= YearOf(n) < 10000
    ensures Parse(Key(n)) == Some(n)
  {
    var dt := Civil(n);
    assert Key(n) == DateText(dt);
    FieldsOfText(dt);
  }

  /** Day number of 0000-01-01, the first day whose key has four year digits. */
  const FirstKeyDay: int := -366

  /** Day number of 10000-01-01, the first day after the four-digit years. */
  const EndKeyDay: int := 3652059

  /** The days FirstKeyDay .. EndKeyDay - 1 are those of years 0000..9999. */
  lemma KeyDayRange(n: int)
    ensures FirstKeyDay <= n < EndKeyDay <==> 0 <= YearOf(n) < 10000
  {
    YearOfBounds(n);
    assert DaysBeforeYear(0) == FirstKeyDay && DaysBeforeYear(10000) == EndKeyDay;
    var y := YearOf(n);
    if y < 0 {
      YearsIncrease(y, 0);
    } else if y > 10000 {
      YearsIncrease(10000, y);
    }
    if 0 < y {
      YearsIncrease(0, y);
    }
    if y < 9999 {
      YearsIncrease(y, 9999);
      NextYear(9999);
    }
  }

  /** A day of years 0000..9999, given by its number, has a key that parses
      back to it. */
  lemma ParseKeyOfDay(n: int)
    requires FirstKeyDay <= n < EndKeyDay
    ensures Parse(Key(n)) == Some(n)
  {
    KeyDayRange(n);
    ParseKey(n);
  }

  /** A string that parses is the key of the day it parses to: stored dates
      that parse are in canonical form. */
  lemma KeyOfParse(s: string)
    requires Parse(s).Some?
    ensures Key(Parse(s).value) == s
    ensures 0 <= YearOf(Parse(s).value) < 10000
  {
    var dt := DateFields(s);
    CivilOfDayNumber(dt);
    TextOfFields(s);
    assert Key(DayNumber(dt)) == DateText(dt);
  }

  /** The strings that parse to n are exactly the key of n, when n's year is
      in 0000..9999. */
  lemma ParseIffKey(s: string, n: int)
    ensures Parse(s) == Some(n) <==> s == Key(n) && 0 <= YearOf(n) < 10000
  {
    if Parse(s) == Some(n) {
      KeyOfParse(s);
    }
    if s == Key(n) && 0 <= YearOf(n) < 10000 {
      ParseKey(n);
    }
  }

  /** Distinct days of years 0000..9999 have distinct keys. */
  lemma KeyInjective(a: int, b: int)
    requires 0 <= YearOf(a) < 10000 && 0 <= YearOf(b) < 10000
    requires Key(a) == Key(b)
    ensures a == b
  {
    ParseKey(a);
    ParseKey(b);
  }
}
