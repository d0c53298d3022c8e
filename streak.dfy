/**
 * The streak calculator (`calculateStreak`).  A habit's completions are stored
 * as date keys; the calculator keeps the ones that parse, sorts the days and
 * either walks back from the latest day (the current streak) or scans for the
 * longest run of days each one after the one before (the longest streak).
 * Repeated days are not removed, so a repeated day ends a run.
 */
module Streak {
  import opened Wrappers
  import opened Calendar
  import opened DateKey
  import opened Text
  import Sorting

  /** The parse result of each entry. */
  function Parses(dates: seq<string>): (r: seq<Option<int>>)
    ensures |r| == |dates|
    ensures forall i :: 0 <= i < |dates| ==> r[i] == Parse(dates[i])
  {
    seq(|dates|, i requires 0 <= i < |dates| => Parse(dates[i]))
  }

  /** The values of the successful results, in order; failures are skipped. */
  function Present(opts: seq<Option<int>>): (days: seq<int>)
    ensures |days| <= |opts|
  {
    if opts == [] then []
    else
      var front := Present(opts[..|opts| - 1]);
      var last := opts[|opts| - 1];
      if last.Some? then front + [last.value] else front
  }

  /** The days of the entries that parse, in list order; the others are skipped. */
  function ParsedDays(dates: seq<string>): (days: seq<int>)
    ensures |days| <= |dates|
  {
    Present(Parses(dates))
  }

  lemma PresentSnoc(opts: seq<Option<int>>, o: Option<int>)
    ensures Present(opts + [o]) == Present(opts) + (if o.Some? then [o.value] else [])
  {
    assert (opts + [o])[..|opts|] == opts;
  }

  lemma {:induction false} PresentOrigin(opts: seq<Option<int>>, n: int) returns (i: int)
    requires n in Present(opts)
    ensures 0 <= i < |opts| && opts[i] == Some(n)
    decreases |opts|
  {
    var k := |opts| - 1;
    if n in Present(opts[..k]) {
      i := PresentOrigin(opts[..k], n);
      assert opts[..k][i] == opts[i];
    } else {
      i := k;
    }
  }

  lemma {:induction false} PresentContains(opts: seq<Option<int>>, i: int)
    requires 0 <= i < |opts| && opts[i].Some?
    ensures opts[i].value in Present(opts)
    decreases |opts|
  {
    var k := |opts| - 1;
    if i < k {
      assert opts[..k][i] == opts[i];
      PresentContains(opts[..k], i);
    }
  }

  lemma {:induction false} AllPresent(opts: seq<Option<int>>, days: seq<int>)
    requires |opts| == |days|
    requires forall i :: 0 <= i < |opts| ==> opts[i] == Some(days[i])
    ensures Present(opts) == days
    decreases |opts|
  {
    if opts != [] {
      var k := |opts| - 1;
      AllPresent(opts[..k], days[..k]);
      assert opts == opts[..k] + [opts[k]];
      assert days == days[..k] + [days[k]];
      PresentSnoc(opts[..k], opts[k]);
    }
  }

  /** Every parsed day comes from an entry that parses to it. */
  lemma ParsedDayOrigin(dates: seq<string>, n: int) returns (i: int)
    requires n in ParsedDays(dates)
    ensures 0 <= i < |dates| && Parse(dates[i]) == Some(n)
  {
    i := PresentOrigin(Parses(dates), n);
  }

  /** Every entry that parses contributes its day. */
  lemma ParsedDayPresent(dates: seq<string>, i: int)
    requires 0 <= i < |dates| && Parse(dates[i]).Some?
    ensures Parse(dates[i]).value in ParsedDays(dates)
  {
    PresentContains(Parses(dates), i);
  }

  /** The parsed days are exactly the days of the entries that parse. */
  lemma ParsedDaysMembers(dates: seq<string>)
    ensures forall n :: n in ParsedDays(dates) <==> exists i :: 0 <= i < |dates| && Parse(dates[i]) == Some(n)
  {
    forall n ensures n in ParsedDays(dates) <==> exists i :: 0 <= i < |dates| && Parse(dates[i]) == Some(n) {
      if n in ParsedDays(dates) {
        var i := ParsedDayOrigin(dates, n);
      }
      if exists i :: 0 <= i < |dates| && Parse(dates[i]) == Some(n) {
        var i :| 0 <= i < |dates| && Parse(dates[i]) == Some(n);
        ParsedDayPresent(dates, i);
      }
    }
  }

  /** Entries that all parse give their days, in order. */
  lemma AllParse(dates: seq<string>, days: seq<int>)
    requires |dates| == |days|
    requires forall i :: 0 <= i < |dates| ==> Parse(dates[i]) == Some(days[i])
    ensures ParsedDays(dates) == days
  {
    AllPresent(Parses(dates), days);
  }

  /** The parsed days in ascending order (repeats kept). */
  function Days(dates: seq<string>): (s: seq<int>)
    ensures Sorting.SortedBy(s, Sorting.IntLe)
    ensures multiset(s) == multiset(ParsedDays(dates))
  {
    Sorting.IntLeTotalPreorder();
    Sorting.Sort(ParsedDays(dates), Sorting.IntLe)
  }

  /** Each day of s[lo..hi] is the day after the one before it. */
  predicate Consecutive(s: seq<int>, lo: int, hi: int)
    requires 0 <= lo <= hi <= |s|
  {
    forall k :: lo <= k < hi - 1 ==> s[k] + 1 == s[k + 1]
  }

  /** Length of the run of consecutive days that ends s (see TailRunIsRun). */
  function TailRun(s: seq<int>): (n: nat)
    ensures n <= |s|
    ensures n == 0 <==> s == []
  {
    if |s| <= 1 then |s|
    else if s[|s| - 2] + 1 == s[|s| - 1] then TailRun(s[..|s| - 1]) + 1
    else 1
  }

  /** The final run is a run, and it cannot be extended to the left. */
  lemma {:induction false} TailRunIsRun(s: seq<int>)
    ensures Consecutive(s, |s| - TailRun(s), |s|)
    ensures 0 < TailRun(s) < |s| ==> s[|s| - TailRun(s) - 1] + 1 != s[|s| - TailRun(s)]
    decreases |s|
  {
    if |s| >= 2 && s[|s| - 2] + 1 == s[|s| - 1] {
      var front := s[..|s| - 1];
      TailRunIsRun(front);
      RunGrows(s, front, TailRun(front));
    }
  }

  /** A run ending one before the last day, followed by the day after it,
      grows by one. */
  lemma RunGrows(s: seq<int>, front: seq<int>, m: int)
    requires |s| >= 2 && front == s[..|s| - 1] && s[|s| - 2] + 1 == s[|s| - 1] && 1 <= m <= |front|
    requires Consecutive(front, |front| - m, |front|)
    requires m < |front| ==> front[|front| - m - 1] + 1 != front[|front| - m]
    ensures Consecutive(s, |s| - m - 1, |s|)
    ensures m + 1 < |s| ==> s[|s| - m - 2] + 1 != s[|s| - m - 1]
  {
    assert forall k :: 0 <= k < |front| ==> front[k] == s[k];
  }

  function Max(a: int, b: int): int {
    if a < b then b else a
  }

  /** Length of the longest run of consecutive days in s. */
  function LongestRun(s: seq<int>): (n: nat)
    ensures n <= |s|
    ensures n == 0 <==> s == []
    ensures TailRun(s) <= n
  {
    if s == [] then 0 else Max(LongestRun(s[..|s| - 1]), TailRun(s))
  }

  /** The current streak of an ordered day list: nothing when the list is
      empty or its latest day is before yesterday, otherwise the run that ends
      at the latest day. */
  function CurrentRun(s: seq<int>, today: int): nat {
    if s == [] || s[|s| - 1] < today - 1 then 0 else TailRun(s)
  }

  /** What `calculateStreak(dates, isCurrentStreak)` returns on day `today`. */
  function Streak(dates: seq<string>, isCurrentStreak: bool, today: int): nat {
    if dates == [] then 0
    else if isCurrentStreak then CurrentRun(Days(dates), today)
    else LongestRun(Days(dates))
  }

  /** `calculateStreak`: parse, sort, then walk back or scan forward. */
  method CalculateStreak(dates: seq<string>, isCurrentStreak: bool, today: int) returns (streak: nat)
    ensures streak == Streak(dates, isCurrentStreak, today)
  {
    if |dates| == 0 {
      return 0;
    }
    var parsed := ParseAll(dates);
    Sorting.IntLeTotalPreorder();
    var s := Sorting.Sort(parsed, Sorting.IntLe);
    if isCurrentStreak {
      streak := CurrentStreak(s, today);
    } else {
      streak := LongestStreak(s);
    }
  }

  /** The parse loop: keep the entries that parse, in list order. */
  method ParseAll(dates: seq<string>) returns (parsed: seq<int>)
    ensures parsed == ParsedDays(dates)
  {
    parsed := [];
    ghost var opts := Parses(dates);
    var i := 0;
    while i < |dates|
      invariant 0 <= i <= |dates|
      invariant parsed == Present(opts[..i])
    {
      var t := Parse(dates[i]);
      assert opts[..i + 1] == opts[..i] + [t];
      PresentSnoc(opts[..i], t);
      if t.Some? {
        parsed := parsed + [t.value];
      }
      i := i + 1;
    }
    assert opts[..|dates|] == opts;
  }

  /** The backward walk: from the latest day, count days each one before the
      next, provided the latest day is yesterday or later. */
  method CurrentStreak(s: seq<int>, today: int) returns (streak: nat)
    ensures streak == CurrentRun(s, today)
  {
    if |s| == 0 || s[|s| - 1] < today - 1 {
      return 0;
    }
    streak := 1;
    var currentDate := s[|s| - 1];
    var j := |s| - 2;
    while j >= 0
      invariant -1 <= j <= |s| - 2
      invariant streak == |s| - 1 - j
      invariant currentDate == s[j + 1]
      invariant Consecutive(s, j + 1, |s|)
      decreases j + 1
    {
      if currentDate - 1 == s[j] {
        streak := streak + 1;
        currentDate := s[j];
        j := j - 1;
      } else {
        TailRunExact(s, j + 1);
        return streak;
      }
    }
    TailRunExact(s, 0);
  }

  /** The forward scan: the longest run of days each one after the one
      before. */
  method LongestStreak(s: seq<int>) returns (maxStreak: nat)
    ensures maxStreak == LongestRun(s)
  {
    if |s| == 0 {
      return 0;
    }
    maxStreak := 1;
    var currentStreak := 1;
    var k := 1;
    while k < |s|
      invariant 1 <= k <= |s|
      invariant 1 <= maxStreak && 1 <= currentStreak
      invariant currentStreak == TailRun(s[..k])
      invariant Max(maxStreak, currentStreak) == LongestRun(s[..k])
    {
      var joins := s[k - 1] + 1 == s[k];
      LongestStep(s, k, maxStreak, currentStreak);
      if joins {
        currentStreak := currentStreak + 1;
      } else {
        if currentStreak > maxStreak {
          maxStreak := currentStreak;
        }
        currentStreak := 1;
      }
      k := k + 1;
    }
    assert s[..|s|] == s;
    if currentStreak > maxStreak {
      maxStreak := currentStreak;
    }
  }

  /** The loop step of LongestStreak: extending the current run, or closing it
      into the best so far and starting a new one, keeps both counts right. */
  lemma LongestStep(s: seq<int>, k: int, best: int, current: int)
    requires 1 <= k < |s|
    requires current == TailRun(s[..k]) && Max(best, current) == LongestRun(s[..k])
    ensures s[k - 1] + 1 == s[k] ==>
      current + 1 == TailRun(s[..k + 1]) && Max(best, current + 1) == LongestRun(s[..k + 1])
    ensures s[k - 1] + 1 != s[k] ==>
      1 == TailRun(s[..k + 1]) && Max(Max(best, current), 1) == LongestRun(s[..k + 1])
  {
    RunsStep(s, k);
  }

  /** One more day extends the final run or starts a new one, and the longest
      run is the longer of the old longest and the new final run. */
  lemma RunsStep(s: seq<int>, k: int)
    requires 1 <= k < |s|
    ensures TailRun(s[..k + 1]) == if s[k - 1] + 1 == s[k] then TailRun(s[..k]) + 1 else 1
    ensures LongestRun(s[..k + 1]) == Max(LongestRun(s[..k]), TailRun(s[..k + 1]))
  {
    assert s[..k + 1][..k] == s[..k];
  }

  /** Any run that reaches the end of s is no longer than TailRun(s). */
  lemma {:induction false} TailRunMaximal(s: seq<int>, lo: int)
    requires 0 <= lo < |s| && Consecutive(s, lo, |s|)
    ensures |s| - lo <= TailRun(s)
    decreases |s|
  {
    if lo < |s| - 1 {
      var front := s[..|s| - 1];
      assert Consecutive(front, lo, |front|);
      TailRunMaximal(front, lo);
    }
  }

  /** A run reaching the end of s that cannot be extended to the left is the
      final run. */
  lemma TailRunExact(s: seq<int>, lo: int)
    requires 0 <= lo < |s| && Consecutive(s, lo, |s|)
    requires lo == 0 || s[lo - 1] + 1 != s[lo]
    ensures TailRun(s) == |s| - lo
  {
    TailRunMaximal(s, lo);
  }

  /** No run of consecutive days in s is longer than LongestRun(s). */
  lemma {:induction false} LongestRunIsMaximal(s: seq<int>, lo: int, hi: int)
    requires 0 <= lo < hi <= |s| && Consecutive(s, lo, hi)
    ensures hi - lo <= LongestRun(s)
    decreases |s|
  {
    if hi == |s| {
      TailRunMaximal(s, lo);
    } else {
      var front := s[..|s| - 1];
      assert Consecutive(front, lo, hi);
      LongestRunIsMaximal(front, lo, hi);
    }
  }

  /** Some run of consecutive days in s is exactly LongestRun(s) long. */
  lemma {:induction false} LongestRunAttained(s: seq<int>) returns (lo: nat)
    ensures lo + LongestRun(s) <= |s|
    ensures Consecutive(s, lo, lo + LongestRun(s))
    decreases |s|
  {
    if s == [] {
      lo := 0;
    } else {
      var front := s[..|s| - 1];
      if LongestRun(front) < TailRun(s) {
        TailRunIsRun(s);
        lo := |s| - TailRun(s);
      } else {
        lo := LongestRunAttained(front);
        assert forall k :: 0 <= k < |front| ==> front[k] == s[k];
      }
    }
  }

  /** The longest streak is 0 exactly when no entry parses; otherwise it is
      between 1 and the number of entries that parse. */
  lemma LongestStreakBounds(dates: seq<string>, today: int)
    ensures Streak(dates, false, today) == 0 <==> forall i :: 0 <= i < |dates| ==> Parse(dates[i]).None?
    ensures ParsedDays(dates) != [] ==> 1 <= Streak(dates, false, today) <= |ParsedDays(dates)|
  {
    var p := ParsedDays(dates);
    var s := Days(dates);
    assert |s| == |multiset(s)| == |multiset(p)| == |p|;
    if p != [] {
      var i := ParsedDayOrigin(dates, p[0]);
    } else {
      forall i | 0 <= i < |dates| ensures Parse(dates[i]).None? {
        if Parse(dates[i]).Some? {
          ParsedDayPresent(dates, i);
        }
      }
    }
  }

  /** The current streak never exceeds the longest streak; when it is not 0
      it is the final run of the ordered days and the latest day is yesterday
      or later. */
  lemma CurrentWithinLongest(dates: seq<string>, today: int)
    ensures Streak(dates, true, today) <= Streak(dates, false, today)
    ensures Streak(dates, true, today) != 0 ==>
      var s := Days(dates);
      s != [] && s[|s| - 1] >= today - 1 && Streak(dates, true, today) == TailRun(s)
  {
  }

  /** The last of an ordered day list is its latest day. */
  lemma LastIsLatest(s: seq<int>, n: int)
    requires Sorting.SortedBy(s, Sorting.IntLe) && n in s
    ensures n <= s[|s| - 1]
  {
    var i :| 0 <= i < |s| && s[i] == n;
    if i < |s| - 1 {
      assert Sorting.IntLe(s[i], s[|s| - 1]);
    }
  }

  /** The current run of an ordered list is 0 exactly when all its days
      are before yesterday. */
  lemma CurrentRunZero(s: seq<int>, p: seq<int>, today: int)
    requires Sorting.SortedBy(s, Sorting.IntLe) && multiset(s) == multiset(p)
    ensures CurrentRun(s, today) == 0 <==> forall n :: n in p ==> n < today - 1
  {
    if CurrentRun(s, today) == 0 {
      forall n | n in p ensures n < today - 1 {
        assert n in multiset(s);
        LastIsLatest(s, n);
      }
    } else {
      assert s != [] && s[|s| - 1] >= today - 1;
      assert s[|s| - 1] in multiset(p);
      assert s[|s| - 1] in p;
    }
  }

  /** The current streak is 0 exactly when every entry that parses is a day
      before yesterday. */
  lemma CurrentStreakZero(dates: seq<string>, today: int)
    ensures Streak(dates, true, today) == 0 <==>
      forall i :: 0 <= i < |dates| && Parse(dates[i]).Some? ==> Parse(dates[i]).value < today - 1
  {
    var p := ParsedDays(dates);
    CurrentRunZero(Days(dates), p, today);
    if forall n :: n in p ==> n < today - 1 {
      forall i | 0 <= i < |dates| && Parse(dates[i]).Some?
        ensures Parse(dates[i]).value < today - 1
      {
        ParsedDayPresent(dates, i);
      }
    } else {
      var n :| n in p && n >= today - 1;
      var i := ParsedDayOrigin(dates, n);
    }
  }

  /** The days first, first + 1, ..., first + count - 1. */
  function Span(first: int, count: nat): (days: seq<int>)
    ensures |days| == count
    ensures forall i :: 0 <= i < count ==> days[i] == first + i
  {
    seq(count, i requires 0 <= i < count => first + i)
  }

  /** Entries that parse to `count` consecutive days give a longest streak of
      `count`, and a current streak of `count` when the last of them is
      yesterday or later, 0 otherwise. */
  lemma StreaksOfSpan(dates: seq<string>, first: int, count: nat, today: int)
    requires count >= 1 && ParsedDays(dates) == Span(first, count)
    ensures Streak(dates, false, today) == count
    ensures Streak(dates, true, today) == (if first + count - 1 >= today - 1 then count else 0)
  {
    var span := Span(first, count);
    var s := Days(dates);
    assert Sorting.SortedBy(span, Sorting.IntLe);
    Sorting.SortedIntsUnique(s, span);
    assert Consecutive(span, 0, count);
    TailRunExact(span, 0);
    LongestRunIsMaximal(span, 0, count);
  }

  /** Entries that parse to consecutive days (each the key of the day after
      the one before) give a longest streak of their number, and a current
      streak of their number when the last is yesterday or later, 0
      otherwise. */
  lemma ConsecutiveDates(dates: seq<string>, first: int, today: int)
    requires |dates| >= 1
    requires forall i :: 0 <= i < |dates| ==> Parse(dates[i]) == Some(first + i)
    ensures Streak(dates, false, today) == |dates|
    ensures Streak(dates, true, today) == (if first + |dates| - 1 >= today - 1 then |dates| else 0)
  {
    AllParse(dates, Span(first, |dates|));
    StreaksOfSpan(dates, first, |dates|, today);
  }

  /** The day number of 2024-01-01. */
  const Jan1: int := 738885

  /** The key "2024-01-0d" of day d (1..9) of January 2024. */
  function JanuaryText(d: int): (s: string)
    requires 1 <= d <= 9
    ensures |s| == 10
  {
    "2024-01-0" + [DigitChar(d)]
  }

  /** "2024-01-0d" parses to the d-th day of January 2024. */
  lemma JanuaryKey(d: int)
    requires 1 <= d <= 9
    ensures Parse(JanuaryText(d)) == Some(Jan1 + d - 1)
  {
    assert DayNumber(Date(2024, 1, 1)) == Jan1;
    assert JanuaryText(d) == DateText(Date(2024, 1, d));
    ParseDateText(Date(2024, 1, d));
  }

  /** When the parsed days are already in order, the streaks are those of
      the parsed days. */
  lemma StreaksOfOrdered(dates: seq<string>, s: seq<int>, today: int)
    requires dates != [] && ParsedDays(dates) == s && Sorting.SortedBy(s, Sorting.IntLe)
    ensures Streak(dates, true, today) == CurrentRun(s, today)
    ensures Streak(dates, false, today) == LongestRun(s)
  {
    Sorting.SortedIntsUnique(Days(dates), s);
  }

  /** 2024-01-01, 2024-01-02 and 2024-01-03 on 2024-01-03: both streaks are 3. */
  lemma ThreeDaysExample(dates: seq<string>, today: int)
    requires dates == ["2024-01-01", "2024-01-02", "2024-01-03"] && today == Jan1 + 2
    ensures Streak(dates, true, today) == 3 && Streak(dates, false, today) == 3
  {
    var s := [Jan1, Jan1 + 1, Jan1 + 2];
    ThreeDaysParsed(dates, s);
    assert Sorting.SortedBy(s, Sorting.IntLe);
    StreaksOfOrdered(dates, s, today);
    RunOfThree(s, Jan1);
  }

  /** Three days in a row form one run of three. */
  lemma RunOfThree(s: seq<int>, a: int)
    requires s == [a, a + 1, a + 2]
    ensures TailRun(s) == 3 && LongestRun(s) == 3
  {
    assert Consecutive(s, 0, 3);
    TailRunExact(s, 0);
    LongestRunIsMaximal(s, 0, 3);
  }

  lemma ThreeDaysParsed(dates: seq<string>, days: seq<int>)
    requires dates == ["2024-01-01", "2024-01-02", "2024-01-03"]
    requires days == [Jan1, Jan1 + 1, Jan1 + 2]
    ensures ParsedDays(dates) == days
  {
    JanuaryKey(1);
    JanuaryKey(2);
    JanuaryKey(3);
    assert dates[0] == JanuaryText(1) && dates[1] == JanuaryText(2) && dates[2] == JanuaryText(3);
    ThreeParse(dates, days);
  }

  lemma ThreeParse(dates: seq<string>, days: seq<int>)
    requires |dates| == 3 && |days| == 3
    requires Parse(dates[0]) == Some(days[0]) && Parse(dates[1]) == Some(days[1]) && Parse(dates[2]) == Some(days[2])
    ensures ParsedDays(dates) == days
  {
    AllParse(dates, days);
  }

  /** 2024-01-01 and 2024-01-03 on 2024-01-03: both streaks are 1. */
  lemma GapExample(dates: seq<string>, today: int)
    requires dates == ["2024-01-01", "2024-01-03"] && today == Jan1 + 2
    ensures Streak(dates, true, today) == 1 && Streak(dates, false, today) == 1
  {
    var s := [Jan1, Jan1 + 2];
    GapParsed(dates, s);
    assert Sorting.SortedBy(s, Sorting.IntLe);
    StreaksOfOrdered(dates, s, today);
    assert s[..1] == [Jan1];
  }

  lemma GapParsed(dates: seq<string>, days: seq<int>)
    requires dates == ["2024-01-01", "2024-01-03"]
    requires days == [Jan1, Jan1 + 2]
    ensures ParsedDays(dates) == days
  {
    JanuaryKey(1);
    JanuaryKey(3);
    assert dates[0] == JanuaryText(1) && dates[1] == JanuaryText(3);
    AllParse(dates, days);
  }

  /** Without removal of repeats, 2024-01-01, 2024-01-02, 2024-01-02,
      2024-01-03 on 2024-01-03 give streaks of 2, not 3: the repeated day ends
      the run. */
  lemma RepeatedDayExample(dates: seq<string>, today: int)
    requires dates == ["2024-01-01", "2024-01-02", "2024-01-02", "2024-01-03"] && today == Jan1 + 2
    ensures Streak(dates, true, today) == 2 && Streak(dates, false, today) == 2
  {
    var s := [Jan1, Jan1 + 1, Jan1 + 1, Jan1 + 2];
    RepeatedDayParsed(dates, s);
    assert Sorting.SortedBy(s, Sorting.IntLe);
    StreaksOfOrdered(dates, s, today);
    RepeatedDayRuns(Jan1);
  }

  lemma RepeatedDayParsed(dates: seq<string>, days: seq<int>)
    requires dates == ["2024-01-01", "2024-01-02", "2024-01-02", "2024-01-03"]
    requires days == [Jan1, Jan1 + 1, Jan1 + 1, Jan1 + 2]
    ensures ParsedDays(dates) == days
  {
    JanuaryKey(1);
    JanuaryKey(2);
    JanuaryKey(3);
    assert dates[0] == JanuaryText(1) && dates[1] == JanuaryText(2);
    assert dates[2] == JanuaryText(2) && dates[3] == JanuaryText(3);
    AllParse(dates, days);
  }

  /** The runs of a, a + 1, a + 1, a + 2. */
  lemma RepeatedDayRuns(a: int)
    ensures TailRun([a, a + 1, a + 1, a + 2]) == 2
    ensures LongestRun([a, a + 1, a + 1, a + 2]) == 2
  {
    var s := [a, a + 1, a + 1, a + 2];
    assert s[..3] == [a, a + 1, a + 1];
    assert s[..3][..2] == [a, a + 1];
    assert s[..3][..2][..1] == [a];
    assert TailRun(s[..3]) == 1;
    assert TailRun(s[..3][..2]) == 2;
    assert LongestRun(s[..3][..2]) == 2;
    assert TailRun(s) == 2;
  }
}
