/**
 * The statistics table and the paged listings: one `HabitStats` bundle per
 * habit, the bundles ranked by current streak (highest first), the page
 * ranges `commandList` and `commandStats` show ten rows at a time, and the
 * truncation of long names in the table.
 */
module Stats {
  import opened DateKey
  import opened Store
  import Streak
  import Completion
  import Sorting

  /** The figures shown for one habit. */
  datatype HabitStats = HabitStats(
    name: string,
    currentStreak: nat,
    longestStreak: nat,
    weeklyRate: real,
    monthlyRate: real,
    yearlyRate: real)

  /** The figures for habit h on day today: both streaks, and the completion
      rates over the last 7, 30 and 365 days. */
  function StatsOf(h: Habit, today: int): HabitStats {
    HabitStats(
      h.name,
      Streak.Streak(h.dates, true, today),
      Streak.Streak(h.dates, false, today),
      Completion.CompletionRate(h.dates, 7, today),
      Completion.CompletionRate(h.dates, 30, today),
      Completion.CompletionRate(h.dates, 365, today))
  }

  /** `StatsOf` for a fixed day, as a function of the habit. */
  function StatsFor(today: int): Habit -> HabitStats {
    (h: Habit) => StatsOf(h, today)
  }

  /** A bundle whose figures are consistent: the current streak within the
      longest, the longest within the number of recorded entries, every rate a
      percentage. */
  predicate Plausible(st: HabitStats, entries: nat) {
    && st.currentStreak <= st.longestStreak <= entries
    && 0.0 <= st.weeklyRate <= 100.0
    && 0.0 <= st.monthlyRate <= 100.0
    && 0.0 <= st.yearlyRate <= 100.0
  }

  /** Every habit's figures are consistent with its recorded dates. */
  lemma StatsPlausible(h: Habit, today: int)
    ensures Plausible(StatsOf(h, today), |h.dates|)
    ensures h.dates == [] ==> StatsOf(h, today) == HabitStats(h.name, 0, 0, 0.0, 0.0, 0.0)
  {
    Streak.CurrentWithinLongest(h.dates, today);
    Streak.LongestStreakBounds(h.dates, today);
    Completion.CompletionRateBounds(h.dates, 7, today);
    Completion.CompletionRateBounds(h.dates, 30, today);
    Completion.CompletionRateBounds(h.dates, 365, today);
  }

  /** `calculateCompletionRate`: the day counts, then their ratio. */
  method CompletionRateOf(dates: seq<string>, period: int, today: int) returns (rate: real)
    ensures rate == Completion.CompletionRate(dates, period, today)
    ensures 0.0 <= rate <= 100.0
  {
    var completedDays, totalDays := Completion.CompletionCounts(dates, period, today);
    rate := Completion.Rate(completedDays, totalDays);
    Completion.CompletionRateBounds(dates, period, today);
  }

  /** One iteration of the collection loop: both streaks and the three
      rates of one habit. */
  method CollectOne(h: Habit, today: int) returns (st: HabitStats)
    ensures st == StatsFor(today)(h)
    ensures Plausible(st, |h.dates|)
  {
    var currentStreak := Streak.CalculateStreak(h.dates, true, today);
    var longestStreak := Streak.CalculateStreak(h.dates, false, today);
    var weeklyRate := CompletionRateOf(h.dates, 7, today);
    var monthlyRate := CompletionRateOf(h.dates, 30, today);
    var yearlyRate := CompletionRateOf(h.dates, 365, today);
    StatsPlausible(h, today);
    st := HabitStats(h.name, currentStreak, longestStreak, weeklyRate, monthlyRate, yearlyRate);
  }

  /** The collection loop: one bundle per habit, in the order of the habit
      list. */
  method CollectStats(habits: seq<Habit>, today: int) returns (allStats: seq<HabitStats>)
    ensures |allStats| == |habits|
    ensures forall i :: 0 <= i < |habits| ==> allStats[i] == StatsFor(today)(habits[i])
  {
    allStats := [];
    for i := 0 to |habits|
      invariant |allStats| == i
      invariant forall k :: 0 <= k < i ==> allStats[k] == StatsFor(today)(habits[k])
    {
      var st := CollectOne(habits[i], today);
      Collected(habits, allStats, st, StatsFor(today));
      allStats := allStats + [st];
    }
  }

  /** One more bundle, for the next habit, keeps the collected bundles those
      of the habits so far. */
  lemma Collected(habits: seq<Habit>, ys: seq<HabitStats>, y: HabitStats, f: Habit -> HabitStats)
    requires |ys| < |habits| && y == f(habits[|ys|])
    requires forall k :: 0 <= k < |ys| ==> ys[k] == f(habits[k])
    ensures forall k :: 0 <= k < |ys| + 1 ==> (ys + [y])[k] == f(habits[k])
  {
  }

  /** The ranking order: a goes no later than b when its current streak is at
      least b's.  Bundles with equal streaks are equivalent, so the order is a
      total preorder and not antisymmetric. */
  function StreakFirst(a: HabitStats, b: HabitStats): bool {
    a.currentStreak >= b.currentStreak
  }

  lemma StreakFirstTotalPreorder()
    ensures Sorting.TotalPreorder(StreakFirst)
  {
  }

  /** What the sort promises: the same bundles, highest current streak first.
      Among equal streaks any order satisfies it, as with `sort.Slice`. */
  predicate RankedByStreak(ranked: seq<HabitStats>, allStats: seq<HabitStats>) {
    && multiset(ranked) == multiset(allStats)
    && forall i, j :: 0 <= i < j < |ranked| ==> ranked[i].currentStreak >= ranked[j].currentStreak
  }

  /** One ranking of the bundles: the model's stand-in for the order
      `sort.Slice` happens to produce. */
  function RankByStreak(allStats: seq<HabitStats>): (ranked: seq<HabitStats>)
    ensures RankedByStreak(ranked, allStats)
  {
    StreakFirstTotalPreorder();
    var r := Sorting.Sort(allStats, StreakFirst);
    assert forall i, j :: 0 <= i < j < |r| ==> StreakFirst(r[i], r[j]);
    r
  }

  /** The first row of a ranking has the highest current streak of all. */
  lemma TopOfRanking(ranked: seq<HabitStats>, allStats: seq<HabitStats>, st: HabitStats)
    requires RankedByStreak(ranked, allStats) && st in allStats
    ensures ranked != [] && ranked[0].currentStreak >= st.currentStreak
  {
    assert st in multiset(ranked);
    var i :| 0 <= i < |ranked| && ranked[i] == st;
    if i > 0 {
      assert ranked[0].currentStreak >= ranked[i].currentStreak;
    }
  }

  /** The STREAK column of the table. */
  function Streaks(s: seq<HabitStats>): (col: seq<int>)
    ensures |col| == |s|
    ensures forall i :: 0 <= i < |s| ==> col[i] == s[i].currentStreak
  {
    seq(|s|, i requires 0 <= i < |s| => s[i].currentStreak)
  }

  lemma StreaksAppend(a: seq<HabitStats>, b: seq<HabitStats>)
    ensures Streaks(a + b) == Streaks(a) + Streaks(b)
  {
  }

  /** Rearranging the bundles rearranges the STREAK column the same way. */
  lemma {:induction false} StreaksPermuted(a: seq<HabitStats>, b: seq<HabitStats>)
    requires multiset(a) == multiset(b)
    ensures multiset(Streaks(a)) == multiset(Streaks(b))
    decreases |a|
  {
    if a == [] {
      assert |b| == |multiset(b)| == 0;
    } else {
      var n := |a| - 1;
      var x := a[n];
      assert a == a[..n] + [x];
      assert x in multiset(b);
      var j :| 0 <= j < |b| && b[j] == x;
      assert b == b[..j] + [x] + b[j + 1..];
      var rest := b[..j] + b[j + 1..];
      assert multiset(rest) == multiset(b) - multiset{x};
      assert multiset(a[..n]) == multiset(a) - multiset{x};
      StreaksPermuted(a[..n], rest);
      StreaksAppend(a[..n], [x]);
      StreaksAppend(b[..j] + [x], b[j + 1..]);
      StreaksAppend(b[..j], [x]);
      StreaksAppend(b[..j], b[j + 1..]);
    }
  }

  function IntGe(a: int, b: int): bool {
    a >= b
  }

  /** `sort.Slice` is not stable, so which of two habits with the same current
      streak comes first is not determined; the STREAK column is: any two
      rankings of the same bundles show the same streaks, row by row. */
  lemma StreakColumnDetermined(r1: seq<HabitStats>, r2: seq<HabitStats>, allStats: seq<HabitStats>)
    requires RankedByStreak(r1, allStats) && RankedByStreak(r2, allStats)
    ensures Streaks(r1) == Streaks(r2)
  {
    StreaksPermuted(r1, r2);
    assert Sorting.TotalPreorder(IntGe);
    assert Sorting.Antisymmetric(IntGe);
    Sorting.SortedUnique(Streaks(r1), Streaks(r2), IntGe);
  }

  /** Two habits with the same current streak can come out in either order:
      both orders are rankings. */
  lemma TiesEitherWay(a: HabitStats, b: HabitStats)
    requires a.currentStreak == b.currentStreak
    ensures RankedByStreak([a, b], [a, b]) && RankedByStreak([b, a], [a, b])
  {
    assert multiset([b, a]) == multiset([a, b]);
  }

  /** Rows per page, in both the habit list and the statistics table. */
  const PerPage := 10

  /** The number of pages for n rows: n / 10 rounded up. */
  function TotalPages(n: nat): nat {
    (n + PerPage - 1) / PerPage
  }

  /** Page count by ceiling division: enough pages for every row, and the
      last page is not empty. */
  lemma TotalPagesSpec(n: nat)
    ensures n == 0 <==> TotalPages(n) == 0
    ensures n > 0 ==> (TotalPages(n) - 1) * PerPage < n <= TotalPages(n) * PerPage
  {
  }

  /** The rows a page display shows: from startIdx up to endIdx, the end cut
      back to the number of rows. */
  function Shown(startIdx: int, endIdx: int, n: nat): (int, int) {
    (startIdx, if endIdx > n then n else endIdx)
  }

  /** The pages the list and the statistics table show for n rows, as row
      ranges [start, end).  Up to ten rows go on one page; more are shown a
      page at a time, ten rows each, the last page holding the rest. */
  method Pages(n: nat) returns (pages: seq<(int, int)>)
    ensures |pages| == if n <= PerPage then 1 else TotalPages(n)
    ensures n <= PerPage ==> pages == [(0, n)]
    ensures pages[0].0 == 0 && pages[|pages| - 1].1 == n
    ensures forall k :: 0 <= k < |pages| - 1 ==> pages[k].1 == pages[k + 1].0
    ensures forall k :: 0 <= k < |pages| - 1 ==> pages[k].1 - pages[k].0 == PerPage
    ensures n > 0 ==> forall k :: 0 <= k < |pages| ==> pages[k].0 < pages[k].1 <= pages[k].0 + PerPage
    ensures forall i :: 0 <= i < n ==> i / PerPage < |pages| && pages[i / PerPage].0 <= i < pages[i / PerPage].1
  {
    if n <= PerPage {
      return [Shown(0, PerPage, n)];
    }
    var totalPages := TotalPages(n);
    TotalPagesSpec(n);
    var currentPage := 0;
    pages := [];
    while true
      invariant 0 <= currentPage < totalPages
      invariant |pages| == currentPage
      invariant forall k :: 0 <= k < currentPage ==> pages[k] == (k * PerPage, k * PerPage + PerPage)
      decreases totalPages - currentPage
    {
      var startIdx := currentPage * PerPage;
      var endIdx := startIdx + PerPage;
      if endIdx > n {
        endIdx := n;
      }
      pages := pages + [(startIdx, endIdx)];
      if currentPage < totalPages - 1 {
        currentPage := currentPage + 1;
      } else {
        PagesCover(pages, n);
        return;
      }
    }
  }

  /** Full pages of ten followed by a last page ending at n cover every row
      on page i / 10. */
  lemma PagesCover(pages: seq<(int, int)>, n: nat)
    requires pages != []
    requires forall k :: 0 <= k < |pages| - 1 ==> pages[k] == (k * PerPage, k * PerPage + PerPage)
    requires pages[|pages| - 1] == ((|pages| - 1) * PerPage, n)
    requires (|pages| - 1) * PerPage < n <= |pages| * PerPage
    ensures forall i :: 0 <= i < n ==> i / PerPage < |pages| && pages[i / PerPage].0 <= i < pages[i / PerPage].1
  {
    forall i | 0 <= i < n
      ensures i / PerPage < |pages| && pages[i / PerPage].0 <= i < pages[i / PerPage].1
    {
      var k := i / PerPage;
      assert k * PerPage <= i < k * PerPage + PerPage;
    }
  }

  /** Widest name shown in the table, and how much of a longer one is kept
      before the ellipsis. */
  const NameWidth := 22
  const KeptPrefix := 19

  /** The name as shown in the statistics table. */
  function Truncate(name: string): (shown: string)
    ensures |shown| <= NameWidth
    ensures |name| <= NameWidth <==> shown == name
    ensures |name| > NameWidth ==> |shown| == NameWidth && shown == name[..KeptPrefix] + "..."
  {
    if |name| > NameWidth then name[..KeptPrefix] + "..." else name
  }

  /** Truncating a shown name again changes nothing. */
  lemma TruncateIdempotent(name: string)
    ensures Truncate(Truncate(name)) == Truncate(name)
  {
  }

  /** Two names that agree on their first 19 characters and are both too long
      show alike in the table. */
  lemma TruncateMerges(a: string, b: string)
    requires |a| > NameWidth && |b| > NameWidth && a[..KeptPrefix] == b[..KeptPrefix]
    ensures Truncate(a) == Truncate(b)
  {
  }
}
