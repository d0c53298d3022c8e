/**
 * The completion-rate counter (`calculateCompletionRate`): over the window of
 * `period` days that ends today, how many days have their key among the
 * recorded dates.  The program reports the ratio of the two counts as a
 * percentage; the counts are modelled exactly and the percentage as an exact
 * rational (`real`), not as a 64-bit float.
 */
module Completion {
  import opened DateKey

  /** Number of days lo..hi (inclusive) on which `done` holds. */
  function CountWhere(done: int -> bool, lo: int, hi: int): (c: nat)
    ensures c <= WindowSize(lo, hi)
    decreases hi - lo + 1
  {
    if hi < lo then 0
    else CountWhere(done, lo, hi - 1) + (if done(hi) then 1 else 0)
  }

  /** Number of days lo..hi, inclusive; none when hi < lo. */
  function WindowSize(lo: int, hi: int): nat {
    if hi < lo then 0 else hi - lo + 1
  }

  /** The first day of the window of `period` days that ends today. */
  function WindowStart(period: int, today: int): int {
    today - period + 1
  }

  /** The distinct recorded dates (the `uniqueDates` map of the source). */
  function Unique(dates: seq<string>): set<string> {
    set s | s in dates
  }

  /** Whether a day counts as completed: its key is among the recorded
      dates. */
  function Recorded(unique: set<string>): int -> bool {
    d => Key(d) in unique
  }

  /** The counts `calculateCompletionRate` arrives at: the days visited and
      the days among them whose key is recorded.  An empty date list returns
      before counting. */
  method CompletionCounts(dates: seq<string>, period: int, today: int)
    returns (completedDays: nat, totalDays: nat)
    ensures dates == [] ==> completedDays == 0 && totalDays == 0
    ensures dates != [] ==> totalDays == WindowSize(WindowStart(period, today), today)
    ensures dates != [] ==> completedDays == CountWhere(Recorded(Unique(dates)), WindowStart(period, today), today)
  {
    if dates == [] {
      return 0, 0;
    }
    completedDays, totalDays := CountRecorded(dates, WindowStart(period, today), today);
  }

  /** Collect the distinct dates, then count the days start..today whose
      key is among them. */
  method CountRecorded(dates: seq<string>, start: int, today: int)
    returns (completedDays: nat, totalDays: nat)
    ensures totalDays == WindowSize(start, today)
    ensures completedDays == CountWhere(Recorded(Unique(dates)), start, today)
  {
    var uniqueDates := set s | s in dates;
    completedDays, totalDays := CountWindow(Recorded(uniqueDates), start, today);
  }

  /** The day loop: from start to today inclusive, one day at a time,
      counting every day visited and every day found done. */
  method CountWindow(done: int -> bool, start: int, today: int)
    returns (completedDays: nat, totalDays: nat)
    ensures totalDays == WindowSize(start, today)
    ensures completedDays == CountWhere(done, start, today)
  {
    totalDays, completedDays := 0, 0;
    var d := start;
    while d <= today
      invariant start <= d
      invariant d <= today + 1 || d == start
      invariant totalDays == WindowSize(start, d - 1)
      invariant completedDays == CountWhere(done, start, d - 1)
      decreases today - d + 1
    {
      totalDays := totalDays + 1;
      if done(d) {
        completedDays := completedDays + 1;
      }
      d := d + 1;
    }
  }

  /** The percentage returned: 0 when no day was visited. */
  function Rate(completedDays: nat, totalDays: nat): real {
    if totalDays == 0 then 0.0 else completedDays as real / totalDays as real * 100.0
  }

  /** The value `calculateCompletionRate(dates, period)` returns on day today. */
  function CompletionRate(dates: seq<string>, period: int, today: int): real {
    if dates == [] then 0.0
    else
      Rate(CountWhere(Recorded(Unique(dates)), WindowStart(period, today), today),
           WindowSize(WindowStart(period, today), today))
  }

  /** A period of at least one day visits exactly `period` days ending today,
      and a period of zero or less visits none. */
  lemma WindowOfPeriod(period: int, today: int)
    ensures period >= 1 ==> WindowSize(WindowStart(period, today), today) == period
    ensures period <= 0 ==> WindowSize(WindowStart(period, today), today) == 0
  {
  }

  /** The rate of c completed days out of t is a percentage: 100 exactly when
      every visited day was completed, 0 exactly when none was (or none was
      visited). */
  lemma RateBounds(c: nat, t: nat)
    requires c <= t
    ensures 0.0 <= Rate(c, t) <= 100.0
    ensures Rate(c, t) == 100.0 <==> t > 0 && c == t
    ensures Rate(c, t) == 0.0 <==> t == 0 || c == 0
  {
    if t > 0 {
      var q := c as real / t as real;
      assert 0.0 <= q <= 1.0;
      assert q == 1.0 <==> c == t;
    }
  }

  /** The completion rate is a percentage; it is 0 for an empty date list and
      for a period that visits no day. */
  lemma CompletionRateBounds(dates: seq<string>, period: int, today: int)
    ensures 0.0 <= CompletionRate(dates, period, today) <= 100.0
    ensures dates == [] || period <= 0 ==> CompletionRate(dates, period, today) == 0.0
  {
    var lo := WindowStart(period, today);
    RateBounds(CountWhere(Recorded(Unique(dates)), lo, today), WindowSize(lo, today));
  }

  /** `done` holds on every day of the window exactly when the count reaches
      the window's size. */
  lemma {:induction false} AllDone(done: int -> bool, lo: int, hi: int)
    ensures CountWhere(done, lo, hi) == WindowSize(lo, hi) <==> forall d :: lo <= d <= hi ==> done(d)
    decreases hi - lo + 1
  {
    if hi >= lo {
      AllDone(done, lo, hi - 1);
    }
  }

  /** `done` holds on no day of the window exactly when the count is zero. */
  lemma {:induction false} NoneDone(done: int -> bool, lo: int, hi: int)
    ensures CountWhere(done, lo, hi) == 0 <==> forall d :: lo <= d <= hi ==> !done(d)
    decreases hi - lo + 1
  {
    if hi >= lo {
      NoneDone(done, lo, hi - 1);
    }
  }

  /** A period of at least one day gives 100 exactly when every day of it has
      its key recorded, and 0 exactly when none has. */
  lemma FullAndEmptyWindows(dates: seq<string>, period: int, today: int)
    requires period >= 1 && dates != []
    ensures CompletionRate(dates, period, today) == 100.0
            <==> forall d :: WindowStart(period, today) <= d <= today ==> Key(d) in dates
    ensures CompletionRate(dates, period, today) == 0.0
            <==> forall d :: WindowStart(period, today) <= d <= today ==> Key(d) !in dates
  {
    var lo := WindowStart(period, today);
    var c := CountWhere(Recorded(Unique(dates)), lo, today);
    RateBounds(c, WindowSize(lo, today));
    KeysInWindow(dates, lo, today);
  }

  /** The count over a window in terms of the recorded keys themselves. */
  lemma KeysInWindow(dates: seq<string>, lo: int, hi: int)
    ensures CountWhere(Recorded(Unique(dates)), lo, hi) == WindowSize(lo, hi)
            <==> forall d :: lo <= d <= hi ==> Key(d) in dates
    ensures CountWhere(Recorded(Unique(dates)), lo, hi) == 0
            <==> forall d :: lo <= d <= hi ==> Key(d) !in dates
  {
    var done := Recorded(Unique(dates));
    AllDone(done, lo, hi);
    NoneDone(done, lo, hi);
    forall d {
      RecordedIff(dates, d);
    }
  }

  lemma RecordedIff(dates: seq<string>, d: int)
    ensures Recorded(Unique(dates))(d) <==> Key(d) in dates
  {
  }

  /** Only the distinct recorded dates matter: two date lists with the same
      members have the same completion rate, however often a date repeats. */
  lemma OnlyDistinctDatesCount(a: seq<string>, b: seq<string>, period: int, today: int)
    requires forall s :: s in a <==> s in b
    ensures CompletionRate(a, period, today) == CompletionRate(b, period, today)
  {
    assert Unique(a) == Unique(b);
    assert a != [] ==> a[0] in b;
    assert b != [] ==> b[0] in a;
  }
}
