/**
 * The current and longest logging streaks (App.tsx currentStreak and
 * longestStreak). A streak is a run of consecutive days that each have a log.
 */
module Streaks {
  import opened Types
  import opened Sorting

  /** The logged days on or before `d`. */
  function Upto(dates: set<Day>, d: Day): set<Day> {
    set x | x in dates && x <= d
  }

  lemma UptoShrinks(dates: set<Day>, d: Day)
    requires d in dates
    ensures |Upto(dates, d - 1)| < |Upto(dates, d)|
  {
    assert Upto(dates, d) == Upto(dates, d - 1) + {d};
  }

  /** The number of consecutive logged days ending at `d` (0 when `d` itself is not logged). */
  function RunEndingAt(dates: set<Day>, d: Day): nat
    decreases |Upto(dates, d)|
  {
    if d in dates then
      UptoShrinks(dates, d);
      1 + RunEndingAt(dates, d - 1)
    else 0
  }

  /** The run ending at `d` is exactly the days d - n + 1 .. d, and the day before it is not logged. */
  lemma {:induction false} RunIsMaximal(dates: set<Day>, d: Day)
    ensures forall x :: d - RunEndingAt(dates, d) < x <= d ==> x in dates
    ensures d - RunEndingAt(dates, d) !in dates
    decreases |Upto(dates, d)|
  {
    if d in dates {
      UptoShrinks(dates, d);
      RunIsMaximal(dates, d - 1);
    }
  }

  // ---- current streak ----

  /** The day the current streak is counted back from: today, or yesterday when today has no log. */
  function StreakStart(dates: set<Day>, today: Day): Day {
    if today in dates then today else today - 1
  }

  /** `currentStreak`. */
  function CurrentStreak(logs: seq<LogEntry>, today: Day): nat {
    if |logs| == 0 then 0 else RunEndingAt(DateSet(logs), StreakStart(DateSet(logs), today))
  }

  /** The `while` loop that walks back from the start day while the day has a log. */
  method CountCurrentStreak(logs: seq<LogEntry>, today: Day) returns (streak: nat)
    ensures streak == CurrentStreak(logs, today)
  {
    if |logs| == 0 {
      return 0;
    }
    var logDates := DateSet(logs);
    streak := 0;
    var currentDate := today;
    if currentDate !in logDates {
      currentDate := currentDate - 1;
    }
    while currentDate in logDates
      invariant streak + RunEndingAt(logDates, currentDate) == RunEndingAt(logDates, StreakStart(logDates, today))
      decreases |Upto(logDates, currentDate)|
    {
      UptoShrinks(logDates, currentDate);
      streak := streak + 1;
      currentDate := currentDate - 1;
    }
  }

  /**
   * The current streak is 0 when neither today nor yesterday has a log;
   * otherwise it is n, where the n days ending at today (or at yesterday when
   * today has no log) all have logs and the day before them has none.
   */
  lemma CurrentStreakMeaning(logs: seq<LogEntry>, today: Day)
    ensures var dates := DateSet(logs);
      && (CurrentStreak(logs, today) == 0 <==> today !in dates && today - 1 !in dates)
      && (forall x :: StreakStart(dates, today) - CurrentStreak(logs, today) < x <= StreakStart(dates, today) ==> x in dates)
      && StreakStart(dates, today) - CurrentStreak(logs, today) !in dates
  {
    RunIsMaximal(DateSet(logs), StreakStart(DateSet(logs), today));
  }

  // ---- longest streak ----

  /** `n` is the longest run: some logged day ends a run of `n`, and no run is longer (0 without logs). */
  ghost predicate IsLongest(dates: set<Day>, n: nat) {
    && (dates == {} ==> n == 0)
    && (dates != {} ==> exists d :: d in dates && RunEndingAt(dates, d) == n)
    && (forall d :: d in dates ==> RunEndingAt(dates, d) <= n)
  }

  /** The comparator of the default sort on date strings, which orders them as days. */
  const ByDay: (Day, Day) -> bool := (a: Day, b: Day) => a <= b

  /** In the sorted list of logged days, the run ending at entry i continues the one at i - 1 exactly when they are one day apart. */
  lemma RunStep(dates: set<Day>, sorted: seq<Day>, i: int)
    requires SortedBy(sorted, ByDay) && Distinct(sorted)
    requires forall t :: t in sorted <==> t in dates
    requires 0 <= i < |sorted|
    ensures RunEndingAt(dates, sorted[i]) ==
      if i > 0 && sorted[i] - sorted[i - 1] == 1 then RunEndingAt(dates, sorted[i - 1]) + 1 else 1
  {
    var d := sorted[i];
    assert d in dates;
    if i > 0 && sorted[i] - sorted[i - 1] == 1 {
    } else {
      assert d - 1 !in dates by {
        forall j | 0 <= j < |sorted| ensures sorted[j] != d - 1 {
          if j < i {
            assert sorted[j] <= sorted[i - 1] < d - 1 by {
              if j < i - 1 { assert ByDay(sorted[j], sorted[i - 1]); }
              assert ByDay(sorted[i - 1], sorted[i]) && sorted[i - 1] != sorted[i];
            }
          } else if j > i {
            assert ByDay(sorted[i], sorted[j]);
          }
        }
      }
    }
  }

  /** `longestStreak`: the `for` loop over the sorted distinct dates. */
  method LongestStreak(logs: seq<LogEntry>) returns (longest: nat)
    ensures IsLongest(DateSet(logs), longest)
  {
    var dates := DateSet(logs);
    if |logs| == 0 {
      return 0;
    }
    assert logs[0].date in dates;
    var sortedDates := SortedSet(dates, ByDay);
    if |sortedDates| < 2 {
      RunStep(dates, sortedDates, 0);
      assert forall d :: d in dates ==> d == sortedDates[0];
      return |sortedDates|;
    }
    longest := LongestRun(dates, sortedDates);
  }

  /** The loop itself, over the sorted distinct days (at least two of them). */
  method LongestRun(dates: set<Day>, sortedDates: seq<Day>) returns (maxStreak: nat)
    requires SortedBy(sortedDates, ByDay) && Distinct(sortedDates)
    requires forall t :: t in sortedDates <==> t in dates
    requires |sortedDates| >= 2
    ensures IsLongest(dates, maxStreak)
  {
    maxStreak := 1;
    var currentStreakLength := 1;
    ghost var at := 0;
    RunStep(dates, sortedDates, 0);
    for i := 1 to |sortedDates|
      invariant currentStreakLength == RunEndingAt(dates, sortedDates[i - 1])
      invariant 0 <= at < i && RunEndingAt(dates, sortedDates[at]) == maxStreak
      invariant forall j :: 0 <= j < i ==> RunEndingAt(dates, sortedDates[j]) <= maxStreak
    {
      RunStep(dates, sortedDates, i);
      var diffDays := sortedDates[i] - sortedDates[i - 1];
      if diffDays == 1 {
        currentStreakLength := currentStreakLength + 1;
      } else {
        currentStreakLength := 1;
      }
      if currentStreakLength > maxStreak {
        maxStreak := currentStreakLength;
        at := i;
      }
    }
    assert sortedDates[at] in dates;
    forall d | d in dates ensures RunEndingAt(dates, d) <= maxStreak {
      var j :| 0 <= j < |sortedDates| && sortedDates[j] == d;
    }
  }

  /** The current streak never exceeds the longest one. */
  lemma CurrentAtMostLongest(logs: seq<LogEntry>, today: Day, longest: nat)
    requires IsLongest(DateSet(logs), longest)
    ensures CurrentStreak(logs, today) <= longest
  {
    var dates := DateSet(logs);
    var start := StreakStart(dates, today);
    if |logs| > 0 && start in dates {
      assert RunEndingAt(dates, start) <= longest;
    }
  }

  /** When no two logged days are adjacent, the longest streak is 1. */
  lemma SingleDayRuns(dates: set<Day>, longest: nat)
    requires dates != {} && IsLongest(dates, longest)
    requires forall d :: d in dates ==> d - 1 !in dates
    ensures longest == 1
  {
    var d :| d in dates && RunEndingAt(dates, d) == longest;
    assert RunEndingAt(dates, d - 1) == 0;
  }
}
