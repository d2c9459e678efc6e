/**
 * The history list (components/LogHistory.tsx): the logs of the last ten
 * days, newest first; the "Today"/"Yesterday" date labels; and the first
 * four technology chips of a log with a "+ n more" chip for the rest.
 */
module LogHistory {
  import opened Types
  import opened Sorting
  import opened Calendar

  // ---- the recent logs ----

  /** `logs.filter(log => date >= tenDaysAgo)`. */
  function Recent(logs: seq<LogEntry>, tenDaysAgo: Day): seq<LogEntry> {
    if logs == [] then []
    else
      var p := Recent(logs[..|logs| - 1], tenDaysAgo);
      if logs[|logs| - 1].date >= tenDaysAgo then p + [logs[|logs| - 1]] else p
  }

  /** The sort's comparator `b.date - a.date`: later dates first. */
  const NewestFirst: (LogEntry, LogEntry) -> bool := (a: LogEntry, b: LogEntry) => a.date >= b.date

  /** `recentLogs`: the logs dated on or after ten days before today, stably sorted newest first. */
  function RecentLogs(logs: seq<LogEntry>, today: Day): seq<LogEntry> {
    Sort(Recent(logs, today - 10), NewestFirst)
  }

  /** The filter keeps each log dated on or after the cutoff as often as it occurs, and nothing else. */
  lemma {:induction false} RecentCounts(logs: seq<LogEntry>, tenDaysAgo: Day)
    ensures forall x :: multiset(Recent(logs, tenDaysAgo))[x] == if x.date >= tenDaysAgo then multiset(logs)[x] else 0
  {
    if logs != [] {
      var p := logs[..|logs| - 1];
      RecentCounts(p, tenDaysAgo);
      assert logs == p + [logs[|logs| - 1]];
    }
  }

  /**
   * The recent logs are ordered newest first, are exactly the logs of the
   * last ten days (each as often as it is logged), and no older log is
   * among them.
   */
  lemma RecentLogsMeaning(logs: seq<LogEntry>, today: Day)
    ensures SortedBy(RecentLogs(logs, today), NewestFirst)
    ensures forall x :: multiset(RecentLogs(logs, today))[x] == if x.date >= today - 10 then multiset(logs)[x] else 0
    ensures forall i :: 0 <= i < |RecentLogs(logs, today)| ==> RecentLogs(logs, today)[i].date >= today - 10
    ensures forall x :: x in RecentLogs(logs, today) <==> x in logs && x.date >= today - 10
  {
    assert TotalPreorder(NewestFirst);
    SortSorted(Recent(logs, today - 10), NewestFirst);
    RecentCounts(logs, today - 10);
    var r := RecentLogs(logs, today);
    forall i | 0 <= i < |r| ensures r[i].date >= today - 10 {
      assert multiset(r)[r[i]] > 0;
    }
    forall x ensures x in r <==> x in logs && x.date >= today - 10 {
      assert x in r <==> multiset(r)[x] > 0;
      assert x in logs <==> multiset(logs)[x] > 0;
    }
  }

  /** Logs already listed newest first, all of the last ten days, come out as they are. */
  lemma RecentLogsOfSorted(logs: seq<LogEntry>, today: Day)
    requires SortedBy(logs, NewestFirst)
    requires forall i :: 0 <= i < |logs| ==> logs[i].date >= today - 10
    ensures RecentLogs(logs, today) == logs
  {
    RecentKeepsAll(logs, today - 10);
    SortOfSorted(logs, NewestFirst);
  }

  lemma {:induction false} RecentKeepsAll(logs: seq<LogEntry>, tenDaysAgo: Day)
    requires forall i :: 0 <= i < |logs| ==> logs[i].date >= tenDaysAgo
    ensures Recent(logs, tenDaysAgo) == logs
  {
    if logs != [] {
      RecentKeepsAll(logs[..|logs| - 1], tenDaysAgo);
    }
  }

  // ---- the date label ----

  /**
   * The label of a history row: "Today", "Yesterday", or the short en-US date
   * text, which shows the weekday, the month and the day of the month but not
   * the year. `Other` keeps those three fields; the text layout is not modelled.
   */
  datatype DateLabel = Today | Yesterday | Other(weekday: nat, month: int, day: int)

  /** `formatDate`. */
  function FormatDate(date: Day, today: Day): DateLabel {
    if date == today then Today
    else if date == today - 1 then Yesterday
    else
      var c := CivilFromDays(date);
      Other(Weekday(date), c.month, c.day)
  }

  /**
   * Today and yesterday have their names; two other days share a label
   * exactly when they fall on the same weekday, month and day of the month.
   */
  lemma FormatDateMeaning(a: Day, b: Day, today: Day)
    ensures FormatDate(a, today) == Today <==> a == today
    ensures FormatDate(a, today) == Yesterday <==> a + 1 == today
    ensures a != today && a + 1 != today && b != today && b + 1 != today ==>
      (FormatDate(a, today) == FormatDate(b, today) <==>
         Weekday(a) == Weekday(b) && CivilFromDays(a).month == CivilFromDays(b).month && CivilFromDays(a).day == CivilFromDays(b).day)
  {
  }

  /** The label has no year: Thursday 1 January 2015 and Thursday 1 January 2026 read the same. */
  lemma LabelOmitsYear(a: Day, b: Day)
    requires a == DaysFromCivil(2015, 0, 1) && b == DaysFromCivil(2026, 0, 1)
    ensures a != b && CivilFromDays(a).year != CivilFromDays(b).year
    ensures FormatDate(a, 0) == FormatDate(b, 0)
  {
    FirstOfMonth(2015, 0);
    FirstOfMonth(2026, 0);
    NewYearsApart(a, b);
    WeekdayWeeks(a, 574);
  }

  lemma NewYearsApart(a: Day, b: Day)
    requires a == DaysFromCivil(2015, 0, 1) && b == DaysFromCivil(2026, 0, 1)
    ensures a == 16436 && b == a + 7 * 574
  {
    assert YearStart(2014) == 16130 by { assert 2014 / 4 == 503 && 2014 / 100 == 20 && 2014 / 400 == 5; }
    assert YearStart(2025) == 20148 by { assert 2025 / 4 == 506 && 2025 / 100 == 20 && 2025 / 400 == 5; }
    assert (153 * 10 + 2) / 5 == 306;
  }

  // ---- the technology chips ----

  /** The chips of a log: the first four tags, and the number of the others when there are more than four. */
  datatype Chips = Chips(shown: seq<string>, more: Option<nat>)

  /** Nothing without a non-empty breakdown; otherwise `slice(0, 4)` and `+ (length - 4) more` past four. */
  function ChipsOf(log: LogEntry): Option<Chips> {
    if log.techBreakdown.None? || |log.techBreakdown.value| == 0 then None
    else
      var b := log.techBreakdown.value;
      var first := if |b| < 4 then b else b[..4];
      Some(Chips(seq(|first|, i requires 0 <= i < |first| => first[i].tag), if |b| > 4 then Some(|b| - 4) else None))
  }

  /**
   * The chips show the tags of the first (at most) four breakdown entries in
   * order, the "more" chip appears exactly past four entries, and the shown
   * chips plus the "more" count account for every entry.
   */
  lemma ChipsMeaning(log: LogEntry)
    ensures ChipsOf(log).None? <==> log.techBreakdown.None? || log.techBreakdown.value == []
    ensures ChipsOf(log).Some? ==>
      var b := log.techBreakdown.value;
      var c := ChipsOf(log).value;
      && |c.shown| == (if |b| < 4 then |b| else 4)
      && (forall i :: 0 <= i < |c.shown| ==> c.shown[i] == b[i].tag)
      && (c.more.Some? <==> |b| > 4)
      && |c.shown| + (if c.more.Some? then c.more.value else 0) == |b|
  {
  }
}
