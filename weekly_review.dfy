/**
 * The weekly review (components/WeeklyReviewModal.tsx and the `lastWeekLogs`
 * memo of App.tsx): last week's logs, Sunday to Saturday; their total; the
 * busiest weekday; the three tags with the most hours; and the message tier
 * picked from the total.
 */
module WeeklyReview {
  import opened Types
  import opened Sorting
  import opened Calendar
  import opened TagTotals
  import opened Productivity
  import opened TagAnalysis

  // ---- the window ----

  /** The Sunday that starts the week before the current one (`today - getDay() - 7`). */
  function LastSunday(today: Day): Day {
    today - Weekday(today) - 7
  }

  /** `lastWeekLogs`: the logs dated from last Sunday through the Saturday after it, in log order. */
  function LastWeekLogs(logs: seq<LogEntry>, today: Day): seq<LogEntry> {
    if logs == [] then []
    else
      var r := LastWeekLogs(logs[..|logs| - 1], today);
      var log := logs[|logs| - 1];
      if LastSunday(today) <= log.date <= LastSunday(today) + 6 then r + [log] else r
  }

  /** The window is a whole Sunday-to-Saturday week, the one before the week that holds today. */
  lemma LastWeekWindow(today: Day)
    ensures Weekday(LastSunday(today)) == 0 && Weekday(LastSunday(today) + 6) == 6
    ensures LastSunday(today) + 7 <= today < LastSunday(today) + 14
  {
    var w := Weekday(today);
    assert (today - 3) % 7 == ((today - w - 7) - 3) % 7 + w;
  }

  /** A log is kept exactly when it falls in the window, and the kept logs keep their order. */
  lemma {:induction false} LastWeekLogsMeaning(logs: seq<LogEntry>, today: Day)
    ensures var r := LastWeekLogs(logs, today);
      && (forall e :: e in r <==> e in logs && LastSunday(today) <= e.date <= LastSunday(today) + 6)
      && |r| <= |logs|
  {
    if logs != [] {
      var p := logs[..|logs| - 1];
      LastWeekLogsMeaning(p, today);
      assert logs == p + [logs[|logs| - 1]];
    }
  }

  // ---- the stats ----

  /** The weekdays that have a log. */
  function Weekdays(logs: seq<LogEntry>): set<int> {
    set i | 0 <= i < |logs| :: Weekday(logs[i].date)
  }

  /** `hoursByDay`: an entry for each weekday that has a log, holding that weekday's hours. */
  function DayMap(logs: seq<LogEntry>): map<int, real> {
    map d | d in Weekdays(logs) :: WeekdayHours(logs, d)
  }

  /**
   * The busiest-day scan after visiting weekdays `0 .. n-1`: `Object.entries`
   * lists integer keys in ascending order, and an entry replaces the best so
   * far only when it has strictly more hours. Starts from (-1, -1).
   */
  function Scan(m: map<int, real>, n: nat): (int, real) {
    if n == 0 then (-1, -1.0)
    else
      var best := Scan(m, n - 1);
      if n - 1 in m && m[n - 1] > best.1 then (n - 1, m[n - 1]) else best
  }

  const DayNames: seq<string> := ["Sunday", "Monday", "Tuesday", "Wednesday", "Thursday", "Friday", "Saturday"]

  /** The busiest day's name, or "N/A" when no day was found. */
  function DayName(index: int): string {
    if 0 <= index < 7 then DayNames[index] else "N/A"
  }

  /** `Array.from(tagHours.entries()).sort(...).slice(0, 3)`. */
  function TopTags(logs: seq<LogEntry>): TagMap {
    var rows := TagData(logs);
    if |rows| > 3 then rows[..3] else rows
  }

  datatype WeekStats = WeekStats(totalHours: real, busiestDay: string, topTags: TagMap)

  /** `stats`: none for an empty week, otherwise the total, the busiest day and the top tags. */
  function Stats(lastWeekLogs: seq<LogEntry>): Option<WeekStats> {
    if lastWeekLogs == [] then None
    else Some(WeekStats(TotalHours(lastWeekLogs), DayName(Scan(DayMap(lastWeekLogs), 7).0), TopTags(lastWeekLogs)))
  }

  /** The messages, in `getMotivationalMessage`'s order from the most hours to none. */
  datatype Message = OnFire | PayingOff | Momentum | FreshStart

  function MotivationalMessage(hours: real): Message {
    if hours >= 20.0 then OnFire
    else if hours >= 10.0 then PayingOff
    else if hours > 0.0 then Momentum
    else FreshStart
  }

  /** The modal shows only when it is open and there are stats. */
  predicate Visible(isOpen: bool, stats: Option<WeekStats>) {
    isOpen && stats.Some?
  }

  // ---- the loops ----

  /** The `forEach` that fills `hoursByDay`. */
  method DayTotals(logs: seq<LogEntry>) returns (hoursByDay: map<int, real>)
    ensures hoursByDay == DayMap(logs)
  {
    hoursByDay := map[];
    for i := 0 to |logs|
      invariant hoursByDay == DayMap(logs[..i])
    {
      DayMapStep(logs, i);
      var day := Weekday(logs[i].date);
      hoursByDay := hoursByDay[day := (if day in hoursByDay then hoursByDay[day] else 0.0) + logs[i].hours];
    }
    assert logs[..|logs|] == logs;
  }

  /** The scan over the entries of `hoursByDay` for the busiest day. */
  method BusiestDay(hoursByDay: map<int, real>) returns (busiestDayIndex: int)
    ensures busiestDayIndex == Scan(hoursByDay, 7).0
  {
    busiestDayIndex := -1;
    var maxHours := -1.0;
    for day := 0 to 7
      invariant (busiestDayIndex, maxHours) == Scan(hoursByDay, day)
    {
      if day in hoursByDay && hoursByDay[day] > maxHours {
        maxHours := hoursByDay[day];
        busiestDayIndex := day;
      }
    }
  }

  /** The `useMemo` body. */
  method ComputeStats(lastWeekLogs: seq<LogEntry>) returns (stats: Option<WeekStats>)
    ensures stats == Stats(lastWeekLogs)
  {
    if |lastWeekLogs| == 0 {
      return None;
    }
    var totalHours := TotalHours(lastWeekLogs);
    var hoursByDay := DayTotals(lastWeekLogs);
    var busiestDayIndex := BusiestDay(hoursByDay);
    ScanRange(hoursByDay, 7);
    var busiestDay := if busiestDayIndex > -1 then DayNames[busiestDayIndex] else "N/A";
    var tagHours := TagMapOf(lastWeekLogs);
    var sorted := Sort(tagHours, ByHoursDesc);
    var topTags := if |sorted| > 3 then sorted[..3] else sorted;
    stats := Some(WeekStats(totalHours, busiestDay, topTags));
  }

  // ---- helpers ----

  lemma ScanRange(m: map<int, real>, n: nat)
    ensures -1 <= Scan(m, n).0 < n
  {
  }

  lemma DayMapStep(logs: seq<LogEntry>, i: int)
    requires 0 <= i < |logs|
    ensures var m := DayMap(logs[..i]);
      var day := Weekday(logs[i].date);
      DayMap(logs[..i + 1]) == m[day := (if day in m then m[day] else 0.0) + logs[i].hours]
  {
    var p := logs[..i];
    var q := logs[..i + 1];
    assert q[..|q| - 1] == p;
    var day := Weekday(logs[i].date);
    assert Weekdays(q) == Weekdays(p) + {day} by {
      forall x | x in Weekdays(q) ensures x in Weekdays(p) + {day} {
        var k :| 0 <= k < |q| && Weekday(q[k].date) == x;
        if k < i {
          assert p[k] == q[k];
        }
      }
      forall x | x in Weekdays(p) ensures x in Weekdays(q) {
        var k :| 0 <= k < |p| && Weekday(p[k].date) == x;
        assert q[k] == p[k];
      }
      assert q[i] == logs[i];
    }
    if day !in Weekdays(p) {
      NoLogOnWeekday(p, day);
    }
  }

  lemma {:induction false} NoLogOnWeekday(logs: seq<LogEntry>, w: int)
    requires w !in Weekdays(logs)
    ensures WeekdayHours(logs, w) == 0.0
  {
    if logs != [] {
      var p := logs[..|logs| - 1];
      assert Weekdays(p) <= Weekdays(logs) by {
        forall x | x in Weekdays(p) ensures x in Weekdays(logs) {
          var k :| 0 <= k < |p| && Weekday(p[k].date) == x;
          assert logs[k] == p[k];
        }
      }
      NoLogOnWeekday(p, w);
      assert Weekday(logs[|logs| - 1].date) in Weekdays(logs);
    }
  }

  // ---- properties ----

  /**
   * With every value above -1, the scan finds no day exactly when none of
   * days `0 .. n-1` has an entry; otherwise it finds the first day with the
   * most hours.
   */
  lemma {:induction false} ScanFindsFirstMax(m: map<int, real>, n: nat)
    requires forall d :: d in m ==> m[d] > -1.0
    ensures var (i, mx) := Scan(m, n);
      && (i == -1 <==> forall d :: 0 <= d < n ==> d !in m)
      && (i == -1 ==> mx == -1.0)
      && (i != -1 ==>
            && 0 <= i < n && i in m && mx == m[i]
            && (forall d :: 0 <= d < n && d in m ==> m[d] <= mx)
            && (forall d :: 0 <= d < i && d in m ==> m[d] < mx))
  {
    if n > 0 {
      ScanFindsFirstMax(m, n - 1);
    }
  }

  /** The weekday sums of non-negative hours are non-negative. */
  lemma DayMapNonNegative(logs: seq<LogEntry>)
    requires NonNegative(logs)
    ensures forall d :: d in DayMap(logs) ==> DayMap(logs)[d] >= 0.0
    ensures forall d :: d in DayMap(logs) ==> 0 <= d < 7
  {
    forall d | d in DayMap(logs) ensures DayMap(logs)[d] >= 0.0 {
      WeekdayHoursNonNegative(logs, d);
    }
  }

  /** An empty week has no stats; otherwise the stats hold the total of the week's hours. */
  lemma StatsTotal(lastWeekLogs: seq<LogEntry>)
    ensures Stats(lastWeekLogs) == None <==> lastWeekLogs == []
    ensures lastWeekLogs != [] ==> Stats(lastWeekLogs).value.totalHours == TotalHours(lastWeekLogs)
  {
  }

  /**
   * With non-negative hours the busiest day is the first weekday, Sunday
   * first, that has a log and the most hours; it is never "N/A" for a
   * non-empty week.
   */
  lemma BusiestDayMeaning(lastWeekLogs: seq<LogEntry>) returns (w: int)
    requires NonNegative(lastWeekLogs) && lastWeekLogs != []
    ensures 0 <= w < 7 && Stats(lastWeekLogs).value.busiestDay == DayNames[w]
    ensures w in Weekdays(lastWeekLogs)
    ensures forall d :: d in Weekdays(lastWeekLogs) ==> WeekdayHours(lastWeekLogs, d) <= WeekdayHours(lastWeekLogs, w)
    ensures forall d :: d in Weekdays(lastWeekLogs) && d < w ==> WeekdayHours(lastWeekLogs, d) < WeekdayHours(lastWeekLogs, w)
  {
    var logs := lastWeekLogs;
    var m := DayMap(logs);
    DayMapNonNegative(logs);
    ScanFindsFirstMax(m, 7);
    w := Scan(m, 7).0;
    var d0 := Weekday(logs[0].date);
    assert d0 in Weekdays(logs);
    assert d0 in m && 0 <= d0 < 7;
    forall d | d in Weekdays(logs)
      ensures WeekdayHours(logs, d) <= WeekdayHours(logs, w)
      ensures d < w ==> WeekdayHours(logs, d) < WeekdayHours(logs, w)
    {
      assert d in m && 0 <= d < 7 && m[d] == WeekdayHours(logs, d);
    }
  }

  /**
   * The top tags are at most three rows of the ranked tag list, its first
   * ones: distinct, ranked by full-credit hours, and no tag left out has more
   * hours than one shown.
   */
  lemma TopTagsMeaning(lastWeekLogs: seq<LogEntry>)
    ensures var top := TopTags(lastWeekLogs);
      && |top| <= 3 && DistinctKeys(top) && SortedBy(top, ByHoursDesc)
      && (forall i :: 0 <= i < |top| ==> top[i].1 == FullCredit(lastWeekLogs, top[i].0) && HasTag(lastWeekLogs, top[i].0))
      && (forall r, i :: r in TagData(lastWeekLogs) && r !in top && 0 <= i < |top| ==> r.1 <= top[i].1)
  {
    var logs := lastWeekLogs;
    var rows := TagData(logs);
    var top := TopTags(logs);
    TagDataRows(logs);
    assert top == rows[..|top|];
    forall i | 0 <= i < |top| ensures HasTag(logs, top[i].0) {
      assert Keys(rows)[i] == top[i].0;
    }
    forall r, i | r in rows && r !in top && 0 <= i < |top| ensures r.1 <= top[i].1 {
      var j :| 0 <= j < |rows| && rows[j] == r;
      assert j >= |top|;
      assert ByHoursDesc(rows[i], rows[j]);
    }
  }

  /** More hours never pick a lower tier, and the fresh-start message is exactly for no positive hours. */
  lemma MessageTiers(a: real, b: real)
    ensures MotivationalMessage(a) == FreshStart <==> a <= 0.0
    ensures a <= b ==> Tier(MotivationalMessage(a)) <= Tier(MotivationalMessage(b))
  {
  }

  /** The tier of a message: 0 for the fresh start up to 3 for the top tier. */
  function Tier(m: Message): nat {
    match m
    case FreshStart => 0
    case Momentum => 1
    case PayingOff => 2
    case OnFire => 3
  }
}
