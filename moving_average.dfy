/**
 * The 7-day moving average series (components/MovingAverageChart.tsx): the
 * logs summed per date, one point per day from the sixth day after the
 * earliest date through the latest date, each the sum of the seven days
 * ending there divided by 7, and only the last 30 points kept.
 */
module MovingAverage {
  import opened Types
  import opened Sorting

  /** One point of the series. */
  datatype Point = Point(date: Day, avg: real)

  /** The summed hours of the logs on day `d`. */
  function DayHours(logs: seq<LogEntry>, d: Day): real {
    if logs == [] then 0.0
    else DayHours(logs[..|logs| - 1], d) + (if logs[|logs| - 1].date == d then logs[|logs| - 1].hours else 0.0)
  }

  /** The summed hours of the logs dated `lo` through `hi`. */
  function RangeHours(logs: seq<LogEntry>, lo: Day, hi: Day): real {
    if logs == [] then 0.0
    else RangeHours(logs[..|logs| - 1], lo, hi) + (if lo <= logs[|logs| - 1].date <= hi then logs[|logs| - 1].hours else 0.0)
  }

  /** `logsByDate`: one key per logged date, holding that date's summed hours. */
  ghost predicate ByDate(logs: seq<LogEntry>, m: map<Day, real>) {
    && m.Keys == DateSet(logs)
    && forall d :: d in m ==> m[d] == DayHours(logs, d)
  }

  /** `logsByDate.get(d) || 0`. */
  function Get(m: map<Day, real>, d: Day): real {
    if d in m then m[d] else 0.0
  }

  /** The sum of the day totals of the `n` days ending at `d`, latest first (the inner loop). */
  function WindowSum(logs: seq<LogEntry>, d: Day, n: nat): real {
    if n == 0 then 0.0 else WindowSum(logs, d, n - 1) + DayHours(logs, d - (n - 1))
  }

  /** The series before truncation: `count` points starting at `first`. */
  function Series(logs: seq<LogEntry>, first: Day, count: nat): seq<Point> {
    seq(count, i => Point(first + i, WindowSum(logs, first + i, 7) / 7.0))
  }

  /** `slice(-n)`: the last `n` elements, or all of them when there are fewer. */
  function LastN<T>(s: seq<T>, n: nat): seq<T> {
    if |s| > n then s[|s| - n..] else s
  }

  /** `slice(-n)` keeps min(n, |s|) elements, the last ones of `s` in order: element `i` is `s[|s| - |r| + i]`. */
  lemma LastNAt<T>(s: seq<T>, n: nat, i: int)
    ensures var r := LastN(s, n);
      && |r| == (if |s| > n then n else |s|)
      && (0 <= i < |r| ==> r[i] == s[|s| - |r| + i])
  {
  }

  /** The earliest logged date. */
  function MinDate(logs: seq<LogEntry>): (r: Day)
    requires logs != []
    ensures r in DateSet(logs)
    ensures forall i :: 0 <= i < |logs| ==> r <= logs[i].date
  {
    if |logs| == 1 then logs[0].date
    else
      var m := MinDate(logs[..|logs| - 1]);
      assert forall i :: 0 <= i < |logs| - 1 ==> logs[..|logs| - 1][i] == logs[i];
      if logs[|logs| - 1].date < m then logs[|logs| - 1].date else m
  }

  /** The latest logged date. */
  function MaxDate(logs: seq<LogEntry>): (r: Day)
    requires logs != []
    ensures r in DateSet(logs)
    ensures forall i :: 0 <= i < |logs| ==> logs[i].date <= r
  {
    if |logs| == 1 then logs[0].date
    else
      var m := MaxDate(logs[..|logs| - 1]);
      assert forall i :: 0 <= i < |logs| - 1 ==> logs[..|logs| - 1][i] == logs[i];
      if logs[|logs| - 1].date > m then logs[|logs| - 1].date else m
  }

  /** The number of points before truncation: one per day from the earliest date + 6 through the latest. */
  function PointCount(logs: seq<LogEntry>): nat
    requires logs != []
  {
    if MaxDate(logs) >= MinDate(logs) + 6 then MaxDate(logs) - MinDate(logs) - 5 else 0
  }

  /** `chartData`: empty for fewer than 7 logs, otherwise the last 30 points of the series. */
  function Chart(logs: seq<LogEntry>): seq<Point> {
    if |logs| < 7 then []
    else LastN(Series(logs, MinDate(logs) + 6, PointCount(logs)), 30)
  }

  // ---- the computation as the component does it ----

  /** The `forEach` that fills `logsByDate`. */
  method SumByDate(logs: seq<LogEntry>) returns (logsByDate: map<Day, real>)
    ensures ByDate(logs, logsByDate)
  {
    logsByDate := map[];
    for i := 0 to |logs|
      invariant ByDate(logs[..i], logsByDate)
    {
      DateStep(logs, i, logsByDate);
      var log := logs[i];
      logsByDate := logsByDate[log.date := Get(logsByDate, log.date) + log.hours];
    }
    assert logs[..|logs|] == logs;
  }

  /** The `useMemo` body: the grouping, the sorted dates, the `while` loop with its inner sum, and the slice. */
  method MovingAverages(logs: seq<LogEntry>) returns (chartData: seq<Point>)
    ensures chartData == Chart(logs)
  {
    if |logs| < 7 {
      return [];
    }
    var logsByDate := SumByDate(logs);
    IntLeTotal();
    var sortedDates := SortedSet(logsByDate.Keys, IntLe);
    assert logs[0].date in DateSet(logs);
    var startDate := sortedDates[0];
    var endDate := sortedDates[|sortedDates| - 1];
    SortedEnds(logs, sortedDates);
    var movingAverages := AveragesFrom(logs, logsByDate, startDate, endDate);
    ChartOfSeries(logs, movingAverages);
    chartData := LastN(movingAverages, 30);
  }

  /** The `while` loop: one point per day from `startDate + 6` through `endDate`. */
  method AveragesFrom(logs: seq<LogEntry>, logsByDate: map<Day, real>, startDate: Day, endDate: Day)
    returns (movingAverages: seq<Point>)
    requires ByDate(logs, logsByDate)
    ensures movingAverages == Series(logs, startDate + 6, if endDate >= startDate + 6 then endDate - startDate - 5 else 0)
  {
    movingAverages := [];
    var currentDate := startDate + 6;
    while currentDate <= endDate
      invariant startDate + 6 <= currentDate
      invariant currentDate <= endDate + 1 || currentDate == startDate + 6
      invariant movingAverages == Series(logs, startDate + 6, currentDate - startDate - 6)
      decreases endDate - currentDate
    {
      var sum := WindowTotal(logs, logsByDate, currentDate);
      SeriesStep(logs, startDate + 6, currentDate - startDate - 6);
      movingAverages := movingAverages + [Point(currentDate, sum / 7.0)];
      currentDate := currentDate + 1;
    }
  }

  /** The inner `for` loop: the day totals of the 7 days ending at `d`, read from `logsByDate`. */
  method WindowTotal(logs: seq<LogEntry>, logsByDate: map<Day, real>, d: Day) returns (sum: real)
    requires ByDate(logs, logsByDate)
    ensures sum == WindowSum(logs, d, 7)
  {
    sum := 0.0;
    for i := 0 to 7
      invariant sum == WindowSum(logs, d, i)
    {
      GetIsDayHours(logs, logsByDate, d - i);
      sum := sum + Get(logsByDate, d - i);
    }
  }

  // ---- helpers of the computation ----

  const IntLe: (int, int) -> bool := (a: int, b: int) => a <= b

  lemma IntLeTotal()
    ensures TotalPreorder(IntLe)
  {
  }

  /** The sorted key list starts at the earliest date and ends at the latest. */
  lemma SortedEnds(logs: seq<LogEntry>, sorted: seq<Day>)
    requires logs != [] && SortedBy(sorted, IntLe)
    requires forall d :: d in sorted <==> d in DateSet(logs)
    ensures |sorted| > 0 && sorted[0] == MinDate(logs) && sorted[|sorted| - 1] == MaxDate(logs)
  {
    var lo := MinDate(logs);
    var hi := MaxDate(logs);
    assert lo in sorted && hi in sorted;
    var i :| 0 <= i < |sorted| && sorted[i] == lo;
    var j :| 0 <= j < |sorted| && sorted[j] == hi;
    assert sorted[0] in DateSet(logs);
    assert sorted[|sorted| - 1] in DateSet(logs);
    if i > 0 {
      assert IntLe(sorted[0], sorted[i]);
    }
    if j < |sorted| - 1 {
      assert IntLe(sorted[j], sorted[|sorted| - 1]);
    }
  }

  lemma ChartOfSeries(logs: seq<LogEntry>, s: seq<Point>)
    requires |logs| >= 7 && s == Series(logs, MinDate(logs) + 6, PointCount(logs))
    ensures Chart(logs) == LastN(s, 30)
  {
  }

  lemma SeriesAt(logs: seq<LogEntry>, first: Day, n: nat, j: int)
    requires 0 <= j < n
    ensures Series(logs, first, n)[j] == Point(first + j, WindowSum(logs, first + j, 7) / 7.0)
  {
  }

  lemma SeriesStep(logs: seq<LogEntry>, first: Day, count: nat)
    ensures Series(logs, first, count + 1) ==
      Series(logs, first, count) + [Point(first + count, WindowSum(logs, first + count, 7) / 7.0)]
  {
  }

  /** A day with no log has no hours. */
  lemma {:induction false} NoLogThatDay(logs: seq<LogEntry>, d: Day)
    requires d !in DateSet(logs)
    ensures DayHours(logs, d) == 0.0
  {
    if logs != [] {
      var p := logs[..|logs| - 1];
      assert DateSet(p) <= DateSet(logs) by {
        forall x | x in DateSet(p) ensures x in DateSet(logs) {
          var k :| 0 <= k < |p| && p[k].date == x;
          assert logs[k] == p[k];
        }
      }
      NoLogThatDay(p, d);
      assert logs[|logs| - 1].date in DateSet(logs);
    }
  }

  lemma GetIsDayHours(logs: seq<LogEntry>, m: map<Day, real>, d: Day)
    requires ByDate(logs, m)
    ensures Get(m, d) == DayHours(logs, d)
  {
    if d !in m {
      NoLogThatDay(logs, d);
    }
  }

  lemma DateStep(logs: seq<LogEntry>, i: int, m: map<Day, real>)
    requires 0 <= i < |logs| && ByDate(logs[..i], m)
    ensures var d := logs[i].date;
      ByDate(logs[..i + 1], m[d := Get(m, d) + logs[i].hours])
  {
    var p := logs[..i];
    var q := logs[..i + 1];
    assert q[..|q| - 1] == p;
    GetIsDayHours(p, m, logs[i].date);
    assert DateSet(q) == DateSet(p) + {logs[i].date} by {
      forall x | x in DateSet(q) ensures x in DateSet(p) + {logs[i].date} {
        var k :| 0 <= k < |q| && q[k].date == x;
        if k < i {
          assert p[k] == q[k];
        }
      }
      forall x | x in DateSet(p) ensures x in DateSet(q) {
        var k :| 0 <= k < |p| && p[k].date == x;
        assert q[k] == p[k];
      }
      assert q[i] == logs[i];
    }
  }

  // ---- properties ----

  /** Adding the day before a range to it adds that day's hours. */
  lemma {:induction false} RangeExtend(logs: seq<LogEntry>, lo: Day, hi: Day)
    requires lo <= hi + 1
    ensures RangeHours(logs, lo - 1, hi) == RangeHours(logs, lo, hi) + DayHours(logs, lo - 1)
  {
    if logs != [] {
      RangeExtend(logs[..|logs| - 1], lo, hi);
    }
  }

  /** The inner loop's sum is the hours logged in the `n` days ending at `d`, whichever entries make them up. */
  lemma {:induction false} WindowIsRange(logs: seq<LogEntry>, d: Day, n: nat)
    ensures WindowSum(logs, d, n) == RangeHours(logs, d - n + 1, d)
  {
    if n == 0 {
      EmptyRange(logs, d + 1, d);
    } else {
      WindowIsRange(logs, d, n - 1);
      RangeExtend(logs, d - n + 2, d);
    }
  }

  lemma {:induction false} EmptyRange(logs: seq<LogEntry>, lo: Day, hi: Day)
    requires hi < lo
    ensures RangeHours(logs, lo, hi) == 0.0
  {
    if logs != [] {
      EmptyRange(logs[..|logs| - 1], lo, hi);
    }
  }

  /** Day totals of non-negative hours are non-negative. */
  lemma {:induction false} DayHoursNonNegative(logs: seq<LogEntry>, d: Day)
    requires NonNegative(logs)
    ensures DayHours(logs, d) >= 0.0
  {
    if logs != [] {
      DayHoursNonNegative(logs[..|logs| - 1], d);
    }
  }

  /** A sum of `n` day totals is at most `n` times the largest of them, and not negative. */
  lemma {:induction false} WindowMax(logs: seq<LogEntry>, d: Day, n: nat) returns (k: Day)
    requires NonNegative(logs) && n >= 1
    ensures d - n < k <= d
    ensures 0.0 <= WindowSum(logs, d, n) <= n as real * DayHours(logs, k)
  {
    DayHoursNonNegative(logs, d - (n - 1));
    if n == 1 {
      k := d;
    } else {
      var k' := WindowMax(logs, d, n - 1);
      if DayHours(logs, d - (n - 1)) <= DayHours(logs, k') {
        k := k';
      } else {
        k := d - (n - 1);
      }
    }
  }

  /** The series is empty when there are fewer than 7 entries. */
  lemma ShortLogsNoChart(logs: seq<LogEntry>)
    requires |logs| < 7
    ensures Chart(logs) == []
  {
  }

  /**
   * With 7 or more entries the series has min(30, max(0, span − 6)) points,
   * where span is the number of days from the earliest to the latest date.
   */
  lemma ChartLength(logs: seq<LogEntry>)
    requires |logs| >= 7
    ensures var span := MaxDate(logs) - MinDate(logs) + 1;
      |Chart(logs)| == if span - 6 <= 0 then 0 else if span - 6 > 30 then 30 else span - 6
  {
  }

  /** Point `i` of the series: counted back from the latest date, with its 7-day sum over 7. */
  lemma {:induction false} ChartAt(logs: seq<LogEntry>, i: int)
    requires |logs| >= 7 && 0 <= i < |Chart(logs)|
    ensures Chart(logs)[i].date == MaxDate(logs) - |Chart(logs)| + 1 + i
    ensures Chart(logs)[i].avg == WindowSum(logs, Chart(logs)[i].date, 7) / 7.0
  {
    var c := Chart(logs);
    var first := MinDate(logs) + 6;
    var n := PointCount(logs);
    SeriesTailAt(logs, first, n, i);
    assert c == LastN(Series(logs, first, n), 30);
    var p := c[i];
    assert p.date == first + n - |c| + i;
    assert n == MaxDate(logs) - first + 1;
  }

  /** Point `i` of the last 30 points of a series: its date and its 7-day sum over 7. */
  lemma SeriesTailAt(logs: seq<LogEntry>, first: Day, n: nat, i: int)
    requires 0 <= i < |LastN(Series(logs, first, n), 30)|
    ensures var c := LastN(Series(logs, first, n), 30);
      && |c| <= n
      && c[i] == Point(first + n - |c| + i, WindowSum(logs, first + n - |c| + i, 7) / 7.0)
  {
    var s := Series(logs, first, n);
    LastNAt(s, 30, i);
    SeriesAt(logs, first, n, n - |LastN(s, 30)| + i);
  }

  /**
   * The points run one day apart, ascending; the first is at least 6 days after
   * the earliest date and the last is the latest date; each average is the
   * hours logged in the 7 days ending at that point, divided by 7.
   */
  lemma {:induction false} ChartPoints(logs: seq<LogEntry>)
    ensures var c := Chart(logs);
      && (c != [] ==> |logs| >= 7 && c[0].date >= MinDate(logs) + 6 && c[|c| - 1].date == MaxDate(logs))
      && (forall i :: 0 <= i < |c| ==> c[i].date == c[0].date + i)
      && (forall i :: 0 <= i < |c| ==> c[i].avg == RangeHours(logs, c[i].date - 6, c[i].date) / 7.0)
  {
    if |logs| >= 7 {
      var c := Chart(logs);
      if c != [] {
        ChartAt(logs, 0);
        ChartAt(logs, |c| - 1);
      }
      forall i | 0 <= i < |c|
        ensures c[i].date == c[0].date + i
        ensures c[i].avg == RangeHours(logs, c[i].date - 6, c[i].date) / 7.0
      {
        ChartPointAt(logs, i);
      }
    }
  }

  lemma {:induction false} ChartPointAt(logs: seq<LogEntry>, i: int)
    requires |logs| >= 7 && 0 <= i < |Chart(logs)|
    ensures Chart(logs)[i].date == Chart(logs)[0].date + i
    ensures Chart(logs)[i].avg == RangeHours(logs, Chart(logs)[i].date - 6, Chart(logs)[i].date) / 7.0
  {
    var c := Chart(logs);
    ChartAt(logs, 0);
    ChartAt(logs, i);
    var p := c[i];
    assert p.date == c[0].date + i;
    WindowIsRange(logs, p.date, 7);
    assert p.avg == RangeHours(logs, p.date - 6, p.date) / 7.0;
  }

  /** The average of `p` is at most the total of some day of its 7-day window. */
  ghost predicate WithinBusiestDay(logs: seq<LogEntry>, p: Point) {
    exists k :: p.date - 7 < k <= p.date && p.avg <= DayHours(logs, k)
  }

  /** With non-negative hours every average lies between 0 and the busiest single day of its window. */
  lemma ChartBounded(logs: seq<LogEntry>)
    requires NonNegative(logs)
    ensures forall p :: p in Chart(logs) ==> 0.0 <= p.avg && WithinBusiestDay(logs, p)
  {
    var c := Chart(logs);
    forall p | p in c ensures 0.0 <= p.avg && WithinBusiestDay(logs, p) {
      var i :| 0 <= i < |c| && c[i] == p;
      assert |logs| >= 7;
      ChartAt(logs, i);
      var k := WindowMax(logs, p.date, 7);
      var w := WindowSum(logs, p.date, 7);
      assert 0.0 <= w <= 7.0 * DayHours(logs, k);
      assert p.avg == w / 7.0;
    }
  }

  /** A date's total is the sum of exactly the logs of that date. */
  lemma {:induction false} DayHoursSplit(logs: seq<LogEntry>, d: Day)
    ensures DayHours(logs, d) == SumIf(logs, (e: LogEntry) => e.date == d)
  {
    if logs != [] {
      DayHoursSplit(logs[..|logs| - 1], d);
    }
  }
}
