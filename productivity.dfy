/**
 * The weekday histogram (components/ProductivityChart.tsx): the hours of every
 * log added to the bucket of its weekday (Sunday = 0), the chart hidden when
 * the busiest bucket is 0, and each bar's width as a percentage of the
 * busiest bucket.
 */
module Productivity {
  import opened Types
  import opened Calendar

  /** The hours of the logs that fall on weekday `w`. */
  function WeekdayHours(logs: seq<LogEntry>, w: int): real {
    if logs == [] then 0.0
    else WeekdayHours(logs[..|logs| - 1], w) + (if Weekday(logs[|logs| - 1].date) == w then logs[|logs| - 1].hours else 0.0)
  }

  /** The seven buckets, Sunday first. */
  function Histogram(logs: seq<LogEntry>): seq<real> {
    seq(7, w => WeekdayHours(logs, w))
  }

  function Sum(b: seq<real>): real {
    if b == [] then 0.0 else Sum(b[..|b| - 1]) + b[|b| - 1]
  }

  /** `Math.max(...productivityData)`. */
  function Max(b: seq<real>): (r: real)
    requires b != []
    ensures r in b
    ensures forall i :: 0 <= i < |b| ==> b[i] <= r
  {
    if |b| == 1 then b[0]
    else
      var m := Max(b[..|b| - 1]);
      assert forall i :: 0 <= i < |b| - 1 ==> b[..|b| - 1][i] == b[i];
      if b[|b| - 1] > m then b[|b| - 1] else m
  }

  /** The width of a bar: `maxHours > 0 ? hours / maxHours * 100 : 0`. */
  function Percentage(hours: real, maxHours: real): real {
    if maxHours > 0.0 then hours / maxHours * 100.0 else 0.0
  }

  /** The chart is drawn unless the busiest bucket is 0. */
  predicate Shown(b: seq<real>)
    requires b != []
  {
    Max(b) != 0.0
  }

  /** The `forEach` that adds each log's hours into `hoursByDay[getDay()]`. */
  method HoursByDay(logs: seq<LogEntry>) returns (hoursByDay: array<real>)
    ensures hoursByDay.Length == 7
    ensures hoursByDay[..] == Histogram(logs)
  {
    hoursByDay := new real[7](_ => 0.0);
    for i := 0 to |logs|
      invariant hoursByDay[..] == Histogram(logs[..i])
    {
      assert logs[..i + 1][..i] == logs[..i];
      var dayIndex := Weekday(logs[i].date);
      hoursByDay[dayIndex] := hoursByDay[dayIndex] + logs[i].hours;
    }
    assert logs[..|logs|] == logs;
  }

  // ---- properties ----

  /** Adding `h` to one element adds `h` to the sum. */
  lemma {:induction false} SumBump(a: seq<real>, b: seq<real>, k: int, h: real)
    requires |a| == |b| && 0 <= k < |b|
    requires forall i :: 0 <= i < |b| ==> a[i] == b[i] + (if i == k then h else 0.0)
    ensures Sum(a) == Sum(b) + h
  {
    var n := |b| - 1;
    if k == n {
      assert a[..n] == b[..n];
    } else {
      SumBump(a[..n], b[..n], k, h);
    }
  }

  /** Each log lands in exactly one bucket, so the buckets add up to the total hours. */
  lemma {:induction false} HistogramTotal(logs: seq<LogEntry>)
    ensures Sum(Histogram(logs)) == TotalHours(logs)
  {
    if logs == [] {
      SumZero(Histogram(logs));
    } else {
      var p := logs[..|logs| - 1];
      HistogramTotal(p);
      SumBump(Histogram(logs), Histogram(p), Weekday(logs[|logs| - 1].date), logs[|logs| - 1].hours);
    }
  }

  /** Non-negative hours make non-negative buckets. */
  lemma {:induction false} WeekdayHoursNonNegative(logs: seq<LogEntry>, w: int)
    requires NonNegative(logs)
    ensures WeekdayHours(logs, w) >= 0.0
  {
    if logs != [] {
      WeekdayHoursNonNegative(logs[..|logs| - 1], w);
    }
  }

  /** A sum of non-negative numbers is 0 exactly when every one of them is 0. */
  lemma {:induction false} SumZero(b: seq<real>)
    requires forall i :: 0 <= i < |b| ==> b[i] >= 0.0
    ensures Sum(b) >= 0.0
    ensures Sum(b) == 0.0 <==> forall i :: 0 <= i < |b| ==> b[i] == 0.0
  {
    if b != [] {
      var p := b[..|b| - 1];
      SumZero(p);
      if Sum(b) == 0.0 {
        forall i | 0 <= i < |b| ensures b[i] == 0.0 {
          if i < |p| {
            assert p[i] == b[i];
          }
        }
      }
    }
  }

  /** With non-negative hours the chart is hidden exactly when there are no hours at all. */
  lemma HiddenIffNoHours(logs: seq<LogEntry>)
    requires NonNegative(logs)
    ensures !Shown(Histogram(logs)) <==> TotalHours(logs) == 0.0
  {
    var b := Histogram(logs);
    forall w | 0 <= w < 7 ensures b[w] >= 0.0 {
      WeekdayHoursNonNegative(logs, w);
    }
    HistogramTotal(logs);
    SumZero(b);
    if Max(b) == 0.0 {
      assert forall w :: 0 <= w < 7 ==> b[w] == 0.0;
    }
    if TotalHours(logs) == 0.0 {
      assert Max(b) in b;
    }
  }

  /** A bar of at most the maximum hours is between 0% and 100%; the maximum itself is 100%. */
  lemma PercentageBounds(hours: real, maxHours: real)
    requires 0.0 <= hours <= maxHours
    ensures 0.0 <= Percentage(hours, maxHours) <= 100.0
    ensures maxHours > 0.0 ==> Percentage(maxHours, maxHours) == 100.0
  {
    if maxHours > 0.0 {
      assert hours / maxHours <= 1.0;
      assert maxHours / maxHours == 1.0;
    }
  }

  /** With non-negative hours every bar is between 0% and 100%, and the busiest day's bar is 100%. */
  lemma BarsInRange(logs: seq<LogEntry>)
    requires NonNegative(logs)
    ensures var b := Histogram(logs);
      && (forall w :: 0 <= w < 7 ==> 0.0 <= Percentage(b[w], Max(b)) <= 100.0)
      && (Shown(b) ==> exists w :: 0 <= w < 7 && Percentage(b[w], Max(b)) == 100.0)
  {
    var b := Histogram(logs);
    var m := Max(b);
    forall w | 0 <= w < 7 ensures 0.0 <= Percentage(b[w], m) <= 100.0 {
      WeekdayHoursNonNegative(logs, w);
      PercentageBounds(b[w], m);
    }
    if Shown(b) {
      var w :| 0 <= w < 7 && b[w] == m;
      WeekdayHoursNonNegative(logs, w);
      PercentageBounds(b[w], m);
    }
  }
}
