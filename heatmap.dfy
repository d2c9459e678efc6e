/**
 * The year heatmap (components/Heatmap.tsx) and the parts it shares with the
 * hexagon map: the colour level of a day, the run of days from one year ago
 * up to today, the Monday-first padding of the first week, and the month
 * labels placed along the week columns.
 */
module Heatmap {
  import opened Types
  import opened Calendar

  // ---- the colour of a day ----

  /**
   * The bucket `getColor` picks: 0 (grey) for no log or no hours, then 1 to 6
   * for at most 1.5, 3, 4.5, 6, 7.5 hours and above.
   */
  function Level(hours: Option<real>): nat {
    if hours.None? || hours.value <= 0.0 then 0
    else if hours.value <= 1.5 then 1
    else if hours.value <= 3.0 then 2
    else if hours.value <= 4.5 then 3
    else if hours.value <= 6.0 then 4
    else if hours.value <= 7.5 then 5
    else 6
  }

  /** The class names of the levels, grey first. */
  const Palette: seq<string> := ["bg-gray-800/50", "bg-mint-900", "bg-mint-800", "bg-mint-700", "bg-mint-600", "bg-mint-500", "bg-mint-400"]

  function GetColor(hours: Option<real>): string {
    LevelRange(hours);
    Palette[Level(hours)]
  }

  /**
   * Grey exactly for no log or no hours; otherwise level `k` covers the
   * hours above 1.5 (k - 1) up to 1.5 k, the last level everything above 7.5.
   */
  lemma LevelRange(hours: Option<real>)
    ensures Level(hours) <= 6
    ensures Level(hours) == 0 <==> hours.None? || hours.value <= 0.0
    ensures hours.Some? && 1 <= Level(hours) <= 5 ==>
      1.5 * (Level(hours) - 1) as real < hours.value <= 1.5 * Level(hours) as real
    ensures Level(hours) == 6 <==> hours.Some? && hours.value > 7.5
  {
  }

  /** More hours never give a lower level. */
  lemma LevelMonotone(a: real, b: real)
    requires a <= b
    ensures Level(Some(a)) <= Level(Some(b))
  {
  }

  /** The hours of the last log of the day (`new Map(logs.map(...))` keeps the last duplicate), if any. */
  function HoursOn(logs: seq<LogEntry>, day: Day): Option<real> {
    if logs == [] then None
    else if logs[|logs| - 1].date == day then Some(logs[|logs| - 1].hours)
    else HoursOn(logs[..|logs| - 1], day)
  }

  /** A day has hours exactly when some log has its date, and then they are the last such log's. */
  lemma {:induction false} HoursOnMeaning(logs: seq<LogEntry>, day: Day)
    ensures HoursOn(logs, day).None? <==> forall i :: 0 <= i < |logs| ==> logs[i].date != day
    ensures HoursOn(logs, day).Some? ==>
      exists i :: 0 <= i < |logs| && logs[i].date == day && HoursOn(logs, day).value == logs[i].hours
        && forall j :: i < j < |logs| ==> logs[j].date != day
  {
    if logs != [] {
      var p := logs[..|logs| - 1];
      HoursOnMeaning(p, day);
      if logs[|logs| - 1].date != day {
        if HoursOn(p, day).Some? {
          var i :| 0 <= i < |p| && p[i].date == day && HoursOn(p, day).value == p[i].hours
            && forall j :: i < j < |p| ==> p[j].date != day;
          assert logs[i] == p[i];
          forall j | i < j < |logs| ensures logs[j].date != day {
            if j < |p| {
              assert logs[j] == p[j];
            }
          }
        } else {
          forall i | 0 <= i < |logs| ensures logs[i].date != day {
            if i < |p| {
              assert logs[i] == p[i];
            }
          }
        }
      }
    }
  }

  // ---- the days shown ----

  /** `setFullYear(getFullYear() - 1)`: the same month and day a year earlier, 29 February rolling on to 1 March. */
  function OneYearAgo(today: Day): Day {
    var c := CivilFromDays(today);
    DaysFromCivil(c.year - 1, c.month, c.day)
  }

  /** The first day shown: the day after one year ago. */
  function StartDate(today: Day): Day {
    OneYearAgo(today) + 1
  }

  /** One year back is 365 or 366 days back, so the map shows 365 or 366 days, today last. */
  lemma YearWindow(today: Day)
    ensures 365 <= today - OneYearAgo(today) <= 366
    ensures StartDate(today) <= today
  {
    var c := CivilFromDays(today);
    var y := if c.month <= 1 then c.year - 1 else c.year;
    YearLength(y - 1);
  }

  /** The `while` loop that pushes every day from the start through the end. */
  method DayRange(startDate: Day, endDate: Day) returns (days: seq<Day>)
    ensures |days| == if endDate < startDate then 0 else endDate - startDate + 1
    ensures forall i :: 0 <= i < |days| ==> days[i] == startDate + i
  {
    days := [];
    var currentDate := startDate;
    while currentDate <= endDate
      invariant currentDate == startDate + |days|
      invariant currentDate == startDate || currentDate <= endDate + 1
      invariant forall i :: 0 <= i < |days| ==> days[i] == startDate + i
      decreases endDate - currentDate
    {
      days := days + [currentDate];
      currentDate := currentDate + 1;
    }
  }

  /** The days of the map for `today`: one year ago plus one through today, one after another. */
  method ShownDays(today: Day) returns (days: seq<Day>)
    ensures 365 <= |days| <= 366
    ensures days[0] == StartDate(today) && days[|days| - 1] == today
    ensures forall i :: 0 <= i < |days| - 1 ==> days[i + 1] == days[i] + 1
  {
    YearWindow(today);
    days := DayRange(StartDate(today), today);
  }

  // ---- the Monday-first grid ----

  /** `firstDayOfWeek === 0 ? 6 : firstDayOfWeek - 1`: empty cells before the first day in a Monday-first week. */
  function Padding(firstDayOfWeek: int): int {
    if firstDayOfWeek == 0 then 6 else firstDayOfWeek - 1
  }

  /** The week column of the day at `index`. */
  function WeekIndex(index: nat, padding: nat): nat {
    (index + padding) / 7
  }

  /**
   * The padding is the number of days since the last Monday, between 0 and
   * 6; so with the days laid out from the start, the day at `index` sits in
   * column `WeekIndex` and in the row of its weekday counted from Monday.
   */
  lemma PaddingIsMondayFirst(startDate: Day, index: nat)
    ensures 0 <= Padding(Weekday(startDate)) <= 6
    ensures Padding(Weekday(startDate)) == DaysSinceMonday(startDate)
    ensures (index + Padding(Weekday(startDate))) % 7 == DaysSinceMonday(startDate + index)
    ensures 7 * WeekIndex(index, Padding(Weekday(startDate))) + DaysSinceMonday(startDate + index)
      == index + Padding(Weekday(startDate))
  {
    var p := Padding(Weekday(startDate));
    DaysSinceMondayMod(startDate);
    DaysSinceMondayMod(startDate + index);
    var q := (startDate + 3) / 7;
    assert startDate + 3 == 7 * q + p;
    ModShift(startDate + index + 3, q);
  }

  /** Days since Monday is the day number shifted by 3, modulo 7 (day 0 is a Thursday). */
  lemma DaysSinceMondayMod(d: Day)
    ensures DaysSinceMonday(d) == (d + 3) % 7
  {
    var q := (d + 4) / 7;
    var r := (d + 4) % 7;
    if r == 0 {
      ModOf(d + 3, q - 1, 6);
    } else {
      ModOf(d + 3, q, r - 1);
    }
  }

  /** Numbers that differ by a multiple of 7 leave the same remainder. */
  lemma ModShift(x: int, q: int)
    ensures (x - 7 * q) % 7 == x % 7
  {
    ModOf(x - 7 * q, x / 7 - q, x % 7);
  }

  /** The remainder is the `r` of any `7 q + r` with `0 <= r < 7`. */
  lemma ModOf(x: int, q: int, r: int)
    requires 0 <= r < 7 && x == 7 * q + r
    ensures x % 7 == r
  {
  }

  // ---- month labels ----

  /** A label: the month (0 = January) and the week column it stands over. */
  datatype MonthLabel = MonthLabel(month: int, index: int)

  const MonthNames: seq<string> := ["Jan", "Feb", "Mar", "Apr", "May", "Jun", "Jul", "Aug", "Sep", "Oct", "Nov", "Dec"]

  /** The text of a label. */
  function LabelText(l: MonthLabel): string
    requires 0 <= l.month < 12
  {
    MonthNames[l.month]
  }

  /** The labels so far and `lastMonth`, the month of the previous sample (-1 before the first). */
  datatype LabelState = LabelState(labels: seq<MonthLabel>, lastMonth: int)

  /**
   * One step of the label pass over a sample (month, column): on a new
   * month, label it if it is the first label or more than 3 columns past the
   * last one, and remember the month either way.
   */
  function Place(st: LabelState, month: int, index: int): LabelState {
    if month == st.lastMonth then st
    else if st.labels == [] || index > st.labels[|st.labels| - 1].index + 3 then
      LabelState(st.labels + [MonthLabel(month, index)], month)
    else LabelState(st.labels, month)
  }

  /** The label pass over a run of (month, column) samples. */
  function Labels(samples: seq<(int, int)>): LabelState {
    if samples == [] then LabelState([], -1)
    else
      var s := samples[|samples| - 1];
      Place(Labels(samples[..|samples| - 1]), s.0, s.1)
  }

  lemma LabelsStep(samples: seq<(int, int)>, i: int)
    requires 0 <= i < |samples|
    ensures Labels(samples[..i + 1]) == Place(Labels(samples[..i]), samples[i].0, samples[i].1)
  {
    assert samples[..i + 1][..i] == samples[..i];
  }

  /** Months are real months (never the -1 start). */
  predicate Months(samples: seq<(int, int)>) {
    forall k :: 0 <= k < |samples| ==> 0 <= samples[k].0 < 12
  }

  /** A month change happens at sample `k`: the first sample, or a month unlike the one before. */
  predicate ChangeAt(samples: seq<(int, int)>, k: int)
    requires 0 <= k < |samples|
  {
    k == 0 || samples[k - 1].0 != samples[k].0
  }

  /**
   * Every label stands more than 3 columns past every earlier one (so the
   * columns strictly increase), and `lastMonth` is the month of the last
   * sample.
   */
  lemma {:induction false} LabelsSpaced(samples: seq<(int, int)>)
    requires Months(samples)
    ensures var ls := Labels(samples).labels;
      forall i, j :: 0 <= i < j < |ls| ==> ls[i].index + 3 < ls[j].index
    ensures samples != [] ==> Labels(samples).lastMonth == samples[|samples| - 1].0
    ensures samples == [] ==> Labels(samples) == LabelState([], -1)
  {
    if samples != [] {
      var p := samples[..|samples| - 1];
      assert Months(p) by {
        forall k | 0 <= k < |p| ensures 0 <= p[k].0 < 12 {
          assert p[k] == samples[k];
        }
      }
      LabelsSpaced(p);
      if p == [] {
        assert samples[0].0 != -1;
      }
    }
  }

  /**
   * Every label is the month and column of a sample where the month changes;
   * a non-empty run of samples always labels its first sample.
   */
  lemma {:induction false} LabelsAtChanges(samples: seq<(int, int)>)
    requires Months(samples)
    ensures var ls := Labels(samples).labels;
      forall m :: 0 <= m < |ls| ==> exists k :: 0 <= k < |samples| && ChangeAt(samples, k) && ls[m] == MonthLabel(samples[k].0, samples[k].1)
    ensures samples != [] ==> |Labels(samples).labels| > 0 && Labels(samples).labels[0] == MonthLabel(samples[0].0, samples[0].1)
  {
    if samples != [] {
      var p := samples[..|samples| - 1];
      var n := |samples| - 1;
      assert Months(p) by {
        forall k | 0 <= k < |p| ensures 0 <= p[k].0 < 12 {
          assert p[k] == samples[k];
        }
      }
      LabelsAtChanges(p);
      LabelsSpaced(p);
      var ls := Labels(samples).labels;
      var lp := Labels(p).labels;
      forall m | 0 <= m < |ls| ensures exists k :: 0 <= k < |samples| && ChangeAt(samples, k) && ls[m] == MonthLabel(samples[k].0, samples[k].1) {
        if m < |lp| {
          var k :| 0 <= k < |p| && ChangeAt(p, k) && lp[m] == MonthLabel(p[k].0, p[k].1);
          assert p[k] == samples[k];
          assert k > 0 ==> p[k - 1] == samples[k - 1];
          assert ChangeAt(samples, k);
        } else {
          assert ls[m] == MonthLabel(samples[n].0, samples[n].1);
          assert ChangeAt(samples, n);
        }
      }
      if p == [] {
        assert samples[0].0 != -1;
      } else {
        assert p[0] == samples[0];
      }
    }
  }

  /** The (month, column) of every day: its month and `WeekIndex`. */
  function DaySamples(days: seq<Day>, padding: nat): seq<(int, int)> {
    seq(|days|, i requires 0 <= i < |days| => (CivilFromDays(days[i]).month, WeekIndex(i, padding)))
  }

  /** The `forEach` over the days that builds `monthLabels`. */
  method MonthLabelsOf(days: seq<Day>, padding: nat) returns (monthLabels: seq<MonthLabel>)
    ensures monthLabels == Labels(DaySamples(days, padding)).labels
  {
    ghost var samples := DaySamples(days, padding);
    monthLabels := [];
    var lastMonth := -1;
    for index := 0 to |days|
      invariant LabelState(monthLabels, lastMonth) == Labels(samples[..index])
    {
      var month := CivilFromDays(days[index]).month;
      var weekIndex := (index + padding) / 7;
      DaySampleAt(days, padding, index);
      LabelsStep(samples, index);
      if month != lastMonth {
        if monthLabels == [] || weekIndex > monthLabels[|monthLabels| - 1].index + 3 {
          monthLabels := monthLabels + [MonthLabel(month, weekIndex)];
        }
        lastMonth := month;
      }
    }
    assert samples[..|days|] == samples;
  }

  /** The day at `k` is the first shown or starts a month. */
  predicate DayStartsMonth(days: seq<Day>, k: int)
    requires 0 <= k < |days|
  {
    k == 0 || CivilFromDays(days[k - 1]).month != CivilFromDays(days[k]).month
  }

  /** The label stands over a day that starts a month: its month and its column. */
  ghost predicate LabelledDay(days: seq<Day>, padding: nat, l: MonthLabel) {
    exists k :: 0 <= k < |days| && DayStartsMonth(days, k) && l == MonthLabel(CivilFromDays(days[k]).month, WeekIndex(k, padding))
  }

  /** The sample of the day at `k`. */
  lemma DaySampleAt(days: seq<Day>, padding: nat, k: int)
    requires 0 <= k < |days|
    ensures DaySamples(days, padding)[k] == (CivilFromDays(days[k]).month, WeekIndex(k, padding))
  {
  }

  /** Every sample holds a real month. */
  lemma DayMonths(days: seq<Day>, padding: nat)
    ensures Months(DaySamples(days, padding))
  {
  }

  /**
   * On the year map the first day's month is always labelled at column 0
   * and later labels stand at a change of month, more than 3 columns past
   * the previous label.
   */
  lemma {:induction false} DayLabels(days: seq<Day>, padding: nat)
    requires days != [] && padding <= 6
    ensures var ls := Labels(DaySamples(days, padding)).labels;
      && ls != [] && ls[0] == MonthLabel(CivilFromDays(days[0]).month, 0)
      && (forall i, j :: 0 <= i < j < |ls| ==> ls[i].index + 3 < ls[j].index)
      && (forall m :: 0 <= m < |ls| ==> LabelledDay(days, padding, ls[m]))
  {
    var samples := DaySamples(days, padding);
    DaySampleAt(days, padding, 0);
    DayMonths(days, padding);
    LabelsSpaced(samples);
    LabelsAtChanges(samples);
    AllLabelled(days, padding);
  }

  /** Every label of the year map names a day that starts its month, at that day's column. */
  lemma AllLabelled(days: seq<Day>, padding: nat)
    ensures forall l :: l in Labels(DaySamples(days, padding)).labels ==> LabelledDay(days, padding, l)
  {
    var samples := DaySamples(days, padding);
    if days == [] {
      assert samples == [];
    }
    DayMonths(days, padding);
    LabelsAtChanges(samples);
    var ls := Labels(samples).labels;
    forall l | l in ls ensures LabelledDay(days, padding, l) {
      var m :| 0 <= m < |ls| && ls[m] == l;
      var k :| 0 <= k < |samples| && ChangeAt(samples, k) && ls[m] == MonthLabel(samples[k].0, samples[k].1);
      LabelledAt(days, padding, k);
    }
  }

  lemma LabelledAt(days: seq<Day>, padding: nat, k: int)
    requires 0 <= k < |days| && ChangeAt(DaySamples(days, padding), k)
    ensures LabelledDay(days, padding, MonthLabel(DaySamples(days, padding)[k].0, DaySamples(days, padding)[k].1))
  {
    var s := DaySamples(days, padding);
    DaySampleAt(days, padding, k);
    if k > 0 {
      DaySampleAt(days, padding, k - 1);
    }
    assert DayStartsMonth(days, k);
    assert MonthLabel(s[k].0, s[k].1) == MonthLabel(CivilFromDays(days[k]).month, WeekIndex(k, padding));
  }
}
