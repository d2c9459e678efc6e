/**
 * The hexagon contribution map (components/HexbinHeatmap.tsx): the same
 * colour levels and days as the year map, laid out in Monday-first week
 * columns of `totalWeeks`, with month labels placed by sampling the Monday
 * of each column.
 */
module HexbinHeatmap {
  import opened Types
  import opened Calendar
  import opened Heatmap

  /** The class names of the colour levels, grey first. */
  const HexPalette: seq<string> := ["fill-gray-800/50", "fill-violet-900", "fill-violet-800", "fill-violet-700", "fill-violet-600", "fill-violet-500", "fill-violet-400"]

  function HexColor(hours: Option<real>): string {
    LevelRange(hours);
    HexPalette[Level(hours)]
  }

  /** `(getDay() + 6) % 7`: the row of a weekday, Monday first. */
  function Row(weekday: int): int {
    (weekday + 6) % 7
  }

  /** The row of a day is the number of days since Monday: Monday is row 0 and Sunday row 6; the start offset is the same as the year map's padding. */
  lemma RowIsMondayFirst(d: Day)
    ensures 0 <= Row(Weekday(d)) <= 6
    ensures Row(Weekday(d)) == DaysSinceMonday(d)
    ensures Weekday(d) == 1 ==> Row(Weekday(d)) == 0
    ensures Weekday(d) == 0 ==> Row(Weekday(d)) == 6
    ensures Row(Weekday(d)) == Padding(Weekday(d))
  {
  }

  /** `Math.ceil((days + startDayOfWeek) / 7)`. */
  function TotalWeeks(dayCount: nat, startDayOfWeek: nat): nat {
    (dayCount + startDayOfWeek + 6) / 7
  }

  /**
   * `TotalWeeks` is the ceiling of the cells over 7: the columns hold every
   * cell and the last column is not empty; so the column of every day is
   * below `TotalWeeks`, and a day's column and row determine it.
   */
  lemma ColumnsCoverDays(dayCount: nat, startDate: Day, index: nat)
    requires index < dayCount
    ensures var start := Row(Weekday(startDate));
      && 7 * (TotalWeeks(dayCount, start) - 1) < dayCount + start <= 7 * TotalWeeks(dayCount, start)
      && WeekIndex(index, start) < TotalWeeks(dayCount, start)
      && 7 * WeekIndex(index, start) + Row(Weekday(startDate + index)) == index + start
  {
    var start := Row(Weekday(startDate));
    RowIsMondayFirst(startDate);
    RowIsMondayFirst(startDate + index);
    PaddingIsMondayFirst(startDate, index);
  }

  // ---- month labels ----

  /** The month (0 = January) of every day shown. */
  function MonthsOf(days: seq<Day>): (months: seq<int>)
    ensures |months| == |days|
    ensures forall k :: 0 <= k < |days| ==> 0 <= months[k] < 12
  {
    seq(|days|, k requires 0 <= k < |days| => CivilFromDays(days[k]).month)
  }

  /** The sample of column `i`: its Monday's month and `i`, or none when its Monday cell holds no day. */
  function Sample(months: seq<int>, startDayOfWeek: nat, i: nat): seq<(int, int)> {
    var dayIndexInWeek := i * 7 - startDayOfWeek;
    if 0 <= dayIndexInWeek < |months| then [(months[dayIndexInWeek], i)] else []
  }

  /** The samples of the first `weeks` columns. */
  function WeekSamples(months: seq<int>, startDayOfWeek: nat, weeks: nat): seq<(int, int)> {
    if weeks == 0 then [] else WeekSamples(months, startDayOfWeek, weeks - 1) + Sample(months, startDayOfWeek, weeks - 1)
  }

  /** The `for` loop over the columns that builds `monthLabels`. */
  method HexMonthLabels(days: seq<Day>, startDayOfWeek: nat, totalWeeks: nat) returns (monthLabels: seq<MonthLabel>)
    ensures monthLabels == Labels(WeekSamples(MonthsOf(days), startDayOfWeek, totalWeeks)).labels
  {
    ghost var months := MonthsOf(days);
    monthLabels := [];
    var lastMonth := -1;
    for i := 0 to totalWeeks
      invariant LabelState(monthLabels, lastMonth) == Labels(WeekSamples(months, startDayOfWeek, i))
    {
      StepLabels(months, startDayOfWeek, i);
      var dayIndexInWeek := i * 7 - startDayOfWeek;
      if 0 <= dayIndexInWeek < |days| {
        var month := CivilFromDays(days[dayIndexInWeek]).month;
        assert month == months[dayIndexInWeek];
        if month != lastMonth {
          if monthLabels == [] || i > monthLabels[|monthLabels| - 1].index + 3 {
            monthLabels := monthLabels + [MonthLabel(month, i)];
          }
          lastMonth := month;
        }
      }
    }
  }

  /** One more column places its sample, if it has one. */
  lemma StepLabels(months: seq<int>, startDayOfWeek: nat, i: nat)
    ensures var dayIndexInWeek := i * 7 - startDayOfWeek;
      Labels(WeekSamples(months, startDayOfWeek, i + 1)) ==
        if 0 <= dayIndexInWeek < |months| then Place(Labels(WeekSamples(months, startDayOfWeek, i)), months[dayIndexInWeek], i)
        else Labels(WeekSamples(months, startDayOfWeek, i))
  {
    var before := WeekSamples(months, startDayOfWeek, i);
    var dayIndexInWeek := i * 7 - startDayOfWeek;
    if 0 <= dayIndexInWeek < |months| {
      PlaceStep(before, (months[dayIndexInWeek], i));
    } else {
      assert before + [] == before;
    }
  }

  /** Appending a sample places it. */
  lemma PlaceStep(samples: seq<(int, int)>, x: (int, int))
    ensures Labels(samples + [x]) == Place(Labels(samples), x.0, x.1)
  {
    assert (samples + [x])[..|samples|] == samples;
  }

  /** The Monday cell of the label's column holds a day, and the label is that day's month. */
  ghost predicate MondayLabel(months: seq<int>, startDayOfWeek: nat, l: MonthLabel) {
    0 <= l.index && 0 <= 7 * l.index - startDayOfWeek < |months| && l.month == months[7 * l.index - startDayOfWeek]
  }

  /** Every sample is a column below `weeks` carrying its Monday's month. */
  lemma {:induction false} WeekSamplesShape(months: seq<int>, startDayOfWeek: nat, weeks: nat)
    requires forall k :: 0 <= k < |months| ==> 0 <= months[k] < 12
    ensures var s := WeekSamples(months, startDayOfWeek, weeks);
      && Months(s)
      && (forall k :: 0 <= k < |s| ==> s[k].1 < weeks && MondayLabel(months, startDayOfWeek, MonthLabel(s[k].0, s[k].1)))
  {
    if weeks > 0 {
      var p := WeekSamples(months, startDayOfWeek, weeks - 1);
      WeekSamplesShape(months, startDayOfWeek, weeks - 1);
      var s := WeekSamples(months, startDayOfWeek, weeks);
      var t := Sample(months, startDayOfWeek, weeks - 1);
      assert s == p + t;
      forall k | 0 <= k < |s| ensures 0 <= s[k].0 < 12 && s[k].1 < weeks && MondayLabel(months, startDayOfWeek, MonthLabel(s[k].0, s[k].1)) {
        if k < |p| {
          assert s[k] == p[k];
        } else {
          assert s[k] == t[0];
        }
      }
    }
  }

  /** Fewer columns sample a prefix of what more columns sample. */
  lemma {:induction false} WeekSamplesPrefix(months: seq<int>, startDayOfWeek: nat, w1: nat, w2: nat)
    requires w1 <= w2
    ensures var a := WeekSamples(months, startDayOfWeek, w1);
      |a| <= |WeekSamples(months, startDayOfWeek, w2)| && WeekSamples(months, startDayOfWeek, w2)[..|a|] == a
    decreases w2
  {
    if w1 < w2 {
      WeekSamplesPrefix(months, startDayOfWeek, w1, w2 - 1);
      var a := WeekSamples(months, startDayOfWeek, w1);
      var b := WeekSamples(months, startDayOfWeek, w2 - 1);
      var t := Sample(months, startDayOfWeek, w2 - 1);
      assert WeekSamples(months, startDayOfWeek, w2) == b + t;
      assert (b + t)[..|a|] == b[..|a|];
    }
  }

  /** The first column whose Monday cell holds a day: column 0 when the days start on a Monday, else column 1. */
  function FirstColumn(startDayOfWeek: nat): nat {
    if startDayOfWeek == 0 then 0 else 1
  }

  /** The first sample is that of the first column with a Monday. */
  lemma FirstSample(months: seq<int>, startDayOfWeek: nat, weeks: nat)
    requires startDayOfWeek <= 6 && |months| >= 7 && weeks > FirstColumn(startDayOfWeek)
    ensures var c := FirstColumn(startDayOfWeek);
      var s := WeekSamples(months, startDayOfWeek, weeks);
      s != [] && s[0] == (months[7 * c - startDayOfWeek], c)
  {
    var c := FirstColumn(startDayOfWeek);
    var x := (months[7 * c - startDayOfWeek], c);
    var first := WeekSamples(months, startDayOfWeek, c + 1);
    if c == 0 {
      assert first == WeekSamples(months, startDayOfWeek, 0) + Sample(months, startDayOfWeek, 0);
    } else {
      var none := WeekSamples(months, startDayOfWeek, 1);
      assert none == WeekSamples(months, startDayOfWeek, 0) + Sample(months, startDayOfWeek, 0);
      assert first == none + Sample(months, startDayOfWeek, 1);
    }
    assert first == [x];
    WeekSamplesPrefix(months, startDayOfWeek, c + 1, weeks);
  }

  /**
   * The hexagon map's labels: the first is the month of the first Monday
   * shown, over its column; every label is the month of its column's Monday;
   * and each stands more than 3 columns past the one before, all within
   * `TotalWeeks`.
   */
  lemma HexLabels(days: seq<Day>, startDayOfWeek: nat)
    requires startDayOfWeek <= 6 && |days| >= 7
    ensures var months := MonthsOf(days);
      var weeks := TotalWeeks(|days|, startDayOfWeek);
      var ls := Labels(WeekSamples(months, startDayOfWeek, weeks)).labels;
      var c := FirstColumn(startDayOfWeek);
      && ls != [] && ls[0] == MonthLabel(CivilFromDays(days[7 * c - startDayOfWeek]).month, c)
      && (forall i, j :: 0 <= i < j < |ls| ==> ls[i].index + 3 < ls[j].index)
      && (forall m :: 0 <= m < |ls| ==> ls[m].index < weeks && MondayLabel(months, startDayOfWeek, ls[m]))
  {
    var months := MonthsOf(days);
    var weeks := TotalWeeks(|days|, startDayOfWeek);
    var s := WeekSamples(months, startDayOfWeek, weeks);
    WeekSamplesShape(months, startDayOfWeek, weeks);
    FirstSample(months, startDayOfWeek, weeks);
    LabelsSpaced(s);
    LabelsAtChanges(s);
    var ls := Labels(s).labels;
    forall m | 0 <= m < |ls| ensures ls[m].index < weeks && MondayLabel(months, startDayOfWeek, ls[m]) {
      var k :| 0 <= k < |s| && ChangeAt(s, k) && ls[m] == MonthLabel(s[k].0, s[k].1);
    }
  }
}
