/**
 * Calendar arithmetic on day numbers (day 0 is Thursday 1970-01-01), standing
 * in for the JavaScript Date operations the tracker uses: getDay, getMonth,
 * getFullYear, and the first day of a month or a year. The conversion between
 * day numbers and (year, month, day) is the proleptic Gregorian one.
 */
module Calendar {
  import opened Types

  /** Date.prototype.getDay: 0 is Sunday, 1 Monday, ..., 6 Saturday. */
  function Weekday(d: Day): (r: nat)
    ensures r < 7
    ensures r == 0 <==> (d - 3) % 7 == 0
  {
    (d + 4) % 7
  }

  /** Moving one day forward moves the weekday one step, wrapping after Saturday. */
  lemma WeekdayNext(d: Day)
    ensures Weekday(d + 1) == (Weekday(d) + 1) % 7
    ensures Weekday(d + 7) == Weekday(d)
  {
  }

  /** Days back to the most recent Monday: 6 on a Sunday, otherwise the weekday minus one. */
  function DaysSinceMonday(d: Day): (r: nat)
    ensures r <= 6
    ensures Weekday(d - r) == 1
  {
    var w := Weekday(d);
    if w == 0 then 6 else w - 1
  }

  /** The Monday that starts the (Monday-first) week holding `d`. */
  function StartOfWeek(d: Day): (r: Day)
    ensures r <= d < r + 7 && Weekday(r) == 1
  {
    d - DaysSinceMonday(d)
  }

  /** Days a whole number of weeks apart fall on the same weekday. */
  lemma WeekdayWeeks(d: Day, k: int)
    ensures Weekday(d + 7 * k) == Weekday(d)
  {
  }

  /** The days whose week starts at Monday `m` are exactly the seven days from `m`. */
  lemma WeekSpan(m: Day, d: Day)
    requires Weekday(m) == 1
    ensures StartOfWeek(d) == m <==> m <= d < m + 7
  {
    var s := StartOfWeek(d);
    if m <= d < m + 7 {
      assert (s + 4) % 7 == (m + 4) % 7;
    }
  }

  /** A calendar date: `month` is 0-based as in getMonth, `day` 1-based as in getDate. */
  datatype Civil = Civil(year: int, month: int, day: int)

  /**
   * The day number of 1 March of year `y` of the proleptic Gregorian calendar.
   * Counting years from March puts the leap day last, so a year's length
   * depends only on the year that follows it.
   */
  function YearStart(y: int): Day {
    365 * y + y / 4 - y / 100 + y / 400 - 719468
  }

  /** A year counted from March has 365 or 366 days. */
  lemma YearLength(y: int)
    ensures 365 <= YearStart(y + 1) - YearStart(y) <= 366
  {
    var x := y + 1;
    DivStep4(y);
    DivStep100(y);
    DivStep400(y);
    if x % 100 == 0 {
      CenturyIsLeapCycle(x);
    }
    if x % 400 == 0 {
      FourCenturiesIsCentury(x);
    }
  }

  /** The Gregorian leap rule: every fourth year, except centuries not divisible by 400. */
  predicate IsLeapYear(year: int) {
    year % 4 == 0 && (year % 100 != 0 || year % 400 == 0)
  }

  /** The number of days of a month (0-based, as getMonth counts). */
  function MonthLength(year: int, month: int): int
    requires 0 <= month < 12
  {
    if month == 1 then (if IsLeapYear(year) then 29 else 28)
    else if month == 3 || month == 5 || month == 8 || month == 10 then 30
    else 31
  }

  /** A year counted from March has its leap day exactly when the year it ends in is a leap year. */
  lemma YearLengthLeap(y: int)
    ensures YearStart(y + 1) - YearStart(y) == if IsLeapYear(y + 1) then 366 else 365
  {
    var x := y + 1;
    DivStep4(y);
    DivStep100(y);
    DivStep400(y);
    if x % 100 == 0 {
      CenturyIsLeapCycle(x);
    }
    if x % 400 == 0 {
      FourCenturiesIsCentury(x);
    }
  }

  lemma DivStep4(y: int)
    ensures (y + 1) / 4 - y / 4 == if (y + 1) % 4 == 0 then 1 else 0
  {
  }

  lemma DivStep100(y: int)
    ensures (y + 1) / 100 - y / 100 == if (y + 1) % 100 == 0 then 1 else 0
  {
  }

  lemma DivStep400(y: int)
    ensures (y + 1) / 400 - y / 400 == if (y + 1) % 400 == 0 then 1 else 0
  {
  }

  lemma CenturyIsLeapCycle(x: int)
    requires x % 100 == 0
    ensures x % 4 == 0
  {
    assert x == 4 * (25 * (x / 100));
  }

  lemma FourCenturiesIsCentury(x: int)
    requires x % 400 == 0
    ensures x % 100 == 0
  {
    assert x == 100 * (4 * (x / 400));
  }

  lemma {:induction false} YearStartMono(a: int, b: int)
    requires a <= b
    ensures YearStart(a) + 365 * (b - a) <= YearStart(b)
    decreases b - a
  {
    if a < b {
      YearLength(b - 1);
      YearStartMono(a, b - 1);
    }
  }

  /** The March-based year holding `z` and the position of `z` within it. */
  function SplitDays(z: Day): (r: (int, int))
    ensures 0 <= r.1 < YearStart(r.0 + 1) - YearStart(r.0)
    ensures z == YearStart(r.0) + r.1
  {
    var z' := z + 719468;
    var era := z' / 146097;
    var doe := z' - era * 146097;
    var cen := if doe / 36524 < 3 then doe / 36524 else 3;
    var doc := doe - 36524 * cen;
    var quad := doc / 1461;
    var doq := doc - 1461 * quad;
    var yoq := if doq / 365 < 3 then doq / 365 else 3;
    var doy := doq - 365 * yoq;
    var y := 100 * cen + 4 * quad + yoq + 400 * era;
    assert 0 <= quad <= 24 && 0 <= yoq <= 3 && 0 <= doy <= 365;
    assert doy == 365 ==> doq == 1460 && yoq == 3 && (cen < 3 ==> quad < 24);
    SplitParts(z, era, cen, quad, yoq, doy);
    (y, doy)
  }

  /** A day written as eras, centuries, 4-year cycles, years and a day of the year lies in that year. */
  lemma SplitParts(z: int, era: int, cen: int, quad: int, yoq: int, doy: int)
    requires 0 <= cen <= 3 && 0 <= quad <= 24 && 0 <= yoq <= 3 && 0 <= doy <= 365
    requires doy == 365 ==> yoq == 3 && (cen < 3 ==> quad < 24)
    requires z + 719468 == era * 146097 + 36524 * cen + 1461 * quad + 365 * yoq + doy
    ensures var y := 100 * cen + 4 * quad + yoq + 400 * era;
      0 <= doy < YearStart(y + 1) - YearStart(y) && z == YearStart(y) + doy
  {
    var y := 100 * cen + 4 * quad + yoq + 400 * era;
    YearStartOfParts(era, cen, quad, yoq);
    YearLength(y);
    if doy == 365 {
      LeapDayFits(era, cen, quad);
    }
  }

  /** The day count of the start of a year given as 400-year eras, centuries, 4-year cycles and years. */
  lemma YearStartOfParts(era: int, cen: int, quad: int, yoq: int)
    requires 0 <= cen <= 3 && 0 <= quad <= 24 && 0 <= yoq <= 3
    ensures var y := 100 * cen + 4 * quad + yoq + 400 * era;
      && y / 4 == 100 * era + 25 * cen + quad
      && y / 100 == 4 * era + cen
      && y / 400 == era
      && YearStart(y) == era * 146097 + 36524 * cen + 1461 * quad + 365 * yoq - 719468
  {
    var y := 100 * cen + 4 * quad + yoq + 400 * era;
    assert y == 4 * (100 * era + 25 * cen + quad) + yoq;
    assert y == 100 * (4 * era + cen) + (4 * quad + yoq);
    assert y == 400 * era + (100 * cen + 4 * quad + yoq);
  }

  /** The last year of a 4-year cycle, other than a century's last that is not a fourth century's, has a leap day. */
  lemma LeapDayFits(era: int, cen: int, quad: int)
    requires 0 <= cen <= 3 && 0 <= quad <= 24 && (cen < 3 ==> quad < 24)
    ensures var y := 100 * cen + 4 * quad + 3 + 400 * era;
      YearStart(y + 1) - YearStart(y) == 366
  {
    var y := 100 * cen + 4 * quad + 3 + 400 * era;
    YearStartOfParts(era, cen, quad, 3);
    if quad < 24 {
      YearStartOfParts(era, cen, quad + 1, 0);
    } else if cen < 3 {
      YearStartOfParts(era, cen + 1, 0, 0);
    } else {
      YearStartOfParts(era + 1, 0, 0, 0);
    }
  }

  /** There is only one way to place a day within a March-based year. */
  lemma SplitUnique(z: Day, y: int, doy: int)
    requires 0 <= doy < YearStart(y + 1) - YearStart(y) && z == YearStart(y) + doy
    ensures SplitDays(z) == (y, doy)
  {
    var r := SplitDays(z);
    SplitSame(z, r.0, r.1, y, doy);
  }

  lemma SplitSame(z: Day, y1: int, d1: int, y2: int, d2: int)
    requires 0 <= d1 < YearStart(y1 + 1) - YearStart(y1) && z == YearStart(y1) + d1
    requires 0 <= d2 < YearStart(y2 + 1) - YearStart(y2) && z == YearStart(y2) + d2
    ensures y1 == y2 && d1 == d2
  {
    if y1 < y2 {
      YearStartMono(y1 + 1, y2);
    } else if y2 < y1 {
      YearStartMono(y2 + 1, y1);
    }
  }

  /** The month of a day of a March-based year, counted from March (0) to February (11). */
  function MarchMonth(doy: int): (mp: int)
    requires 0 <= doy <= 365
    ensures 0 <= mp <= 11
    ensures (153 * mp + 2) / 5 <= doy < (153 * mp + 155) / 5
  {
    (5 * doy + 2) / 153
  }

  /** The day number of a calendar date (the Date constructor for month 0..11). */
  function DaysFromCivil(year: int, month: int, day: int): Day
  {
    var y := if month <= 1 then year - 1 else year;
    var mp := if month >= 2 then month - 2 else month + 10;
    YearStart(y) + (153 * mp + 2) / 5 + day - 1
  }

  /** The calendar date of a day number (getFullYear, getMonth, getDate). */
  function CivilFromDays(z: Day): (c: Civil)
    ensures 0 <= c.month < 12 && 1 <= c.day <= 31
    ensures DaysFromCivil(c.year, c.month, c.day) == z
  {
    var (y, doy) := SplitDays(z);
    var mp := MarchMonth(doy);
    var month := if mp < 10 then mp + 2 else mp - 10;
    Civil(y + (if month <= 1 then 1 else 0), month, doy - (153 * mp + 2) / 5 + 1)
  }

  /** A day of a March-based year falls within the length of its calendar month. */
  lemma MarchDayFits(y: int, doy: int)
    requires 0 <= doy < YearStart(y + 1) - YearStart(y)
    ensures doy <= 365
    ensures var mp := MarchMonth(doy);
      var month := if mp < 10 then mp + 2 else mp - 10;
      var c := Civil(y + (if month <= 1 then 1 else 0), month, doy - (153 * mp + 2) / 5 + 1);
      0 <= c.month < 12 && 1 <= c.day <= MonthLength(c.year, c.month)
  {
    YearLengthLeap(y);
  }

  /** The date of a day is a valid one: its day of the month is within the month's length. */
  lemma CivilFromDaysValid(z: Day)
    ensures var c := CivilFromDays(z); 1 <= c.day <= MonthLength(c.year, c.month)
  {
    var y, doy := SplitDays(z).0, SplitDays(z).1;
    MarchDayFits(y, doy);
    var mp := MarchMonth(doy);
    CivilOfSplit(z, y, doy, mp);
    var month := if mp < 10 then mp + 2 else mp - 10;
    assert CivilFromDays(z) == Civil(y + (if month <= 1 then 1 else 0), month, doy - (153 * mp + 2) / 5 + 1);
  }

  /**
   * A valid date is the only one naming its day: CivilFromDays returns every
   * date whose day lies within its month, given its day number.
   */
  lemma CivilUnique(c: Civil)
    requires 0 <= c.month < 12 && 1 <= c.day <= MonthLength(c.year, c.month)
    ensures CivilFromDays(DaysFromCivil(c.year, c.month, c.day)) == c
  {
    var y := if c.month <= 1 then c.year - 1 else c.year;
    var mp := if c.month >= 2 then c.month - 2 else c.month + 10;
    var doy := (153 * mp + 2) / 5 + c.day - 1;
    YearLengthLeap(y);
    MonthWithinMarchMonth(c.year, c.month, mp);
    assert doy < YearStart(y + 1) - YearStart(y);
    var z := DaysFromCivil(c.year, c.month, c.day);
    SplitUnique(z, y, doy);
    MarchMonthUnique(doy, mp);
    CivilOfSplit(z, y, doy, mp);
  }

  /** CivilFromDays read off the March-based year, day of year and month. */
  lemma CivilOfSplit(z: Day, y: int, doy: int, mp: int)
    requires SplitDays(z) == (y, doy) && 0 <= doy <= 365 && MarchMonth(doy) == mp
    ensures CivilFromDays(z) == Civil(y + (if mp >= 10 then 1 else 0), if mp < 10 then mp + 2 else mp - 10, doy - (153 * mp + 2) / 5 + 1)
  {
  }

  /** A calendar month's days stay within its March-based month, and February ends the March-based year. */
  lemma MonthWithinMarchMonth(year: int, month: int, mp: int)
    requires 0 <= month < 12 && mp == if month >= 2 then month - 2 else month + 10
    ensures (153 * mp + 2) / 5 + MonthLength(year, month) <= (153 * mp + 155) / 5
    ensures (153 * mp + 2) / 5 + MonthLength(year, month) <= 337 + (if IsLeapYear(year) then 29 else 28)
  {
    if month == 0 {
    } else if month == 1 {
    } else if month < 7 {
    } else {
    }
  }

  /** The first day of the month holding `d`. */
  function StartOfMonth(d: Day): (r: Day)
    ensures r <= d
    ensures CivilFromDays(r) == CivilFromDays(d).(day := 1)
  {
    var c := CivilFromDays(d);
    FirstOfMonth(c.year, c.month);
    DaysFromCivil(c.year, c.month, 1)
  }

  /** January 1st of the year holding `d`. */
  function StartOfYear(d: Day): (r: Day)
    ensures r <= StartOfMonth(d)
    ensures CivilFromDays(r) == Civil(CivilFromDays(d).year, 0, 1)
  {
    var c := CivilFromDays(d);
    JanuaryFirstEarliest(c.year, c.month);
    FirstOfMonth(c.year, 0);
    DaysFromCivil(c.year, 0, 1)
  }

  /** January 1st is the earliest first of a month in its year. */
  lemma JanuaryFirstEarliest(year: int, month: int)
    requires 0 <= month < 12
    ensures DaysFromCivil(year, 0, 1) <= DaysFromCivil(year, month, 1)
  {
    YearLength(year - 1);
  }

  /** The first day of any month converts back to that month. */
  lemma FirstOfMonth(year: int, month: int)
    requires 0 <= month < 12
    ensures CivilFromDays(DaysFromCivil(year, month, 1)) == Civil(year, month, 1)
  {
    var y := if month <= 1 then year - 1 else year;
    var mp := if month >= 2 then month - 2 else month + 10;
    YearLength(y);
    SplitUnique(DaysFromCivil(year, month, 1), y, (153 * mp + 2) / 5);
    assert MarchMonth((153 * mp + 2) / 5) == mp;
  }

  /** The first of a month comes before the first of the month after it. */
  lemma FirstOfMonthOrder(year: int, month: int)
    requires 0 <= month < 12
    ensures month < 11 ==> DaysFromCivil(year, month, 1) < DaysFromCivil(year, month + 1, 1)
    ensures month == 11 ==> DaysFromCivil(year, month, 1) < DaysFromCivil(year + 1, 0, 1)
  {
    YearLength(year - 1);
  }

  /**
   * The first day of the month before the one holding `d`: the Date
   * constructor with month getMonth() - 1, which rolls January back to
   * December of the previous year.
   */
  function StartOfPrevMonth(d: Day): (r: Day)
    ensures r < StartOfMonth(d)
    ensures var c := CivilFromDays(d);
      CivilFromDays(r) == if c.month == 0 then Civil(c.year - 1, 11, 1) else Civil(c.year, c.month - 1, 1)
  {
    var c := CivilFromDays(d);
    var py := if c.month == 0 then c.year - 1 else c.year;
    var pm := if c.month == 0 then 11 else c.month - 1;
    FirstOfMonth(py, pm);
    FirstOfMonthOrder(py, pm);
    assert StartOfMonth(d) == DaysFromCivil(c.year, c.month, 1);
    DaysFromCivil(py, pm, 1)
  }

  /** The months counted from year 0: 12 * getFullYear() + getMonth(). */
  function MonthIndex(d: Day): int {
    var c := CivilFromDays(d);
    12 * c.year + c.month
  }

  /**
   * The days from the first of the previous month up to the first of the
   * current one are exactly the days of the month before, by month index.
   */
  lemma PrevMonthSpan(today: Day, d: Day)
    ensures StartOfPrevMonth(today) <= d < StartOfMonth(today) <==> MonthIndex(d) == MonthIndex(today) - 1
  {
    var py, pm := PrevMonthMarch(today);
    var y, doy := MarchOf(d);
    MarchPairs(y, MarchMonth(doy), py, pm);
    MarchSpan(d, y, doy, py, pm, StartOfPrevMonth(today), StartOfMonth(today));
  }

  /** The March-based year and day of year of `d`, and its month index in those terms. */
  lemma MarchOf(d: Day) returns (y: int, doy: int)
    ensures 0 <= doy < YearStart(y + 1) - YearStart(y) <= 366 && d == YearStart(y) + doy
    ensures MonthIndex(d) == 12 * y + MarchMonth(doy) + 2
  {
    y, doy := SplitDays(d).0, SplitDays(d).1;
    YearLength(y);
  }

  /** The previous month of `today` as a March-based year and month, with its first and the current month's first. */
  lemma PrevMonthMarch(today: Day) returns (py: int, pm: int)
    ensures 0 <= pm < 12 && MonthIndex(today) - 1 == 12 * py + pm + 2
    ensures StartOfPrevMonth(today) == YearStart(py) + (153 * pm + 2) / 5
    ensures StartOfMonth(today) == if pm < 11 then YearStart(py) + (153 * pm + 155) / 5 else YearStart(py + 1)
  {
    var c := CivilFromDays(today);
    var q := if c.month == 0 then Civil(c.year - 1, 11, 1) else Civil(c.year, c.month - 1, 1);
    py, pm := PrevMarchPair(c.year, c.month, q.year, q.month);
    FirstIsCivil(StartOfPrevMonth(today), q);
    FirstIsCivil(StartOfMonth(today), c.(day := 1));
  }

  /** A day whose calendar date is the first of a month is that month's `DaysFromCivil`. */
  lemma FirstIsCivil(p: Day, q: Civil)
    requires CivilFromDays(p) == q && q.day == 1
    ensures p == DaysFromCivil(q.year, q.month, 1)
  {
  }

  /** For the month `cm` of year `cy`: the March-based pair of the month before it, and both months' firsts. */
  lemma PrevMarchPair(cy: int, cm: int, year: int, month: int) returns (py: int, pm: int)
    requires 0 <= cm < 12
    requires year == (if cm == 0 then cy - 1 else cy) && month == (if cm == 0 then 11 else cm - 1)
    ensures 0 <= pm < 12 && 12 * cy + cm - 1 == 12 * py + pm + 2
    ensures DaysFromCivil(year, month, 1) == YearStart(py) + (153 * pm + 2) / 5
    ensures DaysFromCivil(cy, cm, 1) == if pm < 11 then YearStart(py) + (153 * pm + 155) / 5 else YearStart(py + 1)
  {
    if cm == 0 {
      py, pm := cy - 1, 9;
    } else if cm == 1 {
      py, pm := cy - 1, 10;
    } else if cm == 2 {
      py, pm := cy - 1, 11;
    } else {
      py, pm := cy, cm - 3;
    }
  }

  /** Two March-based (year, month) pairs name the same month index only when equal. */
  lemma MarchPairs(y: int, mp: int, py: int, pm: int)
    requires 0 <= mp < 12 && 0 <= pm < 12
    ensures 12 * y + mp == 12 * py + pm <==> y == py && mp == pm
  {
  }

  /** The March-based month of `d` is `mk` of year `yk` exactly when `d` lies from its first up to the next month's first. */
  lemma MarchSpan(d: Day, y: int, doy: int, yk: int, mk: int, s0: int, s1: int)
    requires 0 <= doy < YearStart(y + 1) - YearStart(y) <= 366 && d == YearStart(y) + doy
    requires 0 <= mk < 12
    requires s0 == YearStart(yk) + (153 * mk + 2) / 5
    requires s1 == if mk < 11 then YearStart(yk) + (153 * mk + 155) / 5 else YearStart(yk + 1)
    ensures y == yk && MarchMonth(doy) == mk <==> s0 <= d < s1
  {
    MarchWindow(d, y, doy);
    if s0 <= d < s1 {
      YearLength(yk);
      SplitSame(d, y, doy, yk, d - YearStart(yk));
      MarchMonthUnique(doy, mk);
    }
  }

  /** A day lies from the first of its March-based month up to the first of the next. */
  lemma MarchWindow(d: Day, y: int, doy: int)
    requires 0 <= doy < YearStart(y + 1) - YearStart(y) <= 366 && d == YearStart(y) + doy
    ensures var mp := MarchMonth(doy);
      YearStart(y) + (153 * mp + 2) / 5 <= d < if mp < 11 then YearStart(y) + (153 * mp + 155) / 5 else YearStart(y + 1)
  {
  }

  /** Only one March-based month holds a given day of the year. */
  lemma MarchMonthUnique(doy: int, mp: int)
    requires 0 <= doy <= 365 && 0 <= mp <= 11
    requires (153 * mp + 2) / 5 <= doy < (153 * mp + 155) / 5
    ensures MarchMonth(doy) == mp
  {
  }

  /** January 1st of the year before the one holding `d`. */
  function StartOfPrevYear(d: Day): (r: Day)
    ensures r < StartOfYear(d)
    ensures CivilFromDays(r) == Civil(CivilFromDays(d).year - 1, 0, 1)
  {
    var y := CivilFromDays(d).year;
    FirstOfMonth(y - 1, 0);
    YearLength(y - 2);
    DaysFromCivil(y - 1, 0, 1)
  }
}
