/**
 * The percentage-change indicator (components/PerformanceIndicator.tsx; the
 * report cards of components/ReportsPage.tsx compute the same thing): the
 * change from the previous period to the current one, its direction with a
 * ±0.1 dead band, and the absolute value that is displayed.
 */
module PerformanceIndicator {

  datatype Direction = Up | Down | Neutral

  /** The percentage change; from nothing to something counts as +100, from nothing to nothing as 0. */
  function PercentageChange(current: real, previous: real): real {
    if previous > 0.0 then (current - previous) / previous * 100.0
    else if current > 0.0 then 100.0
    else 0.0
  }

  /** Up above +0.1, down below -0.1, a dash in between. */
  function DirectionOf(change: real): Direction {
    if change > 0.1 then Up else if change < -0.1 then Down else Neutral
  }

  function Abs(x: real): real {
    if x < 0.0 then -x else x
  }

  /** What the indicator shows: the arrow and the displayed percentage. */
  datatype Indicator = Indicator(direction: Direction, shown: real)

  function IndicatorOf(current: real, previous: real): Indicator {
    var change := PercentageChange(current, previous);
    Indicator(DirectionOf(change), Abs(change))
  }

  /** An order on directions: down, then neutral, then up. */
  function Rank(d: Direction): int {
    match d
    case Down => -1
    case Neutral => 0
    case Up => 1
  }

  /**
   * Against a positive previous value the arrow goes up exactly when the
   * current value is more than 0.1% above it and down exactly when it is more
   * than 0.1% below it.
   */
  lemma DirectionFromPrevious(current: real, previous: real)
    requires previous > 0.0
    ensures IndicatorOf(current, previous).direction == Up <==> current * 1000.0 > previous * 1001.0
    ensures IndicatorOf(current, previous).direction == Down <==> current * 1000.0 < previous * 999.0
  {
    var change := PercentageChange(current, previous);
    assert change * previous == (current - previous) * 100.0;
    ScaleLess(0.1, change, previous);
    ScaleLess(change, -0.1, previous);
    Thresholds(current, previous, change * previous);
    assert change < -0.1 <==> current * 1000.0 < previous * 999.0;
    assert IndicatorOf(current, previous).direction == DirectionOf(change);
  }

  /** The 0.1 thresholds restated on the product `change * previous`, which is linear in the inputs. */
  lemma Thresholds(current: real, previous: real, product: real)
    requires product == (current - previous) * 100.0
    ensures product > 0.1 * previous <==> current * 1000.0 > previous * 1001.0
    ensures product < -0.1 * previous <==> current * 1000.0 < previous * 999.0
  {
  }

  /** Multiplying both sides by the same positive factor keeps a strict inequality, both ways. */
  lemma ScaleLess(x: real, y: real, k: real)
    requires k > 0.0
    ensures x < y <==> x * k < y * k
  {
    assert y * k - x * k == (y - x) * k;
  }

  /** With nothing before, the change is 100 and the arrow up when there is something now, else 0 and a dash. */
  lemma FromNothing(current: real, previous: real)
    requires previous <= 0.0
    ensures current > 0.0 ==> IndicatorOf(current, previous) == Indicator(Up, 100.0)
    ensures current <= 0.0 ==> IndicatorOf(current, previous) == Indicator(Neutral, 0.0)
  {
  }

  /** The arrow is never both up and down, the shown number is the size of the change, and an arrow means more than 0.1 shown. */
  lemma ShownIsAbsolute(current: real, previous: real)
    ensures var i := IndicatorOf(current, previous);
      && i.shown >= 0.0
      && (i.shown == PercentageChange(current, previous) || i.shown == -PercentageChange(current, previous))
      && (i.direction != Neutral <==> i.shown > 0.1)
      && (i.direction == Up <==> i.shown > 0.1 && PercentageChange(current, previous) > 0.0)
  {
  }

  /** Equal positive values show a neutral 0%. */
  lemma EqualIsNeutral(hours: real)
    requires hours > 0.0
    ensures IndicatorOf(hours, hours) == Indicator(Neutral, 0.0)
  {
    assert (hours - hours) / hours == 0.0;
  }

  /** More hours now never turn the arrow to a lower direction. */
  lemma MoreIsNeverWorse(a: real, b: real, previous: real)
    requires a <= b
    ensures Rank(IndicatorOf(a, previous).direction) <= Rank(IndicatorOf(b, previous).direction)
  {
    if previous > 0.0 {
      ChangeMonotone(a, b, previous);
    }
  }

  lemma ChangeMonotone(a: real, b: real, previous: real)
    requires a <= b && previous > 0.0
    ensures PercentageChange(a, previous) <= PercentageChange(b, previous)
  {
    assert (b - previous) - (a - previous) >= 0.0;
    assert (b - previous) / previous - (a - previous) / previous == ((b - previous) - (a - previous)) / previous;
  }
}
