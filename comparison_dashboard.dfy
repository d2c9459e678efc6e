/**
 * One metric of the comparison dashboard (components/ComparisonDashboard.tsx):
 * the difference between the current and the previous value, hidden below
 * 0.01, otherwise an up or a down arrow with a '+' sign for a gain.
 */
module ComparisonDashboard {

  /** What `ComparisonMetric` renders: nothing, or the arrow, the sign prefix and the difference. */
  datatype Metric = Hidden | Shown(up: bool, sign: string, diff: real)

  function Abs(x: real): real {
    if x < 0.0 then -x else x
  }

  function ComparisonMetric(current: real, previous: real): Metric {
    var diff := current - previous;
    if Abs(diff) < 0.01 then Hidden
    else
      var isPositive := diff > 0.0;
      Shown(isPositive, if isPositive then "+" else "", diff)
  }

  /**
   * The metric is hidden exactly when the values are within 0.01 of each
   * other; otherwise the arrow points up exactly when the current value is
   * larger, the '+' appears exactly for a gain, and the number is the gain.
   */
  lemma MetricMeaning(current: real, previous: real)
    ensures ComparisonMetric(current, previous) == Hidden <==> -0.01 < current - previous < 0.01
    ensures ComparisonMetric(current, previous).Shown? ==>
      var m := ComparisonMetric(current, previous);
      && (m.up <==> current > previous)
      && (m.sign == "+" <==> current > previous)
      && m.diff == current - previous
  {
  }

  /** Swapping the two values keeps the metric hidden or shown, and flips a shown arrow and difference. */
  lemma SwapFlips(current: real, previous: real)
    ensures ComparisonMetric(current, previous).Hidden? <==> ComparisonMetric(previous, current).Hidden?
    ensures ComparisonMetric(current, previous).Shown? ==>
      && ComparisonMetric(previous, current).up == !ComparisonMetric(current, previous).up
      && ComparisonMetric(previous, current).diff == -ComparisonMetric(current, previous).diff
  {
  }
}
