/** The goal progress of a stat card (components/StatCard.tsx): current hours as a percentage of the goal, capped at 100. */
module StatCard {

  /** `goalHours > 0 ? Math.min(currentHours / goalHours * 100, 100) : 0`. */
  function Percentage(currentHours: real, goalHours: real): real {
    if goalHours > 0.0 then
      var p := currentHours / goalHours * 100.0;
      if p < 100.0 then p else 100.0
    else 0.0
  }

  /**
   * No goal means 0%; the bar never passes 100%; below the goal it is the
   * plain ratio; at or past the goal it is full.
   */
  lemma PercentageCases(currentHours: real, goalHours: real)
    ensures goalHours <= 0.0 ==> Percentage(currentHours, goalHours) == 0.0
    ensures Percentage(currentHours, goalHours) <= 100.0
    ensures 0.0 < goalHours && currentHours < goalHours ==> Percentage(currentHours, goalHours) == currentHours / goalHours * 100.0
    ensures 0.0 < goalHours <= currentHours ==> Percentage(currentHours, goalHours) == 100.0
    ensures currentHours >= 0.0 ==> Percentage(currentHours, goalHours) >= 0.0
  {
    if 0.0 < goalHours {
      if currentHours < goalHours {
        assert currentHours / goalHours < 1.0;
      } else {
        assert currentHours / goalHours >= 1.0;
      }
      if currentHours >= 0.0 {
        assert currentHours / goalHours >= 0.0;
      }
    }
  }

  /** For a fixed positive goal more hours never shrink the bar. */
  lemma PercentageMonotone(a: real, b: real, goalHours: real)
    requires a <= b && goalHours > 0.0
    ensures Percentage(a, goalHours) <= Percentage(b, goalHours)
  {
    assert b / goalHours - a / goalHours == (b - a) / goalHours;
    assert (b - a) / goalHours >= 0.0;
  }
}
