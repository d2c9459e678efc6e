/**
 * The technology deep dive of the reports page (components/ReportsPage.tsx):
 * the sorted list of every technology named in a breakdown, and the totals
 * of one chosen technology. The period cards of the same page are the
 * indicator of module PerformanceIndicator.
 */
module Reports {
  import opened Types
  import opened Text

  // ---- the technology list ----

  /** The tags of one log's breakdown (none without a breakdown). */
  function TechsOf(log: LogEntry): set<string> {
    if log.techBreakdown.Some? then set t | t in log.techBreakdown.value :: t.tag else {}
  }

  /** The tags of every breakdown of the logs. */
  function TechSet(logs: seq<LogEntry>): set<string> {
    if logs == [] then {} else TechSet(logs[..|logs| - 1]) + TechsOf(logs[|logs| - 1])
  }

  /** Some log's breakdown has an entry for `tag`. */
  ghost predicate UsesTech(logs: seq<LogEntry>, tag: string) {
    exists i, k :: 0 <= i < |logs| && logs[i].techBreakdown.Some? && 0 <= k < |logs[i].techBreakdown.value|
      && logs[i].techBreakdown.value[k].tag == tag
  }

  /** `allTechs`: the breakdown tags collected into a set, then sorted. */
  method AllTechs(logs: seq<LogEntry>) returns (allTechs: seq<string>)
    ensures StrictlySorted(allTechs)
    ensures forall t :: t in allTechs <==> UsesTech(logs, t)
  {
    var techSet: set<string> := {};
    for i := 0 to |logs|
      invariant techSet == TechSet(logs[..i])
    {
      assert logs[..i + 1][..i] == logs[..i];
      if logs[i].techBreakdown.Some? {
        var breakdown := logs[i].techBreakdown.value;
        var before := techSet;
        for k := 0 to |breakdown|
          invariant techSet == before + set t | t in breakdown[..k] :: t.tag
        {
          assert breakdown[..k + 1] == breakdown[..k] + [breakdown[k]];
          techSet := techSet + {breakdown[k].tag};
        }
        assert breakdown[..|breakdown|] == breakdown;
      }
    }
    assert logs[..|logs|] == logs;
    TechSetMeaning(logs);
    allTechs := SortedMembers(techSet);
  }

  /** The collected set holds exactly the tags some breakdown names. */
  lemma {:induction false} TechSetMeaning(logs: seq<LogEntry>)
    ensures forall t :: t in TechSet(logs) <==> UsesTech(logs, t)
  {
    if logs != [] {
      var p := logs[..|logs| - 1];
      var last := logs[|logs| - 1];
      TechSetMeaning(p);
      forall t ensures t in TechSet(logs) <==> UsesTech(logs, t) {
        if t in TechSet(p) {
          var i, k :| 0 <= i < |p| && p[i].techBreakdown.Some? && 0 <= k < |p[i].techBreakdown.value|
            && p[i].techBreakdown.value[k].tag == t;
          assert logs[i] == p[i];
        } else if t in TechsOf(last) {
          var e :| e in last.techBreakdown.value && e.tag == t;
          var k :| 0 <= k < |last.techBreakdown.value| && last.techBreakdown.value[k] == e;
          assert logs[|logs| - 1] == last;
        }
        if UsesTech(logs, t) {
          var i, k :| 0 <= i < |logs| && logs[i].techBreakdown.Some? && 0 <= k < |logs[i].techBreakdown.value|
            && logs[i].techBreakdown.value[k].tag == t;
          if i < |p| {
            assert p[i] == logs[i];
          } else {
            assert logs[i].techBreakdown.value[k] in last.techBreakdown.value;
          }
        }
      }
    }
  }

  // ---- the statistics of one technology ----

  /** `breakdown.find(t => t.tag === tag)`: the first entry for the tag. */
  function Find(breakdown: seq<TechHours>, tag: string): Option<TechHours> {
    if breakdown == [] then None
    else if breakdown[0].tag == tag then Some(breakdown[0])
    else Find(breakdown[1..], tag)
  }

  /** The log's first breakdown entry for the tag, if any. */
  function TechEntry(log: LogEntry, tag: string): Option<TechHours> {
    if log.techBreakdown.Some? then Find(log.techBreakdown.value, tag) else None
  }

  /** A log counts for the tag when its entry for it has positive hours. */
  predicate Counted(log: LogEntry, tag: string) {
    TechEntry(log, tag).Some? && TechEntry(log, tag).value.hours > 0.0
  }

  /** The hours a counted log adds. */
  function HoursFor(log: LogEntry, tag: string): real
    requires Counted(log, tag)
  {
    TechEntry(log, tag).value.hours
  }

  /** The best day so far: its date (`None` for the initial '') and hours. */
  datatype BestDay = BestDay(date: Option<Day>, hours: real)

  /** The running totals of the `forEach`. */
  datatype Tally = Tally(total: real, count: nat, best: BestDay)

  /** The totals after the `forEach` has visited `logs`. */
  function TallyOf(logs: seq<LogEntry>, tag: string): Tally {
    if logs == [] then Tally(0.0, 0, BestDay(None, 0.0))
    else
      var t := TallyOf(logs[..|logs| - 1], tag);
      var log := logs[|logs| - 1];
      if Counted(log, tag) then
        var h := HoursFor(log, tag);
        Tally(t.total + h, t.count + 1, if h > t.best.hours then BestDay(Some(log.date), h) else t.best)
      else t
  }

  datatype TechStats = TechStats(totalHours: real, bestDay: BestDay, averageHours: real, logCount: nat)

  /** `techStats`: nothing without a selection (null or ''), otherwise the totals and the average per counted log. */
  function Stats(logs: seq<LogEntry>, selectedTech: Option<string>): Option<TechStats> {
    if selectedTech.None? || selectedTech.value == "" then None
    else
      var t := TallyOf(logs, selectedTech.value);
      Some(TechStats(t.total, t.best, if t.count > 0 then t.total / t.count as real else 0.0, t.count))
  }

  method ComputeTechStats(logs: seq<LogEntry>, selectedTech: Option<string>) returns (techStats: Option<TechStats>)
    ensures techStats == Stats(logs, selectedTech)
  {
    if selectedTech.None? || selectedTech.value == "" {
      return None;
    }
    var tag := selectedTech.value;
    var totalHours := 0.0;
    var bestDay := BestDay(None, 0.0);
    var logCount := 0;
    for i := 0 to |logs|
      invariant TallyOf(logs[..i], tag) == Tally(totalHours, logCount, bestDay)
    {
      assert logs[..i + 1][..i] == logs[..i];
      var techEntry := TechEntry(logs[i], tag);
      if techEntry.Some? && techEntry.value.hours > 0.0 {
        totalHours := totalHours + techEntry.value.hours;
        logCount := logCount + 1;
        if techEntry.value.hours > bestDay.hours {
          bestDay := BestDay(Some(logs[i].date), techEntry.value.hours);
        }
      }
    }
    assert logs[..|logs|] == logs;
    techStats := Some(TechStats(totalHours, bestDay, if logCount > 0 then totalHours / logCount as real else 0.0, logCount));
  }

  // ---- properties ----

  /** `find` returns the first entry with the tag, and nothing exactly when no entry has it. */
  lemma {:induction false} FindFirst(breakdown: seq<TechHours>, tag: string)
    ensures Find(breakdown, tag).None? <==> forall k :: 0 <= k < |breakdown| ==> breakdown[k].tag != tag
    ensures Find(breakdown, tag).Some? ==>
      exists k :: 0 <= k < |breakdown| && breakdown[k] == Find(breakdown, tag).value && breakdown[k].tag == tag
        && forall j :: 0 <= j < k ==> breakdown[j].tag != tag
  {
    if breakdown != [] && breakdown[0].tag != tag {
      var rest := breakdown[1..];
      FindFirst(rest, tag);
      if Find(rest, tag).Some? {
        var k :| 0 <= k < |rest| && rest[k] == Find(rest, tag).value && rest[k].tag == tag
          && forall j :: 0 <= j < k ==> rest[j].tag != tag;
        assert breakdown[k + 1] == rest[k];
        forall j | 0 <= j < k + 1 ensures breakdown[j].tag != tag {
          if j > 0 {
            assert breakdown[j] == rest[j - 1];
          }
        }
      } else {
        forall k | 0 <= k < |breakdown| ensures breakdown[k].tag != tag {
          if k > 0 {
            assert breakdown[k] == rest[k - 1];
          }
        }
      }
    }
  }

  /**
   * The totals over counted logs: the total is 0 exactly when nothing was
   * counted, the best day is unset exactly then, and the best day's hours
   * are at least every counted log's hours, at most the total, and at least
   * the total shared evenly over the counted logs.
   */
  lemma {:induction false} TallyBounds(logs: seq<LogEntry>, tag: string)
    ensures var t := TallyOf(logs, tag);
      && t.count <= |logs|
      && (t.count == 0 <==> t.total == 0.0)
      && (t.count == 0 <==> t.best.date.None?)
      && (t.count == 0 ==> t.best == BestDay(None, 0.0))
      && 0.0 <= t.best.hours <= t.total
      && t.total <= t.count as real * t.best.hours
      && (forall i :: 0 <= i < |logs| && Counted(logs[i], tag) ==> HoursFor(logs[i], tag) <= t.best.hours)
  {
    if logs != [] {
      var p := logs[..|logs| - 1];
      var log := logs[|logs| - 1];
      TallyBounds(p, tag);
      var t0 := TallyOf(p, tag);
      var t := TallyOf(logs, tag);
      if Counted(log, tag) {
        BestBoundStep(t0.total, t0.count as real, t0.best.hours, HoursFor(log, tag));
      }
      forall i | 0 <= i < |logs| && Counted(logs[i], tag) ensures HoursFor(logs[i], tag) <= t.best.hours {
        if i < |p| {
          assert p[i] == logs[i];
        }
      }
    }
  }

  /** Adding `h` to a total bounded by `count` times the best keeps it bounded by the new count times the new best. */
  lemma BestBoundStep(total: real, count: real, best: real, h: real)
    requires 0.0 <= count && 0.0 <= best && total <= count * best && h > 0.0
    ensures h > best ==> total + h <= (count + 1.0) * h
    ensures h <= best ==> total + h <= (count + 1.0) * best
  {
    if h > best {
      assert count * best <= count * h;
    }
  }

  /**
   * The best day is the first counted log with the most hours: its date and
   * hours are that log's, every counted log before it has fewer hours, and
   * none after it more.
   */
  lemma {:induction false} BestDayIsFirstMax(logs: seq<LogEntry>, tag: string) returns (k: int)
    requires TallyOf(logs, tag).count > 0
    ensures 0 <= k < |logs| && Counted(logs[k], tag)
    ensures TallyOf(logs, tag).best == BestDay(Some(logs[k].date), HoursFor(logs[k], tag))
    ensures forall j :: 0 <= j < k && Counted(logs[j], tag) ==> HoursFor(logs[j], tag) < HoursFor(logs[k], tag)
    ensures forall j :: 0 <= j < |logs| && Counted(logs[j], tag) ==> HoursFor(logs[j], tag) <= HoursFor(logs[k], tag)
  {
    var p := logs[..|logs| - 1];
    var log := logs[|logs| - 1];
    var t0 := TallyOf(p, tag);
    TallyBounds(logs, tag);
    TallyBounds(p, tag);
    if Counted(log, tag) && HoursFor(log, tag) > t0.best.hours {
      k := |logs| - 1;
      forall j | 0 <= j < k && Counted(logs[j], tag) ensures HoursFor(logs[j], tag) < HoursFor(logs[k], tag) {
        assert p[j] == logs[j];
      }
    } else {
      k := BestDayIsFirstMax(p, tag);
      assert logs[k] == p[k];
      forall j | 0 <= j < k && Counted(logs[j], tag) ensures HoursFor(logs[j], tag) < HoursFor(logs[k], tag) {
        assert p[j] == logs[j];
      }
    }
  }

  /** The totals of two runs of logs add up. */
  lemma {:induction false} TallyAppend(a: seq<LogEntry>, b: seq<LogEntry>, tag: string)
    ensures TallyOf(a + b, tag).total == TallyOf(a, tag).total + TallyOf(b, tag).total
    ensures TallyOf(a + b, tag).count == TallyOf(a, tag).count + TallyOf(b, tag).count
  {
    if b != [] {
      assert (a + b)[..|a + b| - 1] == a + b[..|b| - 1];
      TallyAppend(a, b[..|b| - 1], tag);
    } else {
      assert a + b == a;
    }
  }

  /**
   * No selection gives no statistics; a selection gives the totals, and the
   * average per counted log times the number of counted logs is the total,
   * with the average at most the best day; nothing counted gives 0 throughout.
   */
  lemma StatsMeaning(logs: seq<LogEntry>, selectedTech: Option<string>)
    ensures Stats(logs, selectedTech).None? <==> selectedTech.None? || selectedTech.value == ""
    ensures Stats(logs, selectedTech).Some? ==>
      var s := Stats(logs, selectedTech).value;
      && (s.logCount > 0 ==> s.averageHours * s.logCount as real == s.totalHours && 0.0 < s.averageHours <= s.bestDay.hours)
      && (s.logCount == 0 ==> s == TechStats(0.0, BestDay(None, 0.0), 0.0, 0))
  {
    if selectedTech.Some? && selectedTech.value != "" {
      var t := TallyOf(logs, selectedTech.value);
      TallyBounds(logs, selectedTech.value);
      if t.count > 0 {
        AverageBounds(t.total, t.count as real, t.best.hours);
      }
    }
  }

  /** The mean of `n` values with sum `total`, each at most `best`, is positive when the total is and at most `best`. */
  lemma AverageBounds(total: real, n: real, best: real)
    requires n >= 1.0 && 0.0 < total <= n * best
    ensures (total / n) * n == total
    ensures 0.0 < total / n <= best
  {
    assert total / n <= n * best / n;
  }

  /** Sessions are only counted for logs that list the technology with positive hours. */
  lemma {:induction false} CountedNeedsEntry(logs: seq<LogEntry>, tag: string)
    requires forall i :: 0 <= i < |logs| ==> !Counted(logs[i], tag)
    ensures TallyOf(logs, tag) == Tally(0.0, 0, BestDay(None, 0.0))
  {
    if logs != [] {
      CountedNeedsEntry(logs[..|logs| - 1], tag);
    }
  }
}
