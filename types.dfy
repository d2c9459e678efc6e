/** The records of the tracker (types.ts) and the sums every statistic is built from. */
module Types {

  datatype Option<T> = None | Some(value: T)

  /** A calendar date as a day number: day 0 is 1970-01-01. */
  type Day = int

  /** One entry of a log's technology breakdown. */
  datatype TechHours = TechHours(tag: string, hours: real)

  /**
   * One day's coding record. `tags` is the legacy flat tag list; `techBreakdown`
   * splits the day's hours across technologies. Both are optional.
   */
  datatype LogEntry = LogEntry(
    date: Day,
    hours: real,
    note: Option<string>,
    tags: Option<seq<string>>,
    techBreakdown: Option<seq<TechHours>>)

  datatype Project = Project(id: string, name: string, color: string)

  /** Every log has non-negative hours. */
  predicate NonNegative(logs: seq<LogEntry>) {
    forall i :: 0 <= i < |logs| ==> logs[i].hours >= 0.0
  }

  /** The sum of the hours of the logs that `keep` selects, in log order (a filter then a reduce). */
  function SumIf(logs: seq<LogEntry>, keep: LogEntry -> bool): real
  {
    if logs == [] then 0.0
    else SumIf(logs[..|logs| - 1], keep) + (if keep(logs[|logs| - 1]) then logs[|logs| - 1].hours else 0.0)
  }

  /** The sum of all hours (`logs.reduce((sum, log) => sum + log.hours, 0)`). */
  function TotalHours(logs: seq<LogEntry>): real {
    SumIf(logs, _ => true)
  }

  /** The dates that have at least one log. */
  function DateSet(logs: seq<LogEntry>): set<Day> {
    set i | 0 <= i < |logs| :: logs[i].date
  }

  /** At most one log per date. */
  predicate UniqueDates(logs: seq<LogEntry>) {
    forall i, j :: 0 <= i < j < |logs| ==> logs[i].date != logs[j].date
  }

  lemma {:induction false} SumIfAppend(a: seq<LogEntry>, b: seq<LogEntry>, keep: LogEntry -> bool)
    ensures SumIf(a + b, keep) == SumIf(a, keep) + SumIf(b, keep)
    decreases |b|
  {
    if b == [] {
      assert a + b == a;
    } else {
      var b' := b[..|b| - 1];
      assert (a + b)[..|a + b| - 1] == a + b';
      SumIfAppend(a, b', keep);
    }
  }

  /** A sum over a selection grows with the selection: the basis of every "a ≤ b" between totals. */
  lemma {:induction false} SumIfMono(logs: seq<LogEntry>, small: LogEntry -> bool, large: LogEntry -> bool)
    requires NonNegative(logs)
    requires forall i :: 0 <= i < |logs| && small(logs[i]) ==> large(logs[i])
    ensures 0.0 <= SumIf(logs, small) <= SumIf(logs, large)
  {
    if logs != [] {
      SumIfMono(logs[..|logs| - 1], small, large);
    }
  }

  /** Two selections that never pick the same log together sum to at most the total. */
  lemma {:induction false} SumIfDisjoint(logs: seq<LogEntry>, p: LogEntry -> bool, q: LogEntry -> bool)
    requires NonNegative(logs)
    requires forall i :: 0 <= i < |logs| ==> !(p(logs[i]) && q(logs[i]))
    ensures SumIf(logs, p) + SumIf(logs, q) <= TotalHours(logs)
  {
    if logs != [] {
      SumIfDisjoint(logs[..|logs| - 1], p, q);
    }
  }

  /** Selections that agree on every log have the same sum. */
  lemma {:induction false} SumIfSame(logs: seq<LogEntry>, p: LogEntry -> bool, q: LogEntry -> bool)
    requires forall i :: 0 <= i < |logs| ==> p(logs[i]) == q(logs[i])
    ensures SumIf(logs, p) == SumIf(logs, q)
  {
    if logs != [] {
      SumIfSame(logs[..|logs| - 1], p, q);
    }
  }
}
