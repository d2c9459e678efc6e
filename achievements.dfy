/**
 * The achievement catalogue (lib/achievements.ts): fifteen badges, each
 * unlocked by a fixed test over the logs and the current streak. The badge
 * that looks at the last 30 days takes "today" as a parameter.
 */
module Achievements {
  import opened Types
  import opened Calendar
  import opened Text

  datatype Badge =
    | FirstLog | TenLogs | FiftyLogs | HundredHours | FiveHundredHours
    | SevenDayStreak | ThirtyDayStreak | WeekendWarrior
    | Overachiever | DeepWork | TheGrinder | EliteAverage
    | TagPro | NoteTaker | Marathoner

  /** The badge's `id`. */
  function Id(b: Badge): string {
    match b
    case FirstLog => "first_log"
    case TenLogs => "ten_logs"
    case FiftyLogs => "fifty_logs"
    case HundredHours => "hundred_hours"
    case FiveHundredHours => "five_hundred_hours"
    case SevenDayStreak => "seven_day_streak"
    case ThirtyDayStreak => "thirty_day_streak"
    case WeekendWarrior => "weekend_warrior"
    case Overachiever => "overachiever"
    case DeepWork => "deep_work"
    case TheGrinder => "the_grinder"
    case EliteAverage => "elite_average"
    case TagPro => "tag_pro"
    case NoteTaker => "note_taker"
    case Marathoner => "marathoner"
  }

  /** `ALL_ACHIEVEMENTS`, in catalogue order. */
  const Catalogue: seq<Badge> := [
    FirstLog, TenLogs, FiftyLogs, HundredHours, FiveHundredHours,
    SevenDayStreak, ThirtyDayStreak, WeekendWarrior,
    Overachiever, DeepWork, TheGrinder, EliteAverage,
    TagPro, NoteTaker, Marathoner]

  /** Every badge appears in the catalogue once, under an id no other badge has. */
  lemma CatalogueIds()
    ensures forall b: Badge :: b in Catalogue
    ensures forall i, j :: 0 <= i < j < |Catalogue| ==> Id(Catalogue[i]) != Id(Catalogue[j])
  {
    forall b: Badge ensures b in Catalogue {
      match b
      case FirstLog => assert Catalogue[0] == b;
      case TenLogs => assert Catalogue[1] == b;
      case FiftyLogs => assert Catalogue[2] == b;
      case HundredHours => assert Catalogue[3] == b;
      case FiveHundredHours => assert Catalogue[4] == b;
      case SevenDayStreak => assert Catalogue[5] == b;
      case ThirtyDayStreak => assert Catalogue[6] == b;
      case WeekendWarrior => assert Catalogue[7] == b;
      case Overachiever => assert Catalogue[8] == b;
      case DeepWork => assert Catalogue[9] == b;
      case TheGrinder => assert Catalogue[10] == b;
      case EliteAverage => assert Catalogue[11] == b;
      case TagPro => assert Catalogue[12] == b;
      case NoteTaker => assert Catalogue[13] == b;
      case Marathoner => assert Catalogue[14] == b;
    }
  }

  // ---- the parts some badges look at ----

  /** Some log has more than `h` hours. */
  predicate SomeDayOver(logs: seq<LogEntry>, h: real) {
    exists i :: 0 <= i < |logs| && logs[i].hours > h
  }

  /** Some log falls on a Saturday or a Sunday. */
  predicate SomeWeekend(logs: seq<LogEntry>) {
    exists i :: 0 <= i < |logs| && (Weekday(logs[i].date) == 0 || Weekday(logs[i].date) == 6)
  }

  function OnOrAfter(day: Day): LogEntry -> bool {
    (l: LogEntry) => l.date >= day
  }

  /** The tags a log adds to the set: its legacy tags (a `techBreakdown` does not count). */
  function TagsOf(log: LogEntry): set<string> {
    if log.tags.Some? then set t | t in log.tags.value else {}
  }

  /** The distinct legacy tags of all logs. */
  function LegacyTags(logs: seq<LogEntry>): set<string>
  {
    if logs == [] then {} else LegacyTags(logs[..|logs| - 1]) + TagsOf(logs[|logs| - 1])
  }

  /** A note that is present and not blank once trimmed. */
  predicate HasNote(log: LogEntry) {
    log.note.Some? && Trim(log.note.value) != ""
  }

  function NoteCount(logs: seq<LogEntry>): (n: nat)
    ensures n <= |logs|
  {
    if logs == [] then 0 else NoteCount(logs[..|logs| - 1]) + (if HasNote(logs[|logs| - 1]) then 1 else 0)
  }

  /**
   * The marathoner week of a date: its year, and ceil((days since 1 January
   * + weekday of 1 January + 1) / 7).
   */
  function WeekKey(d: Day): (k: (int, int))
    ensures k.1 >= 1
  {
    var jan1 := StartOfYear(d);
    (CivilFromDays(d).year, (d - jan1 + Weekday(jan1) + 1 + 6) / 7)
  }

  /** Two dates share a marathoner week only if they are less than 7 days apart. */
  lemma WeekKeySpan(a: Day, b: Day)
    requires WeekKey(a) == WeekKey(b)
    ensures -7 < a - b < 7
  {
    assert StartOfYear(a) == DaysFromCivil(CivilFromDays(a).year, 0, 1);
    assert StartOfYear(b) == DaysFromCivil(CivilFromDays(b).year, 0, 1);
  }

  /** The hours logged in week `key`, where `week` gives the week of a date. */
  function WeekHours(logs: seq<LogEntry>, week: Day -> (int, int), key: (int, int)): real {
    if logs == [] then 0.0
    else WeekHours(logs[..|logs| - 1], week, key) + (if week(logs[|logs| - 1].date) == key then logs[|logs| - 1].hours else 0.0)
  }

  /** The weeks that hold at least one log. */
  function Weeks(logs: seq<LogEntry>, week: Day -> (int, int)): set<(int, int)> {
    if logs == [] then {} else Weeks(logs[..|logs| - 1], week) + {week(logs[|logs| - 1].date)}
  }

  /** Some marathoner week holds more than 40 hours of logs. */
  predicate SomeLongWeek(logs: seq<LogEntry>) {
    exists k :: k in Weeks(logs, WeekKey) && WeekHours(logs, WeekKey, k) > 40.0
  }

  /** `isUnlocked(logs, streak)` of each badge, with "today" for the 30-day average. */
  predicate Unlocked(b: Badge, logs: seq<LogEntry>, streak: int, today: Day) {
    match b
    case FirstLog => |logs| >= 1
    case TenLogs => |logs| >= 10
    case FiftyLogs => |logs| >= 50
    case HundredHours => TotalHours(logs) >= 100.0
    case FiveHundredHours => TotalHours(logs) >= 500.0
    case SevenDayStreak => streak >= 7
    case ThirtyDayStreak => streak >= 30
    case WeekendWarrior => SomeWeekend(logs)
    case Overachiever => SomeDayOver(logs, 8.0)
    case DeepWork => SomeDayOver(logs, 10.0)
    case TheGrinder => SomeDayOver(logs, 12.0)
    case EliteAverage => SumIf(logs, OnOrAfter(today - 30)) / 30.0 >= 10.0
    case TagPro => |LegacyTags(logs)| >= 5
    case NoteTaker => NoteCount(logs) >= 10
    case Marathoner => SomeLongWeek(logs)
  }

  // ---- the two badges computed with loops ----

  /** `tag_pro`: fill a Set with every legacy tag, then compare its size with 5. */
  method TagProUnlocked(logs: seq<LogEntry>) returns (unlocked: bool)
    ensures unlocked == (|LegacyTags(logs)| >= 5)
  {
    var allTags: set<string> := {};
    for i := 0 to |logs|
      invariant allTags == LegacyTags(logs[..i])
    {
      assert logs[..i + 1][..i] == logs[..i];
      if logs[i].tags.Some? {
        var tags := logs[i].tags.value;
        ghost var before := allTags;
        for j := 0 to |tags|
          invariant allTags == before + set t | t in tags[..j]
        {
          assert tags[..j + 1] == tags[..j] + [tags[j]];
          allTags := allTags + {tags[j]};
        }
        assert tags[..|tags|] == tags;
      }
    }
    assert logs[..|logs|] == logs;
    unlocked := |allTags| >= 5;
  }

  /** `marathoner`: sum the hours of each week in a Map, then look for a week over 40. */
  method MarathonerUnlocked(logs: seq<LogEntry>) returns (unlocked: bool)
    ensures unlocked == SomeLongWeek(logs)
  {
    var weekMap := SumByWeek(logs, WeekKey);
    unlocked := exists k :: k in weekMap && weekMap[k] > 40.0;
    LongWeekInMap(logs, WeekKey, weekMap);
  }

  /** The `forEach` that adds each log's hours to the entry of its week. */
  method SumByWeek(logs: seq<LogEntry>, week: Day -> (int, int)) returns (weekMap: map<(int, int), real>)
    ensures WeekMapOf(logs, week, weekMap)
  {
    weekMap := map[];
    for i := 0 to |logs|
      invariant WeekMapOf(logs[..i], week, weekMap)
    {
      var key := week(logs[i].date);
      ghost var before := weekMap;
      weekMap := weekMap[key := (if key in weekMap then weekMap[key] else 0.0) + logs[i].hours];
      WeekStep(logs, i, week, before);
    }
    assert logs[..|logs|] == logs;
  }

  /** The map has a week over 40 hours exactly when some week of the logs does. */
  lemma LongWeekInMap(logs: seq<LogEntry>, week: Day -> (int, int), m: map<(int, int), real>)
    requires WeekMapOf(logs, week, m)
    ensures (exists k :: k in m && m[k] > 40.0) <==> (exists k :: k in Weeks(logs, week) && WeekHours(logs, week, k) > 40.0)
  {
    if exists k :: k in m && m[k] > 40.0 {
      var k :| k in m && m[k] > 40.0;
      assert k in Weeks(logs, week) && WeekHours(logs, week, k) > 40.0;
    }
    if exists k :: k in Weeks(logs, week) && WeekHours(logs, week, k) > 40.0 {
      var k :| k in Weeks(logs, week) && WeekHours(logs, week, k) > 40.0;
      assert k in m && m[k] > 40.0;
    }
  }

  /** `m` holds exactly the weeks of `logs`, each with its hours. */
  ghost predicate WeekMapOf(logs: seq<LogEntry>, week: Day -> (int, int), m: map<(int, int), real>) {
    && m.Keys == Weeks(logs, week)
    && forall k :: k in m ==> m[k] == WeekHours(logs, week, k)
  }

  /** A week no log falls in sums to 0. */
  lemma {:induction false} NoLogInWeek(logs: seq<LogEntry>, week: Day -> (int, int), key: (int, int))
    requires key !in Weeks(logs, week)
    ensures WeekHours(logs, week, key) == 0.0
  {
    if logs != [] {
      NoLogInWeek(logs[..|logs| - 1], week, key);
    }
  }

  /** Adding log `i` to its week keeps the map equal to the per-week sums. */
  lemma WeekStep(logs: seq<LogEntry>, i: int, week: Day -> (int, int), m: map<(int, int), real>)
    requires 0 <= i < |logs| && WeekMapOf(logs[..i], week, m)
    ensures var key := week(logs[i].date);
      WeekMapOf(logs[..i + 1], week, m[key := (if key in m then m[key] else 0.0) + logs[i].hours])
  {
    var key := week(logs[i].date);
    var p := logs[..i + 1];
    assert p[..i] == logs[..i] && p[i] == logs[i];
    if key !in m {
      NoLogInWeek(logs[..i], week, key);
    }
  }

  /** One badge's test, as the pass runs it. */
  method Evaluate(b: Badge, logs: seq<LogEntry>, streak: int, today: Day) returns (unlocked: bool)
    ensures unlocked == Unlocked(b, logs, streak, today)
  {
    match b {
      case TagPro => unlocked := TagProUnlocked(logs);
      case Marathoner => unlocked := MarathonerUnlocked(logs);
      case _ => unlocked := Unlocked(b, logs, streak, today);
    }
  }

  // ---- what the catalogue promises ----

  /** The count badges unlock at 1, 10 and 50 logs, and each implies the one before. */
  lemma CountBadges(logs: seq<LogEntry>, streak: int, today: Day)
    ensures Unlocked(FirstLog, logs, streak, today) <==> |logs| >= 1
    ensures Unlocked(TenLogs, logs, streak, today) <==> |logs| >= 10
    ensures Unlocked(FiftyLogs, logs, streak, today) <==> |logs| >= 50
    ensures Unlocked(FiftyLogs, logs, streak, today) ==> Unlocked(TenLogs, logs, streak, today)
    ensures Unlocked(TenLogs, logs, streak, today) ==> Unlocked(FirstLog, logs, streak, today)
    ensures Unlocked(FiveHundredHours, logs, streak, today) ==> Unlocked(HundredHours, logs, streak, today)
  {
  }

  /** The streak badges look only at the streak: 7 and 30 days. */
  lemma StreakBadges(logs: seq<LogEntry>, other: seq<LogEntry>, streak: int, today: Day)
    ensures Unlocked(SevenDayStreak, logs, streak, today) == Unlocked(SevenDayStreak, other, streak, today)
    ensures Unlocked(ThirtyDayStreak, logs, streak, today) == Unlocked(ThirtyDayStreak, other, streak, today)
    ensures Unlocked(ThirtyDayStreak, logs, streak, today) ==> Unlocked(SevenDayStreak, logs, streak, today)
  {
  }

  /** The single-day badges need strictly more than 8, 10 and 12 hours; each implies the one below. */
  lemma LongDayBadges(logs: seq<LogEntry>, streak: int, today: Day)
    ensures Unlocked(TheGrinder, logs, streak, today) ==> Unlocked(DeepWork, logs, streak, today)
    ensures Unlocked(DeepWork, logs, streak, today) ==> Unlocked(Overachiever, logs, streak, today)
    ensures (forall i :: 0 <= i < |logs| ==> logs[i].hours <= 8.0) ==>
      !Unlocked(Overachiever, logs, streak, today) && !Unlocked(DeepWork, logs, streak, today) && !Unlocked(TheGrinder, logs, streak, today)
  {
  }

  /** A note-taker has at least ten logs, so also holds the ten-log badge. */
  lemma NoteTakerHasTenLogs(logs: seq<LogEntry>, streak: int, today: Day)
    ensures Unlocked(NoteTaker, logs, streak, today) ==> Unlocked(TenLogs, logs, streak, today)
  {
  }

  /** The 30-day average divides by a fixed 30: it holds exactly when those logs sum to 300 hours or more. */
  lemma EliteAverageMeaning(logs: seq<LogEntry>, streak: int, today: Day)
    ensures Unlocked(EliteAverage, logs, streak, today) <==> SumIf(logs, OnOrAfter(today - 30)) >= 300.0
  {
  }

  /** Only blank notes: the note-taker badge stays locked however many logs there are. */
  lemma BlankNotesDoNotCount(logs: seq<LogEntry>)
    requires forall i :: 0 <= i < |logs| ==> logs[i].note.None? || IsBlank(logs[i].note.value)
    ensures NoteCount(logs) == 0
  {
    if logs != [] {
      var last := logs[|logs| - 1];
      if last.note.Some? {
        TrimEmptyIffBlank(last.note.value);
      }
      BlankNotesDoNotCount(logs[..|logs| - 1]);
    }
  }
}
