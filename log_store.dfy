/**
 * The log list held by the app and its two updates (App.tsx handleAddLog and
 * handleDeleteLog): an upsert keyed by date and a delete by date.
 */
module LogStore {
  import opened Types
  import opened Sorting

  /** `findIndex(log => log.date === date)`: the first index with that date, or -1. */
  function FindDateIndex(logs: seq<LogEntry>, date: Day): (i: int)
    ensures -1 <= i < |logs|
    ensures i >= 0 ==> logs[i].date == date && forall j :: 0 <= j < i ==> logs[j].date != date
    ensures i == -1 ==> forall j :: 0 <= j < |logs| ==> logs[j].date != date
  {
    if logs == [] then -1
    else if logs[0].date == date then 0
    else
      var i := FindDateIndex(logs[1..], date);
      if i == -1 then -1 else i + 1
  }

  /** The comparator of the re-sort: by date, earliest first. */
  const ByDate: (LogEntry, LogEntry) -> bool := (a: LogEntry, b: LogEntry) => a.date <= b.date

  lemma ByDateTotal()
    ensures TotalPreorder(ByDate)
  {
  }

  /** The log list after `handleAddLog(entry)`. */
  function Upserted(logs: seq<LogEntry>, entry: LogEntry): seq<LogEntry> {
    var k := FindDateIndex(logs, entry.date);
    if k > -1 then
      if entry.hours <= 0.0 then logs[..k] + logs[k + 1..] else logs[k := entry]
    else if entry.hours > 0.0 then Sort(logs + [entry], ByDate)
    else logs
  }

  /** `a` is `b` with some elements dropped, the rest kept in their order. */
  predicate Subsequence<T(==)>(a: seq<T>, b: seq<T>) {
    if a == [] then true
    else if b == [] then false
    else if a[|a| - 1] == b[|b| - 1] then Subsequence(a[..|a| - 1], b[..|b| - 1])
    else Subsequence(a, b[..|b| - 1])
  }

  /**
   * The log list after `handleDeleteLog(date)`: `filter(log => log.date !== date)`.
   * The result keeps the logs of the other dates in their order and with their
   * multiplicity, and drops every log of `date`; together the two clauses fix
   * the result, since a subsequence with exactly the kept logs' multiset must
   * take every kept position.
   */
  function WithoutDate(logs: seq<LogEntry>, date: Day): (r: seq<LogEntry>)
    ensures Subsequence(r, logs)
    ensures forall x :: multiset(r)[x] == if x.date == date then 0 else multiset(logs)[x]
    ensures |r| <= |logs|
    ensures forall x :: x in r <==> x in logs && x.date != date
  {
    if logs == [] then []
    else
      var rest := WithoutDate(logs[..|logs| - 1], date);
      var last := logs[|logs| - 1];
      assert logs == logs[..|logs| - 1] + [last];
      if last.date != date then
        assert (rest + [last])[..|rest|] == rest;
        rest + [last]
      else
        SubsequenceExtend(rest, logs[..|logs| - 1], last);
        rest
  }

  lemma {:induction false} SubsequenceExtend<T>(a: seq<T>, b: seq<T>, x: T)
    requires Subsequence(a, b)
    ensures Subsequence(a, b + [x])
    decreases |b|, 1
  {
    assert (b + [x])[..|b|] == b;
    if a != [] && a[|a| - 1] == x {
      SubsequenceDrop(a, b);
    }
  }

  lemma {:induction false} SubsequenceDrop<T>(a: seq<T>, b: seq<T>)
    requires a != [] && Subsequence(a, b)
    ensures Subsequence(a[..|a| - 1], b)
    decreases |b|, 0
  {
    var a' := a[..|a| - 1];
    if a' != [] {
      if a[|a| - 1] == b[|b| - 1] {
        SubsequenceExtend(a', b[..|b| - 1], b[|b| - 1]);
        assert b[..|b| - 1] + [b[|b| - 1]] == b;
      } else {
        SubsequenceDrop(a, b[..|b| - 1]);
        SubsequenceExtend(a', b[..|b| - 1], b[|b| - 1]);
        assert b[..|b| - 1] + [b[|b| - 1]] == b;
      }
    }
  }

  /** The entry stored for a date: the first log with that date. */
  function Lookup(logs: seq<LogEntry>, date: Day): Option<LogEntry> {
    var k := FindDateIndex(logs, date);
    if k == -1 then None else Some(logs[k])
  }

  class Store {
    var logs: seq<LogEntry>

    constructor(initial: seq<LogEntry>)
      ensures logs == initial
    {
      logs := initial;
    }

    /**
     * `handleAddLog`: replace or remove the entry for the date, or add a new
     * one and re-sort. Reports whether the list changed (the "Log Saved!" toast).
     */
    method AddLog(entry: LogEntry) returns (wasUpdated: bool)
      modifies this
      ensures logs == Upserted(old(logs), entry)
      ensures wasUpdated <==> FindDateIndex(old(logs), entry.date) > -1 || entry.hours > 0.0
    {
      wasUpdated := false;
      var k := FindDateIndex(logs, entry.date);
      if k > -1 {
        wasUpdated := true;
        var updated := logs;
        if entry.hours <= 0.0 {
          updated := updated[..k] + updated[k + 1..];
        } else {
          updated := updated[k := entry];
        }
        logs := updated;
      } else if entry.hours > 0.0 {
        wasUpdated := true;
        logs := Sort(logs + [entry], ByDate);
      }
    }

    /** `handleDeleteLog`. */
    method DeleteLog(date: Day)
      modifies this
      ensures logs == WithoutDate(old(logs), date)
    {
      var kept: seq<LogEntry> := [];
      for i := 0 to |logs|
        invariant kept == WithoutDate(logs[..i], date)
      {
        assert logs[..i + 1][..i] == logs[..i];
        if logs[i].date != date {
          kept := kept + [logs[i]];
        }
      }
      assert logs[..|logs|] == logs;
      logs := kept;
    }
  }

  // ---- the upsert on a date that already has an entry ----

  /**
   * On a date that already has an entry, the upsert removes it when the new
   * hours are not positive, and otherwise replaces it in place; every other
   * entry keeps its place.
   */
  lemma UpsertExisting(logs: seq<LogEntry>, entry: LogEntry)
    requires FindDateIndex(logs, entry.date) > -1
    ensures var k := FindDateIndex(logs, entry.date);
      var r := Upserted(logs, entry);
      && (entry.hours <= 0.0 ==>
            |r| == |logs| - 1
            && (forall j :: 0 <= j < k ==> r[j] == logs[j])
            && (forall j :: k < j < |logs| ==> r[j - 1] == logs[j]))
      && (entry.hours > 0.0 ==>
            |r| == |logs| && r[k] == entry && forall j :: 0 <= j < |logs| && j != k ==> r[j] == logs[j])
  {
  }

  /** On a new date the upsert adds the entry and re-sorts when the hours are positive, and changes nothing otherwise. */
  lemma UpsertNew(logs: seq<LogEntry>, entry: LogEntry)
    requires FindDateIndex(logs, entry.date) == -1
    ensures entry.hours > 0.0 ==>
      var r := Upserted(logs, entry);
      multiset(r) == multiset(logs) + multiset{entry} && SortedBy(r, ByDate)
    ensures entry.hours <= 0.0 ==> Upserted(logs, entry) == logs
  {
    if entry.hours > 0.0 {
      ByDateTotal();
      SortSorted(logs + [entry], ByDate);
    }
  }

  // ---- one entry per date ----

  lemma SortUnique(s: seq<LogEntry>)
    requires UniqueDates(s)
    ensures UniqueDates(Sort(s, ByDate))
  {
    if s != [] {
      var p := s[..|s| - 1];
      var x := s[|s| - 1];
      SortUnique(p);
      var q := Sort(p, ByDate);
      SortMembers(p, ByDate);
      forall j | 0 <= j < |q| ensures q[j].date != x.date {
        assert q[j] in p;
      }
      InsertUnique(q, x);
    }
  }

  lemma InsertUnique(q: seq<LogEntry>, x: LogEntry)
    requires UniqueDates(q) && forall j :: 0 <= j < |q| ==> q[j].date != x.date
    ensures UniqueDates(Insert(q, x, ByDate))
  {
    var k := InsertPos(q, x, ByDate);
    var r := Insert(q, x, ByDate);
    forall i, j | 0 <= i < j < |r| ensures r[i].date != r[j].date {
      if i < k && j > k { assert r[i] == q[i] && r[j] == q[j - 1]; }
      else if j < k { assert r[i] == q[i] && r[j] == q[j]; }
      else if i > k { assert r[i] == q[i - 1] && r[j] == q[j - 1]; }
      else if i == k { assert r[j] == q[j - 1]; }
      else { assert r[i] == q[i]; }
    }
  }

  /** With one entry per date, `Lookup` finds exactly the member with that date. */
  lemma LookupUnique(logs: seq<LogEntry>, date: Day)
    requires UniqueDates(logs)
    ensures Lookup(logs, date) == None <==> forall x :: x in logs ==> x.date != date
    ensures forall x :: x in logs && x.date == date ==> Lookup(logs, date) == Some(x)
  {
    var k := FindDateIndex(logs, date);
    forall x | x in logs && x.date == date ensures Lookup(logs, date) == Some(x) {
      var j :| 0 <= j < |logs| && logs[j] == x;
    }
  }

  /** Removing the entry at `k` clears its date and keeps every other date's entry. */
  lemma RemoveAtLookup(logs: seq<LogEntry>, k: int, date: Day)
    requires UniqueDates(logs) && 0 <= k < |logs|
    ensures UniqueDates(logs[..k] + logs[k + 1..])
    ensures Lookup(logs[..k] + logs[k + 1..], date) == if date == logs[k].date then None else Lookup(logs, date)
  {
    var r := logs[..k] + logs[k + 1..];
    RemoveAtUnique(logs, k);
    RemoveAtMembers(logs, k);
    LookupUnique(logs, date);
    LookupUnique(r, date);
  }

  lemma RemoveAtUnique(logs: seq<LogEntry>, k: int)
    requires UniqueDates(logs) && 0 <= k < |logs|
    ensures UniqueDates(logs[..k] + logs[k + 1..])
  {
    var r := logs[..k] + logs[k + 1..];
    forall i, j | 0 <= i < j < |r| ensures r[i].date != r[j].date {
      var i' := if i < k then i else i + 1;
      var j' := if j < k then j else j + 1;
      assert r[i] == logs[i'] && r[j] == logs[j'];
    }
  }

  lemma RemoveAtMembers(logs: seq<LogEntry>, k: int)
    requires UniqueDates(logs) && 0 <= k < |logs|
    ensures forall x :: x in logs[..k] + logs[k + 1..] <==> x in logs && x.date != logs[k].date
  {
    var r := logs[..k] + logs[k + 1..];
    forall x | x in r ensures x in logs && x.date != logs[k].date {
      var j :| 0 <= j < |r| && r[j] == x;
      var j' := if j < k then j else j + 1;
      assert r[j] == logs[j'];
    }
    forall x | x in logs && x.date != logs[k].date ensures x in r {
      var j :| 0 <= j < |logs| && logs[j] == x;
      if j < k { assert r[j] == x; } else { assert r[j - 1] == x; }
    }
  }

  /** Replacing the entry at `k` by one with the same date changes only that date's entry. */
  lemma ReplaceAtLookup(logs: seq<LogEntry>, k: int, entry: LogEntry, date: Day)
    requires UniqueDates(logs) && 0 <= k < |logs| && logs[k].date == entry.date
    ensures UniqueDates(logs[k := entry])
    ensures Lookup(logs[k := entry], date) == if date == entry.date then Some(entry) else Lookup(logs, date)
  {
    var r := logs[k := entry];
    assert forall i :: 0 <= i < |r| ==> r[i].date == logs[i].date;
    LookupUnique(logs, date);
    LookupUnique(r, date);
    forall x | x in r ensures x in logs || x == entry {
      var j :| 0 <= j < |r| && r[j] == x;
      if j != k { assert r[j] == logs[j]; }
    }
    forall x | x in logs && x.date != entry.date ensures x in r {
      var j :| 0 <= j < |logs| && logs[j] == x;
      assert r[j] == x;
    }
  }

  /** Adding an entry on a new date and re-sorting gives the new date that entry and keeps the rest. */
  lemma InsertNewLookup(logs: seq<LogEntry>, entry: LogEntry, date: Day)
    requires UniqueDates(logs) && FindDateIndex(logs, entry.date) == -1
    ensures UniqueDates(Sort(logs + [entry], ByDate))
    ensures Lookup(Sort(logs + [entry], ByDate), date) == if date == entry.date then Some(entry) else Lookup(logs, date)
  {
    var s := logs + [entry];
    assert UniqueDates(s);
    SortUnique(s);
    SortMembers(s, ByDate);
    LookupUnique(logs, date);
    LookupUnique(Sort(s, ByDate), date);
    assert entry in s;
  }

  /**
   * Read as a map from dates to entries, the upsert sets the entry's date to
   * the entry when its hours are positive and clears it otherwise; every
   * other date keeps its entry.
   */
  lemma UpsertLookup(logs: seq<LogEntry>, entry: LogEntry, date: Day)
    requires UniqueDates(logs)
    ensures UniqueDates(Upserted(logs, entry))
    ensures Lookup(Upserted(logs, entry), date) ==
      if date != entry.date then Lookup(logs, date)
      else if entry.hours > 0.0 then Some(entry)
      else None
  {
    var k := FindDateIndex(logs, entry.date);
    if k > -1 {
      if entry.hours <= 0.0 {
        RemoveAtLookup(logs, k, date);
      } else {
        ReplaceAtLookup(logs, k, entry, date);
      }
    } else if entry.hours > 0.0 {
      InsertNewLookup(logs, entry, date);
    } else {
      LookupUnique(logs, date);
    }
  }

  /** Upserts keep a list that is ordered by date ordered. */
  lemma UpsertKeepsSorted(logs: seq<LogEntry>, entry: LogEntry)
    requires SortedBy(logs, ByDate)
    ensures SortedBy(Upserted(logs, entry), ByDate)
  {
    var k := FindDateIndex(logs, entry.date);
    if k > -1 {
      var r := Upserted(logs, entry);
      if entry.hours <= 0.0 {
        forall i, j | 0 <= i < j < |r| ensures r[i].date <= r[j].date {
          var i' := if i < k then i else i + 1;
          var j' := if j < k then j else j + 1;
          assert r[i] == logs[i'] && r[j] == logs[j'];
        }
      } else {
        forall i, j | 0 <= i < j < |r| ensures r[i].date <= r[j].date {
          assert r[i].date == logs[i].date && r[j].date == logs[j].date;
        }
      }
    } else if entry.hours > 0.0 {
      ByDateTotal();
      SortSorted(logs + [entry], ByDate);
    }
  }

  // ---- delete ----

  /** Every sum over the list after a delete is the sum over the logs of the other dates. */
  lemma {:induction false} DeleteSum(logs: seq<LogEntry>, date: Day, keep: LogEntry -> bool)
    ensures SumIf(WithoutDate(logs, date), keep) == SumIf(logs, l => keep(l) && l.date != date)
  {
    if logs != [] {
      var p := logs[..|logs| - 1];
      DeleteSum(p, date, keep);
      var last := logs[|logs| - 1];
      if last.date != date {
        var rest := WithoutDate(p, date);
        assert (rest + [last])[..|rest + [last]| - 1] == rest;
      }
    }
  }

  /** After a delete the date has no entry and every other date keeps its entry. */
  lemma {:induction false} DeleteLookup(logs: seq<LogEntry>, date: Day, other: Day)
    ensures Lookup(WithoutDate(logs, date), date) == None
    ensures other != date ==> Lookup(WithoutDate(logs, date), other) == Lookup(logs, other)
  {
    var r := WithoutDate(logs, date);
    assert forall x :: x in r ==> x.date != date;
    if other != date {
      FilterKeepsFirst(logs, date, other);
    }
  }

  lemma {:induction false} FilterKeepsFirst(logs: seq<LogEntry>, date: Day, other: Day)
    requires other != date
    ensures Lookup(WithoutDate(logs, date), other) == Lookup(logs, other)
    decreases |logs|
  {
    if logs != [] {
      var p := logs[..|logs| - 1];
      var last := logs[|logs| - 1];
      assert logs == p + [last];
      FilterKeepsFirst(p, date, other);
      var rp := WithoutDate(p, date);
      LookupAppend(p, last, other);
      if last.date != date {
        assert WithoutDate(logs, date) == rp + [last];
        LookupAppend(rp, last, other);
      } else {
        assert WithoutDate(logs, date) == rp;
      }
    }
  }

  /** Appending an entry only matters to a lookup that found nothing before. */
  lemma LookupAppend(s: seq<LogEntry>, x: LogEntry, date: Day)
    ensures Lookup(s + [x], date) == if Lookup(s, date) != None then Lookup(s, date) else if x.date == date then Some(x) else None
  {
    var k := FindDateIndex(s, date);
    var k' := FindDateIndex(s + [x], date);
    assert forall j :: 0 <= j < |s| ==> (s + [x])[j] == s[j];
    assert (s + [x])[|s|] == x;
  }
}
