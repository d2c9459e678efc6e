/**
 * The achievement pass (the App.tsx effect that re-runs the catalogue): every
 * badge that holds keeps the date it was first unlocked or is stamped with the
 * current time, badges that no longer hold are dropped, the stored record is
 * replaced when its set of ids changes, and the newly unlocked ids are queued
 * for the toast. The current time is a parameter (`now`).
 */
module AchievementPass {
  import opened Types
  import opened Sorting
  import opened Text
  import opened Achievements

  /** `UnlockedAchievements`: badge id to the time it was unlocked. */
  type UnlockedMap = map<string, string>

  /** The record the pass builds from the badges `bs`, given the stored record. */
  function NewState(bs: seq<Badge>, logs: seq<LogEntry>, streak: int, today: Day,
                    stored: UnlockedMap, now: string): UnlockedMap
  {
    if bs == [] then map[]
    else
      var m := NewState(bs[..|bs| - 1], logs, streak, today, stored, now);
      var b := bs[|bs| - 1];
      if !Unlocked(b, logs, streak, today) then m
      else if Id(b) in stored then m[Id(b) := stored[Id(b)]]
      else m[Id(b) := now]
  }

  /** The ids the pass reports as just unlocked, in catalogue order. */
  function JustUnlocked(bs: seq<Badge>, logs: seq<LogEntry>, streak: int, today: Day,
                        stored: UnlockedMap): seq<string>
  {
    if bs == [] then []
    else
      var r := JustUnlocked(bs[..|bs| - 1], logs, streak, today, stored);
      var b := bs[|bs| - 1];
      if Unlocked(b, logs, streak, today) && Id(b) !in stored then r + [Id(b)] else r
  }

  /** The ids of the badges among `bs` that hold now. */
  ghost predicate Holds(bs: seq<Badge>, logs: seq<LogEntry>, streak: int, today: Day, id: string) {
    exists i :: 0 <= i < |bs| && Id(bs[i]) == id && Unlocked(bs[i], logs, streak, today)
  }

  /**
   * The new record holds exactly the ids of the badges that hold; an id that
   * was stored keeps its date and a new one gets `now`.
   */
  lemma {:induction false} NewStateMeaning(bs: seq<Badge>, logs: seq<LogEntry>, streak: int, today: Day,
                                           stored: UnlockedMap, now: string)
    ensures forall id :: id in NewState(bs, logs, streak, today, stored, now) <==> Holds(bs, logs, streak, today, id)
    ensures forall id :: id in NewState(bs, logs, streak, today, stored, now) ==>
      NewState(bs, logs, streak, today, stored, now)[id] == if id in stored then stored[id] else now
  {
    if bs != [] {
      var p := bs[..|bs| - 1];
      NewStateMeaning(p, logs, streak, today, stored, now);
      forall id ensures Holds(bs, logs, streak, today, id) <==>
        Holds(p, logs, streak, today, id) || (Id(bs[|bs| - 1]) == id && Unlocked(bs[|bs| - 1], logs, streak, today))
      {
        HoldsSnoc(bs, logs, streak, today, id);
      }
    }
  }

  /** A badge list with one more badge at the end holds an id when the shorter list does or the new badge does. */
  lemma HoldsSnoc(bs: seq<Badge>, logs: seq<LogEntry>, streak: int, today: Day, id: string)
    requires bs != []
    ensures Holds(bs, logs, streak, today, id) <==>
      Holds(bs[..|bs| - 1], logs, streak, today, id) || (Id(bs[|bs| - 1]) == id && Unlocked(bs[|bs| - 1], logs, streak, today))
  {
    var p := bs[..|bs| - 1];
    var good := (b: Badge) => Id(b) == id && Unlocked(b, logs, streak, today);
    assert Holds(bs, logs, streak, today, id) <==> exists i :: 0 <= i < |bs| && good(bs[i]);
    assert Holds(p, logs, streak, today, id) <==> exists i :: 0 <= i < |bs| - 1 && good(bs[i]) by {
      assert forall i :: 0 <= i < |p| ==> p[i] == bs[i];
    }
    SomeSnoc(bs, good);
  }

  lemma SomeSnoc<T>(s: seq<T>, good: T -> bool)
    requires s != []
    ensures (exists i :: 0 <= i < |s| && good(s[i])) <==> (exists i :: 0 <= i < |s| - 1 && good(s[i])) || good(s[|s| - 1])
  {
  }

  /** An id is reported as just unlocked exactly when it is in the new record but was not stored. */
  lemma {:induction false} JustUnlockedMeaning(bs: seq<Badge>, logs: seq<LogEntry>, streak: int, today: Day,
                                               stored: UnlockedMap, now: string)
    ensures forall id :: id in JustUnlocked(bs, logs, streak, today, stored) <==>
      id in NewState(bs, logs, streak, today, stored, now) && id !in stored
  {
    if bs != [] {
      JustUnlockedMeaning(bs[..|bs| - 1], logs, streak, today, stored, now);
    }
  }

  /** Over badges with distinct ids, no id is reported twice. */
  lemma {:induction false} JustUnlockedDistinct(bs: seq<Badge>, logs: seq<LogEntry>, streak: int, today: Day,
                                                stored: UnlockedMap)
    requires forall i, j :: 0 <= i < j < |bs| ==> Id(bs[i]) != Id(bs[j])
    ensures Distinct(JustUnlocked(bs, logs, streak, today, stored))
    ensures forall id :: id in JustUnlocked(bs, logs, streak, today, stored) ==> exists i :: 0 <= i < |bs| && Id(bs[i]) == id
  {
    if bs != [] {
      var p := bs[..|bs| - 1];
      var b := bs[|bs| - 1];
      JustUnlockedDistinct(p, logs, streak, today, stored);
      var r := JustUnlocked(p, logs, streak, today, stored);
      forall id | id in r ensures id != Id(b) {
        var i :| 0 <= i < |p| && Id(p[i]) == id;
        assert bs[i] == p[i];
      }
      var r' := JustUnlocked(bs, logs, streak, today, stored);
      forall i, j | 0 <= i < j < |r'| ensures r'[i] != r'[j] {
        if r' != r {
          assert r' == r + [Id(b)];
          assert r'[i] == r[i] && r[i] in r;
          if j < |r| {
            assert r'[j] == r[j];
          }
        }
      }
      forall id | id in r' ensures exists i :: 0 <= i < |bs| && Id(bs[i]) == id {
        if id in r {
          var i :| 0 <= i < |p| && Id(p[i]) == id;
          assert bs[i] == p[i];
        } else {
          assert Id(bs[|bs| - 1]) == id;
        }
      }
    }
  }

  /** When the new record has the same ids as the stored one, it is the stored record: skipping the write loses nothing. */
  lemma SameIdsSameRecord(logs: seq<LogEntry>, streak: int, today: Day, stored: UnlockedMap, now: string)
    requires NewState(Catalogue, logs, streak, today, stored, now).Keys == stored.Keys
    ensures NewState(Catalogue, logs, streak, today, stored, now) == stored
  {
    NewStateMeaning(Catalogue, logs, streak, today, stored, now);
  }

  /**
   * Running the pass again on its own result, with nothing else changed,
   * leaves the record as it is (whatever the time) and reports nothing new.
   */
  lemma PassIdempotent(logs: seq<LogEntry>, streak: int, today: Day, stored: UnlockedMap, now: string, later: string)
    ensures var first := NewState(Catalogue, logs, streak, today, stored, now);
      && NewState(Catalogue, logs, streak, today, first, later) == first
      && JustUnlocked(Catalogue, logs, streak, today, first) == []
  {
    var first := NewState(Catalogue, logs, streak, today, stored, now);
    NewStateMeaning(Catalogue, logs, streak, today, stored, now);
    NewStateMeaning(Catalogue, logs, streak, today, first, later);
    forall i | 0 <= i < |Catalogue| && Unlocked(Catalogue[i], logs, streak, today)
      ensures Id(Catalogue[i]) in first
    {
      assert Holds(Catalogue, logs, streak, today, Id(Catalogue[i]));
    }
    NothingNew(Catalogue, logs, streak, today, first);
  }

  /** When every badge that holds is already stored, nothing is reported. */
  lemma {:induction false} NothingNew(bs: seq<Badge>, logs: seq<LogEntry>, streak: int, today: Day, stored: UnlockedMap)
    requires forall i :: 0 <= i < |bs| && Unlocked(bs[i], logs, streak, today) ==> Id(bs[i]) in stored
    ensures JustUnlocked(bs, logs, streak, today, stored) == []
  {
    if bs != [] {
      var p := bs[..|bs| - 1];
      forall i | 0 <= i < |p| && Unlocked(p[i], logs, streak, today) ensures Id(p[i]) in stored {
        assert p[i] == bs[i];
      }
      NothingNew(p, logs, streak, today, stored);
    }
  }

  /** A badge that was unlocked and still holds keeps its original date. */
  lemma DatesArePreserved(logs: seq<LogEntry>, streak: int, today: Day, stored: UnlockedMap, now: string, b: Badge)
    requires Id(b) in stored && Unlocked(b, logs, streak, today)
    ensures var m := NewState(Catalogue, logs, streak, today, stored, now);
      Id(b) in m && m[Id(b)] == stored[Id(b)]
  {
    CatalogueIds();
    NewStateMeaning(Catalogue, logs, streak, today, stored, now);
    assert b in Catalogue;
    var i :| 0 <= i < |Catalogue| && Catalogue[i] == b;
    assert Holds(Catalogue, logs, streak, today, Id(b));
  }

  /** The stored record and the toast queue. */
  class AchievementTracker {
    var unlocked: UnlockedMap
    var newlyUnlocked: seq<string>

    constructor(stored: UnlockedMap)
      ensures unlocked == stored && newlyUnlocked == []
    {
      unlocked := stored;
      newlyUnlocked := [];
    }

    /**
     * The effect: one `forEach` over the catalogue, then the write when the
     * sorted id lists differ, then the queued toasts. Afterwards the record
     * is always the pass's new record.
     */
    method Reevaluate(logs: seq<LogEntry>, streak: int, today: Day, now: string)
      modifies this
      ensures unlocked == NewState(Catalogue, logs, streak, today, old(unlocked), now)
      ensures newlyUnlocked == old(newlyUnlocked) + JustUnlocked(Catalogue, logs, streak, today, old(unlocked))
    {
      var newUnlockedState: UnlockedMap := map[];
      var justUnlockedIds: seq<string> := [];
      for i := 0 to |Catalogue|
        invariant unlocked == old(unlocked) && newlyUnlocked == old(newlyUnlocked)
        invariant newUnlockedState == NewState(Catalogue[..i], logs, streak, today, unlocked, now)
        invariant justUnlockedIds == JustUnlocked(Catalogue[..i], logs, streak, today, unlocked)
      {
        assert Catalogue[..i + 1][..i] == Catalogue[..i];
        var achievement := Catalogue[i];
        var holds := Evaluate(achievement, logs, streak, today);
        if holds {
          var id := Id(achievement);
          if id in unlocked {
            newUnlockedState := newUnlockedState[id := unlocked[id]];
          } else {
            newUnlockedState := newUnlockedState[id := now];
            justUnlockedIds := justUnlockedIds + [id];
          }
        }
      }
      assert Catalogue[..|Catalogue|] == Catalogue;
      var currentUnlockedIds := SortedMembers(unlocked.Keys);
      var newUnlockedIds := SortedMembers(newUnlockedState.Keys);
      if currentUnlockedIds != newUnlockedIds {
        unlocked := newUnlockedState;
      } else {
        StrictlySortedUnique(currentUnlockedIds, newUnlockedIds);
        assert unlocked.Keys == newUnlockedState.Keys;
        SameIdsSameRecord(logs, streak, today, unlocked, now);
      }
      if |justUnlockedIds| > 0 {
        newlyUnlocked := newlyUnlocked + justUnlockedIds;
      }
    }
  }
}
