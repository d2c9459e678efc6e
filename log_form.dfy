/**
 * The entry form (components/LogForm.tsx): the tag toggle, the submit
 * handler, and the effect that loads the entry of the chosen date.
 */
module LogForm {
  import opened Types
  import opened Sorting
  import opened Text
  import opened LogStore

  /** The text of the hours field: empty, the numeral of a number, or text that is not a number. */
  datatype HoursText = Blank | Shown(value: real) | Unparsable

  /** `parseFloat(hours) || 0`: a number reads as itself; empty or unparsable text reads as 0. */
  function ParseHours(h: HoursText): (r: real)
    ensures h.Shown? ==> r == h.value
    ensures !h.Shown? ==> r == 0.0
  {
    match h
    case Shown(v) => v
    case _ => 0.0
  }

  // ---- the tag toggle ----

  /** `prev.filter(t => t !== tag)`. */
  function Without(prev: seq<string>, tag: string): (r: seq<string>)
    ensures tag !in r
    ensures forall t :: t in r <==> t in prev && t != tag
  {
    if prev == [] then []
    else if prev[|prev| - 1] == tag then Without(prev[..|prev| - 1], tag)
    else Without(prev[..|prev| - 1], tag) + [prev[|prev| - 1]]
  }

  /** `handleTagToggle`: remove a selected tag, or add it and re-sort. */
  function Toggled(prev: seq<string>, tag: string): seq<string> {
    if tag in prev then Without(prev, tag) else Sort(prev + [tag], ByString)
  }

  /** Removing keeps every other tag as often as before and drops every copy of `tag`. */
  lemma {:induction false} WithoutCounts(prev: seq<string>, tag: string)
    ensures multiset(Without(prev, tag))[tag] == 0
    ensures forall t :: t != tag ==> multiset(Without(prev, tag))[t] == multiset(prev)[t]
  {
    if prev != [] {
      var p := prev[..|prev| - 1];
      WithoutCounts(p, tag);
      assert prev == p + [prev[|prev| - 1]];
    }
  }

  /** Removing keeps the remaining tags in their order: a sorted list stays sorted. */
  lemma {:induction false} WithoutSorted(prev: seq<string>, tag: string)
    requires SortedBy(prev, ByString)
    ensures SortedBy(Without(prev, tag), ByString)
  {
    if prev != [] {
      var p := prev[..|prev| - 1];
      var last := prev[|prev| - 1];
      WithoutSorted(p, tag);
      if last != tag {
        var w := Without(p, tag);
        forall i | 0 <= i < |w| ensures ByString(w[i], last) {
          assert w[i] in p;
          var k :| 0 <= k < |p| && p[k] == w[i];
          assert prev[k] == w[i];
        }
        var r := w + [last];
        forall i, j | 0 <= i < j < |r| ensures ByString(r[i], r[j]) {
          if j < |w| {
            assert r[i] == w[i] && r[j] == w[j];
          }
        }
      }
    }
  }

  /** Toggling a selected tag removes every copy of it and keeps the others as they were. */
  lemma TogglePresent(prev: seq<string>, tag: string)
    requires tag in prev
    ensures tag !in Toggled(prev, tag)
    ensures forall t :: t != tag ==> multiset(Toggled(prev, tag))[t] == multiset(prev)[t]
    ensures SortedBy(prev, ByString) ==> SortedBy(Toggled(prev, tag), ByString)
  {
    WithoutCounts(prev, tag);
    if SortedBy(prev, ByString) {
      WithoutSorted(prev, tag);
    }
  }

  /** Toggling an unselected tag adds it once and returns the list sorted. */
  lemma ToggleAbsent(prev: seq<string>, tag: string)
    requires tag !in prev
    ensures SortedBy(Toggled(prev, tag), ByString)
    ensures multiset(Toggled(prev, tag)) == multiset(prev) + multiset{tag}
  {
    ByStringTotal();
    SortSorted(prev + [tag], ByString);
  }

  /** A sorted list without duplicates is strictly sorted. */
  lemma SortedDistinctStrict(s: seq<string>)
    requires SortedBy(s, ByString) && Distinct(s)
    ensures StrictlySorted(s)
  {
  }

  /** On a sorted list without duplicates, toggling the same tag twice gives back the list. */
  lemma ToggleTwice(prev: seq<string>, tag: string)
    requires SortedBy(prev, ByString) && Distinct(prev)
    ensures Toggled(Toggled(prev, tag), tag) == prev
  {
    if tag in prev {
      ReAddRemoved(prev, tag);
    } else {
      RemoveAdded(prev, tag);
    }
  }

  /** Adding back a removed tag and re-sorting restores a strictly sorted list. */
  lemma ReAddRemoved(prev: seq<string>, tag: string)
    requires SortedBy(prev, ByString) && Distinct(prev) && tag in prev
    ensures tag !in Without(prev, tag) && Sort(Without(prev, tag) + [tag], ByString) == prev
  {
    ByStringTotal();
    WithoutSorted(prev, tag);
    WithoutCounts(prev, tag);
    var w := Without(prev, tag);
    var back := Sort(w + [tag], ByString);
    SortSorted(w + [tag], ByString);
    SortMembers(w + [tag], ByString);
    assert multiset(back) == multiset(w) + multiset{tag};
    forall t ensures multiset(back)[t] <= 1 {
      DistinctCount(prev, t);
    }
    CountsDistinct(back);
    StrictlySortedUnique(back, prev);
  }

  /** Removing a tag just added by a sorted insert restores a strictly sorted list. */
  lemma RemoveAdded(prev: seq<string>, tag: string)
    requires SortedBy(prev, ByString) && Distinct(prev) && tag !in prev
    ensures tag in Sort(prev + [tag], ByString) && Without(Sort(prev + [tag], ByString), tag) == prev
  {
    ByStringTotal();
    var once := Sort(prev + [tag], ByString);
    SortSorted(prev + [tag], ByString);
    SortMembers(prev + [tag], ByString);
    var w := Without(once, tag);
    WithoutSorted(once, tag);
    WithoutCounts(once, tag);
    forall t ensures multiset(w)[t] <= 1 {
      DistinctCount(prev, t);
    }
    CountsDistinct(w);
    StrictlySortedUnique(w, prev);
  }

  // ---- submit and load ----

  /** The entry a submit sends: the date, the parsed hours, the note and the selected tags (no breakdown). */
  function Submitted(date: Day, hours: HoursText, note: string, tags: seq<string>): LogEntry {
    LogEntry(date, ParseHours(hours), Some(note), Some(tags), None)
  }

  /** The fields the load effect fills in for `date`: those of its first entry, or blanks. */
  function Loaded(logs: seq<LogEntry>, date: Day): (HoursText, string, seq<string>) {
    var i := FindDateIndex(logs, date);
    if i == -1 then (Blank, "", [])
    else
      var e := logs[i];
      (Shown(e.hours), if e.note.Some? then e.note.value else "", if e.tags.Some? then e.tags.value else [])
  }

  /**
   * Loading a date's entry and submitting it unchanged sends the same date and
   * hours, an absent note as "" and absent tags as []; a breakdown is not sent.
   */
  lemma LoadSubmit(logs: seq<LogEntry>, date: Day)
    ensures var (h, n, t) := Loaded(logs, date);
      var e := Submitted(date, h, n, t);
      var i := FindDateIndex(logs, date);
      && (i == -1 ==> e == LogEntry(date, 0.0, Some(""), Some([]), None))
      && (i >= 0 ==>
            && e.hours == logs[i].hours
            && e.note == Some(if logs[i].note.Some? then logs[i].note.value else "")
            && e.tags == Some(if logs[i].tags.Some? then logs[i].tags.value else [])
            && e.techBreakdown == None)
      && (i >= 0 && logs[i].note.Some? && logs[i].tags.Some? && logs[i].techBreakdown.None? ==> e == logs[i])
  {
  }

  /** The form's state. */
  class FormState {
    var hours: HoursText
    var note: string
    var selectedTags: seq<string>
    var justSaved: bool

    constructor()
      ensures hours == Blank && note == "" && selectedTags == [] && !justSaved
    {
      hours := Blank;
      note := "";
      selectedTags := [];
      justSaved := false;
    }

    method ToggleTag(tag: string)
      modifies this
      ensures selectedTags == Toggled(old(selectedTags), tag)
      ensures hours == old(hours) && note == old(note) && justSaved == old(justSaved)
    {
      if tag in selectedTags {
        selectedTags := Without(selectedTags, tag);
      } else {
        selectedTags := Sort(selectedTags + [tag], ByString);
      }
    }

    /** `handleSubmit`: with a date, send the entry, mark it saved and clear the fields; without one, do nothing. */
    method Submit(date: Option<Day>) returns (sent: Option<LogEntry>)
      modifies this
      ensures date == None ==>
        sent == None && hours == old(hours) && note == old(note) && selectedTags == old(selectedTags) && justSaved == old(justSaved)
      ensures date != None ==>
        sent == Some(Submitted(date.value, old(hours), old(note), old(selectedTags))) && hours == Blank && note == "" && selectedTags == [] && justSaved
    {
      var hoursNum := ParseHours(hours);
      sent := None;
      if date.Some? {
        sent := Some(LogEntry(date.value, hoursNum, Some(note), Some(selectedTags), None));
        justSaved := true;
        hours := Blank;
        note := "";
        selectedTags := [];
      }
    }

    /** The load effect: skipped once right after a save, otherwise fills the fields from the date's entry. */
    method Load(logs: seq<LogEntry>, date: Day)
      modifies this
      ensures old(justSaved) ==>
        !justSaved && hours == old(hours) && note == old(note) && selectedTags == old(selectedTags)
      ensures !old(justSaved) ==> !justSaved && (hours, note, selectedTags) == Loaded(logs, date)
    {
      if justSaved {
        justSaved := false;
        return;
      }
      var i := FindDateIndex(logs, date);
      if i >= 0 {
        var existingLog := logs[i];
        hours := Shown(existingLog.hours);
        note := if existingLog.note.Some? then existingLog.note.value else "";
        selectedTags := if existingLog.tags.Some? then existingLog.tags.value else [];
      } else {
        hours := Blank;
        note := "";
        selectedTags := [];
      }
    }
  }
}
