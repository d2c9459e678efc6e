/**
 * The filter bar (components/FilterControls.tsx): the sorted list of every
 * legacy tag in the logs, the rule that hides the bar when there is nothing
 * to filter by, and which buttons show as active.
 */
module FilterControls {
  import opened Types
  import opened Text

  // ---- the tag list ----

  /** The legacy tags of one log (none without a tag list). */
  function TagsOf(log: LogEntry): set<string> {
    if log.tags.Some? then set t | t in log.tags.value else {}
  }

  /** The legacy tags of all the logs. */
  function TagSet(logs: seq<LogEntry>): set<string> {
    if logs == [] then {} else TagSet(logs[..|logs| - 1]) + TagsOf(logs[|logs| - 1])
  }

  /** Some log's tag list holds `tag`. */
  ghost predicate HasTag(logs: seq<LogEntry>, tag: string) {
    exists i :: 0 <= i < |logs| && logs[i].tags.Some? && tag in logs[i].tags.value
  }

  /** `allTags`: the tags collected into a set in nested `forEach`, then sorted. */
  method AllTags(logs: seq<LogEntry>) returns (allTags: seq<string>)
    ensures StrictlySorted(allTags)
    ensures forall t :: t in allTags <==> HasTag(logs, t)
  {
    var tags: set<string> := {};
    for i := 0 to |logs|
      invariant tags == TagSet(logs[..i])
    {
      assert logs[..i + 1][..i] == logs[..i];
      if logs[i].tags.Some? {
        var logTags := logs[i].tags.value;
        var before := tags;
        for k := 0 to |logTags|
          invariant tags == before + set t | t in logTags[..k]
        {
          assert logTags[..k + 1] == logTags[..k] + [logTags[k]];
          tags := tags + {logTags[k]};
        }
        assert logTags[..|logTags|] == logTags;
      }
    }
    assert logs[..|logs|] == logs;
    TagSetMeaning(logs);
    allTags := SortedMembers(tags);
  }

  /** The collected set holds exactly the tags some log lists. */
  lemma {:induction false} TagSetMeaning(logs: seq<LogEntry>)
    ensures forall t :: t in TagSet(logs) <==> HasTag(logs, t)
  {
    if logs != [] {
      var p := logs[..|logs| - 1];
      var last := logs[|logs| - 1];
      TagSetMeaning(p);
      forall t ensures t in TagSet(logs) <==> HasTag(logs, t) {
        if t in TagSet(p) {
          var i :| 0 <= i < |p| && p[i].tags.Some? && t in p[i].tags.value;
          assert logs[i] == p[i];
        }
        if HasTag(logs, t) {
          var i :| 0 <= i < |logs| && logs[i].tags.Some? && t in logs[i].tags.value;
          if i < |p| {
            assert p[i] == logs[i];
          }
        }
      }
    }
  }

  // ---- the bar ----

  datatype FilterType = TagFilter | ProjectFilter

  /** `activeFilter`: a type and a value, either possibly null. */
  datatype ActiveFilter = ActiveFilter(kind: Option<FilterType>, value: Option<string>)

  /** The bar renders nothing when there are no projects and no tags. */
  predicate Hidden(projects: seq<Project>, allTags: seq<string>) {
    |projects| == 0 && |allTags| == 0
  }

  predicate ProjectActive(f: ActiveFilter, project: Project) {
    f.kind == Some(ProjectFilter) && f.value == Some(project.id)
  }

  predicate TagActive(f: ActiveFilter, tag: string) {
    f.kind == Some(TagFilter) && f.value == Some(tag)
  }

  /** The divider between project and tag buttons appears when there are both. */
  predicate DividerShown(projects: seq<Project>, allTags: seq<string>) {
    |projects| > 0 && |allTags| > 0
  }

  /** The "Clear Filter" button appears when a filter type is set. */
  predicate ClearShown(f: ActiveFilter) {
    f.kind.Some?
  }

  /** With the tag list built from the logs, the bar is hidden exactly when there are no projects and no log lists a tag. */
  lemma HiddenIffNothing(logs: seq<LogEntry>, projects: seq<Project>, allTags: seq<string>)
    requires forall t :: t in allTags <==> HasTag(logs, t)
    ensures Hidden(projects, allTags) <==> projects == [] && forall i :: 0 <= i < |logs| ==> logs[i].tags.None? || logs[i].tags.value == []
  {
    if !(forall i :: 0 <= i < |logs| ==> logs[i].tags.None? || logs[i].tags.value == []) {
      var i :| 0 <= i < |logs| && logs[i].tags.Some? && logs[i].tags.value != [];
      assert HasTag(logs, logs[i].tags.value[0]);
    }
    if allTags != [] {
      assert HasTag(logs, allTags[0]);
    }
  }

  /**
   * At most one tag button is active, never a tag and a project button
   * together, every active button comes with the Clear button, and a set
   * filter type alone shows Clear even when no button matches.
   */
  lemma ActiveButtons(f: ActiveFilter, allTags: seq<string>, projects: seq<Project>)
    requires StrictlySorted(allTags)
    ensures forall i, j :: 0 <= i < |allTags| && 0 <= j < |allTags| && TagActive(f, allTags[i]) && TagActive(f, allTags[j]) ==> i == j
    ensures forall i, p :: 0 <= i < |allTags| && TagActive(f, allTags[i]) && p in projects ==> !ProjectActive(f, p)
    ensures (exists i :: 0 <= i < |allTags| && TagActive(f, allTags[i])) || (exists p :: p in projects && ProjectActive(f, p)) ==> ClearShown(f)
  {
  }
}
