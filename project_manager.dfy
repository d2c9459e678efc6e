/**
 * The project list editor (components/ProjectManager.tsx): adding a project
 * under the trimmed name typed in, in the colour picked, after which the
 * input clears and the colour moves on to the next one of the palette.
 */
module ProjectManager {
  import opened Types
  import opened Text

  /** The palette of project colours. */
  const Colors: seq<string> := ["#34d399", "#f97316", "#ec4899", "#8b5cf6", "#ef4444", "#f59e0b", "#06b6d4", "#6366f1"]

  /** `Array.prototype.indexOf`: the first position of `x`, or -1. */
  function IndexOf(s: seq<string>, x: string): (i: int)
    ensures -1 <= i < |s|
    ensures i == -1 <==> x !in s
    ensures i >= 0 ==> s[i] == x && forall j :: 0 <= j < i ==> s[j] != x
  {
    if s == [] then -1
    else if s[0] == x then 0
    else
      var i := IndexOf(s[1..], x);
      if i == -1 then -1 else i + 1
  }

  /** The colour after `c`: `COLORS[(COLORS.indexOf(c) + 1) % COLORS.length]`. */
  function NextColor(c: string): (r: string)
    ensures r in Colors
  {
    Colors[(IndexOf(Colors, c) + 1) % |Colors|]
  }

  /** The palette has no repeated colour. */
  lemma ColorsDistinct()
    ensures forall i, j :: 0 <= i < j < |Colors| ==> Colors[i] != Colors[j]
  {
    forall i, j | 0 <= i < j < |Colors| ensures Colors[i] != Colors[j] {
      assert Colors[i][1..3] != Colors[j][1..3] || Colors[i][3..] != Colors[j][3..];
    }
  }

  /**
   * Each colour of the palette is followed by the next one, the last by the
   * first; a colour outside the palette is followed by the first.
   */
  lemma NextColorCycles(i: int, c: string)
    requires 0 <= i < |Colors|
    ensures NextColor(Colors[i]) == Colors[(i + 1) % |Colors|]
    ensures c !in Colors ==> NextColor(c) == Colors[0]
  {
    NextColorInside(i);
    if c !in Colors {
      NextColorOutside(c);
    }
  }

  lemma NextColorInside(i: int)
    requires 0 <= i < |Colors|
    ensures NextColor(Colors[i]) == Colors[(i + 1) % |Colors|]
  {
    ColorsDistinct();
    NextInCycle(Colors, i);
  }

  /** In a list without repeats, the element after the first occurrence of `s[i]` is the one after position `i`. */
  lemma NextInCycle(s: seq<string>, i: int)
    requires 0 <= i < |s|
    requires forall j, k :: 0 <= j < k < |s| ==> s[j] != s[k]
    ensures s[(IndexOf(s, s[i]) + 1) % |s|] == s[(i + 1) % |s|]
  {
    IndexOfDistinct(s, i);
  }

  lemma NextColorOutside(c: string)
    requires c !in Colors
    ensures NextColor(c) == Colors[0]
  {
    var k := IndexOf(Colors, c);
    assert k == -1;
  }

  /** In a list without repeats, the first position of an element is its position. */
  lemma IndexOfDistinct(s: seq<string>, i: int)
    requires 0 <= i < |s|
    requires forall j, k :: 0 <= j < k < |s| ==> s[j] != s[k]
    ensures IndexOf(s, s[i]) == i
  {
  }

  /** The name a project is stored under. */
  function StoredName(newProjectName: string): string {
    Trim(newProjectName)
  }

  /** A name is accepted unless it is empty or only white space; an accepted name is stored with no white space at either end and is not empty. */
  lemma StoredNameMeaning(newProjectName: string)
    ensures StoredName(newProjectName) == "" <==> IsBlank(newProjectName)
    ensures StoredName(newProjectName) != "" ==>
      && !IsSpace(StoredName(newProjectName)[0])
      && !IsSpace(StoredName(newProjectName)[|StoredName(newProjectName)| - 1])
      && Trim(StoredName(newProjectName)) == StoredName(newProjectName)
  {
    TrimEmptyIffBlank(newProjectName);
    TrimIdempotent(newProjectName);
  }

  /** The state of the editor. */
  class Editor {
    var projects: seq<Project>
    var newProjectName: string
    var selectedColor: string

    /** The palette colour in use is always one of the palette. */
    predicate Valid()
      reads this
    {
      selectedColor in Colors
    }

    constructor(projects: seq<Project>)
      ensures Valid()
      ensures this.projects == projects && newProjectName == "" && selectedColor == Colors[0]
    {
      this.projects := projects;
      newProjectName := "";
      selectedColor := Colors[0];
    }

    /** `handleAddProject`, with `id` the fresh id the source derives from the clock. */
    method AddProject(id: string)
      requires Valid()
      modifies this
      ensures Valid()
      ensures IsBlank(old(newProjectName)) ==>
        projects == old(projects) && newProjectName == old(newProjectName) && selectedColor == old(selectedColor)
      ensures !IsBlank(old(newProjectName)) ==>
        && projects == old(projects) + [Project(id, StoredName(old(newProjectName)), old(selectedColor))]
        && newProjectName == ""
        && selectedColor == NextColor(old(selectedColor))
    {
      TrimEmptyIffBlank(newProjectName);
      if Trim(newProjectName) == "" {
        return;
      }
      var newProject := Project(id, Trim(newProjectName), selectedColor);
      projects := projects + [newProject];
      newProjectName := "";
      selectedColor := NextColor(selectedColor);
    }
  }
}
