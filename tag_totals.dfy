/**
 * A JavaScript Map<string, number> of hours per tag, in insertion order, as an
 * association list; and the "top tag" read off it (App.tsx findTopTag).
 */
module TagTotals {
  import opened Types
  import opened Sorting

  type TagMap = seq<(string, real)>

  function Keys(m: TagMap): (r: seq<string>)
    ensures |r| == |m| && forall i :: 0 <= i < |m| ==> r[i] == m[i].0
  {
    if m == [] then [] else [m[0].0] + Keys(m[1..])
  }

  predicate DistinctKeys(m: TagMap) {
    forall i, j :: 0 <= i < j < |m| ==> m[i].0 != m[j].0
  }

  /** `map.get(tag) || 0`: the hours stored for `tag`, or 0 when it has none. */
  function Get(m: TagMap, tag: string): real {
    if m == [] then 0.0 else if m[0].0 == tag then m[0].1 else Get(m[1..], tag)
  }

  /** `map.set(tag, (map.get(tag) || 0) + hours)`: update in place, or append a new key at the end. */
  function Add(m: TagMap, tag: string, hours: real): (r: TagMap)
    ensures Keys(r) == if tag in Keys(m) then Keys(m) else Keys(m) + [tag]
  {
    if m == [] then [(tag, hours)]
    else if m[0].0 == tag then [(tag, m[0].1 + hours)] + m[1..]
    else [m[0]] + Add(m[1..], tag, hours)
  }

  /** After an addition the tag holds its old hours plus the new ones, and every other tag is unchanged. */
  lemma {:induction false} AddGet(m: TagMap, tag: string, hours: real, other: string)
    ensures Get(Add(m, tag, hours), tag) == Get(m, tag) + hours
    ensures other != tag ==> Get(Add(m, tag, hours), other) == Get(m, other)
  {
    if m != [] && m[0].0 != tag {
      AddGet(m[1..], tag, hours, other);
    }
  }

  /** Additions keep one entry per key. */
  lemma AddDistinct(m: TagMap, tag: string, hours: real)
    requires DistinctKeys(m)
    ensures DistinctKeys(Add(m, tag, hours))
  {
    var r := Add(m, tag, hours);
    assert Keys(r) == if tag in Keys(m) then Keys(m) else Keys(m) + [tag];
    forall i, j | 0 <= i < j < |r| ensures r[i].0 != r[j].0 {
      assert Keys(r)[i] == r[i].0 && Keys(r)[j] == r[j].0;
      if j == |m| {
        assert tag !in Keys(m) && Keys(r)[j] == tag && Keys(r)[i] == Keys(m)[i];
      } else {
        assert Keys(r)[i] == Keys(m)[i] && Keys(r)[j] == Keys(m)[j];
      }
    }
  }

  /** With one entry per key, `Get` reads the entry of that key. */
  lemma {:induction false} GetAt(m: TagMap, i: int)
    requires DistinctKeys(m) && 0 <= i < |m|
    ensures Get(m, m[i].0) == m[i].1
  {
    if i > 0 {
      GetAt(m[1..], i - 1);
    }
  }

  /** A key that was never set reads as 0. */
  lemma {:induction false} GetMissing(m: TagMap, tag: string)
    requires tag !in Keys(m)
    ensures Get(m, tag) == 0.0
  {
    if m != [] {
      assert Keys(m) == [m[0].0] + Keys(m[1..]);
      GetMissing(m[1..], tag);
    }
  }

  /** The comparator `(a, b) => b[1] - a[1]`: `a` may stay before `b` when it has at least as many hours. */
  const ByHoursDesc: ((string, real), (string, real)) -> bool := (a: (string, real), b: (string, real)) => a.1 >= b.1

  lemma ByHoursDescTotal()
    ensures TotalPreorder(ByHoursDesc)
  {
  }

  /**
   * `findTopTag`: undefined for an empty map, otherwise the key of the first
   * entry after a stable sort by hours, largest first.
   */
  function TopTag(m: TagMap): (r: Option<string>)
    ensures r == None <==> m == []
  {
    if m == [] then None else Some(Sort(m, ByHoursDesc)[0].0)
  }

  /** Entry `i` has the most hours, and every entry inserted before it has strictly fewer. */
  ghost predicate IsFirstMax(m: TagMap, i: int) {
    && 0 <= i < |m|
    && (forall j :: 0 <= j < |m| ==> m[j].1 <= m[i].1)
    && (forall j :: 0 <= j < i ==> m[j].1 < m[i].1)
  }

  /** The top tag is a tag with maximal hours; ties go to the tag inserted first. */
  lemma TopTagIsFirstMax(m: TagMap) returns (i: int)
    requires m != []
    ensures IsFirstMax(m, i) && TopTag(m) == Some(m[i].0)
  {
    ByHoursDescTotal();
    i := SortHead(m, ByHoursDesc);
  }
}
