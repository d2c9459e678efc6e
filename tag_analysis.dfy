/**
 * The tag share widget (components/TagAnalysis.tsx): every legacy tag of
 * every log credited the log's full hours, one row per tag ranked by hours,
 * the pie slices as fractions of the rows' total with their running start,
 * the large-arc flag, and the legend of the top ten rows.
 */
module TagAnalysis {
  import opened Types
  import opened Sorting
  import opened TagTotals
  import opened Periods

  /** `tagMap`: each legacy tag of each log gets the log's full hours, in first-seen order. */
  function FullTagHours(logs: seq<LogEntry>): TagMap {
    if logs == [] then []
    else
      var m := FullTagHours(logs[..|logs| - 1]);
      var log := logs[|logs| - 1];
      if log.tags.Some? then AccrueTags(m, log.tags.value, log.hours) else m
  }

  /** The hours `tag` is credited: a log's full hours for each time the tag appears in its list. */
  function FullCredit(logs: seq<LogEntry>, tag: string): real {
    if logs == [] then 0.0
    else
      var log := logs[|logs| - 1];
      FullCredit(logs[..|logs| - 1], tag) + (if log.tags.Some? then ShareHours(log.tags.value, tag, log.hours) else 0.0)
  }

  /** Some log lists `tag` among its legacy tags. */
  ghost predicate HasTag(logs: seq<LogEntry>, tag: string) {
    exists i :: 0 <= i < |logs| && logs[i].tags.Some? && tag in logs[i].tags.value
  }

  /** `tagData`: the entries of the map, sorted by hours, largest first (a stable sort). */
  function TagData(logs: seq<LogEntry>): TagMap {
    Sort(FullTagHours(logs), ByHoursDesc)
  }

  /** `tagData.reduce((sum, item) => sum + item.hours, 0)`. */
  function RowHours(rows: TagMap): real {
    if rows == [] then 0.0 else RowHours(rows[..|rows| - 1]) + rows[|rows| - 1].1
  }

  /** The running `cumulativePercent` after the given rows. */
  function Cumulative(rows: TagMap, total: real): real
    requires total != 0.0
  {
    if rows == [] then 0.0 else Cumulative(rows[..|rows| - 1], total) + rows[|rows| - 1].1 / total
  }

  /** A pie slice: its share of the total, where it starts and ends on the circle (as fractions), and the arc flag. */
  datatype Slice = Slice(tag: string, hours: real, percent: real, start: real, end: real, largeArc: bool)

  /** `chartData`: the slices of the rows, each starting where the previous one ended. */
  function Slices(rows: TagMap, total: real): seq<Slice>
    requires total != 0.0
  {
    if rows == [] then []
    else
      var p := rows[..|rows| - 1];
      var row := rows[|rows| - 1];
      var percent := row.1 / total;
      var start := Cumulative(p, total);
      Slices(p, total) + [Slice(row.0, row.1, percent, start, start + percent, percent > 0.5)]
  }

  /** `tagData.slice(0, 10)`: the legend. */
  function Legend(rows: TagMap): TagMap {
    if |rows| > 10 then rows[..10] else rows
  }

  // ---- the loops of the component ----

  /** The nested `forEach` that fills `tagMap`. */
  method TagMapOf(logs: seq<LogEntry>) returns (tagMap: TagMap)
    ensures tagMap == FullTagHours(logs)
  {
    tagMap := [];
    for i := 0 to |logs|
      invariant tagMap == FullTagHours(logs[..i])
    {
      assert logs[..i + 1][..i] == logs[..i];
      var log := logs[i];
      if log.tags.Some? {
        var tags := log.tags.value;
        var before := tagMap;
        for j := 0 to |tags|
          invariant tagMap == AccrueTags(before, tags[..j], log.hours)
        {
          assert tags[..j + 1][..j] == tags[..j];
          tagMap := Add(tagMap, tags[j], log.hours);
        }
        assert tags[..|tags|] == tags;
      }
    }
    assert logs[..|logs|] == logs;
  }

  /** The `map` over `tagData` that advances `cumulativePercent` slice by slice. */
  method ChartData(tagData: TagMap) returns (chartData: seq<Slice>)
    requires RowHours(tagData) != 0.0
    ensures chartData == Slices(tagData, RowHours(tagData))
  {
    var totalHours := RowHours(tagData);
    var cumulativePercent := 0.0;
    chartData := [];
    for i := 0 to |tagData|
      invariant chartData == Slices(tagData[..i], totalHours)
      invariant cumulativePercent == Cumulative(tagData[..i], totalHours)
    {
      assert tagData[..i + 1][..i] == tagData[..i];
      var item := tagData[i];
      var percent := item.1 / totalHours;
      var start := cumulativePercent;
      cumulativePercent := cumulativePercent + percent;
      chartData := chartData + [Slice(item.0, item.1, percent, start, cumulativePercent, percent > 0.5)];
    }
    assert tagData[..|tagData|] == tagData;
  }

  // ---- the rows ----

  /** Accruing a tag list adds exactly its tags to the keys. */
  lemma {:induction false} AccrueTagsKeys(m: TagMap, tags: seq<string>, share: real)
    ensures forall t :: t in Keys(AccrueTags(m, tags, share)) <==> t in Keys(m) || t in tags
  {
    if tags != [] {
      AccrueTagsKeys(m, tags[..|tags| - 1], share);
      assert tags == tags[..|tags| - 1] + [tags[|tags| - 1]];
    }
  }

  /** Every tag's value is its full credit, keys are distinct, and the keys are exactly the tags that occur. */
  lemma {:induction false} FullTagHoursMeaning(logs: seq<LogEntry>)
    ensures DistinctKeys(FullTagHours(logs))
    ensures forall t :: Get(FullTagHours(logs), t) == FullCredit(logs, t)
    ensures forall t :: t in Keys(FullTagHours(logs)) <==> HasTag(logs, t)
  {
    if logs != [] {
      var p := logs[..|logs| - 1];
      var log := logs[|logs| - 1];
      FullTagHoursMeaning(p);
      var m := FullTagHours(p);
      if log.tags.Some? {
        AccrueTagsShape(m, log.tags.value, log.hours);
        AccrueTagsKeys(m, log.tags.value, log.hours);
        forall t ensures Get(FullTagHours(logs), t) == FullCredit(logs, t) {
          AccrueTagsGet(m, log.tags.value, log.hours, t);
        }
      }
      forall t ensures HasTag(logs, t) <==> HasTag(p, t) || (log.tags.Some? && t in log.tags.value) {
        if HasTag(p, t) {
          var i :| 0 <= i < |p| && p[i].tags.Some? && t in p[i].tags.value;
          assert logs[i] == p[i];
        }
        if HasTag(logs, t) {
          var i :| 0 <= i < |logs| && logs[i].tags.Some? && t in logs[i].tags.value;
          if i < |p| {
            assert p[i] == logs[i];
          }
        }
      }
    }
  }

  /** A reordering of a tag map has the same keys. */
  lemma PermutedKeys(a: TagMap, b: TagMap)
    requires multiset(a) == multiset(b)
    ensures forall t :: t in Keys(b) <==> t in Keys(a)
  {
    forall t ensures t in Keys(b) <==> t in Keys(a) {
      if t in Keys(b) {
        var i :| 0 <= i < |b| && Keys(b)[i] == t;
        assert b[i] in multiset(a);
      }
      if t in Keys(a) {
        var i :| 0 <= i < |a| && Keys(a)[i] == t;
        assert a[i] in multiset(b);
      }
    }
  }

  lemma PermutedDistinctKeys(a: TagMap, b: TagMap)
    requires multiset(a) == multiset(b) && DistinctKeys(a)
    ensures DistinctKeys(b)
  {
    assert Distinct(a);
    forall x ensures multiset(b)[x] <= 1 {
      DistinctCount(a, x);
    }
    CountsDistinct(b);
    forall i, j | 0 <= i < j < |b| ensures b[i].0 != b[j].0 {
      assert b[i] in multiset(a) && b[j] in multiset(a);
      var p :| 0 <= p < |a| && a[p] == b[i];
      var q :| 0 <= q < |a| && a[q] == b[j];
      if p < q {
        assert a[p].0 != a[q].0;
      } else if q < p {
        assert a[q].0 != a[p].0;
      }
    }
  }

  /**
   * One row per tag that occurs in some log's legacy list, ranked by hours,
   * largest first; each row holds the tag's full credit.
   */
  lemma {:induction false} TagDataRows(logs: seq<LogEntry>)
    ensures DistinctKeys(TagData(logs))
    ensures SortedBy(TagData(logs), ByHoursDesc)
    ensures forall t :: t in Keys(TagData(logs)) <==> HasTag(logs, t)
    ensures forall i :: 0 <= i < |TagData(logs)| ==> TagData(logs)[i].1 == FullCredit(logs, TagData(logs)[i].0)
  {
    var m := FullTagHours(logs);
    var r := TagData(logs);
    FullTagHoursMeaning(logs);
    ByHoursDescTotal();
    SortSorted(m, ByHoursDesc);
    PermutedDistinctKeys(m, r);
    PermutedKeys(m, r);
    forall i | 0 <= i < |r| ensures r[i].1 == FullCredit(logs, r[i].0) {
      assert r[i] in multiset(m);
      var k :| 0 <= k < |m| && m[k] == r[i];
      GetAt(m, k);
    }
  }

  /** Nothing is drawn exactly when no log has a non-empty legacy tag list. */
  lemma NothingWithoutTags(logs: seq<LogEntry>)
    ensures TagData(logs) == [] <==> forall i :: 0 <= i < |logs| && logs[i].tags.Some? ==> logs[i].tags.value == []
  {
    TagDataRows(logs);
    var r := TagData(logs);
    if r != [] {
      assert HasTag(logs, Keys(r)[0]);
    }
    if exists i :: 0 <= i < |logs| && logs[i].tags.Some? && logs[i].tags.value != [] {
      var i :| 0 <= i < |logs| && logs[i].tags.Some? && logs[i].tags.value != [];
      assert HasTag(logs, logs[i].tags.value[0]);
    }
  }

  // ---- the slices ----

  lemma {:induction false} SlicesLength(rows: TagMap, total: real)
    requires total != 0.0
    ensures |Slices(rows, total)| == |rows|
  {
    if rows != [] {
      SlicesLength(rows[..|rows| - 1], total);
    }
  }

  /** Slice `i` is row `i`'s share of the total, starting where the rows before it end. */
  lemma {:induction false} SliceAt(rows: TagMap, total: real, i: int)
    requires total != 0.0 && 0 <= i < |rows|
    ensures |Slices(rows, total)| == |rows|
    ensures Slices(rows, total)[i] ==
      Slice(rows[i].0, rows[i].1, rows[i].1 / total, Cumulative(rows[..i], total),
            Cumulative(rows[..i], total) + rows[i].1 / total, rows[i].1 / total > 0.5)
  {
    var p := rows[..|rows| - 1];
    SlicesLength(rows, total);
    SlicesLength(p, total);
    if i == |rows| - 1 {
      assert rows[..i] == p;
    } else {
      SliceAt(p, total, i);
      assert rows[..i] == p[..i] && rows[i] == p[i];
    }
  }

  /** Consecutive running fractions differ by one row's share. */
  lemma CumulativeStep(rows: TagMap, total: real, i: int)
    requires total != 0.0 && 0 <= i < |rows|
    ensures Cumulative(rows[..i + 1], total) == Cumulative(rows[..i], total) + rows[i].1 / total
  {
    assert rows[..i + 1][..i] == rows[..i];
  }

  /** The running fraction is the rows' hours over the total. */
  lemma {:induction false} CumulativeIsShare(rows: TagMap, total: real)
    requires total != 0.0
    ensures Cumulative(rows, total) == RowHours(rows) / total
  {
    if rows != [] {
      var p := rows[..|rows| - 1];
      CumulativeIsShare(p, total);
      assert RowHours(p) / total + rows[|rows| - 1].1 / total == (RowHours(p) + rows[|rows| - 1].1) / total;
    }
  }

  /** The slices tile the circle: the first starts at 0, each starts where the previous ended, and the last ends at 1. */
  lemma {:induction false} SlicesTile(rows: TagMap)
    requires RowHours(rows) != 0.0
    ensures var s := Slices(rows, RowHours(rows));
      && |s| == |rows| && s != []
      && s[0].start == 0.0
      && (forall i :: 0 < i < |s| ==> s[i].start == s[i - 1].end)
      && s[|s| - 1].end == 1.0
  {
    var total := RowHours(rows);
    SlicesChain(rows, total);
    SlicesEnd(rows, total);
    assert total / total == 1.0;
  }

  /** Each slice starts where the previous one ended, and the first starts at 0. */
  lemma SlicesChain(rows: TagMap, total: real)
    requires total != 0.0
    ensures var s := Slices(rows, total);
      && |s| == |rows|
      && (s != [] ==> s[0].start == 0.0)
      && (forall i :: 0 < i < |s| ==> s[i].start == s[i - 1].end)
  {
    var s := Slices(rows, total);
    SlicesLength(rows, total);
    if rows != [] {
      SliceAt(rows, total, 0);
      assert rows[..0] == [];
    }
    forall i | 0 < i < |s| ensures s[i].start == s[i - 1].end {
      SliceAt(rows, total, i);
      SliceAt(rows, total, i - 1);
      CumulativeStep(rows, total, i - 1);
    }
  }

  /** The last slice ends at the rows' hours over the total. */
  lemma SlicesEnd(rows: TagMap, total: real)
    requires total != 0.0 && rows != []
    ensures |Slices(rows, total)| == |rows|
    ensures Slices(rows, total)[|rows| - 1].end == RowHours(rows) / total
  {
    SliceAt(rows, total, |rows| - 1);
    CumulativeStep(rows, total, |rows| - 1);
    CumulativeIsShare(rows, total);
    assert rows[..|rows|] == rows;
  }

  /** With non-negative hours, two different rows together hold at most the total. */
  lemma {:induction false} TwoRowsAtMostTotal(rows: TagMap, i: int, j: int)
    requires forall k :: 0 <= k < |rows| ==> rows[k].1 >= 0.0
    requires 0 <= i < j < |rows|
    ensures rows[i].1 + rows[j].1 <= RowHours(rows)
  {
    var p := rows[..|rows| - 1];
    assert forall k :: 0 <= k < |p| ==> p[k] == rows[k];
    RowHoursNonNegative(p);
    if j < |rows| - 1 {
      TwoRowsAtMostTotal(p, i, j);
    } else {
      RowAtMostTotal(p, i);
    }
  }

  lemma {:induction false} RowAtMostTotal(rows: TagMap, i: int)
    requires forall k :: 0 <= k < |rows| ==> rows[k].1 >= 0.0
    requires 0 <= i < |rows|
    ensures rows[i].1 <= RowHours(rows)
  {
    var p := rows[..|rows| - 1];
    assert forall k :: 0 <= k < |p| ==> p[k] == rows[k];
    RowHoursNonNegative(p);
    if i < |rows| - 1 {
      RowAtMostTotal(p, i);
    }
  }

  lemma {:induction false} RowHoursNonNegative(rows: TagMap)
    requires forall k :: 0 <= k < |rows| ==> rows[k].1 >= 0.0
    ensures RowHours(rows) >= 0.0
  {
    if rows != [] {
      var p := rows[..|rows| - 1];
      assert forall k :: 0 <= k < |p| ==> p[k] == rows[k];
      RowHoursNonNegative(p);
    }
  }

  /** With non-negative hours at most one slice exceeds one half, so at most one arc is drawn large. */
  lemma AtMostOneLargeArc(rows: TagMap)
    requires forall k :: 0 <= k < |rows| ==> rows[k].1 >= 0.0
    requires RowHours(rows) != 0.0
    ensures var s := Slices(rows, RowHours(rows));
      forall i, j :: 0 <= i < |s| && 0 <= j < |s| && s[i].largeArc && s[j].largeArc ==> i == j
  {
    var total := RowHours(rows);
    var s := Slices(rows, total);
    SlicesLength(rows, total);
    RowHoursNonNegative(rows);
    forall i, j | 0 <= i < j < |s| ensures !(s[i].largeArc && s[j].largeArc) {
      SliceAt(rows, total, i);
      SliceAt(rows, total, j);
      TwoRowsAtMostTotal(rows, i, j);
      HalfAndHalf(rows[i].1, rows[j].1, total);
    }
  }

  lemma HalfAndHalf(a: real, b: real, total: real)
    requires total > 0.0 && a + b <= total
    ensures !(a / total > 0.5 && b / total > 0.5)
  {
    assert a / total + b / total == (a + b) / total;
    assert (a + b) / total <= 1.0;
  }

  /** The legend holds at most ten rows, the first ones, and no row left out has more hours than one shown. */
  lemma LegendTop(rows: TagMap)
    requires SortedBy(rows, ByHoursDesc)
    ensures |Legend(rows)| <= 10 && Legend(rows) == rows[..|Legend(rows)|]
    ensures forall i, j :: 0 <= i < |Legend(rows)| <= j < |rows| ==> rows[j].1 <= Legend(rows)[i].1
  {
    forall i, j | 0 <= i < |Legend(rows)| <= j < |rows| ensures rows[j].1 <= Legend(rows)[i].1 {
      assert Legend(rows)[i] == rows[i];
      assert ByHoursDesc(rows[i], rows[j]);
    }
  }
}
