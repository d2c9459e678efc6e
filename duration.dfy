/**
 * `formatDuration` (lib/utils.ts), over the whole number of minutes it rounds
 * the hours to: "0m", "<m>m", "<h>h" or "<h>h <mm>m".
 */
module Duration {
  import opened Types
  import opened Text

  /** The minutes zero-padded to two digits (`padStart(2, '0')`). */
  function Pad2(m: nat): (r: string)
    requires m < 60
    ensures |r| == 2 && IsDigits(r) && ParseDigits(r) == m
  {
    if m < 10 then
      ParseNatToString(m);
      "0" + NatToString(m)
    else
      ParseNatToString(m);
      assert NatToString(m) == NatToString(m / 10) + [DigitChar(m % 10)];
      NatToString(m)
  }

  function FormatDuration(totalMinutes: nat): (r: string)
    ensures r == "0m" <==> totalMinutes == 0
  {
    var h := totalMinutes / 60;
    var m := totalMinutes % 60;
    if h == 0 && m == 0 then "0m"
    else if h == 0 then
      assert (NatToString(m) + "m")[0] == NatToString(m)[0] != '0';
      NatToString(m) + "m"
    else if m == 0 then
      assert (NatToString(h) + "h")[|NatToString(h)|] == 'h';
      NatToString(h) + "h"
    else
      NatToString(h) + "h " + Pad2(m) + "m"
  }

  /** The index of the first `c` in `s`, or -1. */
  function IndexOf(s: string, c: char): (k: int)
    ensures -1 <= k < |s|
    ensures k == -1 <==> c !in s
    ensures k >= 0 ==> s[k] == c && c !in s[..k]
  {
    if s == [] then -1
    else if s[0] == c then 0
    else
      var k := IndexOf(s[1..], c);
      if k == -1 then -1 else k + 1
  }

  /** Reads a duration string back as minutes: the inverse of `FormatDuration`. */
  function ParseDuration(s: string): Option<nat> {
    var k := IndexOf(s, 'h');
    if k == -1 then ParseMinutes(s) else ParseHours(s, k)
  }

  /** "<m>m". */
  function ParseMinutes(s: string): Option<nat> {
    if |s| >= 2 && s[|s| - 1] == 'm' && IsDigits(s[..|s| - 1]) then Some(ParseDigits(s[..|s| - 1])) else None
  }

  /** "<h>h" or "<h>h <mm>m", with the 'h' at index `k`. */
  function ParseHours(s: string, k: nat): Option<nat>
    requires k < |s|
  {
    if k == 0 || !IsDigits(s[..k]) then None
    else if k == |s| - 1 then Some(60 * ParseDigits(s[..k]))
    else if |s| == k + 5 && s[k + 1] == ' ' && s[k + 4] == 'm' && IsDigits(s[k + 2..k + 4]) && ParseDigits(s[k + 2..k + 4]) < 60 then
      Some(60 * ParseDigits(s[..k]) + ParseDigits(s[k + 2..k + 4]))
    else None
  }

  /** Hours and minutes together make up the rounded minute count: the string reads back as that count. */
  lemma {:induction false} FormatRoundTrip(totalMinutes: nat)
    ensures ParseDuration(FormatDuration(totalMinutes)) == Some(totalMinutes)
  {
    if totalMinutes < 60 {
      MinutesRoundTrip(totalMinutes);
    } else {
      HoursRoundTrip(totalMinutes);
    }
  }

  lemma {:induction false} MinutesRoundTrip(totalMinutes: nat)
    requires totalMinutes < 60
    ensures ParseDuration(FormatDuration(totalMinutes)) == Some(totalMinutes)
  {
    ParseNatToString(totalMinutes);
    if totalMinutes == 0 {
      assert FormatDuration(0) == NatToString(0) + "m";
    } else {
      assert FormatDuration(totalMinutes) == NatToString(totalMinutes) + "m";
    }
    ParseMinutesOf(NatToString(totalMinutes));
  }

  /** A numeral followed by "m" reads as that many minutes. */
  lemma {:induction false} ParseMinutesOf(ds: string)
    requires IsDigits(ds)
    ensures ParseDuration(ds + "m") == Some(ParseDigits(ds))
  {
    var r := ds + "m";
    assert forall i :: 0 <= i < |r| ==> r[i] == 'm' || '0' <= r[i] <= '9';
    assert 'h' !in r;
    assert r[..|r| - 1] == ds;
  }

  lemma {:induction false} HoursRoundTrip(totalMinutes: nat)
    requires totalMinutes >= 60
    ensures ParseDuration(FormatDuration(totalMinutes)) == Some(totalMinutes)
  {
    if totalMinutes % 60 == 0 {
      WholeHoursCase(totalMinutes);
    } else {
      MixedCase(totalMinutes);
    }
  }

  lemma {:induction false} WholeHoursCase(totalMinutes: nat)
    requires totalMinutes >= 60 && totalMinutes % 60 == 0
    ensures ParseDuration(FormatDuration(totalMinutes)) == Some(totalMinutes)
  {
    var f := FormatDuration(totalMinutes);
    var h := totalMinutes / 60;
    var hs := NatToString(h);
    assert f == hs + "h";
    WholeHoursRoundTrip(h, hs);
    assert ParseDuration(f) == Some(60 * h);
  }

  lemma {:induction false} MixedCase(totalMinutes: nat)
    requires totalMinutes >= 60 && totalMinutes % 60 != 0
    ensures ParseDuration(FormatDuration(totalMinutes)) == Some(totalMinutes)
  {
    var h, m := Split60(totalMinutes);
    MixedText(totalMinutes, h, m);
    MixedRoundTrip(h, m, NatToString(h), Pad2(m));
  }

  /** Whole hours and the minutes left over. */
  lemma Split60(totalMinutes: nat) returns (h: nat, m: nat)
    requires totalMinutes >= 60 && totalMinutes % 60 != 0
    ensures h == totalMinutes / 60 && m == totalMinutes % 60
    ensures h >= 1 && 0 < m < 60 && totalMinutes == 60 * h + m
  {
    h, m := totalMinutes / 60, totalMinutes % 60;
  }

  lemma {:induction false} MixedText(totalMinutes: nat, h: nat, m: nat)
    requires h >= 1 && 0 < m < 60 && totalMinutes == 60 * h + m
    ensures FormatDuration(totalMinutes) == NatToString(h) + "h " + Pad2(m) + "m"
  {
    assert totalMinutes / 60 == h && totalMinutes % 60 == m;
  }

  lemma {:induction false} WholeHoursRoundTrip(h: nat, hs: string)
    requires hs == NatToString(h)
    ensures ParseDuration(hs + "h") == Some(60 * h)
  {
    ParseNatToString(h);
    ParseWholeHours(hs);
  }

  lemma {:induction false} MixedRoundTrip(h: nat, m: nat, hs: string, ms: string)
    requires m < 60 && hs == NatToString(h) && ms == Pad2(m)
    ensures ParseDuration(hs + "h " + ms + "m") == Some(60 * h + m)
  {
    ParseNatToString(h);
    ParseHoursMinutes(hs, ms, h, m);
  }

  lemma {:induction false} ParseWholeHours(hs: string)
    requires IsDigits(hs)
    ensures ParseDuration(hs + "h") == Some(60 * ParseDigits(hs))
  {
    var r := hs + "h";
    assert 'h' !in hs;
    IndexOfAfter(hs, "h", 'h');
    assert r[..|hs|] == hs;
  }

  lemma {:induction false} ParseHoursMinutes(hs: string, ms: string, h: nat, m: nat)
    requires IsDigits(hs) && IsDigits(ms) && |ms| == 2 && m < 60
    requires ParseDigits(hs) == h && ParseDigits(ms) == m
    ensures ParseDuration(hs + "h " + ms + "m") == Some(60 * h + m)
  {
    var tail := "h " + ms + "m";
    HoursTail(ms, tail);
    Regroup(hs, "h ", ms, "m");
    HoursThenMinutes(hs, ms, tail, h, m);
  }

  lemma {:induction false} Regroup(a: string, b: string, c: string, d: string)
    ensures a + b + c + d == a + (b + c + d)
  {
  }

  lemma {:induction false} HoursTail(ms: string, tail: string)
    requires |ms| == 2 && tail == "h " + ms + "m"
    ensures tail[0] == 'h' && tail[1] == ' ' && tail[4] == 'm' && |tail| == 5 && tail[2..4] == ms
  {
  }

  /** `hs` followed by "h <mm>m" reads as `hs` hours and `mm` minutes. */
  lemma {:induction false} HoursThenMinutes(hs: string, ms: string, tail: string, h: nat, m: nat)
    requires IsDigits(hs) && IsDigits(ms) && m < 60 && ParseDigits(hs) == h && ParseDigits(ms) == m
    requires |tail| == 5 && tail[0] == 'h' && tail[1] == ' ' && tail[4] == 'm' && tail[2..4] == ms
    ensures ParseDuration(hs + tail) == Some(60 * h + m)
  {
    var k := |hs|;
    assert 'h' !in hs;
    IndexOfAfter(hs, tail, 'h');
    HoursAndMinutesAt(hs + tail, k, hs, ms, h, m);
  }

  lemma {:induction false} HoursAndMinutesAt(r: string, k: nat, hs: string, ms: string, h: nat, m: nat)
    requires 1 <= k && |r| == k + 5 && IndexOf(r, 'h') == k && r[k + 1] == ' ' && r[k + 4] == 'm'
    requires r[..k] == hs && r[k + 2..k + 4] == ms
    requires IsDigits(hs) && IsDigits(ms) && m < 60 && ParseDigits(hs) == h && ParseDigits(ms) == m
    ensures ParseDuration(r) == Some(60 * h + m)
  {
  }

  /** The first `c` of `p + rest` is the head of `rest` when `p` holds none. */
  lemma {:induction false} IndexOfAfter(p: string, rest: string, c: char)
    requires c !in p && rest != [] && rest[0] == c
    ensures IndexOf(p + rest, c) == |p|
  {
    if p != [] {
      assert (p + rest)[1..] == p[1..] + rest;
      IndexOfAfter(p[1..], rest, c);
    }
  }

  /** Different minute counts never format to the same string. */
  lemma {:induction false} FormatInjective(a: nat, b: nat)
    requires FormatDuration(a) == FormatDuration(b)
    ensures a == b
  {
    FormatRoundTrip(a);
    FormatRoundTrip(b);
  }

  /**
   * The three non-zero shapes, read off the text: under an hour it is a
   * numeral with no leading zero followed by 'm' and holds no 'h'; on a whole
   * hour a numeral with no leading zero followed by 'h'; otherwise the hours
   * numeral, "h ", exactly two minute digits and 'm'. Each numeral reads as
   * the hours or minutes it stands for.
   */
  lemma {:induction false} FormatShapes(totalMinutes: nat)
    ensures 0 < totalMinutes < 60 ==>
      var r := FormatDuration(totalMinutes);
      && |r| >= 2 && r[|r| - 1] == 'm' && 'h' !in r
      && IsDigits(r[..|r| - 1]) && r[0] != '0' && ParseDigits(r[..|r| - 1]) == totalMinutes
    ensures totalMinutes >= 60 && totalMinutes % 60 == 0 ==>
      var r := FormatDuration(totalMinutes);
      && |r| >= 2 && r[|r| - 1] == 'h'
      && IsDigits(r[..|r| - 1]) && r[0] != '0' && ParseDigits(r[..|r| - 1]) == totalMinutes / 60
    ensures totalMinutes >= 60 && totalMinutes % 60 != 0 ==>
      var r := FormatDuration(totalMinutes);
      && |r| >= 6 && r[|r| - 5] == 'h' && r[|r| - 4] == ' ' && r[|r| - 1] == 'm'
      && IsDigits(r[..|r| - 5]) && r[0] != '0' && ParseDigits(r[..|r| - 5]) == totalMinutes / 60
      && IsDigits(r[|r| - 3..|r| - 1]) && ParseDigits(r[|r| - 3..|r| - 1]) == totalMinutes % 60
  {
    if 0 < totalMinutes < 60 {
      MinutesShape(totalMinutes);
    } else if totalMinutes >= 60 && totalMinutes % 60 == 0 {
      WholeHoursShape(totalMinutes);
    } else if totalMinutes >= 60 {
      MixedShape(totalMinutes);
    }
  }

  lemma {:induction false} MinutesShape(totalMinutes: nat)
    requires 0 < totalMinutes < 60
    ensures var r := FormatDuration(totalMinutes);
      && |r| >= 2 && r[|r| - 1] == 'm' && 'h' !in r
      && IsDigits(r[..|r| - 1]) && r[0] != '0' && ParseDigits(r[..|r| - 1]) == totalMinutes
  {
    var ds := NatToString(totalMinutes);
    var r := ds + "m";
    assert FormatDuration(totalMinutes) == r;
    ParseNatToString(totalMinutes);
    assert r[..|r| - 1] == ds;
    assert forall i :: 0 <= i < |r| ==> r[i] == 'm' || '0' <= r[i] <= '9';
  }

  lemma {:induction false} WholeHoursShape(totalMinutes: nat)
    requires totalMinutes >= 60 && totalMinutes % 60 == 0
    ensures var r := FormatDuration(totalMinutes);
      && |r| >= 2 && r[|r| - 1] == 'h'
      && IsDigits(r[..|r| - 1]) && r[0] != '0' && ParseDigits(r[..|r| - 1]) == totalMinutes / 60
  {
    var h := totalMinutes / 60;
    var hs := NatToString(h);
    var r := hs + "h";
    assert FormatDuration(totalMinutes) == r;
    ParseNatToString(h);
    assert r[..|r| - 1] == hs;
  }

  lemma {:induction false} MixedShape(totalMinutes: nat)
    requires totalMinutes >= 60 && totalMinutes % 60 != 0
    ensures var r := FormatDuration(totalMinutes);
      && |r| >= 6 && r[|r| - 5] == 'h' && r[|r| - 4] == ' ' && r[|r| - 1] == 'm'
      && IsDigits(r[..|r| - 5]) && r[0] != '0' && ParseDigits(r[..|r| - 5]) == totalMinutes / 60
      && IsDigits(r[|r| - 3..|r| - 1]) && ParseDigits(r[|r| - 3..|r| - 1]) == totalMinutes % 60
  {
    var h, m := Split60(totalMinutes);
    MixedText(totalMinutes, h, m);
    var hs, ms := NatToString(h), Pad2(m);
    ParseNatToString(h);
    var tail := "h " + ms + "m";
    HoursTail(ms, tail);
    Regroup(hs, "h ", ms, "m");
    var r := hs + tail;
    assert r[..|r| - 5] == hs;
    assert r[|r| - 3..|r| - 1] == tail[2..4] == ms;
  }
}
