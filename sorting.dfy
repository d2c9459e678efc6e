/**
 * JavaScript's Array.prototype.sort with a comparator is stable. It is modelled
 * here as a stable insertion sort: `le(a, b)` says that `a` may stay before `b`
 * (the comparator returns a value <= 0).
 */
module Sorting {

  /** `le` is total and transitive, as every comparator the tracker sorts with is. */
  ghost predicate TotalPreorder<T(!new)>(le: (T, T) -> bool) {
    && (forall a, b :: le(a, b) || le(b, a))
    && (forall a, b, c :: le(a, b) && le(b, c) ==> le(a, c))
  }

  ghost predicate SortedBy<T>(s: seq<T>, le: (T, T) -> bool) {
    forall i, j :: 0 <= i < j < |s| ==> le(s[i], s[j])
  }

  /** Where a stable insertion puts `x`: after the last element that may precede it. */
  function InsertPos<T>(s: seq<T>, x: T, le: (T, T) -> bool): (k: nat)
    ensures k <= |s|
    ensures forall i :: k <= i < |s| ==> !le(s[i], x)
    ensures k > 0 ==> le(s[k - 1], x)
  {
    if s == [] then 0
    else if le(s[|s| - 1], x) then |s|
    else InsertPos(s[..|s| - 1], x, le)
  }

  function Insert<T>(s: seq<T>, x: T, le: (T, T) -> bool): seq<T> {
    var k := InsertPos(s, x, le);
    s[..k] + [x] + s[k..]
  }

  /** Stable sort: each element in turn is inserted after every earlier element that may precede it. */
  function Sort<T>(s: seq<T>, le: (T, T) -> bool): (r: seq<T>)
    ensures |r| == |s|
    ensures multiset(r) == multiset(s)
  {
    if s == [] then []
    else
      var p := Sort(s[..|s| - 1], le);
      var k := InsertPos(p, s[|s| - 1], le);
      assert s == s[..|s| - 1] + [s[|s| - 1]];
      assert p == p[..k] + p[k..];
      Insert(p, s[|s| - 1], le)
  }

  lemma InsertSorted<T(!new)>(s: seq<T>, x: T, le: (T, T) -> bool)
    requires TotalPreorder(le) && SortedBy(s, le)
    ensures SortedBy(Insert(s, x, le), le)
  {
    var k := InsertPos(s, x, le);
    var r := Insert(s, x, le);
    assert |r| == |s| + 1;
    assert forall i :: 0 <= i < k ==> r[i] == s[i];
    assert r[k] == x;
    assert forall i :: k < i < |r| ==> r[i] == s[i - 1];
    assert forall i :: 0 <= i < k ==> le(s[i], x) by {
      forall i | 0 <= i < k ensures le(s[i], x) {
        if i < k - 1 {
          assert le(s[i], s[k - 1]);
        }
      }
    }
    assert forall i :: k <= i < |s| ==> le(x, s[i]);
  }

  /** The sort's result is ordered by `le`. */
  lemma {:induction false} SortSorted<T(!new)>(s: seq<T>, le: (T, T) -> bool)
    requires TotalPreorder(le)
    ensures SortedBy(Sort(s, le), le)
  {
    if s != [] {
      SortSorted(s[..|s| - 1], le);
      InsertSorted(Sort(s[..|s| - 1], le), s[|s| - 1], le);
    }
  }

  /** Sorting an already ordered sequence leaves it as it is. */
  lemma {:induction false} SortOfSorted<T>(s: seq<T>, le: (T, T) -> bool)
    requires SortedBy(s, le)
    ensures Sort(s, le) == s
  {
    if s != [] {
      var p := s[..|s| - 1];
      var x := s[|s| - 1];
      assert SortedBy(p, le) by {
        forall i, j | 0 <= i < j < |p| ensures le(p[i], p[j]) {
          assert p[i] == s[i] && p[j] == s[j];
        }
      }
      SortOfSorted(p, le);
      if |p| > 0 {
        assert le(p[|p| - 1], x);
      }
      assert InsertPos(p, x, le) == |p|;
      assert p[..|p|] + [x] + p[|p|..] == s;
    }
  }

  /** `s[i]` is the first element that may precede every element. */
  ghost predicate IsFirstLeast<T>(s: seq<T>, i: int, le: (T, T) -> bool) {
    && 0 <= i < |s|
    && (forall j :: 0 <= j < |s| ==> le(s[i], s[j]))
    && (forall j :: 0 <= j < i ==> !le(s[j], s[i]))
  }

  /** The head after a stable insertion into an ordered sequence. */
  lemma InsertHead<T(!new)>(a: seq<T>, x: T, le: (T, T) -> bool)
    requires TotalPreorder(le) && SortedBy(a, le) && |a| > 0
    ensures InsertPos(a, x, le) == 0 ==> Insert(a, x, le)[0] == x && forall j :: 0 <= j < |a| ==> !le(a[j], x)
    ensures InsertPos(a, x, le) > 0 ==> Insert(a, x, le)[0] == a[0] && le(a[0], x)
  {
    var k := InsertPos(a, x, le);
    if k > 1 {
      assert le(a[0], a[k - 1]);
    }
  }

  lemma FirstLeastAppendNew<T(!new)>(p: seq<T>, x: T, ip: int, le: (T, T) -> bool)
    requires TotalPreorder(le) && IsFirstLeast(p, ip, le)
    requires forall j :: 0 <= j < |p| ==> !le(p[j], x)
    ensures IsFirstLeast(p + [x], |p|, le)
  {
    var s := p + [x];
    forall j | 0 <= j < |s| ensures le(x, s[j]) {
      if j < |p| {
        assert le(p[ip], p[j]) && !le(p[ip], x);
      }
    }
  }

  lemma FirstLeastAppendOld<T(!new)>(p: seq<T>, x: T, ip: int, le: (T, T) -> bool)
    requires TotalPreorder(le) && IsFirstLeast(p, ip, le) && le(p[ip], x)
    ensures IsFirstLeast(p + [x], ip, le)
  {
  }

  lemma NoneBefore<T>(a: seq<T>, p: seq<T>, x: T, le: (T, T) -> bool)
    requires multiset(a) == multiset(p)
    requires forall j :: 0 <= j < |a| ==> !le(a[j], x)
    ensures forall j :: 0 <= j < |p| ==> !le(p[j], x)
  {
    forall j | 0 <= j < |p| ensures !le(p[j], x) {
      assert p[j] in multiset(a);
      var m :| 0 <= m < |a| && a[m] == p[j];
    }
  }

  /** Stability at the head: the sort puts first the earliest of the least elements. */
  lemma {:induction false} SortHead<T(!new)>(s: seq<T>, le: (T, T) -> bool) returns (i: nat)
    requires TotalPreorder(le) && |s| > 0
    ensures IsFirstLeast(s, i, le) && Sort(s, le)[0] == s[i]
  {
    var p := s[..|s| - 1];
    var x := s[|s| - 1];
    assert s == p + [x];
    if p == [] {
      i := 0;
    } else {
      var ip := SortHead(p, le);
      var a := Sort(p, le);
      SortSorted(p, le);
      InsertHead(a, x, le);
      if InsertPos(a, x, le) == 0 {
        NoneBefore(a, p, x, le);
        FirstLeastAppendNew(p, x, ip, le);
        i := |p|;
      } else {
        FirstLeastAppendOld(p, x, ip, le);
        i := ip;
      }
    }
  }

  /** Membership survives sorting. */
  lemma SortMembers<T>(s: seq<T>, le: (T, T) -> bool)
    ensures forall x :: x in Sort(s, le) <==> x in s
  {
    var r := Sort(s, le);
    forall x ensures x in r <==> x in s {
      assert x in r <==> x in multiset(r);
      assert x in s <==> x in multiset(s);
    }
  }

  /** No element occurs twice. */
  ghost predicate Distinct<T>(s: seq<T>) {
    forall i, j :: 0 <= i < j < |s| ==> s[i] != s[j]
  }

  /** In a list without duplicates every element occurs at most once. */
  lemma {:induction false} DistinctCount<T>(s: seq<T>, t: T)
    requires Distinct(s)
    ensures multiset(s)[t] <= 1
  {
    if s != [] {
      var p := s[..|s| - 1];
      DistinctCount(p, t);
      assert s == p + [s[|s| - 1]];
      if t == s[|s| - 1] {
        assert t !in p;
      }
    }
  }

  /** A list in which every element occurs at most once has no duplicates. */
  lemma {:induction false} CountsDistinct<T>(s: seq<T>)
    requires forall t :: multiset(s)[t] <= 1
    ensures Distinct(s)
  {
    if s != [] {
      var p := s[..|s| - 1];
      var x := s[|s| - 1];
      assert s == p + [x];
      assert multiset(s) == multiset(p) + multiset{x};
      forall t ensures multiset(p)[t] <= 1 {
        assert multiset(s)[t] == multiset(p)[t] + multiset{x}[t];
      }
      CountsDistinct(p);
      assert x !in p by {
        assert multiset(s)[x] == multiset(p)[x] + 1;
      }
      forall i, j | 0 <= i < j < |s| ensures s[i] != s[j] {
        assert s[i] == p[i];
        if j < |p| {
          assert s[j] == p[j];
        }
      }
    }
  }

  /** Inserting an element that is not there yet keeps a sorted, duplicate-free sequence so. */
  lemma InsertNew<T(!new)>(r: seq<T>, x: T, le: (T, T) -> bool)
    requires TotalPreorder(le) && SortedBy(r, le) && Distinct(r) && x !in r
    ensures SortedBy(Insert(r, x, le), le) && Distinct(Insert(r, x, le))
    ensures forall t :: t in Insert(r, x, le) <==> t in r || t == x
  {
    InsertSorted(r, x, le);
    var k := InsertPos(r, x, le);
    var r' := Insert(r, x, le);
    forall i, j | 0 <= i < j < |r'| ensures r'[i] != r'[j] {
      if i < k && j > k { assert r'[i] == r[i] && r'[j] == r[j - 1]; }
      else if j < k { assert r'[i] == r[i] && r'[j] == r[j]; }
      else if i > k { assert r'[i] == r[i - 1] && r'[j] == r[j - 1]; }
    }
    assert r == r[..k] + r[k..];
    assert multiset(r') == multiset(r) + multiset{x};
    forall t ensures t in r' <==> t in r || t == x {
      assert t in r' <==> t in multiset(r');
      assert t in r <==> t in multiset(r);
    }
  }

  /** `Array.from(set).sort(compare)`: the members of a set, once each, in order. */
  method SortedSet<T(!new)>(members: set<T>, le: (T, T) -> bool) returns (r: seq<T>)
    requires TotalPreorder(le)
    ensures SortedBy(r, le) && Distinct(r)
    ensures forall t :: t in r <==> t in members
    ensures |r| == |members|
  {
    r := [];
    var rest := members;
    while rest != {}
      invariant rest <= members
      invariant SortedBy(r, le) && Distinct(r)
      invariant forall t :: t in r <==> t in members - rest
      invariant |r| + |rest| == |members|
      decreases |rest|
    {
      var x :| x in rest;
      InsertNew(r, x, le);
      r := Insert(r, x, le);
      rest := rest - {x};
    }
  }
}
