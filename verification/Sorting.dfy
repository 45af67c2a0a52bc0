/** A stable insertion sort, standing for the library sorts the source calls. */
module Sorting {
  import opened Common

  ghost predicate TotalOrder<T(!new)>(leq: (T, T) -> bool) {
    && (forall a, b :: leq(a, b) || leq(b, a))
    && (forall a, b, c :: leq(a, b) && leq(b, c) ==> leq(a, c))
  }

  ghost predicate Sorted<T(!new)>(s: seq<T>, leq: (T, T) -> bool) {
    forall i, j :: 0 <= i < j < |s| ==> leq(s[i], s[j])
  }

  function InsertSorted<T>(x: T, s: seq<T>, leq: (T, T) -> bool): (r: seq<T>)
    ensures multiset(r) == multiset(s) + multiset{x}
    ensures |r| == |s| + 1
  {
    if s == [] || leq(x, s[0]) then
      [x] + s
    else
      assert s == [s[0]] + s[1..];
      [s[0]] + InsertSorted(x, s[1..], leq)
  }

  function Sort<T>(s: seq<T>, leq: (T, T) -> bool): (r: seq<T>)
    ensures multiset(r) == multiset(s)
    ensures |r| == |s|
  {
    if s == [] then [] else
      assert s == [s[0]] + s[1..];
      InsertSorted(s[0], Sort(s[1..], leq), leq)
  }

  lemma {:induction false} InsertSortedSorted<T(!new)>(x: T, s: seq<T>, leq: (T, T) -> bool)
    requires TotalOrder(leq) && Sorted(s, leq)
    ensures Sorted(InsertSorted(x, s, leq), leq)
  {
    if s != [] && !leq(x, s[0]) {
      InsertSortedSorted(x, s[1..], leq);
      var rest := InsertSorted(x, s[1..], leq);
      forall j | 0 <= j < |rest| ensures leq(s[0], rest[j]) {
        SameMember(rest, s[1..], x, rest[j]);
      }
    } else {
      forall j | 0 <= j < |s| ensures leq(x, s[j]) {
        if j > 0 { assert leq(s[0], s[j]); }
      }
    }
  }

  lemma SameMember<T(!new)>(r: seq<T>, s: seq<T>, x: T, e: T)
    requires multiset(r) == multiset(s) + multiset{x} && e in r
    ensures e in s || e == x
  {
    assert e in multiset(r);
  }

  lemma {:induction false} SortSorted<T(!new)>(s: seq<T>, leq: (T, T) -> bool)
    requires TotalOrder(leq)
    ensures Sorted(Sort(s, leq), leq)
  {
    if s != [] {
      SortSorted(s[1..], leq);
      InsertSortedSorted(s[0], Sort(s[1..], leq), leq);
    }
  }

  /** A sort moves elements; it neither adds nor drops any. */
  lemma SortMembers<T(!new)>(s: seq<T>, leq: (T, T) -> bool)
    ensures forall x :: x in Sort(s, leq) <==> x in s
    ensures Distinct(s) ==> Distinct(Sort(s, leq))
  {
    var r := Sort(s, leq);
    forall x ensures x in r <==> x in s {
      assert x in r <==> x in multiset(r);
      assert x in s <==> x in multiset(s);
    }
    if Distinct(s) {
      DistinctIff(s);
      DistinctIff(r);
    }
  }

  lemma {:induction false} DistinctIff<T(!new)>(s: seq<T>)
    ensures Distinct(s) <==> forall x :: multiset(s)[x] <= 1
  {
    if s != [] {
      var rest := s[1..];
      assert s == [s[0]] + rest;
      DistinctIff(rest);
      assert multiset(s) == multiset{s[0]} + multiset(rest);
      assert multiset(s)[s[0]] == 1 + multiset(rest)[s[0]];
      if Distinct(s) {
        assert forall j :: 0 <= j < |rest| ==> rest[j] == s[j + 1];
        assert s[0] !in rest;
        assert multiset(rest)[s[0]] == 0;
      } else if Distinct(rest) {
        var i, j :| 0 <= i < j < |s| && s[i] == s[j];
        assert s[j] == rest[j - 1];
        assert s[0] in multiset(rest);
      } else {
        var x :| multiset(rest)[x] > 1;
        assert multiset(s)[x] > 1;
      }
    }
  }
}
