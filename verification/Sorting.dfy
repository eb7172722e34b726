// Stable sorting by a strict weak order: what Go's sort.SliceStable promises.
module Sorting {

  ghost predicate StrictWeak<T(!new)>(less: (T, T) -> bool) {
    && (forall x :: !less(x, x))
    && (forall x, y, z :: less(x, y) && less(y, z) ==> less(x, z))
    && (forall x, y, z :: less(x, y) ==> less(x, z) || less(z, y))
  }

  // No later element is strictly less than an earlier one.
  ghost predicate SortedBy<T(!new)>(less: (T, T) -> bool, s: seq<T>) {
    forall i, j :: 0 <= i < j < |s| ==> !less(s[j], s[i])
  }

  function Insert<T>(less: (T, T) -> bool, x: T, s: seq<T>): (r: seq<T>)
    ensures |r| == |s| + 1
  {
    if s == [] || !less(s[0], x) then [x] + s
    else [s[0]] + Insert(less, x, s[1..])
  }

  function StableSort<T>(less: (T, T) -> bool, s: seq<T>): (r: seq<T>)
    ensures |r| == |s|
  {
    if s == [] then [] else Insert(less, s[0], StableSort(less, s[1..]))
  }

  lemma {:induction false} InsertPermutes<T>(less: (T, T) -> bool, x: T, s: seq<T>)
    ensures multiset(Insert(less, x, s)) == multiset{x} + multiset(s)
  {
    if !(s == [] || !less(s[0], x)) {
      InsertPermutes(less, x, s[1..]);
      assert s == [s[0]] + s[1..];
    }
  }

  lemma {:induction false} SortPermutes<T>(less: (T, T) -> bool, s: seq<T>)
    ensures multiset(StableSort(less, s)) == multiset(s)
  {
    if s != [] {
      SortPermutes(less, s[1..]);
      InsertPermutes(less, s[0], StableSort(less, s[1..]));
      assert s == [s[0]] + s[1..];
    }
  }

  lemma {:induction false} InsertSorts<T(!new)>(less: (T, T) -> bool, x: T, s: seq<T>)
    requires StrictWeak(less) && SortedBy(less, s)
    ensures SortedBy(less, Insert(less, x, s))
  {
    var r := Insert(less, x, s);
    if s == [] || !less(s[0], x) {
      assert forall j :: 0 < j < |r| ==> r[j] == s[j - 1];
      assert forall j :: 0 < j < |s| ==> !less(s[j], s[0]);
    } else {
      InsertSorts(less, x, s[1..]);
      InsertPermutes(less, x, s[1..]);
      var t := Insert(less, x, s[1..]);
      forall j | 0 <= j < |t|
        ensures !less(t[j], s[0])
      {
        assert t[j] in multiset(t);
        assert t[j] == x || t[j] in s[1..];
      }
      assert forall j :: 0 < j < |r| ==> r[j] == t[j - 1];
    }
  }

  lemma {:induction false} SortSorts<T(!new)>(less: (T, T) -> bool, s: seq<T>)
    requires StrictWeak(less)
    ensures SortedBy(less, StableSort(less, s))
  {
    if s != [] {
      SortSorts(less, s[1..]);
      InsertSorts(less, s[0], StableSort(less, s[1..]));
    }
  }

  lemma {:induction false} SortedUnchanged<T(!new)>(less: (T, T) -> bool, s: seq<T>)
    requires SortedBy(less, s)
    ensures StableSort(less, s) == s
  {
    if s != [] {
      assert forall i, j :: 0 <= i < j < |s[1..]| ==> s[1..][i] == s[i + 1] && s[1..][j] == s[j + 1];
      SortedUnchanged(less, s[1..]);
      if |s| > 1 { assert s[1..][0] == s[1]; }
    }
  }

  // The elements equivalent to x, in list order.
  function Class<T>(less: (T, T) -> bool, x: T, s: seq<T>): seq<T> {
    if s == [] then []
    else if !less(s[0], x) && !less(x, s[0]) then [s[0]] + Class(less, x, s[1..])
    else Class(less, x, s[1..])
  }

  lemma {:induction false} InsertStable<T(!new)>(less: (T, T) -> bool, x: T, s: seq<T>, c: T)
    requires StrictWeak(less)
    ensures Class(less, c, Insert(less, x, s)) == Class(less, c, [x] + s)
  {
    assert ([x] + s)[1..] == s;
    if !(s == [] || !less(s[0], x)) {
      InsertStable(less, x, s[1..], c);
      assert ([x] + s[1..])[1..] == s[1..];
      var r := Insert(less, x, s);
      assert r[1..] == Insert(less, x, s[1..]);
    }
  }

  // Equivalent elements keep their relative order.
  lemma {:induction false} SortStable<T(!new)>(less: (T, T) -> bool, s: seq<T>, c: T)
    requires StrictWeak(less)
    ensures Class(less, c, StableSort(less, s)) == Class(less, c, s)
  {
    if s != [] {
      var rest := StableSort(less, s[1..]);
      SortStable(less, s[1..], c);
      InsertStable(less, s[0], rest, c);
      assert ([s[0]] + rest)[1..] == rest;
    }
  }

  // A symmetric relation between every two positions survives sorting.
  ghost predicate Pairwise<T(!new)>(rel: (T, T) -> bool, s: seq<T>) {
    forall i, j :: 0 <= i < j < |s| ==> rel(s[i], s[j])
  }

  lemma {:induction false} InsertPairwise<T(!new)>(less: (T, T) -> bool, rel: (T, T) -> bool, x: T, s: seq<T>)
    requires forall a, b :: rel(a, b) ==> rel(b, a)
    requires Pairwise(rel, s) && forall y :: y in s ==> rel(x, y)
    ensures Pairwise(rel, Insert(less, x, s))
  {
    var r := Insert(less, x, s);
    if s == [] || !less(s[0], x) {
      assert forall j :: 0 < j < |r| ==> r[j] == s[j - 1];
    } else {
      var t := Insert(less, x, s[1..]);
      assert forall i :: 0 <= i < |s[1..]| ==> s[1..][i] == s[i + 1];
      InsertPairwise(less, rel, x, s[1..]);
      InsertPermutes(less, x, s[1..]);
      forall j | 0 <= j < |t|
        ensures rel(s[0], t[j])
      {
        assert t[j] in multiset(t);
        assert t[j] == x || t[j] in s[1..];
      }
      assert forall j :: 0 < j < |r| ==> r[j] == t[j - 1];
    }
  }

  lemma {:induction false} SortPairwise<T(!new)>(less: (T, T) -> bool, rel: (T, T) -> bool, s: seq<T>)
    requires forall a, b :: rel(a, b) ==> rel(b, a)
    requires Pairwise(rel, s)
    ensures Pairwise(rel, StableSort(less, s))
  {
    if s != [] {
      var rest := s[1..];
      assert forall i :: 0 <= i < |rest| ==> rest[i] == s[i + 1];
      SortPairwise(less, rel, rest);
      SortMembers(less, rest);
      InsertPairwise(less, rel, s[0], StableSort(less, rest));
    }
  }

  lemma SortMembers<T>(less: (T, T) -> bool, s: seq<T>)
    ensures forall x :: x in StableSort(less, s) <==> x in s
  {
    SortPermutes(less, s);
    forall x
      ensures x in StableSort(less, s) <==> x in s
    {
      assert x in multiset(StableSort(less, s)) <==> x in multiset(s);
    }
  }

  // The relation holds between every two equivalent elements, the earlier one first.
  ghost predicate Ties<T(!new)>(less: (T, T) -> bool, rel: (T, T) -> bool, s: seq<T>) {
    forall i, j :: 0 <= i < j < |s| && !less(s[i], s[j]) && !less(s[j], s[i]) ==> rel(s[i], s[j])
  }

  lemma {:induction false} InsertTies<T(!new)>(less: (T, T) -> bool, rel: (T, T) -> bool, x: T, s: seq<T>)
    requires Ties(less, rel, s) && forall y :: y in s && !less(x, y) && !less(y, x) ==> rel(x, y)
    ensures Ties(less, rel, Insert(less, x, s))
  {
    var r := Insert(less, x, s);
    if s == [] || !less(s[0], x) {
      assert forall j :: 0 < j < |r| ==> r[j] == s[j - 1];
    } else {
      var t := Insert(less, x, s[1..]);
      assert forall i :: 0 <= i < |s[1..]| ==> s[1..][i] == s[i + 1];
      InsertTies(less, rel, x, s[1..]);
      InsertPermutes(less, x, s[1..]);
      forall j | 0 <= j < |t| && !less(s[0], t[j]) && !less(t[j], s[0])
        ensures rel(s[0], t[j])
      {
        assert t[j] in multiset(t);
        assert t[j] == x || t[j] in s[1..];
      }
      assert forall j :: 0 < j < |r| ==> r[j] == t[j - 1];
    }
  }

  // What holds of equivalent elements in input order holds of them after a stable sort.
  lemma {:induction false} SortTies<T(!new)>(less: (T, T) -> bool, rel: (T, T) -> bool, s: seq<T>)
    requires Ties(less, rel, s)
    ensures Ties(less, rel, StableSort(less, s))
  {
    if s != [] {
      var rest := s[1..];
      assert forall i :: 0 <= i < |rest| ==> rest[i] == s[i + 1];
      SortTies(less, rel, rest);
      SortMembers(less, rest);
      InsertTies(less, rel, s[0], StableSort(less, rest));
    }
  }

  // A set of elements has at most one strictly increasing arrangement, so neither the
  // sorting algorithm nor the input order can matter.
  lemma {:induction false} SortedUnique<T(!new)>(less: (T, T) -> bool, a: seq<T>, b: seq<T>)
    requires StrictWeak(less)
    requires forall i, j :: 0 <= i < j < |a| ==> less(a[i], a[j])
    requires forall i, j :: 0 <= i < j < |b| ==> less(b[i], b[j])
    requires forall x :: x in a <==> x in b
    ensures a == b
  {
    assert forall i :: 0 <= i < |a| ==> a[i] in b;
    assert forall i :: 0 <= i < |b| ==> b[i] in a;
    if a != [] && b != [] {
      var a', b' := a[1..], b[1..];
      forall x
        ensures x in a' <==> x in b'
      {
        if x in a' {
          var i :| 0 <= i < |a'| && a'[i] == x;
          assert a[i + 1] == x && less(a[0], x);
          assert x in b && x != b[0];
        }
        if x in b' {
          var i :| 0 <= i < |b'| && b'[i] == x;
          assert b[i + 1] == x && less(b[0], x);
          assert x in a && x != a[0];
        }
      }
      SortedUnique(less, a', b');
    }
  }
}
