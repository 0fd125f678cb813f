/** Sorting by a real-valued key: the model of pandas' `sort_values`. */
module Sorting {

  predicate SortedBy<T>(s: seq<T>, key: T -> real)
  {
    forall i, j :: 0 <= i < j < |s| ==> key(s[i]) <= key(s[j])
  }

  /** Inserts `x` before the first element whose key is at least its own. */
  function InsertBy<T>(x: T, s: seq<T>, key: T -> real): (r: seq<T>)
    ensures multiset(r) == multiset(s) + multiset{x}
  {
    if s == [] || key(x) <= key(s[0]) then [x] + s
    else
      assert s == [s[0]] + s[1..];
      [s[0]] + InsertBy(x, s[1..], key)
  }

  /** Insertion sort: an ascending permutation of `s` by `key`. */
  function SortBy<T>(s: seq<T>, key: T -> real): (r: seq<T>)
    ensures |r| == |s| && multiset(r) == multiset(s)
    ensures SortedBy(r, key)
  {
    if s == [] then []
    else
      assert s == [s[0]] + s[1..];
      var rest := SortBy(s[1..], key);
      InsertSorted(s[0], rest, key);
      var r := InsertBy(s[0], rest, key);
      assert |r| == |multiset(r)| == |multiset(s)| == |s|;
      r
  }

  /** Putting an element in front of a sorted sequence whose keys are all at least its own
      keeps it sorted. */
  lemma SortedCons<T>(h: T, s: seq<T>, key: T -> real)
    requires SortedBy(s, key)
    requires forall y :: y in s ==> key(h) <= key(y)
    ensures SortedBy([h] + s, key)
  {
    var r := [h] + s;
    forall i, j | 0 <= i < j < |r|
      ensures key(r[i]) <= key(r[j])
    {
      assert r[j] == s[j - 1];
      if i > 0 {
        assert r[i] == s[i - 1];
      } else {
        assert s[j - 1] in s;
      }
    }
  }

  /** Every key of a sorted sequence is at least the key of its head. */
  lemma HeadIsLeast<T>(s: seq<T>, key: T -> real)
    requires SortedBy(s, key) && s != []
    ensures forall y :: y in s ==> key(s[0]) <= key(y)
  {
    forall y | y in s
      ensures key(s[0]) <= key(y)
    {
      var j :| 0 <= j < |s| && s[j] == y;
    }
  }

  /** Inserting into a sorted sequence keeps it sorted. */
  lemma {:induction false} InsertSorted<T>(x: T, s: seq<T>, key: T -> real)
    requires SortedBy(s, key)
    ensures SortedBy(InsertBy(x, s, key), key)
  {
    if s == [] || key(x) <= key(s[0]) {
      if s != [] {
        HeadIsLeast(s, key);
      }
      SortedCons(x, s, key);
    } else {
      var tail := s[1..];
      assert s == [s[0]] + tail;
      assert SortedBy(tail, key);
      InsertSorted(x, tail, key);
      var rest := InsertBy(x, tail, key);
      HeadIsLeast(s, key);
      forall y | y in rest
        ensures key(s[0]) <= key(y)
      {
        assert y in multiset(rest);
        assert y == x || y in tail;
      }
      SortedCons(s[0], rest, key);
    }
  }
}
