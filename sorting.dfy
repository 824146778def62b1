/**
 * Stable sorting by a total preorder: the `ORDER BY` of the item listing and of the
 * history queries, done on the rows taken in primary-key order.
 */
module Sorting {

  /** `before` relates every pair one way or the other and is transitive. */
  ghost predicate TotalPreorder<T(!new)>(before: (T, T) -> bool) {
    && (forall a, b :: before(a, b) || before(b, a))
    && (forall a, b, c :: before(a, b) && before(b, c) ==> before(a, c))
  }

  ghost predicate SortedBy<T>(s: seq<T>, before: (T, T) -> bool) {
    forall i, j :: 0 <= i < j < |s| ==> before(s[i], s[j])
  }

  /** `x` placed in front of the first element it does not come after. */
  function Insert<T(!new)>(x: T, s: seq<T>, before: (T, T) -> bool): (r: seq<T>)
    requires TotalPreorder(before) && SortedBy(s, before)
    ensures SortedBy(r, before)
    ensures multiset(r) == multiset(s) + multiset{x}
  {
    if s == [] then [x]
    else if before(x, s[0]) then [x] + s
    else
      var rest := Insert(x, s[1..], before);
      assert s == [s[0]] + s[1..];
      assert forall k :: 0 <= k < |rest| ==> before(s[0], rest[k]) by {
        forall k | 0 <= k < |rest| ensures before(s[0], rest[k]) {
          assert rest[k] in multiset(rest);
          if rest[k] != x {
            assert rest[k] in multiset(s[1..]);
            var i :| 0 <= i < |s[1..]| && s[1..][i] == rest[k];
            assert s[i + 1] == rest[k];
          }
        }
      }
      ConsSorted(s[0], rest, before);
      [s[0]] + rest
  }

  lemma ConsSorted<T>(h: T, s: seq<T>, before: (T, T) -> bool)
    requires SortedBy(s, before)
    requires forall k :: 0 <= k < |s| ==> before(h, s[k])
    ensures SortedBy([h] + s, before)
  {
    forall i, j | 0 <= i < j < |[h] + s| ensures before(([h] + s)[i], ([h] + s)[j]) {
      if i > 0 { assert ([h] + s)[i] == s[i - 1]; }
      assert ([h] + s)[j] == s[j - 1];
    }
  }

  /** Insertion sort; equal elements keep their input order. */
  function SortBy<T(!new,==)>(s: seq<T>, before: (T, T) -> bool): (r: seq<T>)
    requires TotalPreorder(before)
    ensures SortedBy(r, before)
    ensures multiset(r) == multiset(s)
    ensures |r| == |s|
    ensures forall i :: 0 <= i < |r| ==> r[i] in s
    ensures forall i :: 0 <= i < |s| ==> s[i] in r
  {
    if s == [] then []
    else
      assert s == [s[0]] + s[1..];
      var r := Insert(s[0], SortBy(s[1..], before), before);
      SameElements(r, s);
      r
  }

  /** Sequences with the same multiset have the same length and the same elements. */
  lemma SameElements<T>(r: seq<T>, s: seq<T>)
    requires multiset(r) == multiset(s)
    ensures |r| == |s|
    ensures forall i :: 0 <= i < |r| ==> r[i] in s
    ensures forall i :: 0 <= i < |s| ==> s[i] in r
  {
    assert |r| == |multiset(r)|;
    forall i | 0 <= i < |r| ensures r[i] in s {
      assert r[i] in multiset(r);
    }
    forall i | 0 <= i < |s| ensures s[i] in r {
      assert s[i] in multiset(s);
    }
  }
}
