/**
 * Three-way comparators and the sort applied to a listing.
 * `Collections.sort` is a stable merge sort; it is stood in for here by a stable
 * insertion sort, and only what any correct sort guarantees is promised about it.
 */
module Sorting {

  function Sign(x: int): int
  {
    if x < 0 then -1 else if x == 0 then 0 else 1
  }

  /** sgn(cmp(a, b)) == -sgn(cmp(b, a)), as `java.util.Comparator` demands. */
  ghost predicate Antisymmetric<T(!new)>(cmp: (T, T) -> int)
  {
    forall a, b :: Sign(cmp(a, b)) == -Sign(cmp(b, a))
  }

  /** The "at most" relation cmp(a, b) <= 0 is transitive. */
  ghost predicate Transitive<T(!new)>(cmp: (T, T) -> int)
  {
    forall a, b, c :: cmp(a, b) <= 0 && cmp(b, c) <= 0 ==> cmp(a, c) <= 0
  }

  /** The contract of a Java comparator: "at most" is a total preorder. */
  ghost predicate IsTotalPreorder<T(!new)>(cmp: (T, T) -> int)
  {
    Antisymmetric(cmp) && Transitive(cmp)
  }

  ghost predicate SortedBy<T>(s: seq<T>, cmp: (T, T) -> int)
  {
    forall i, j :: 0 <= i < j < |s| ==> cmp(s[i], s[j]) <= 0
  }

  /** Inserts `x` in front of the first element that is strictly greater than it. */
  function Insert<T>(x: T, s: seq<T>, cmp: (T, T) -> int): (r: seq<T>)
    ensures multiset(r) == multiset(s) + multiset{x}
  {
    if s == [] then [x]
    else if cmp(x, s[0]) < 0 then [x] + s
    else
      assert s == [s[0]] + s[1..];
      [s[0]] + Insert(x, s[1..], cmp)
  }

  /** A stable insertion sort. */
  function SortBy<T>(s: seq<T>, cmp: (T, T) -> int): (r: seq<T>)
    ensures multiset(r) == multiset(s)
  {
    if s == [] then []
    else
      assert s == s[..|s| - 1] + [s[|s| - 1]];
      Insert(s[|s| - 1], SortBy(s[..|s| - 1], cmp), cmp)
  }

  /** Every element of `s` is at least `x`. */
  ghost predicate AtMostAll<T>(x: T, s: seq<T>, cmp: (T, T) -> int)
  {
    forall j :: 0 <= j < |s| ==> cmp(x, s[j]) <= 0
  }

  lemma ConsSorted<T>(x: T, s: seq<T>, cmp: (T, T) -> int)
    requires AtMostAll(x, s, cmp) && SortedBy(s, cmp)
    ensures SortedBy([x] + s, cmp)
  {
    var r := [x] + s;
    forall i, j | 0 <= i < j < |r| ensures cmp(r[i], r[j]) <= 0 {
      assert r[j] == s[j - 1];
      if i > 0 {
        assert r[i] == s[i - 1];
      }
    }
  }

  lemma AtMostAllPermuted<T>(x: T, s: seq<T>, t: seq<T>, cmp: (T, T) -> int)
    requires AtMostAll(x, s, cmp) && multiset(t) <= multiset(s)
    ensures AtMostAll(x, t, cmp)
  {
    forall j | 0 <= j < |t| ensures cmp(x, t[j]) <= 0 {
      assert t[j] in multiset(t);
      assert t[j] in multiset(s);
      var k :| 0 <= k < |s| && s[k] == t[j];
    }
  }

  lemma {:induction false} InsertSorted<T(!new)>(x: T, s: seq<T>, cmp: (T, T) -> int)
    requires IsTotalPreorder(cmp) && SortedBy(s, cmp)
    ensures SortedBy(Insert(x, s, cmp), cmp)
  {
    if s == [] {
    } else if cmp(x, s[0]) < 0 {
      forall j | 0 <= j < |s| ensures cmp(x, s[j]) <= 0 {
        if j > 0 {
          assert cmp(s[0], s[j]) <= 0;
        }
      }
      ConsSorted(x, s, cmp);
    } else {
      assert Sign(cmp(s[0], x)) == -Sign(cmp(x, s[0]));
      var tail := Insert(x, s[1..], cmp);
      InsertSorted(x, s[1..], cmp);
      assert AtMostAll(s[0], s[1..] + [x], cmp) by {
        forall j | 0 <= j < |s[1..] + [x]| ensures cmp(s[0], (s[1..] + [x])[j]) <= 0 {
          if j < |s| - 1 {
            assert (s[1..] + [x])[j] == s[j + 1];
          }
        }
      }
      AtMostAllPermuted(s[0], s[1..] + [x], tail, cmp);
      ConsSorted(s[0], tail, cmp);
    }
  }

  /** Under a comparator that keeps the Java contract, the result is sorted. */
  lemma {:induction false} SortBySorted<T(!new)>(s: seq<T>, cmp: (T, T) -> int)
    requires IsTotalPreorder(cmp)
    ensures SortedBy(SortBy(s, cmp), cmp)
  {
    if s != [] {
      SortBySorted(s[..|s| - 1], cmp);
      InsertSorted(s[|s| - 1], SortBy(s[..|s| - 1], cmp), cmp);
    }
  }
}
