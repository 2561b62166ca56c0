/**
 * The item sorter reduced to what `Collections.sort` needs from it: a
 * comparison `le(a, b)` ("a sorts no later than b") that is a total preorder.
 * The full id list is sorted by an insertion sort.
 */
module Sorting {
  import opened Lists

  /** What a consistent comparator provides: any two ids compare, and comparison chains. */
  ghost predicate TotalPreorder<T(!new)>(le: (T, T) -> bool) {
    && (forall a, b :: le(a, b) || le(b, a))
    && (forall a, b, c :: le(a, b) && le(b, c) ==> le(a, c))
  }

  predicate SortedBy<T>(s: seq<T>, le: (T, T) -> bool) {
    forall i, j :: 0 <= i < j < |s| ==> le(s[i], s[j])
  }

  /** Places `x` in front of the first element it sorts no later than. */
  function Insert<T(!new)>(x: T, s: seq<T>, le: (T, T) -> bool): (r: seq<T>)
    ensures multiset(r) == multiset(s) + multiset{x}
    ensures TotalPreorder(le) && SortedBy(s, le) ==> SortedBy(r, le)
  {
    if |s| == 0 then [x]
    else if le(x, s[0]) then
      assert TotalPreorder(le) && SortedBy(s, le) ==> SortedBy([x] + s, le) by {
        if TotalPreorder(le) && SortedBy(s, le) {
          InsertFrontSorted(x, s, le);
        }
      }
      [x] + s
    else
      var t := Insert(x, s[1..], le);
      assert s == [s[0]] + s[1..];
      assert TotalPreorder(le) && SortedBy(s, le) ==> SortedBy([s[0]] + t, le) by {
        if TotalPreorder(le) && SortedBy(s, le) {
          InsertBehindSorted(x, s, t, le);
        }
      }
      [s[0]] + t
  }

  /** `x` sorting no later than the head of a sorted list sorts no later than all of it. */
  lemma InsertFrontSorted<T(!new)>(x: T, s: seq<T>, le: (T, T) -> bool)
    requires TotalPreorder(le) && SortedBy(s, le) && |s| > 0 && le(x, s[0])
    ensures SortedBy([x] + s, le)
  {
    forall j | 0 <= j < |s| ensures le(x, s[j]) {
      assert le(s[0], s[j]) || j == 0;
    }
    ConsSorted(x, s, le);
  }

  /** The head of a sorted list, kept in front of the sorted insertion of `x` into its tail. */
  lemma InsertBehindSorted<T(!new)>(x: T, s: seq<T>, t: seq<T>, le: (T, T) -> bool)
    requires TotalPreorder(le) && SortedBy(s, le) && |s| > 0 && !le(x, s[0])
    requires multiset(t) == multiset(s[1..]) + multiset{x} && SortedBy(t, le)
    ensures SortedBy([s[0]] + t, le)
  {
    assert SortedBy(s[1..], le);
    assert le(s[0], x);
    BelowAllMembers(s[0], s[1..], x, t, le);
    ConsSorted(s[0], t, le);
  }

  /** A sorted list stays sorted under a head that sorts before all of it. */
  lemma ConsSorted<T>(h: T, t: seq<T>, le: (T, T) -> bool)
    requires SortedBy(t, le) && forall j :: 0 <= j < |t| ==> le(h, t[j])
    ensures SortedBy([h] + t, le)
  {
    var r := [h] + t;
    forall i, j | 0 <= i < j < |r| ensures le(r[i], r[j]) {
      if i > 0 {
        assert r[i] == t[i - 1] && r[j] == t[j - 1];
      } else {
        assert r[j] == t[j - 1];
      }
    }
  }

  /** An element sorting before all of `s` and before `x` sorts before every element of a permutation of `s + [x]`. */
  lemma BelowAllMembers<T>(h: T, s: seq<T>, x: T, t: seq<T>, le: (T, T) -> bool)
    requires multiset(t) == multiset(s) + multiset{x}
    requires le(h, x) && forall j :: 0 <= j < |s| ==> le(h, s[j])
    ensures forall j :: 0 <= j < |t| ==> le(h, t[j])
  {
    forall j | 0 <= j < |t| ensures le(h, t[j]) {
      assert t[j] in multiset(t);
      if t[j] != x {
        assert t[j] in multiset(s);
        var k :| 0 <= k < |s| && s[k] == t[j];
      }
    }
  }

  /** Insertion sort: each id goes into the already sorted rest of the list. */
  function InsertionSort<T(!new)>(s: seq<T>, le: (T, T) -> bool): (r: seq<T>)
    ensures multiset(r) == multiset(s)
    ensures TotalPreorder(le) ==> SortedBy(r, le)
  {
    if |s| == 0 then []
    else
      assert s == [s[0]] + s[1..];
      Insert(s[0], InsertionSort(s[1..], le), le)
  }

  /** A permutation of a duplicate-free list is duplicate-free. */
  lemma {:induction false} PermutationNoDups<T>(a: seq<T>, b: seq<T>)
    requires multiset(a) == multiset(b) && NoDups(a)
    ensures NoDups(b)
  {
    forall i, j | 0 <= i < j < |b| ensures b[i] != b[j] {
      if b[i] == b[j] {
        assert multiset(b)[b[i]] >= 2 by {
          assert b == b[..i] + [b[i]] + b[i + 1..j] + [b[j]] + b[j + 1..];
        }
        NoDupsCount(a, b[i]);
      }
    }
  }

  /** In a duplicate-free list every element is counted at most once. */
  lemma {:induction false} NoDupsCount<T>(s: seq<T>, x: T)
    requires NoDups(s)
    ensures multiset(s)[x] <= 1
  {
    if |s| > 0 {
      assert s == [s[0]] + s[1..];
      assert NoDups(s[1..]);
      NoDupsCount(s[1..], x);
      if s[0] == x {
        assert x !in s[1..];
      }
    }
  }
}
