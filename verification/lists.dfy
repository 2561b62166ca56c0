/**
 * The java.util.List operations the container relies on, stated over
 * Dafny sequences, and the order-preserving subsequence relation that
 * ties the filtered id list to the full one.
 */
module Lists {

  /** No element occurs twice: what a ListSet guarantees for its contents. */
  predicate NoDups<T(==)>(s: seq<T>) {
    forall i, j :: 0 <= i < j < |s| ==> s[i] != s[j]
  }

  /** `List.indexOf`: the first position holding `x`, or -1 when there is none. */
  function IndexOf<T(==)>(s: seq<T>, x: T): (r: int)
    ensures -1 <= r < |s|
    ensures r == -1 <==> x !in s
    ensures 0 <= r ==> s[r] == x
  {
    if |s| == 0 then -1
    else if s[0] == x then 0
    else
      var k := IndexOf(s[1..], x);
      if k == -1 then -1 else k + 1
  }

  /** No position before the one `IndexOf` finds holds `x`. */
  lemma {:induction false} IndexOfIsFirst<T>(s: seq<T>, x: T, j: int)
    requires 0 <= j < IndexOf(s, x)
    ensures s[j] != x
  {
    if j > 0 {
      IndexOfIsFirst(s[1..], x, j - 1);
    }
  }

  /** In a list without duplicates every position is the first one holding its element. */
  lemma IndexOfNoDups<T>(s: seq<T>, i: int)
    requires NoDups(s) && 0 <= i < |s|
    ensures IndexOf(s, s[i]) == i
  {
  }

  /** Splitting a duplicate-free list just after an element `p` splits it at `p`'s position. */
  lemma SplitAfterElement<T>(v: seq<T>, pre: seq<T>, post: seq<T>, p: T)
    requires v == pre + post && NoDups(v) && |pre| > 0 && pre[|pre| - 1] == p
    ensures IndexOf(v, p) + 1 == |pre|
    ensures v[..IndexOf(v, p) + 1] == pre && v[IndexOf(v, p) + 1..] == post
  {
    assert v[|pre| - 1] == p;
    IndexOfNoDups(v, |pre| - 1);
  }

  /** `List.add(index, element)`. */
  function InsertAt<T>(s: seq<T>, p: int, x: T): (r: seq<T>)
    requires 0 <= p <= |s|
    ensures |r| == |s| + 1 && r[p] == x
    ensures r[..p] == s[..p] && r[p + 1..] == s[p..]
  {
    s[..p] + [x] + s[p..]
  }

  /** `List.remove(Object)`: drops the first occurrence of `x`, if any. */
  function RemoveFirst<T(==)>(s: seq<T>, x: T): (r: seq<T>)
    ensures x !in s ==> r == s
    ensures x in s ==> r == s[..IndexOf(s, x)] + s[IndexOf(s, x) + 1..]
  {
    if |s| == 0 then []
    else if s[0] == x then s[1..]
    else
      var rest := RemoveFirst(s[1..], x);
      SpliceCons(s, x, rest);
      [s[0]] + rest
  }

  /** One step of `RemoveFirst`: splicing out `x` commutes with a head that differs from it. */
  lemma SpliceCons<T>(s: seq<T>, x: T, rest: seq<T>)
    requires |s| > 0 && s[0] != x
    requires x in s[1..] ==> rest == s[1..][..IndexOf(s[1..], x)] + s[1..][IndexOf(s[1..], x) + 1..]
    ensures x in s ==> [s[0]] + rest == s[..IndexOf(s, x)] + s[IndexOf(s, x) + 1..]
  {
    if x in s {
      assert s == [s[0]] + s[1..];
      assert x in s[1..];
      ConsDropAt(s[0], s[1..], IndexOf(s[1..], x));
    }
  }

  /** Dropping position `k` of the tail is dropping position `k + 1` of the whole list. */
  lemma ConsDropAt<T>(h: T, t: seq<T>, k: int)
    requires 0 <= k < |t|
    ensures [h] + (t[..k] + t[k + 1..]) == ([h] + t)[..k + 1] + ([h] + t)[k + 2..]
  {
    var s := [h] + t;
    assert s[..k + 1] == [h] + t[..k];
    assert s[k + 2..] == t[k + 1..];
  }

  /** Two lists of equal length agree when they agree before their last element and on it. */
  lemma EqualBySnoc<T>(a: seq<T>, b: seq<T>)
    requires |a| == |b| > 0
    ensures a == b <==> a[..|a| - 1] == b[..|b| - 1] && a[|a| - 1] == b[|b| - 1]
  {
    var n := |a| - 1;
    if a[..n] == b[..n] && a[n] == b[n] {
      assert a == a[..n] + [a[n]] && b == b[..n] + [b[n]];
    }
  }

  /** An element inserted into a list not holding it is found where it was inserted. */
  lemma IndexOfInsertAt<T>(s: seq<T>, p: int, x: T)
    requires 0 <= p <= |s| && x !in s
    ensures IndexOf(InsertAt(s, p, x), x) == p
  {
    var t := InsertAt(s, p, x);
    assert forall j :: 0 <= j < p ==> t[j] == s[j];
  }

  /** Removing an element just inserted at any position restores the list. */
  lemma {:induction false} RemoveFirstInsertAt<T>(s: seq<T>, p: int, x: T)
    requires 0 <= p <= |s| && x !in s
    ensures RemoveFirst(InsertAt(s, p, x), x) == s
  {
    var t := InsertAt(s, p, x);
    assert x in t;
    var k := IndexOf(t, x);
    assert k == p by {
      assert t[p] == x;
      assert forall j :: 0 <= j < p ==> t[j] == s[j];
    }
    assert t[..p] == s[..p] && t[p + 1..] == s[p..];
    assert s == s[..p] + s[p..];
  }

  /** Removal from a duplicate-free list keeps it duplicate-free and drops exactly `x`. */
  lemma {:induction false} RemoveFirstMembers<T>(s: seq<T>, x: T)
    requires NoDups(s)
    ensures NoDups(RemoveFirst(s, x))
    ensures forall y :: y in RemoveFirst(s, x) <==> y in s && y != x
  {
    if |s| > 0 {
      RemoveFirstMembers(s[1..], x);
      if s[0] != x {
        var r := RemoveFirst(s, x);
        assert r == [s[0]] + RemoveFirst(s[1..], x);
        forall i, j | 0 <= i < j < |r| ensures r[i] != r[j] {
          if i == 0 {
            assert r[j] in RemoveFirst(s[1..], x);
          }
        }
      }
    }
  }

  /**
   * `a` is `b` with some elements left out, the rest in their order.
   * Matching greedily from the front decides it.
   */
  predicate IsSubseq<T(==)>(a: seq<T>, b: seq<T>)
    decreases |b|
  {
    if |a| == 0 then true
    else if |b| == 0 then false
    else if a[0] == b[0] then IsSubseq(a[1..], b[1..])
    else IsSubseq(a, b[1..])
  }

  lemma {:induction false} SubseqRefl<T>(s: seq<T>)
    ensures IsSubseq(s, s)
    decreases |s|
  {
    if |s| > 0 {
      SubseqRefl(s[1..]);
    }
  }

  lemma {:induction false} SubseqMembers<T>(a: seq<T>, b: seq<T>)
    requires IsSubseq(a, b)
    ensures |a| <= |b|
    ensures forall x :: x in a ==> x in b
    decreases |b|
  {
    if |a| > 0 {
      if a[0] == b[0] {
        SubseqMembers(a[1..], b[1..]);
        forall x | x in a ensures x in b {
          if x != a[0] {
            assert x in a[1..];
          }
        }
      } else {
        SubseqMembers(a, b[1..]);
      }
    }
  }

  lemma {:induction false} SubseqNoDups<T>(a: seq<T>, b: seq<T>)
    requires IsSubseq(a, b) && NoDups(b)
    ensures NoDups(a)
    decreases |b|
  {
    if |a| > 0 {
      if a[0] == b[0] {
        SubseqNoDups(a[1..], b[1..]);
        SubseqMembers(a[1..], b[1..]);
        assert b[0] !in b[1..];
        forall i, j | 0 <= i < j < |a| ensures a[i] != a[j] {
          if i == 0 {
            assert a[j] in a[1..];
          } else {
            assert a[i] == a[1..][i - 1] && a[j] == a[1..][j - 1];
          }
        }
      } else {
        SubseqNoDups(a, b[1..]);
      }
    }
  }

  /** A subsequence as long as the whole is the whole. */
  lemma {:induction false} SubseqSameLength<T>(a: seq<T>, b: seq<T>)
    requires IsSubseq(a, b) && |a| == |b|
    ensures a == b
    decreases |b|
  {
    if |a| > 0 {
      if a[0] == b[0] {
        SubseqSameLength(a[1..], b[1..]);
        assert a == [a[0]] + a[1..] && b == [b[0]] + b[1..];
      } else {
        SubseqMembers(a, b[1..]);
      }
    }
  }

  lemma {:induction false} SubseqTail<T>(a: seq<T>, b: seq<T>)
    requires IsSubseq(a, b) && |a| > 0
    ensures IsSubseq(a[1..], b)
    decreases |b|, 0
  {
    if |a| > 1 {
      if a[0] == b[0] {
        SubseqCons(a[1..], b[1..], b[0]);
        assert [b[0]] + b[1..] == b;
      } else {
        SubseqTail(a, b[1..]);
        SubseqCons(a[1..], b[1..], b[0]);
        assert [b[0]] + b[1..] == b;
      }
    }
  }

  lemma {:induction false} SubseqCons<T>(a: seq<T>, b: seq<T>, x: T)
    requires IsSubseq(a, b)
    ensures IsSubseq(a, [x] + b)
    decreases |b|, 1
  {
    if |a| > 0 && a[0] == x {
      SubseqTail(a, b);
      assert ([x] + b)[1..] == b;
    } else if |a| > 0 {
      assert ([x] + b)[1..] == b;
    }
  }

  /** Inserting into the whole keeps every subsequence a subsequence. */
  lemma {:induction false} SubseqInsertAt<T>(a: seq<T>, b: seq<T>, p: int, x: T)
    requires IsSubseq(a, b) && 0 <= p <= |b|
    ensures IsSubseq(a, InsertAt(b, p, x))
    decreases p
  {
    if p == 0 {
      SubseqCons(a, b, x);
      assert InsertAt(b, p, x) == [x] + b;
    } else {
      var t := InsertAt(b, p, x);
      assert t == [b[0]] + InsertAt(b[1..], p - 1, x);
      assert t[1..] == InsertAt(b[1..], p - 1, x);
      if |a| > 0 && a[0] == b[0] {
        SubseqInsertAt(a[1..], b[1..], p - 1, x);
      } else if |a| > 0 {
        SubseqInsertAt(a, b[1..], p - 1, x);
      }
    }
  }

  /** Removing the same element from both sides keeps the relation. */
  lemma {:induction false} SubseqRemoveFirst<T>(a: seq<T>, b: seq<T>, x: T)
    requires IsSubseq(a, b) && NoDups(b)
    ensures IsSubseq(RemoveFirst(a, x), RemoveFirst(b, x))
    decreases |b|
  {
    if |a| == 0 {
      assert RemoveFirst(a, x) == [];
    } else if a[0] == b[0] {
      if b[0] == x {
        assert RemoveFirst(a, x) == a[1..];
      } else {
        assert NoDups(b[1..]);
        SubseqRemoveFirst(a[1..], b[1..], x);
        var ra := RemoveFirst(a, x);
        var rb := RemoveFirst(b, x);
        assert ra == [a[0]] + RemoveFirst(a[1..], x);
        assert rb == [b[0]] + RemoveFirst(b[1..], x);
        assert ra[1..] == RemoveFirst(a[1..], x);
        assert rb[1..] == RemoveFirst(b[1..], x);
      }
    } else {
      assert NoDups(b[1..]);
      if b[0] == x {
        SubseqMembers(a, b[1..]);
        assert x !in b[1..];
        assert RemoveFirst(a, x) == a;
        assert RemoveFirst(b, x) == b[1..];
      } else {
        SubseqRemoveFirst(a, b[1..], x);
        SubseqCons(RemoveFirst(a, x), RemoveFirst(b[1..], x), b[0]);
        assert RemoveFirst(b, x) == [b[0]] + RemoveFirst(b[1..], x);
      }
    }
  }
}
