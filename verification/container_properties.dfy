/**
 * Properties relating the container's operations to one another: navigation
 * and indexing are inverse, filtering is exact and settles, insertions land
 * where they were asked to, removal undoes insertion, and sorting reorders the
 * view without changing its contents.
 */
module ContainerProperties {
  import opened Wrappers
  import opened Lists
  import opened Sorting
  import opened InMemoryContainer

  /** `b` comes directly after `a` in `v`. */
  ghost predicate Follows<Id>(v: seq<Id>, a: Id, b: Id) {
    exists i :: 0 <= i < |v| - 1 && v[i] == a && v[i + 1] == b
  }

  // ---------------------------------------------------------------------
  // The visible view and navigation

  /** The view is an order-preserving selection of the full list, free of duplicates. */
  lemma VisibleIsOrderedSubsequence<Id(!new), F>(c: Container<Id, F>)
    requires Valid(c)
    ensures IsSubseq(Visible(c), c.all) && NoDups(Visible(c))
    ensures c.filters == {} ==> Visible(c) == c.all
    ensures !ContainsId(c, None)
    ensures forall x :: ContainsId(c, Some(x)) ==> x in c.all
  {
    VisibleNoDups(c);
    if c.filtered.None? {
      SubseqRefl(c.all);
    }
    SubseqMembers(Visible(c), c.all);
  }

  /** The duplicate-freedom part of the above, which is all navigation needs. */
  lemma VisibleNoDups<Id(!new), F>(c: Container<Id, F>)
    requires ListsValid(c)
    ensures NoDups(Visible(c))
  {
    if c.filtered.Some? {
      SubseqNoDups(c.filtered.value, c.all);
    }
  }

  lemma NextItemIdIsSuccessor<Id(!new), F>(c: Container<Id, F>, x: Option<Id>, y: Id)
    requires Valid(c)
    ensures NextItemId(c, x) == Some(y) <==> x.Some? && Follows(Visible(c), x.value, y)
  {
    var v := Visible(c);
    VisibleNoDups(c);
    if x.Some? && Follows(v, x.value, y) {
      var i :| 0 <= i < |v| - 1 && v[i] == x.value && v[i + 1] == y;
      IndexOfNoDups(v, i);
    }
    if NextItemId(c, x) == Some(y) {
      var i := IndexOfId(c, x);
      assert v[i] == x.value && v[i + 1] == y;
    }
  }

  lemma PrevItemIdIsPredecessor<Id(!new), F>(c: Container<Id, F>, x: Option<Id>, y: Id)
    requires Valid(c)
    ensures PrevItemId(c, x) == Some(y) <==> x.Some? && Follows(Visible(c), y, x.value)
  {
    if x.Some? && Follows(Visible(c), y, x.value) {
      PredecessorIsPrevItemId(c, x.value, y);
    }
    if PrevItemId(c, x) == Some(y) {
      var i := IndexOfId(c, x);
      assert Visible(c)[i - 1] == y && Visible(c)[i - 1 + 1] == x.value;
    }
  }

  lemma PredecessorIsPrevItemId<Id(!new), F>(c: Container<Id, F>, x: Id, y: Id)
    requires Valid(c) && Follows(Visible(c), y, x)
    ensures PrevItemId(c, Some(x)) == Some(y)
  {
    var v := Visible(c);
    var i :| 0 <= i < |v| - 1 && v[i] == y && v[i + 1] == x;
    VisibleNoDups(c);
    IndexOfNoDups(v, i + 1);
  }

  /** Stepping forward and stepping back undo each other. */
  lemma NextPrevInverse<Id(!new), F>(c: Container<Id, F>, a: Id, b: Id)
    requires Valid(c)
    ensures NextItemId(c, Some(a)) == Some(b) <==> PrevItemId(c, Some(b)) == Some(a)
  {
    NextItemIdIsSuccessor(c, Some(a), b);
    PrevItemIdIsPredecessor(c, Some(b), a);
  }

  /** There is no next id exactly for hidden ids, `null` and the last id. */
  lemma NextItemIdAtEnd<Id(!new), F>(c: Container<Id, F>, x: Option<Id>)
    requires Valid(c)
    ensures NextItemId(c, x).None? <==> !ContainsId(c, x) || IsLastId(c, x)
  {
    var v := Visible(c);
    VisibleIsOrderedSubsequence(c);
    if IsLastId(c, x) {
      IndexOfNoDups(v, |v| - 1);
    }
  }

  /** `getIdByIndex` and `indexOfId` are inverse over the view. */
  lemma IndexRoundTrip<Id(!new), F>(c: Container<Id, F>, i: int, x: Option<Id>)
    requires Valid(c)
    ensures 0 <= i < Size(c) ==> GetIdByIndex(c, i).Ok? && IndexOfId(c, Some(GetIdByIndex(c, i).value)) == i
    ensures ContainsId(c, x) ==> GetIdByIndex(c, IndexOfId(c, x)) == Ok(x.value)
  {
    if 0 <= i < Size(c) {
      VisibleIsOrderedSubsequence(c);
      IndexOfNoDups(Visible(c), i);
    }
  }

  // ---------------------------------------------------------------------
  // Filtering

  /** More filters keep fewer ids, in the same order. */
  lemma {:induction false} PassingMonotone<Id(!new), F>(ids: seq<Id>, filters: set<F>, more: set<F>, passes: (F, Id) -> bool)
    requires filters <= more
    ensures IsSubseq(Passing(ids, more, passes), Passing(ids, filters, passes))
  {
    if |ids| > 0 {
      PassingMonotone(ids[1..], filters, more, passes);
      var a := Passing(ids[1..], more, passes);
      var b := Passing(ids[1..], filters, passes);
      if PassesFilters(more, passes, ids[0]) {
        assert PassesFilters(filters, passes, ids[0]);
        assert ([ids[0]] + a)[1..] == a && ([ids[0]] + b)[1..] == b;
      } else if PassesFilters(filters, passes, ids[0]) {
        SubseqCons(a, b, ids[0]);
      }
    }
  }

  /** Adding a filter to a consistent container can only hide ids. */
  lemma AddFilterNarrows<Id(!new), F>(c: Container<Id, F>, f: F, passes: (F, Id) -> bool)
    requires Consistent(c, passes)
    ensures IsSubseq(Visible(AddFilter(c, f, passes).next), Visible(c))
  {
    PassingMonotone(c.all, c.filters, c.filters + {f}, passes);
  }

  /** Re-filtering a freshly filtered container changes nothing and fires nothing. */
  lemma FilterAllSettles<Id(!new), F>(c: Container<Id, F>, passes: (F, Id) -> bool)
    requires NoDups(c.all)
    ensures var once := FilterAll(c, passes).next;
      FilterAll(once, passes) == Step(once, false)
  {
  }

  /** Removing all filters twice is the same as removing them once, and the second call is silent. */
  lemma RemoveAllFiltersIdempotent<Id(!new), F>(c: Container<Id, F>, passes: (F, Id) -> bool)
    ensures var once := RemoveAllFilters(c, passes).next;
      RemoveAllFilters(once, passes) == Step(once, false)
  {
  }

  // ---------------------------------------------------------------------
  // Removing and adding items

  /** Removing an id just added restores the container. */
  lemma AddThenRemoveRestores<Id(!new), F, Item>(c: Container<Id, F>, position: int, id: Option<Id>, item: Option<Item>)
    requires Valid(c)
    requires InternalAddAt(c, position, id, item).item.Some?
    ensures InternalRemoveItem(InternalAddAt(c, position, id, item).next, id) == ItemRemoved(c, true)
  {
    var a := InternalAddAt(c, position, id, item);
    if c.filtered.Some? {
      SubseqMembers(c.filtered.value, c.all);
    }
  }

  /** Removing an id keeps the view equal to the passing ids of the full list. */
  lemma RemoveKeepsConsistency<Id(!new), F>(c: Container<Id, F>, x: Option<Id>, passes: (F, Id) -> bool)
    requires Valid(c) && Consistent(c, passes)
    ensures Consistent(InternalRemoveItem(c, x).next, passes)
  {
    if x.Some? && x.value in c.all {
      PassingRemoveFirst(c.all, x.value, c.filters, passes);
      if c.filtered.None? {
        PassingNoFilters(RemoveFirst(c.all, x.value), passes);
      }
    }
  }

  /** The passing ids of a list with one id inserted. */
  lemma PassingInsertAt<Id(!new), F>(ids: seq<Id>, k: int, id: Id, filters: set<F>, passes: (F, Id) -> bool)
    requires 0 <= k <= |ids|
    ensures Passing(InsertAt(ids, k, id), filters, passes)
      == Passing(ids[..k], filters, passes)
         + (if PassesFilters(filters, passes, id) then [id] else [])
         + Passing(ids[k..], filters, passes)
  {
    PassingConcat(ids[..k] + [id], ids[k..], filters, passes);
    PassingConcat(ids[..k], [id], filters, passes);
    assert Passing([id], filters, passes) == if PassesFilters(filters, passes, id) then [id] else [];
  }

  /** Appending a passing id appends it to the passing ids. */
  lemma PassingSnoc<Id(!new), F>(ids: seq<Id>, p: Id, filters: set<F>, passes: (F, Id) -> bool)
    requires PassesFilters(filters, passes, p)
    ensures Passing(ids + [p], filters, passes) == Passing(ids, filters, passes) + [p]
  {
    PassingConcat(ids, [p], filters, passes);
    assert Passing([p], filters, passes) == [p];
  }

  /** The passing ids of the full list up to the first `p`, a passing id, end with `p`. */
  lemma PassingPrefixEndsWith<Id(!new), F>(all: seq<Id>, p: Id, filters: set<F>, passes: (F, Id) -> bool)
    requires p in all && PassesFilters(filters, passes, p)
    ensures var pre := Passing(all[..IndexOf(all, p) + 1], filters, passes);
      |pre| > 0 && pre[|pre| - 1] == p
  {
    var k := IndexOf(all, p) + 1;
    assert all[..k] == all[..k - 1] + [p];
    PassingSnoc(all[..k - 1], p, filters, passes);
  }

  /** Cutting the full list anywhere cuts its passing ids at the matching place. */
  lemma PassingSplitsAtIndex<Id(!new), F>(all: seq<Id>, k: int, filters: set<F>, passes: (F, Id) -> bool)
    requires 0 <= k <= |all|
    ensures Passing(all, filters, passes) == Passing(all[..k], filters, passes) + Passing(all[k..], filters, passes)
  {
    assert all == all[..k] + all[k..];
    PassingConcat(all[..k], all[k..], filters, passes);
  }

  /**
   * The passing ids up to and including a visible id `p` of the full list
   * are the view up to and including `p`; the rest are the rest.
   */
  lemma PassingSplitAt<Id(!new), F>(all: seq<Id>, v: seq<Id>, p: Id, filters: set<F>, passes: (F, Id) -> bool)
    requires v == Passing(all, filters, passes) && NoDups(v) && p in v
    ensures p in all
    ensures Passing(all[..IndexOf(all, p) + 1], filters, passes) == v[..IndexOf(v, p) + 1]
    ensures Passing(all[IndexOf(all, p) + 1..], filters, passes) == v[IndexOf(v, p) + 1..]
  {
    assert p in Passing(all, filters, passes);
    var k := IndexOf(all, p) + 1;
    PassingSplitsAtIndex(all, k, filters, passes);
    PassingPrefixEndsWith(all, p, filters, passes);
    SplitAfterElement(v, Passing(all[..k], filters, passes), Passing(all[k..], filters, passes), p);
  }

  /** The view after inserting `id` at the head of the full list. */
  lemma PassingInsertFirst<Id(!new), F>(all: seq<Id>, id: Id, filters: set<F>, passes: (F, Id) -> bool)
    ensures var v := Passing(all, filters, passes);
      Passing(InsertAt(all, 0, id), filters, passes) == if PassesFilters(filters, passes, id) then InsertAt(v, 0, id) else v
  {
    PassingInsertAt(all, 0, id, filters, passes);
    assert all[0..] == all && all[..0] == [];
  }

  /** The view after inserting `id` into the full list right after visible `p`. */
  lemma PassingInsertAfter<Id(!new), F>(all: seq<Id>, v: seq<Id>, p: Id, id: Id, filters: set<F>, passes: (F, Id) -> bool)
    requires v == Passing(all, filters, passes) && NoDups(v) && p in v
    ensures p in all
    ensures Passing(InsertAt(all, IndexOf(all, p) + 1, id), filters, passes)
         == if PassesFilters(filters, passes, id) then InsertAt(v, IndexOf(v, p) + 1, id) else v
  {
    PassingSplitAt(all, v, p, filters, passes);
    var k := IndexOf(all, p) + 1;
    PassingInsertAt(all, k, id, filters, passes);
    var m := if PassesFilters(filters, passes, id) then [id] else [];
    SpliceAt(v, IndexOf(v, p) + 1, id, m, Passing(all[..k], filters, passes), Passing(all[k..], filters, passes));
  }

  /** Gluing the two halves of `v` around nothing or around `x`. */
  lemma SpliceAt<T>(v: seq<T>, j: int, x: T, m: seq<T>, pre: seq<T>, post: seq<T>)
    requires 0 <= j <= |v| && pre == v[..j] && post == v[j..]
    requires m == [] || m == [x]
    ensures pre + m + post == if m == [] then v else InsertAt(v, j, x)
  {
    if m == [] {
      assert v == v[..j] + v[j..];
    }
  }

  /** The visible position right after `previous`, or the first one for `null`. */
  function SlotAfter<Id(==,!new), F>(c: Container<Id, F>, previous: Option<Id>): int {
    if previous.None? then 0 else IndexOf(Visible(c), previous.value) + 1
  }

  /** The passing ids of the full list after a successful `internalAddItemAfter`. */
  lemma PassingAfterAdd<Id(!new), F>(c: Container<Id, F>, previous: Option<Id>, id: Id, pos: int, passes: (F, Id) -> bool)
    requires ListsValid(c) && Consistent(c, passes)
    requires previous.Some? ==> previous.value in Visible(c)
    requires pos == if previous.None? then 0 else IndexOf(c.all, previous.value) + 1
    ensures 0 <= SlotAfter(c, previous) <= Size(c) && 0 <= pos <= |c.all|
    ensures Passing(InsertAt(c.all, pos, id), c.filters, passes)
      == if PassesFilters(c.filters, passes, id) then InsertAt(Visible(c), SlotAfter(c, previous), id) else Visible(c)
  {
    if c.filtered.Some? {
      SubseqNoDups(c.filtered.value, c.all);
    }
    if previous.None? {
      PassingInsertFirst(c.all, id, c.filters, passes);
    } else {
      PassingInsertAfter(c.all, Visible(c), previous.value, id, c.filters, passes);
    }
  }

  /**
   * `internalAddItemAfter` on a consistent container: an id that passes the
   * filters appears in the view right after the previous id (first when
   * that is `null`), and listeners are told.
   */
  lemma AddItemAfterLandsAfterPrevious<Id(!new), F, Item>(c: Container<Id, F>, previous: Option<Id>, id: Id, item: Option<Item>, passes: (F, Id) -> bool)
    requires Valid(c) && Consistent(c, passes) && PassesFilters(c.filters, passes, id)
    requires InternalAddItemAfter(c, previous, Some(id), item, passes).item.Some?
    ensures 0 <= SlotAfter(c, previous) <= Size(c)
    ensures var r := InternalAddItemAfter(c, previous, Some(id), item, passes);
      Visible(r.next) == InsertAt(Visible(c), SlotAfter(c, previous), id) && r.fired
  {
    var pos := AddItemAfterPosition(c, previous, id, item, passes);
    PassingAfterAdd(c, previous, id, pos, passes);
    var w := InsertAt(Visible(c), SlotAfter(c, previous), id);
    assert w[SlotAfter(c, previous)] == id;
  }

  /** An added id that the filters hide leaves the view unchanged, and nothing is fired. */
  lemma AddHiddenItemKeepsView<Id(!new), F, Item>(c: Container<Id, F>, previous: Option<Id>, id: Id, item: Option<Item>, passes: (F, Id) -> bool)
    requires Valid(c) && Consistent(c, passes) && !PassesFilters(c.filters, passes, id)
    requires InternalAddItemAfter(c, previous, Some(id), item, passes).item.Some?
    ensures var r := InternalAddItemAfter(c, previous, Some(id), item, passes);
      Visible(r.next) == Visible(c) && !r.fired
  {
    var pos := AddItemAfterPosition(c, previous, id, item, passes);
    PassingAfterAdd(c, previous, id, pos, passes);
  }

  /** Where a successful `internalAddItemAfter` inserted, and what the view became. */
  lemma AddItemAfterPosition<Id(!new), F, Item>(c: Container<Id, F>, previous: Option<Id>, id: Id, item: Option<Item>, passes: (F, Id) -> bool)
    returns (pos: int)
    requires Valid(c)
    requires InternalAddItemAfter(c, previous, Some(id), item, passes).item.Some?
    ensures id !in Visible(c)
    ensures previous.Some? ==> previous.value in Visible(c) && previous.value in c.all
    ensures pos == if previous.None? then 0 else IndexOf(c.all, previous.value) + 1
    ensures 0 <= pos <= |c.all|
    ensures var r := InternalAddItemAfter(c, previous, Some(id), item, passes);
      && Visible(r.next) == Passing(InsertAt(c.all, pos, id), c.filters, passes)
      && (r.fired <==> Visible(r.next) != Visible(c))
  {
    VisibleIsOrderedSubsequence(c);
    pos := PositionAfter(c, previous).value;
  }

  /** After inserting after a visible id, that id's successor is the new id. */
  lemma AddItemAfterThenNext<Id(!new), F, Item>(c: Container<Id, F>, previous: Id, id: Id, item: Option<Item>, passes: (F, Id) -> bool)
    requires Valid(c) && Consistent(c, passes) && PassesFilters(c.filters, passes, id)
    requires ContainsId(c, Some(previous)) && item.Some? && id !in c.all
    ensures NextItemId(InternalAddItemAfter(c, Some(previous), Some(id), item, passes).next, Some(previous)) == Some(id)
  {
    var r := InternalAddItemAfter(c, Some(previous), Some(id), item, passes);
    AddItemAfterLandsAfterPrevious(c, Some(previous), id, item, passes);
    var v := Visible(c);
    var j := IndexOf(v, previous) + 1;
    var w := Visible(r.next);
    assert w[j - 1] == previous && w[j] == id;
    NextItemIdIsSuccessor(r.next, Some(previous), id);
  }

  /**
   * `internalAddItemAt(i, id)` on a consistent container puts a passing id
   * at visible index `i`.
   */
  lemma AddItemAtLandsAtIndex<Id(!new), F, Item>(c: Container<Id, F>, index: int, id: Id, item: Option<Item>, passes: (F, Id) -> bool)
    requires Valid(c) && Consistent(c, passes) && PassesFilters(c.filters, passes, id)
    requires InternalAddItemAt(c, index, Some(id), item, passes).item.Some?
    ensures var r := InternalAddItemAt(c, index, Some(id), item, passes);
      && Visible(r.next) == InsertAt(Visible(c), index, id)
      && IndexOfId(r.next, Some(id)) == index
      && r.fired
  {
    assert 0 <= index <= Size(c);
    var prev := PreviousAt(c, index);
    assert InternalAddItemAt(c, index, Some(id), item, passes) == InternalAddItemAfter(c, prev, Some(id), item, passes);
    SlotAfterPreviousAt(c, index);
    AddItemAfterLandsAfterPrevious(c, prev, id, item, passes);
    NewIdNotVisible(c, id);
    IndexOfInsertAt(Visible(c), index, id);
  }

  /** The visible id after which `internalAddItemAt` inserts, `null` for index 0. */
  function PreviousAt<Id(==,!new), F>(c: Container<Id, F>, index: int): Option<Id>
    requires 0 <= index <= Size(c)
  {
    if index == 0 then None else Some(Visible(c)[index - 1])
  }

  /** The view slot after the id before `index` is `index` itself. */
  lemma SlotAfterPreviousAt<Id(!new), F>(c: Container<Id, F>, index: int)
    requires ListsValid(c) && 0 <= index <= Size(c)
    ensures SlotAfter(c, PreviousAt(c, index)) == index
  {
    if index > 0 {
      VisibleNoDups(c);
      IndexOfNoDups(Visible(c), index - 1);
    }
  }

  /** An id missing from the full list is not visible. */
  lemma NewIdNotVisible<Id(!new), F>(c: Container<Id, F>, id: Id)
    requires ListsValid(c) && id !in c.all
    ensures id !in Visible(c)
  {
    if c.filtered.Some? {
      SubseqMembers(c.filtered.value, c.all);
    }
  }

  /** `internalAddItemAtEnd` with filtering appends a passing id to the view. */
  lemma AddItemAtEndAppends<Id(!new), F, Item>(c: Container<Id, F>, id: Id, item: Option<Item>, passes: (F, Id) -> bool)
    requires Valid(c) && Consistent(c, passes) && PassesFilters(c.filters, passes, id)
    requires InternalAddItemAtEnd(c, Some(id), item, true, passes).item.Some?
    ensures var r := InternalAddItemAtEnd(c, Some(id), item, true, passes);
      Visible(r.next) == Visible(c) + [id] && LastItemId(r.next) == Some(id) && r.fired
  {
    PassingConcat(c.all, [id], c.filters, passes);
  }

  // ---------------------------------------------------------------------
  // Sorting

  lemma {:induction false} SubseqSorted<T>(a: seq<T>, b: seq<T>, le: (T, T) -> bool)
    requires IsSubseq(a, b) && SortedBy(b, le)
    ensures SortedBy(a, le)
    decreases |b|
  {
    if |a| > 0 {
      assert SortedBy(b[1..], le);
      if a[0] == b[0] {
        SubseqSorted(a[1..], b[1..], le);
        SubseqMembers(a[1..], b[1..]);
        forall j | 0 < j < |a| ensures le(a[0], a[j]) {
          assert a[j] in a[1..];
          var k :| 0 <= k < |b[1..]| && b[1..][k] == a[j];
          assert b[k + 1] == a[j];
        }
      } else {
        SubseqSorted(a, b[1..], le);
      }
    }
  }

  /**
   * A successful sort leaves a view ordered by the sorter, holding exactly
   * the ids that passed the filters before.
   */
  lemma SortOrdersView<Id(!new), F>(c: Container<Id, F>, le: (Id, Id) -> bool, passes: (F, Id) -> bool)
    requires Valid(c) && Consistent(c, passes) && c.sortable && TotalPreorder(le)
    ensures var r := Sort(c, le, passes).value;
      && SortedBy(Visible(r.next), le)
      && forall x :: x in Visible(r.next) <==> x in Visible(c)
  {
    var r := Sort(c, le, passes).value;
    VisibleIsOrderedSubsequence(r.next);
    SubseqSorted(Visible(r.next), r.next.all, le);
    forall x ensures x in r.next.all <==> x in c.all {
      assert x in multiset(r.next.all) <==> x in multiset(c.all);
    }
  }
}
