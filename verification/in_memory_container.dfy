/**
 * The identifier bookkeeping of an in-memory container: an ordered full list
 * of item ids without duplicates, an optional filtered list that, when
 * present, is what callers see, and a set of filters.
 *
 * Filters are values of a type `F` whose verdict on an item is the function
 * `passes(f, id)` (the item being the one registered under `id`), and whose
 * dependence on a property is `applies(f, p)`. Each operation returns the new
 * container and, where `AbstractInMemoryContainer` notifies listeners,
 * whether an item set change event was fired.
 */
module InMemoryContainer {
  import opened Wrappers
  import opened Lists
  import opened Sorting

  /** The exceptions `AbstractInMemoryContainer` raises. */
  datatype Exception = IndexOutOfBounds | UnsupportedOperation

  datatype Result<T> = Ok(value: T) | Thrown(error: Exception)

  /**
   * `all` is the full id list, `filtered` the id list after filtering (None
   * while the full list is shown), `filters` the active filters and
   * `sortable` whether the concrete container implements Sortable.
   */
  datatype Container<Id, F> = Container(
    all: seq<Id>,
    filtered: Option<seq<Id>>,
    filters: set<F>,
    sortable: bool)

  /** A new container state and whether an item set change was fired. */
  datatype Step<Id, F> = Step(next: Container<Id, F>, fired: bool)

  /** The outcome of an insertion: the added item, or None when nothing was added. */
  datatype Added<Id, F, Item> = Added(next: Container<Id, F>, item: Option<Item>, fired: bool)

  /** The outcome of `removeFilters`: the filters taken out of the container. */
  datatype FiltersRemoved<Id, F> = FiltersRemoved(next: Container<Id, F>, removed: set<F>, fired: bool)

  /** The outcome of removing one item: whether an item was removed. */
  datatype ItemRemoved<Id, F> = ItemRemoved(next: Container<Id, F>, removed: bool)

  /** A freshly constructed container: empty full list, no filtered list, no filters. */
  function Empty<Id(==,!new), F>(sortable: bool): (c: Container<Id, F>)
    ensures Valid(c) && Size(c) == 0
  {
    Container([], None, {}, sortable)
  }

  /**
   * What the container keeps true between operations: the full list has no
   * duplicates, the filtered list keeps a subset of it in its order, and a
   * filtered list exists exactly while there are filters.
   */
  predicate Valid<Id(==,!new), F>(c: Container<Id, F>) {
    && ListsValid(c)
    && (c.filtered.Some? <==> c.filters != {})
  }

  /** The part of `Valid` about the two id lists alone. */
  predicate ListsValid<Id(==,!new), F>(c: Container<Id, F>) {
    && NoDups(c.all)
    && (c.filtered.Some? ==> IsSubseq(c.filtered.value, c.all))
  }

  // ---------------------------------------------------------------------
  // The visible view and navigation over it

  /** `getVisibleItemIds`: the filtered list if there is one, else the full list. */
  function Visible<Id(==,!new), F>(c: Container<Id, F>): (v: seq<Id>)
    ensures Valid(c) && c.filters == {} ==> v == c.all
    ensures ListsValid(c) ==> |v| <= |c.all|
  {
    assert ListsValid(c) && c.filtered.Some? ==> |c.filtered.value| <= |c.all| by {
      if ListsValid(c) && c.filtered.Some? {
        SubseqMembers(c.filtered.value, c.all);
      }
    }
    if c.filtered.Some? then c.filtered.value else c.all
  }

  /** `size`: the number of visible ids, at most the number of ids held. */
  function Size<Id(==,!new), F>(c: Container<Id, F>): (n: nat)
    ensures ListsValid(c) ==> n <= |c.all|
    ensures Valid(c) && c.filters == {} ==> n == |c.all|
  {
    |Visible(c)|
  }

  /** `indexOfId`; no list holds `null`, so its index is -1. */
  function IndexOfId<Id(==,!new), F>(c: Container<Id, F>, x: Option<Id>): (r: int)
    ensures -1 <= r < Size(c)
    ensures 0 <= r ==> x == Some(Visible(c)[r])
    ensures r == -1 <==> x.None? || x.value !in Visible(c)
  {
    if x.None? then -1 else IndexOf(Visible(c), x.value)
  }

  /** `containsId`: only visible ids are in the container. */
  function ContainsId<Id(==,!new), F>(c: Container<Id, F>, x: Option<Id>): (r: bool)
    ensures r <==> 0 <= IndexOfId(c, x)
    ensures r ==> x.Some?
  {
    if x.None? then false else x.value in Visible(c)
  }

  /** `getIdByIndex`: `List.get` throws outside the visible list. */
  function GetIdByIndex<Id(==,!new), F>(c: Container<Id, F>, i: int): (r: Result<Id>)
    ensures r.Ok? <==> 0 <= i < Size(c)
    ensures r.Thrown? ==> r.error == IndexOutOfBounds
    ensures r.Ok? ==> r.value in Visible(c)
  {
    if 0 <= i < Size(c) then Ok(Visible(c)[i]) else Thrown(IndexOutOfBounds)
  }

  function NextItemId<Id(==,!new), F>(c: Container<Id, F>, x: Option<Id>): (r: Option<Id>)
    ensures r.Some? ==> ContainsId(c, x) && r.value in Visible(c)
  {
    var i := IndexOfId(c, x);
    if 0 <= i < Size(c) - 1 then Some(Visible(c)[i + 1]) else None
  }

  function PrevItemId<Id(==,!new), F>(c: Container<Id, F>, x: Option<Id>): (r: Option<Id>)
    ensures r.Some? ==> ContainsId(c, x) && r.value in Visible(c)
    ensures r.None? <==> !ContainsId(c, x) || IsFirstId(c, x)
  {
    var i := IndexOfId(c, x);
    if i > 0 then Some(Visible(c)[i - 1]) else None
  }

  function FirstItemId<Id(==,!new), F>(c: Container<Id, F>): (r: Option<Id>)
    ensures r.None? <==> Size(c) == 0
  {
    if Size(c) > 0 then Some(Visible(c)[0]) else None
  }

  function LastItemId<Id(==,!new), F>(c: Container<Id, F>): (r: Option<Id>)
    ensures r.None? <==> Size(c) == 0
  {
    if Size(c) > 0 then Some(Visible(c)[Size(c) - 1]) else None
  }

  /** `isFirstId`: `null` is never first, and nothing equals the `null` of an empty container. */
  function IsFirstId<Id(==,!new), F>(c: Container<Id, F>, x: Option<Id>): (r: bool)
    ensures r <==> IndexOfId(c, x) == 0
  {
    x.Some? && x == FirstItemId(c)
  }

  /** `isLastId`: on a valid container, exactly the id at the last visible index. */
  function IsLastId<Id(==,!new), F>(c: Container<Id, F>, x: Option<Id>): (r: bool)
    ensures r ==> ContainsId(c, x)
    ensures ListsValid(c) ==> (r <==> IndexOfId(c, x) == Size(c) - 1 >= 0)
  {
    var v := Visible(c);
    assert ListsValid(c) && |v| > 0 ==> IndexOf(v, v[|v| - 1]) == |v| - 1 by {
      if ListsValid(c) && |v| > 0 {
        if c.filtered.Some? {
          SubseqNoDups(c.filtered.value, c.all);
        }
        IndexOfNoDups(v, |v| - 1);
      }
    }
    x.Some? && x == LastItemId(c)
  }

  // ---------------------------------------------------------------------
  // Filtering

  /** `passesFilters`: every active filter accepts the item (vacuous with no filters). */
  function PassesFilters<Id(==,!new), F>(filters: set<F>, passes: (F, Id) -> bool, id: Id): (r: bool)
    ensures filters == {} ==> r
    ensures !r <==> exists f | f in filters :: !passes(f, id)
  {
    forall f | f in filters :: passes(f, id)
  }

  /** The ids of `ids` that pass every filter, in their order. */
  function Passing<Id(==,!new), F>(ids: seq<Id>, filters: set<F>, passes: (F, Id) -> bool): (r: seq<Id>)
    ensures IsSubseq(r, ids)
    ensures forall id :: id in r <==> id in ids && PassesFilters(filters, passes, id)
  {
    if |ids| == 0 then []
    else
      var rest := Passing(ids[1..], filters, passes);
      assert ids == [ids[0]] + ids[1..];
      if PassesFilters(filters, passes, ids[0]) then
        assert ([ids[0]] + rest)[1..] == rest;
        [ids[0]] + rest
      else
        SubseqCons(rest, ids[1..], ids[0]);
        rest
  }

  /** With no filters every id passes. */
  lemma {:induction false} PassingNoFilters<Id(!new), F>(ids: seq<Id>, passes: (F, Id) -> bool)
    ensures Passing(ids, {}, passes) == ids
  {
    if |ids| > 0 {
      PassingNoFilters(ids[1..], passes);
    }
  }

  lemma {:induction false} PassingConcat<Id(!new), F>(a: seq<Id>, b: seq<Id>, filters: set<F>, passes: (F, Id) -> bool)
    ensures Passing(a + b, filters, passes) == Passing(a, filters, passes) + Passing(b, filters, passes)
  {
    if |a| > 0 {
      PassingConcat(a[1..], b, filters, passes);
      assert (a + b)[1..] == a[1..] + b;
    } else {
      assert a + b == b;
    }
  }

  /** Filtering and removing an id commute on a list without duplicates. */
  lemma {:induction false} PassingRemoveFirst<Id(!new), F>(ids: seq<Id>, x: Id, filters: set<F>, passes: (F, Id) -> bool)
    requires NoDups(ids)
    ensures Passing(RemoveFirst(ids, x), filters, passes) == RemoveFirst(Passing(ids, filters, passes), x)
  {
    if |ids| > 0 {
      assert NoDups(ids[1..]);
      if ids[0] == x {
        assert x !in ids[1..];
        assert x !in Passing(ids[1..], filters, passes);
      } else {
        PassingRemoveFirst(ids[1..], x, filters, passes);
        assert RemoveFirst(ids, x) == [ids[0]] + RemoveFirst(ids[1..], x);
        assert ([ids[0]] + RemoveFirst(ids[1..], x))[1..] == RemoveFirst(ids[1..], x);
      }
    }
  }

  /**
   * The `equal` flag of the Java filtering loop once the ids in `kept`
   * have been appended to the new list: each appended id must be the next
   * one of the previous list's iterator, which only advances while the flag
   * holds.
   */
  function StillEqual<Id(==,!new)>(kept: seq<Id>, orig: seq<Id>): (equal: bool)
    ensures equal <==> |kept| <= |orig| && kept == orig[..|kept|]
  {
    if |kept| == 0 then true
    else
      var n := |kept| - 1;
      var equal := StillEqual(kept[..n], orig) && n < |orig| && orig[n] == kept[n];
      assert equal <==> |kept| <= |orig| && kept == orig[..|kept|] by {
        if |kept| <= |orig| {
          EqualBySnoc(kept, orig[..|kept|]);
          assert orig[..|kept|][..n] == orig[..n];
        }
      }
      equal
  }

  /**
   * The loop's verdict `!equal || origIt.hasNext()`: while the flag holds,
   * the iterator has consumed exactly `|kept|` ids.
   */
  function ListChanged<Id(==,!new)>(kept: seq<Id>, orig: seq<Id>): (changed: bool)
    ensures changed <==> kept != orig
  {
    !StillEqual(kept, orig) || |orig| > |kept|
  }

  /**
   * The body of `doFilterContainer`, comparing the new filtered list with
   * `orig`. Without filters the filtered list is dropped and a change is
   * reported when the full and visible lengths differ.
   */
  function Refilter<Id(==,!new), F>(c: Container<Id, F>, hasFilters: bool, passes: (F, Id) -> bool, orig: seq<Id>): (r: Step<Id, F>)
    ensures r.next == c.(filtered := r.next.filtered)
    ensures !hasFilters ==> r.next.filtered.None? && (r.fired <==> |c.all| != Size(c))
    ensures hasFilters ==> r.next.filtered == Some(Passing(c.all, c.filters, passes))
    ensures hasFilters ==> (r.fired <==> Passing(c.all, c.filters, passes) != orig)
    ensures NoDups(c.all) && (hasFilters <==> c.filters != {}) ==> Valid(r.next)
  {
    if !hasFilters then
      Step(c.(filtered := None), |c.all| != Size(c))
    else
      var kept := Passing(c.all, c.filters, passes);
      Step(c.(filtered := Some(kept)), ListChanged(kept, orig))
  }

  /** The previous filtered list as the Java method reads it: `null` counts as empty. */
  function FilteredOrEmpty<Id(==,!new), F>(c: Container<Id, F>): seq<Id> {
    if c.filtered.Some? then c.filtered.value else []
  }

  /**
   * `doFilterContainer` as written: a previous `null` filtered list is
   * compared as if it were empty, although the full list was visible.
   */
  function DoFilterContainerAsWritten<Id(==,!new), F>(c: Container<Id, F>, hasFilters: bool, passes: (F, Id) -> bool): (r: Step<Id, F>)
    ensures r.next.all == c.all && r.next.filters == c.filters
    ensures !hasFilters ==> r.next.filtered.None? && (r.fired <==> |c.all| != Size(c))
    ensures hasFilters ==> r.next.filtered == Some(Passing(c.all, c.filters, passes))
    ensures hasFilters && c.filtered.Some? ==> (r.fired <==> Visible(r.next) != c.filtered.value)
    ensures hasFilters && c.filtered.None? ==> (r.fired <==> Visible(r.next) != [])
  {
    Refilter(c, hasFilters, passes, FilteredOrEmpty(c))
  }

  /**
   * Applying the first filter to a container whose full list is visible:
   * when the filter hides every id the view empties, yet the as-written
   * comparison against an empty list reports no change.
   */
  lemma FirstFilterHidingAllIsNotReported<Id(!new), F>(c: Container<Id, F>, passes: (F, Id) -> bool)
    requires c.filtered.None? && |c.all| > 0
    requires forall id :: id in c.all ==> !PassesFilters(c.filters, passes, id)
    ensures var r := DoFilterContainerAsWritten(c, true, passes);
      Visible(r.next) == [] && Visible(c) != [] && !r.fired
  {
    PassingNone(c.all, c.filters, passes);
  }

  lemma {:induction false} PassingNone<Id(!new), F>(ids: seq<Id>, filters: set<F>, passes: (F, Id) -> bool)
    requires forall id :: id in ids ==> !PassesFilters(filters, passes, id)
    ensures Passing(ids, filters, passes) == []
  {
    if |ids| > 0 {
      assert ids[0] in ids;
      PassingNone(ids[1..], filters, passes);
    }
  }

  /**
   * `doFilterContainer`, corrected: when a non-empty container that showed
   * its full list gets filtered, a change is reported whatever passes, so
   * that a first filter hiding every id is reported too. Everywhere else it
   * is the Java method.
   */
  function DoFilterContainer<Id(==,!new), F>(c: Container<Id, F>, hasFilters: bool, passes: (F, Id) -> bool): (r: Step<Id, F>)
    ensures r.next.all == c.all && r.next.filters == c.filters && r.next.sortable == c.sortable
    ensures !hasFilters ==> r.next.filtered.None? && (r.fired <==> |c.all| != Size(c))
    ensures hasFilters ==> r.next.filtered == Some(Passing(c.all, c.filters, passes))
    ensures NoDups(c.all) && (hasFilters <==> c.filters != {}) ==> Valid(r.next)
    ensures hasFilters && c.filtered.Some? ==> (r.fired <==> Visible(r.next) != Visible(c))
    ensures hasFilters && c.filtered.None? ==> (r.fired <==> c.all != [])
    ensures ListsValid(c) && !hasFilters ==> (r.fired <==> Visible(r.next) != Visible(c))
    ensures ListsValid(c) || hasFilters ==> (Visible(r.next) != Visible(c) ==> r.fired)
  {
    var w := DoFilterContainerAsWritten(c, hasFilters, passes);
    assert ListsValid(c) && !hasFilters ==> (w.fired <==> c.all != Visible(c)) by {
      if ListsValid(c) && !hasFilters && c.filtered.Some? && |c.all| == Size(c) {
        SubseqSameLength(c.filtered.value, c.all);
      }
    }
    if hasFilters && c.filtered.None? && |c.all| > 0 then w.(fired := true) else w
  }

  /**
   * The correction changes nothing but the fired flag, and that only when
   * a non-empty, unfiltered container is filtered down to nothing.
   */
  lemma CorrectionAddsOnlyTheMissedEvent<Id(!new), F>(c: Container<Id, F>, hasFilters: bool, passes: (F, Id) -> bool)
    ensures DoFilterContainer(c, hasFilters, passes).next == DoFilterContainerAsWritten(c, hasFilters, passes).next
    ensures DoFilterContainer(c, hasFilters, passes).fired != DoFilterContainerAsWritten(c, hasFilters, passes).fired
      <==> hasFilters && c.filtered.None? && c.all != [] && Passing(c.all, c.filters, passes) == []
  {
  }

  /** Whether the container's view is exactly the ids of the full list passing every filter. */
  predicate Consistent<Id(==,!new), F>(c: Container<Id, F>, passes: (F, Id) -> bool) {
    Visible(c) == Passing(c.all, c.filters, passes)
  }

  /** `filterAll`: re-filter, telling listeners when the view changed (or a first filter was applied). */
  function FilterAll<Id(==,!new), F>(c: Container<Id, F>, passes: (F, Id) -> bool): (r: Step<Id, F>)
    ensures r.next.all == c.all && r.next.filters == c.filters && r.next.sortable == c.sortable
    ensures Consistent(r.next, passes)
    ensures r.next.filtered.None? <==> c.filters == {}
    ensures NoDups(c.all) ==> Valid(r.next)
    ensures ListsValid(c) && (c.filters != {} ==> c.filtered.Some?) ==> (r.fired <==> Visible(r.next) != Visible(c))
    ensures c.filters != {} && c.filtered.None? ==> (r.fired <==> c.all != [])
    ensures ListsValid(c) || c.filters != {} ==> (Visible(r.next) != Visible(c) ==> r.fired)
  {
    assert c.filters == {} ==> Passing(c.all, c.filters, passes) == c.all by {
      if c.filters == {} {
        PassingNoFilters(c.all, passes);
      }
    }
    DoFilterContainer(c, c.filters != {}, passes)
  }

  /** `addFilter`: the new filter joins the set and the view is re-filtered. */
  function AddFilter<Id(==,!new), F>(c: Container<Id, F>, f: F, passes: (F, Id) -> bool): (r: Step<Id, F>)
    ensures r.next.all == c.all && r.next.filters == c.filters + {f}
    ensures Visible(r.next) == Passing(c.all, c.filters + {f}, passes)
    ensures forall id :: id in Visible(r.next) ==> passes(f, id)
    ensures c.filtered.Some? ==> (r.fired <==> Visible(r.next) != Visible(c))
    ensures c.filtered.None? ==> (r.fired <==> c.all != [])
    ensures Visible(r.next) != Visible(c) ==> r.fired
    ensures Valid(c) ==> Valid(r.next)
  {
    FilterAll(c.(filters := c.filters + {f}), passes)
  }

  /** `removeAllFilters`: nothing happens without filters; otherwise the full list is shown again. */
  function RemoveAllFilters<Id(==,!new), F>(c: Container<Id, F>, passes: (F, Id) -> bool): (r: Step<Id, F>)
    ensures c.filters == {} ==> r == Step(c, false)
    ensures r.next.filters == {} && r.next.all == c.all
    ensures c.filters != {} ==> r.next == c.(filters := {}, filtered := None)
    ensures c.filters != {} ==> Visible(r.next) == c.all
    ensures Valid(c) ==> Valid(r.next) && (r.fired <==> Visible(r.next) != Visible(c))
  {
    if c.filters == {} then Step(c, false)
    else FilterAll(c.(filters := {}), passes)
  }

  /** `isPropertyFiltered`. */
  function IsPropertyFiltered<Id(==,!new), F, P>(c: Container<Id, F>, p: Option<P>, applies: (F, P) -> bool): (r: bool)
    ensures r <==> p.Some? && exists f | f in c.filters :: applies(f, p.value)
  {
    if c.filters == {} || p.None? then false
    else exists f | f in c.filters :: applies(f, p.value)
  }

  /**
   * `removeFilters`: takes out every filter that applies to the property and
   * re-filters only if one was taken out.
   */
  function RemoveFilters<Id(==,!new), F(!new), P>(c: Container<Id, F>, p: Option<P>, applies: (F, P) -> bool, passes: (F, Id) -> bool)
    : (r: FiltersRemoved<Id, F>)
    ensures r.removed <= c.filters
    ensures p.Some? ==> forall f :: f in r.removed <==> f in c.filters && applies(f, p.value)
    ensures r.next.filters == c.filters - r.removed
    ensures r.removed == {} ==> r.next == c && !r.fired
    ensures r.removed != {} <==> IsPropertyFiltered(c, p, applies)
    ensures !IsPropertyFiltered(r.next, p, applies)
    ensures r.removed != {} ==> Consistent(r.next, passes)
    ensures Valid(c) ==> Valid(r.next) && (r.fired <==> Visible(r.next) != Visible(c))
  {
    if c.filters == {} || p.None? then FiltersRemoved(c, {}, false)
    else
      var removed := set f | f in c.filters && applies(f, p.value);
      if removed == {} then
        assert c.filters - removed == c.filters;
        FiltersRemoved(c, {}, false)
      else
        var s := FilterAll(c.(filters := c.filters - removed), passes);
        FiltersRemoved(s.next, removed, s.fired)
  }

  // ---------------------------------------------------------------------
  // Sorting

  /**
   * `sort`: only a Sortable container can be sorted. `le` is the item sorter
   * as configured for the requested properties and directions; the full list
   * is sorted, then re-filtered when a filtered list exists and otherwise a
   * change is fired unconditionally.
   */
  function Sort<Id(==,!new), F>(c: Container<Id, F>, le: (Id, Id) -> bool, passes: (F, Id) -> bool): (r: Result<Step<Id, F>>)
    ensures r.Thrown? <==> !c.sortable
    ensures r.Thrown? ==> r.error == UnsupportedOperation
    ensures r.Ok? ==> multiset(r.value.next.all) == multiset(c.all)
    ensures r.Ok? && TotalPreorder(le) ==> SortedBy(r.value.next.all, le)
    ensures r.Ok? ==> r.value.next.filters == c.filters
    ensures r.Ok? && c.filtered.None? ==> r.value.fired && Visible(r.value.next) == r.value.next.all
    ensures r.Ok? && c.filtered.Some? ==> Consistent(r.value.next, passes)
    ensures r.Ok? && c.filtered.Some? && c.filters != {} ==> (r.value.fired <==> Visible(r.value.next) != Visible(c))
    ensures r.Ok? && Valid(c) ==> Valid(r.value.next)
  {
    if !c.sortable then Thrown(UnsupportedOperation)
    else
      var sorted := c.(all := DoSort(c.all, le));
      assert NoDups(c.all) ==> NoDups(sorted.all) by {
        if NoDups(c.all) {
          PermutationNoDups(c.all, sorted.all);
        }
      }
      if sorted.filtered.Some? then Ok(FilterAll(sorted, passes))
      else Ok(Step(sorted, true))
  }

  /** `doSort`: `Collections.sort` of the full list with the item sorter. */
  function DoSort<Id(!new)>(all: seq<Id>, le: (Id, Id) -> bool): (r: seq<Id>)
    ensures multiset(r) == multiset(all)
    ensures TotalPreorder(le) ==> SortedBy(r, le)
  {
    InsertionSort(all, le)
  }

  // ---------------------------------------------------------------------
  // Removing items (no notification: the caller fires one)

  /** `internalRemoveAllItems`: both lists are emptied; a missing filtered list stays missing. */
  function InternalRemoveAllItems<Id(==,!new), F>(c: Container<Id, F>): (r: Container<Id, F>)
    ensures r.all == [] && Size(r) == 0
    ensures r.filters == c.filters && r.sortable == c.sortable
    ensures r.filtered.Some? <==> c.filtered.Some?
    ensures Valid(c) ==> Valid(r)
  {
    c.(all := [], filtered := if c.filtered.Some? then Some([]) else None)
  }

  /** `internalRemoveItem`: strikes the id from the full list and, if it was there, from the filtered one. */
  function InternalRemoveItem<Id(==,!new), F>(c: Container<Id, F>, x: Option<Id>): (r: ItemRemoved<Id, F>)
    ensures x.None? ==> r == ItemRemoved(c, false)
    ensures x.Some? ==> (r.removed <==> x.value in c.all)
    ensures !r.removed ==> r.next == c
    ensures r.removed ==> r.next.all == c.all[..IndexOf(c.all, x.value)] + c.all[IndexOf(c.all, x.value) + 1..]
    ensures r.next.filters == c.filters && r.next.sortable == c.sortable
    ensures r.next.filtered.Some? <==> c.filtered.Some?
    ensures Valid(c) ==> Valid(r.next)
    ensures Valid(c) && x.Some? ==> forall y :: y in Visible(r.next) <==> y in Visible(c) && y != x.value
  {
    if x.None? then ItemRemoved(c, false)
    else if x.value !in c.all then
      assert Valid(c) && c.filtered.Some? ==> x.value !in c.filtered.value by {
        if Valid(c) && c.filtered.Some? {
          SubseqMembers(c.filtered.value, c.all);
        }
      }
      ItemRemoved(c, false)
    else
      var next := c.(
        all := RemoveFirst(c.all, x.value),
        filtered := if c.filtered.Some? then Some(RemoveFirst(c.filtered.value, x.value)) else None);
      RemoveItemKeepsValid(c, x.value, next);
      ItemRemoved(next, true)
  }

  lemma RemoveItemKeepsValid<Id(!new), F>(c: Container<Id, F>, x: Id, next: Container<Id, F>)
    requires next == c.(
      all := RemoveFirst(c.all, x),
      filtered := if c.filtered.Some? then Some(RemoveFirst(c.filtered.value, x)) else None)
    ensures Valid(c) ==> Valid(next)
    ensures Valid(c) ==> forall y :: y in Visible(next) <==> y in Visible(c) && y != x
  {
    if Valid(c) {
      RemoveFirstMembers(c.all, x);
      if c.filtered.Some? {
        SubseqRemoveFirst(c.filtered.value, c.all, x);
        SubseqNoDups(c.filtered.value, c.all);
        RemoveFirstMembers(c.filtered.value, x);
      }
    }
  }

  // ---------------------------------------------------------------------
  // Adding items

  /**
   * `internalAddAt`: inserts the id into the full list at `position`, unless
   * the position is outside the list, the id or item is `null`, or the id is
   * already present. The filtered list is left for the caller to refresh.
   */
  function InternalAddAt<Id(==,!new), F, Item>(c: Container<Id, F>, position: int, id: Option<Id>, item: Option<Item>)
    : (r: Added<Id, F, Item>)
    ensures r.item.Some? <==> 0 <= position <= |c.all| && id.Some? && item.Some? && id.value !in c.all
    ensures r.item.None? ==> r.next == c
    ensures r.item.Some? ==> r.item == item && r.next.all == InsertAt(c.all, position, id.value)
    ensures r.item.Some? ==> RemoveFirst(r.next.all, id.value) == c.all
    ensures r.next.filtered == c.filtered && r.next.filters == c.filters && r.next.sortable == c.sortable
    ensures !r.fired
    ensures Valid(c) ==> Valid(r.next)
  {
    if position < 0 || position > |c.all| || id.None? || item.None? then Added(c, None, false)
    else if id.value in c.all then Added(c, None, false)
    else
      var all := InsertAt(c.all, position, id.value);
      RemoveFirstInsertAt(c.all, position, id.value);
      assert Valid(c) ==> Valid(c.(all := all)) by {
        if Valid(c) {
          InsertKeepsNoDups(c.all, position, id.value);
          if c.filtered.Some? {
            SubseqInsertAt(c.filtered.value, c.all, position, id.value);
          }
        }
      }
      Added(c.(all := all), item, false)
  }

  lemma InsertKeepsNoDups<T>(s: seq<T>, p: int, x: T)
    requires NoDups(s) && 0 <= p <= |s| && x !in s
    ensures NoDups(InsertAt(s, p, x))
  {
    var t := InsertAt(s, p, x);
    forall i, j | 0 <= i < j < |t| ensures t[i] != t[j] {
      if i < p && j > p {
        assert t[i] == s[i] && t[j] == s[j - 1];
      } else if i > p {
        assert t[i] == s[i - 1] && t[j] == s[j - 1];
      } else if i == p {
        assert t[j] == s[j - 1];
      } else if j == p {
        assert t[i] == s[i];
      } else {
        assert t[i] == s[i] && t[j] == s[j];
      }
    }
  }

  /**
   * After a successful insertion the view is re-filtered; when no filtered
   * list results, `fireItemAdded` sends an event on top.
   */
  function RefreshAfterAdd<Id(==,!new), F, Item>(a: Added<Id, F, Item>, passes: (F, Id) -> bool): (r: Added<Id, F, Item>)
    requires a.item.Some?
    ensures r.item == a.item && r.next.all == a.next.all && r.next.filters == a.next.filters
    ensures r.next.sortable == a.next.sortable
    ensures Consistent(r.next, passes)
    ensures NoDups(a.next.all) ==> Valid(r.next)
    ensures Valid(a.next) ==> (r.fired <==> r.next.filtered.None? || Visible(r.next) != Visible(a.next))
  {
    var s := FilterAll(a.next, passes);
    Added(s.next, a.item, s.fired || s.next.filtered.None?)
  }

  /**
   * `internalAddAt` followed, on success, by `filterAll` and the extra
   * `fireItemAdded` event sent when there is no filtered list.
   */
  function AddAndRefresh<Id(==,!new), F, Item>(c: Container<Id, F>, position: int, id: Option<Id>, item: Option<Item>, passes: (F, Id) -> bool)
    : (r: Added<Id, F, Item>)
    requires 0 <= position <= |c.all|
    ensures r.item.Some? <==> id.Some? && item.Some? && id.value !in c.all
    ensures r.item.None? ==> r == Added(c, None, false)
    ensures r.item.Some? ==> r.item == item && r.next.all == InsertAt(c.all, position, id.value)
    ensures r.item.Some? ==> Consistent(r.next, passes) && r.next.filters == c.filters
    ensures Valid(c) ==> Valid(r.next)
    ensures Valid(c) && r.item.Some? ==> (r.fired <==> Visible(r.next) != Visible(c))
  {
    var a := InternalAddAt(c, position, id, item);
    if a.item.Some? then
      var r := RefreshAfterAdd(a, passes);
      assert Valid(c) && r.next.filtered.None? ==> Visible(r.next) != Visible(c) by {
        if Valid(c) && r.next.filtered.None? {
          AddChangesView(c, a.next, r.next, id.value);
        }
      }
      r
    else a
  }

  /** `internalAddItemAtEnd`: appends, and re-filters only when `filter` is set. */
  function InternalAddItemAtEnd<Id(==,!new), F, Item>(c: Container<Id, F>, id: Option<Id>, item: Option<Item>, filter: bool, passes: (F, Id) -> bool)
    : (r: Added<Id, F, Item>)
    ensures r.item.Some? <==> id.Some? && item.Some? && id.value !in c.all
    ensures r.item.None? ==> r == Added(c, None, false)
    ensures r.item.Some? ==> r.item == item && r.next.all == c.all + [id.value]
    ensures r.item.Some? && !filter ==> r.next == c.(all := c.all + [id.value]) && !r.fired
    ensures r.item.Some? && filter ==> Consistent(r.next, passes)
    ensures Valid(c) ==> Valid(r.next)
    ensures Valid(c) && r.item.Some? && filter ==> (r.fired <==> Visible(r.next) != Visible(c))
  {
    if filter then AddAndRefresh(c, |c.all|, id, item, passes)
    else InternalAddAt(c, |c.all|, id, item)
  }

  /**
   * When a new id has been added to the full list and the view recomputed,
   * a missing filtered list means the view changed: the new id is in it.
   */
  lemma AddChangesView<Id(!new), F>(c: Container<Id, F>, mid: Container<Id, F>, next: Container<Id, F>, id: Id)
    requires Valid(c) && id !in c.all && id in mid.all
    requires next.all == mid.all && next.filtered.None?
    ensures Visible(next) != Visible(c)
  {
    if c.filtered.Some? {
      SubseqMembers(c.filtered.value, c.all);
    }
    assert id !in Visible(c);
  }

  /** The full-list position at which `internalAddItemAfter` inserts, or None when it refuses. */
  function PositionAfter<Id(==,!new), F>(c: Container<Id, F>, previous: Option<Id>): (r: Option<int>)
    ensures r.Some? ==> 0 <= r.value <= |c.all|
    ensures previous.None? ==> r == Some(0)
    ensures previous.Some? ==> (r.Some? <==> ContainsId(c, previous))
    ensures previous.Some? && ContainsId(c, previous) && previous.value in c.all ==>
      r.value > 0 && c.all[r.value - 1] == previous.value
  {
    if previous.None? then Some(0)
    else if ContainsId(c, previous) then Some(IndexOf(c.all, previous.value) + 1)
    else None
  }

  /** `internalAddItemAfter`: inserts right after a visible id, or first when that id is `null`. */
  function InternalAddItemAfter<Id(==,!new), F, Item>(c: Container<Id, F>, previous: Option<Id>, id: Option<Id>, item: Option<Item>, passes: (F, Id) -> bool)
    : (r: Added<Id, F, Item>)
    ensures r.item.Some? <==> PositionAfter(c, previous).Some? && id.Some? && item.Some? && id.value !in c.all
    ensures r.item.None? ==> r == Added(c, None, false)
    ensures r.item.Some? ==> r.item == item && r.next.all == InsertAt(c.all, PositionAfter(c, previous).value, id.value)
    ensures r.item.Some? ==> Consistent(r.next, passes) && r.next.filters == c.filters
    ensures Valid(c) ==> Valid(r.next)
    ensures Valid(c) && r.item.Some? ==> (r.fired <==> Visible(r.next) != Visible(c))
  {
    var pos := PositionAfter(c, previous);
    if pos.None? then Added(c, None, false)
    else AddAndRefresh(c, pos.value, id, item, passes)
  }


  /** `internalAddItemAt`: index 0 inserts first, any other index after the visible id before it. */
  function InternalAddItemAt<Id(==,!new), F, Item>(c: Container<Id, F>, index: int, id: Option<Id>, item: Option<Item>, passes: (F, Id) -> bool)
    : (r: Added<Id, F, Item>)
    ensures index < 0 || index > Size(c) ==> r == Added(c, None, false)
    ensures index == 0 ==> r == InternalAddItemAfter(c, None, id, item, passes)
    ensures 0 < index <= Size(c) ==> r == InternalAddItemAfter(c, Some(Visible(c)[index - 1]), id, item, passes)
    ensures Valid(c) && 0 <= index <= Size(c) ==> (r.item.Some? <==> id.Some? && item.Some? && id.value !in c.all)
    ensures Valid(c) ==> Valid(r.next)
  {
    if index < 0 || index > Size(c) then Added(c, None, false)
    else if index == 0 then InternalAddItemAfter(c, None, id, item, passes)
    else InternalAddItemAfter(c, Some(Visible(c)[index - 1]), id, item, passes)
  }
}
