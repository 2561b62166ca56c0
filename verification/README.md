# In-memory container ids and legacy window lookup, in Dafny

This project models two pieces of the Vaadin framework and proves properties about them.

**The identifier bookkeeping of `AbstractInMemoryContainer`.** The container keeps two lists:

- an ordered full list of item ids, with no duplicates;
- an optional filtered list, which is the visible view while it exists.

It also keeps a set of filters. On top of these it offers:

- navigation over the visible view: next, previous, first, last, by index and index of;
- re-filtering, which reports whether the view changed;
- adding and removing filters;
- sorting;
- positional insertion and removal of ids.

The container is an immutable value, `InMemoryContainer.Container`. Each operation is a pure function that returns the new container. Where the source notifies listeners, the result also says whether an item set change event was fired.

Filters are values of an arbitrary type. Two functions are passed as parameters:

- `passes(f, id)` is the filter's verdict on the item registered under `id`;
- `applies(f, p)` says whether the filter depends on property `p`.

The item sorter is a relation `le` on ids. Ordering results are claimed only when `le` is a total preorder.

Java `null` is `Option.None`. Exceptions are the `Thrown` case of `InMemoryContainer.Result`.

**The window lookup of `LegacyApplicationUIProvider`.** The window name is the first path segment, as matched by the Java regular expression `^/?([^/]+).*`. The application is asked for the window of that name and falls back to its main window.

The session-backed application is an optional value holding:

- a map from window names to windows;
- a main window.

Java's `.` does not match line terminators (`\n`, `\r`, U+0085, U+2028, U+2029). So a path whose remainder after the name contains one of them does not match the pattern, and it yields no name. The model keeps this behaviour.

Modules:

- `Wrappers`: the `Option` type.
- `Lists`: the list operations the source relies on:
  - `indexOf`;
  - insertion at a position;
  - `remove` of the first occurrence;
  - order-preserving subsequences.
- `Sorting`: a sort of the full list with the sorter, as a functional insertion sort.
- `InMemoryContainer`: the container state and its operations.
- `ContainerProperties`: lemmas relating several operations.
- `LegacyUIProvider`: window-name extraction and the UI lookup.

Throughout, `Valid(c)` is the invariant the container keeps:

- the full list has no duplicates;
- the filtered list keeps a subset of the full list in the same order;
- a filtered list exists exactly while there are filters.

`Consistent(c, passes)` says that the view is exactly the ids of the full list that pass every filter, in order.

## Model

| member | source | states |
|---|---|---|
| InMemoryContainer.Empty | src/com/vaadin/data/util/AbstractInMemoryContainer.java:115-117 | A new container shows no ids and satisfies the container invariant. |
| InMemoryContainer.Visible | src/com/vaadin/data/util/AbstractInMemoryContainer.java:715-721 | Without filters, the view of a valid container is the full list. The view of a container whose lists are valid is never longer than the full list. | |
| InMemoryContainer.Size | src/com/vaadin/data/util/AbstractInMemoryContainer.java:142-144 | `size()` never exceeds the number of ids held, and equals it on a valid container without filters. | |
| InMemoryContainer.IndexOfId | src/com/vaadin/data/util/AbstractInMemoryContainer.java:217-219 | The index is -1 exactly when the id is `null` or not in the view. Otherwise the view holds that id at that index. |
| Lists.IndexOfIsFirst | src/com/vaadin/data/util/AbstractInMemoryContainer.java:217-219 | `indexOf`, on which `indexOfId` rests, finds the first position holding the id: no earlier position holds it. | |
| InMemoryContainer.ContainsId | src/com/vaadin/data/util/AbstractInMemoryContainer.java:146-153 | An id is contained exactly when `indexOfId` finds it. `null` is never contained. |
| InMemoryContainer.GetIdByIndex | src/com/vaadin/data/util/AbstractInMemoryContainer.java:213-215 | Succeeds exactly for `0 <= i < size()` and returns an id of the view. Any other index throws IndexOutOfBounds. |
| InMemoryContainer.FirstItemId | src/com/vaadin/data/util/AbstractInMemoryContainer.java:181-187 | `null` exactly when the view is empty. |
| InMemoryContainer.LastItemId | src/com/vaadin/data/util/AbstractInMemoryContainer.java:189-195 | `null` exactly when the view is empty. |
| InMemoryContainer.IsFirstId | src/com/vaadin/data/util/AbstractInMemoryContainer.java:197-202 | An id is first exactly when `indexOfId` puts it at index 0. `null` is never first. | |
| InMemoryContainer.IsLastId | src/com/vaadin/data/util/AbstractInMemoryContainer.java:204-209 | Only a contained id can be last. On a container with valid lists, an id is last exactly when `indexOfId` puts it at index `size() - 1`. | |
| InMemoryContainer.NextItemId | src/com/vaadin/data/util/AbstractInMemoryContainer.java:161-169 | A result is returned only for a contained id, and the result is itself visible. |
| InMemoryContainer.PrevItemId | src/com/vaadin/data/util/AbstractInMemoryContainer.java:171-179 | A result is returned only for a contained id, and the result is itself visible. There is no previous id exactly for `null`, for an id that is not visible, and for the first id. |
| ContainerProperties.VisibleIsOrderedSubsequence | src/com/vaadin/data/util/AbstractInMemoryContainer.java:715-721 | On a valid container the view keeps the order of the full list and has no duplicates. Without filters the view is the full list. `null` is never contained, and every contained id is in the full list. |
| ContainerProperties.NextItemIdIsSuccessor | src/com/vaadin/data/util/AbstractInMemoryContainer.java:161-169 | `nextItemId(x) == y` exactly when `y` directly follows `x` in the view. |
| ContainerProperties.PrevItemIdIsPredecessor | src/com/vaadin/data/util/AbstractInMemoryContainer.java:171-179 | `prevItemId(x) == y` exactly when `y` directly precedes `x` in the view. |
| ContainerProperties.NextPrevInverse | src/com/vaadin/data/util/AbstractInMemoryContainer.java:161-179 | `nextItemId(a) == b` exactly when `prevItemId(b) == a`. |
| ContainerProperties.NextItemIdAtEnd | src/com/vaadin/data/util/AbstractInMemoryContainer.java:161-169 | There is no next id exactly for `null`, for an id that is not visible, and for the last id. |
| ContainerProperties.IndexRoundTrip | src/com/vaadin/data/util/AbstractInMemoryContainer.java:213-219 | `indexOfId(getIdByIndex(i)) == i` for every index of the view. `getIdByIndex(indexOfId(x)) == x` for every contained id. |
| InMemoryContainer.Passing | src/com/vaadin/data/util/AbstractInMemoryContainer.java:277-285 | The ids kept by the filtering loop keep the order of the list. An id is kept exactly when it is in the list and every filter accepts it. |
| InMemoryContainer.PassesFilters | src/com/vaadin/data/util/AbstractInMemoryContainer.java:300-313 | With no filters every item passes. Otherwise an item fails exactly when some filter rejects it. | |
| ContainerProperties.PassingMonotone | src/com/vaadin/data/util/AbstractInMemoryContainer.java:300-313 | A larger filter set keeps an order-preserving subsequence of what a smaller one keeps. |
| InMemoryContainer.StillEqual | src/com/vaadin/data/util/AbstractInMemoryContainer.java:275-283 | The loop's `equal` flag holds exactly when the ids kept so far are a prefix of the previous list. |
| InMemoryContainer.ListChanged | src/com/vaadin/data/util/AbstractInMemoryContainer.java:287 | The loop reports a change exactly when the new filtered list differs from the previous one. |
| InMemoryContainer.Refilter | src/com/vaadin/data/util/AbstractInMemoryContainer.java:259-288 | The shared body of both re-filterings, comparing with a given previous list. Without filters the filtered list is dropped, and a change is reported when the full and visible lengths differed. With filters the filtered list becomes the passing ids, and a change is reported exactly when they differ from the previous list. Everything else is unchanged, and the invariant is kept. | |
| InMemoryContainer.DoFilterContainerAsWritten | src/com/vaadin/data/util/AbstractInMemoryContainer.java:259-288 | Without filters, the filtered list is dropped and a change is reported when the visible and full lengths differed. With filters, the filtered list becomes the passing ids, and a change is reported exactly when it differs from the previous filtered list. A missing previous list counts as empty. |
| InMemoryContainer.FirstFilterHidingAllIsNotReported | src/com/vaadin/data/util/AbstractInMemoryContainer.java:268-271 | When there was no filtered list, `doFilterContainer` compares the new filtered list with an empty list, although the full list was visible. So the first filtering reports a change exactly when some id passes. A first filter that hides every id is not reported. A first filter that keeps every id is reported, although the view is unchanged. | Full list `[a]`, no filtered list, and a first filter that rejects `a`. The view goes from `[a]` to `[]`, yet `doFilterContainer` returns false, so `filterAll` fires no event. | Never leave a change of the view unreported. The correction reports a change whenever a non-empty container that showed its full list is filtered. It adds only the missed event and keeps the extra one for a first filter that keeps every id. | not executed | InMemoryContainer.DoFilterContainerAsWritten, InMemoryContainer.FirstFilterHidingAllIsNotReported | InMemoryContainer.DoFilterContainer, InMemoryContainer.CorrectionAddsOnlyTheMissedEvent |
| InMemoryContainer.DoFilterContainer | src/com/vaadin/data/util/AbstractInMemoryContainer.java:259-288 | The corrected re-filtering. It keeps the no-filter length comparison and sets the filtered list to the passing ids. With a previous filtered list, it reports a change exactly when the view changed. When a container that showed its full list is filtered, it reports a change exactly when that list is non-empty. So no change of the view goes unreported, and on a valid container a change is reported exactly when the view changed. It preserves the invariant. | |
| InMemoryContainer.CorrectionAddsOnlyTheMissedEvent | src/com/vaadin/data/util/AbstractInMemoryContainer.java:268-287 | The corrected and the as-written re-filtering produce the same container. Their fired flags differ exactly when a non-empty container without a filtered list is filtered down to nothing. | |
| InMemoryContainer.FilterAll | src/com/vaadin/data/util/AbstractInMemoryContainer.java:242-246 | Afterwards the view is exactly the passing ids of the full list, and a filtered list exists exactly while there are filters. On a valid container an event is fired exactly when the view changed. When the first filters meet a container showing its full list, an event is fired exactly when that list is non-empty. A change of the view never goes unreported. | |
| ContainerProperties.FilterAllSettles | src/com/vaadin/data/util/AbstractInMemoryContainer.java:242-246 | Re-filtering a freshly filtered container changes nothing and fires nothing. |
| InMemoryContainer.AddFilter | src/com/vaadin/data/util/AbstractInMemoryContainer.java:321-324 | The filter joins the set, and the view becomes the ids passing all filters, so the new filter accepts every visible id. With a filtered list already present, an event is fired exactly when the view changed. On a container showing its full list, an event is fired exactly when that list is non-empty. A change of the view always fires. | |
| ContainerProperties.AddFilterNarrows | src/com/vaadin/data/util/AbstractInMemoryContainer.java:321-324 | Adding a filter to a consistent container leaves a view that is an order-preserving subsequence of the old one. |
| InMemoryContainer.RemoveAllFilters | src/com/vaadin/data/util/AbstractInMemoryContainer.java:332-338 | Afterwards there are no filters and the full list is unchanged. Without filters to begin with, nothing changes and nothing fires. Otherwise the filtered list is dropped and the full list is shown. An event is fired exactly when the view changed. |
| InMemoryContainer.IsPropertyFiltered | src/com/vaadin/data/util/AbstractInMemoryContainer.java:346-358 | A property is filtered exactly when it is non-null and some active filter applies to it. | |
| ContainerProperties.RemoveAllFiltersIdempotent | src/com/vaadin/data/util/AbstractInMemoryContainer.java:332-338 | A second `removeAllFilters` changes nothing and fires nothing. |
| InMemoryContainer.RemoveFilters | src/com/vaadin/data/util/AbstractInMemoryContainer.java:346-389 | Filters are removed exactly when `isPropertyFiltered(p)` held, and afterwards it no longer holds. For a non-null property, exactly the filters that apply to it are removed. When none is removed the container is unchanged and nothing fires. Otherwise the view is re-filtered, and an event is fired exactly when the view changed. |
| InMemoryContainer.Sort | src/com/vaadin/data/util/AbstractInMemoryContainer.java:427-447 | Throws UnsupportedOperation exactly for a container that is not Sortable. Otherwise the full list becomes a permutation of itself, ordered by a total-preorder sorter. Afterwards there are two cases. With a filtered list, the view is re-filtered and an event is fired exactly when it changed. Without one, a change is always fired. The invariant is kept. |
| InMemoryContainer.DoSort | src/com/vaadin/data/util/AbstractInMemoryContainer.java:457-459 | The result is a permutation of the full list, sorted by any total-preorder sorter. |
| ContainerProperties.SortOrdersView | src/com/vaadin/data/util/AbstractInMemoryContainer.java:427-447 | After a successful sort of a consistent container, the view is ordered by the sorter and holds exactly the ids it held before. |
| InMemoryContainer.InternalRemoveAllItems | src/com/vaadin/data/util/AbstractInMemoryContainer.java:486-492 | Both lists become empty. A missing filtered list stays missing, and the filters are untouched. |
| InMemoryContainer.InternalRemoveItem | src/com/vaadin/data/util/AbstractInMemoryContainer.java:506-517 | `null` removes nothing. Otherwise the result says whether the id was in the full list. The id is cut out of the full list with the rest kept in order, and the view loses exactly that id. |
| ContainerProperties.RemoveKeepsConsistency | src/com/vaadin/data/util/AbstractInMemoryContainer.java:506-517 | Removing an id from a consistent container leaves it consistent. |
| InMemoryContainer.InternalAddAt | src/com/vaadin/data/util/AbstractInMemoryContainer.java:545-562 | The add succeeds exactly when the position is in `[0, size of full list]`, id and item are non-null, and the id is new. On success the id is inserted at that position, and removing it gives back the old full list. On failure nothing changes. Nothing is fired. |
| ContainerProperties.AddThenRemoveRestores | src/com/vaadin/data/util/AbstractInMemoryContainer.java:545-562 | Removing an id right after adding it restores the container exactly. |
| InMemoryContainer.RefreshAfterAdd | src/com/vaadin/data/util/AbstractInMemoryContainer.java:618-625 | After an add and `filterAll` the view is consistent. An event is fired exactly when there is no filtered list or the view changed. |
| InMemoryContainer.AddAndRefresh | src/com/vaadin/data/util/AbstractInMemoryContainer.java:618-625 | An add at a valid position succeeds exactly when id and item are non-null and the id is new. On success the id is inserted at that position and the view becomes consistent again. An event is fired exactly when the view changed, including the case with no filtered list, where `fireItemAdded` sends it. |
| InMemoryContainer.InternalAddItemAtEnd | src/com/vaadin/data/util/AbstractInMemoryContainer.java:578-591 | A new id is appended to the full list. Without `filter` nothing else happens. With `filter` the view is re-filtered, and an event is fired exactly when the view changed. |
| ContainerProperties.AddItemAtEndAppends | src/com/vaadin/data/util/AbstractInMemoryContainer.java:578-591 | A passing id appended with `filter` set becomes the last visible id, and an event is fired. |
| InMemoryContainer.PositionAfter | src/com/vaadin/data/util/AbstractInMemoryContainer.java:611-617 | For `null` the position is 0. For a visible id the position lies directly after that id in the full list. For an id that is not visible there is no position. |
| InMemoryContainer.InternalAddItemAfter | src/com/vaadin/data/util/AbstractInMemoryContainer.java:607-627 | The add succeeds exactly when a position exists, id and item are non-null, and the id is new. On success the id is inserted there and the view is re-filtered. An event is fired exactly when the view changed. |
| ContainerProperties.AddItemAfterLandsAfterPrevious | src/com/vaadin/data/util/AbstractInMemoryContainer.java:607-627 | A passing id lands in the view directly after the previous id, or first when the previous id is `null`, and an event is fired. |
| ContainerProperties.AddHiddenItemKeepsView | src/com/vaadin/data/util/AbstractInMemoryContainer.java:607-627 | An added id that the filters reject leaves the view unchanged, and nothing is fired. |
| ContainerProperties.AddItemAfterThenNext | src/com/vaadin/data/util/AbstractInMemoryContainer.java:607-627 | After a passing id is added after `previous`, `nextItemId(previous)` is the new id. |
| InMemoryContainer.InternalAddItemAt | src/com/vaadin/data/util/AbstractInMemoryContainer.java:639-651 | An index outside `[0, size()]` adds nothing. Index 0 adds before every id, visible or not. Any other index adds after the visible id at `index - 1`. The invariant is kept. |
| ContainerProperties.AddItemAtLandsAtIndex | src/com/vaadin/data/util/AbstractInMemoryContainer.java:639-651 | A passing id added at a view index appears at exactly that index of the view, and an event is fired. |
| LegacyUIProvider.WindowName | server/src/com/vaadin/server/LegacyApplicationUIProvider.java:68-76 | A `null` or empty path has no name. Neither does `/`, nor any path starting with `//`. A name comes from an optional `/`, then a non-empty run without `/`, then a remainder that is empty or starts with `/` and holds no line terminator. |
| LegacyUIProvider.WindowNameOfSplit | server/src/com/vaadin/server/LegacyApplicationUIProvider.java:29-30 | The converse: every path of that shape yields exactly that name. |
| LegacyUIProvider.GetUIInstance | server/src/com/vaadin/server/LegacyApplicationUIProvider.java:67-87 | Without an application there is no UI. When the path names a window the application has, the result is that window. Otherwise the result is the main window, which may be none. |
| LegacyUIProvider.NamedWindowWins | server/src/com/vaadin/server/LegacyApplicationUIProvider.java:78-85 | A path naming a registered window gets that window. |
| LegacyUIProvider.GetExistingUI | server/src/com/vaadin/server/LegacyApplicationUIProvider.java:97-107 | Returns the resolved UI exactly when there is one and its UI id is not -1. Otherwise it returns nothing, so that a new instance gets created. |
| LegacyUIProvider.ExistingUIOfNamedWindow | server/src/com/vaadin/server/LegacyApplicationUIProvider.java:97-107 | A path naming a registered window yields that window once its UI id is not -1. Before then it yields nothing, even when the main window is initialised: there is no fallback to the main window. | |

## Left out

- Listener registration and the delivery of `fireItemSetChange` / `fireItemAdded`. These live in `AbstractContainer`, which is not part of this model. Each operation returns only a `fired` flag, and the position passed to `fireItemAdded` is not modelled.
- The `ItemSorter` and its comparator. The sorter is an abstract relation, and the sort properties and directions given to `sort` are folded into it.
  - An `IllegalArgumentException` raised by a comparator that breaks its contract is not modelled.
  - Stability of `Collections.sort` is not modelled.
- InMemoryContainer.Sort: claims an ordered result only when the sorter is a total preorder.
- InMemoryContainer.DoSort: claims an ordered result only when the sorter is a total preorder.
- `getSortablePropertyIds`: it relies on reflection over property types.
- `getItem`, `getUnfilteredItem` and `registerNewItem`. Items are not stored, and the filter verdict on an id stands for the verdict on its item.
- The setters and getters of the lists, filters and sorter. Their effect is the container value itself.
- InMemoryContainer.FilterAll: uses the corrected re-filtering. It differs from the Java method in one case. When a non-empty container that shows its full list gets filters that hide every id, the model fires an event and the Java method does not; see "## Findings". A first filter that keeps at least one id fires in both, even when it keeps every id and the view is unchanged.
- InMemoryContainer.AddFilter: uses the corrected re-filtering through `filterAll`. When the first filter of a non-empty container hides every id, the model fires an event and the Java method does not. A first filter that keeps every id fires in both, although the view is unchanged.
- InMemoryContainer.RemoveFilters: the removed filters are returned as a set. The Java method returns a list in its iteration order.
- Java object identity (`==` in the filtering loop) is modelled as value equality. Ids of the filtered list are taken from the full list, so the two agree.
- In `LegacyApplicationUIProvider`:
  - `getApplication`, which handles session-attribute caching, `createApplication`, `doInit` and the restart of a stopped application, is a parameter.
  - `UI.setCurrent` is a side effect on thread-local state.
  - `getUIClass`, `createInstance`, `getTheme` and `getPageTitle` only forward to the lookup, the application or the UI.
  - `LegacyApplication.getWindow` is not part of this model. It is taken to be a lookup by name that finds nothing for `null`.
- The UI test classes and demo applications: browser I/O, push transport and screenshots.

## Findings

| source | as written | input that shows it | evidently intended | confidence | as-written member | corrected member |
|---|---|---|---|---|---|---|
| src/com/vaadin/data/util/AbstractInMemoryContainer.java:268-271 | When there was no filtered list, `doFilterContainer` compares the new filtered list with an empty list, although the full list was visible. So the first filtering reports a change exactly when some id passes. A first filter that keeps every id is reported though the view is unchanged, and one that hides every id is not reported though the view emptied. | Full list `[a]`, no filtered list, and a first filter that rejects `a`. The view goes from `[a]` to `[]`, yet `doFilterContainer` returns false, so `filterAll` fires no event. | Report the first filtering of a non-empty container as a change whether or not any id passes, as is already done when some id passes. | not executed | InMemoryContainer.DoFilterContainerAsWritten, InMemoryContainer.FirstFilterHidingAllIsNotReported | InMemoryContainer.DoFilterContainer, InMemoryContainer.CorrectionAddsOnlyTheMissedEvent |

The rest of the model uses `DoFilterContainer`.
