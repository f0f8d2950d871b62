# BaseRecyclerAdapter as a state machine

This project models the list half of `BaseRecyclerAdapter`, a generic
`RecyclerView.Adapter` that owns an ordered list of items. Every mutating call
changes the list and then calls a `notify*` method so the RecyclerView can
animate the change. The model is a value
`Adapter(items: seq<Option<T>>, log: seq<Event>)`:

- `items` is the backing list. A null element is `None`.
- `log` holds every notification sent so far, oldest first. Each `notify*`
  call is one `Event` constructor: `Inserted(i)`, `RangeInserted(s, n)`, `Removed(i)`, `Changed(i)`,
  `Moved(f, t)`, `RangeRemoved(s, n)`, `RangeChanged(s, n)`, `DataSetChanged`.

Every operation is a pure function, or a method for the two animation loops,
from the adapter before the call to the adapter after it. Java's `equals` is
Dafny equality on an equality-supporting item type, and null equals only null.

`Notifications.Consistent(before, e, after)` is the yardstick for every
notification. It says what event `e` promises a view about the step from
`before` to `after`: every position it names exists, and every row it does not
mention stays where it was. `RecyclerAdapter.NotifiedOnce(a, r)` says a call
sent exactly one notification and that the notification is consistent.
`Notifications.Replay` applies a run of structural events (removals and moves)
to a view's copy of the rows, one after another. It is used to show that the
removal loop's notifications bring the view to the adapter's final list.

Files:

- `wrappers.dfy`: `Option`.
- `sequences.dfy`: positional insert and delete, `IndexOf` (List.indexOf), and
  the filters `Keep` and `Missing` that the animated replace computes.
- `notifications.dfy`: `Event`, `Consistent`, `Apply`/`Replay`, and runs of
  removals at strictly descending positions.
- `adapter.dfy`: the adapter operations, their round-trip laws, and the findings.
- `animations.dfy`: `animateRemoveObjects`, `animateAddObjects` and
  `replaceObjectsWithAnimations`, with `Removals` and `Insertions`, the
  notification runs the two loops send.
- `diff_callback.dfy`: the comparisons `swap` passes to DiffUtil.

## Model

| member | source | states |
|---|---|---|
| RecyclerAdapter.New | app/src/main/java/com/ifi/kuirin/toggleandroid/BaseRecyclerAdapter.java:26-32 | a given list becomes the backing list; a null list gives an empty adapter; nothing has been notified yet |
| RecyclerAdapter.Add | app/src/main/java/com/ifi/kuirin/toggleandroid/BaseRecyclerAdapter.java:39-42 | the list grows by one, with the old items unchanged in front and the new item last; exactly `Inserted(newSize-1)` is sent, and it is consistent |
| RecyclerAdapter.AddAll | app/src/main/java/com/ifi/kuirin/toggleandroid/BaseRecyclerAdapter.java:49-56 | null empties the list; a list is appended after the old items; either way exactly one `DataSetChanged` is sent |
| RecyclerAdapter.AddItemAt | app/src/main/java/com/ifi/kuirin/toggleandroid/BaseRecyclerAdapter.java:64-67 | for 0 <= position <= size: the item lands at `position`; deleting it gives back the old list, so the tail shifted by one; exactly `Inserted(position)` is sent, and it is consistent |
| RecyclerAdapter.AddItem | app/src/main/java/com/ifi/kuirin/toggleandroid/BaseRecyclerAdapter.java:74-76 | `addItem(x)` is `addItem(size, x)` and has exactly the effect and notification of `add(x)` |
| RecyclerAdapter.Clear | app/src/main/java/com/ifi/kuirin/toggleandroid/BaseRecyclerAdapter.java:81-85 | the list is empty; `RangeRemoved(0, oldSize)` is sent, which is `RangeRemoved(0, 0)` on an empty list, and it is consistent |
| RecyclerAdapter.GetItem | app/src/main/java/com/ifi/kuirin/toggleandroid/BaseRecyclerAdapter.java:87-93 | the element at an in-range position; null for any other position, never a failure |
| RecyclerAdapter.ItemCountFollowsNotification | app/src/main/java/com/ifi/kuirin/toggleandroid/BaseRecyclerAdapter.java:95-98 | after any call that sends one consistent notification other than `DataSetChanged`, getItemCount has moved by exactly what that notification announces: +1 for an insertion, +n for a range insertion, -1 for a removal, -n for a range removal, 0 otherwise |
| RecyclerAdapter.GetPosition | app/src/main/java/com/ifi/kuirin/toggleandroid/BaseRecyclerAdapter.java:110-112 | -1 exactly when the item is absent; otherwise an index holding the item with no earlier occurrence |
| RecyclerAdapter.Remove | app/src/main/java/com/ifi/kuirin/toggleandroid/BaseRecyclerAdapter.java:123-127 | a present item: one copy leaves the multiset, the first occurrence is deleted, and a consistent `Removed(getPosition)` is sent; an absent item: the list is unchanged but `Removed(-1)` is still sent |
| RecyclerAdapter.RemoveLastObject | app/src/main/java/com/ifi/kuirin/toggleandroid/BaseRecyclerAdapter.java:129-132 | on a non-empty list the last item is dropped and `Removed(oldSize-2)` is sent, a position computed after the removal |
| RecyclerAdapter.ReplaceItem | app/src/main/java/com/ifi/kuirin/toggleandroid/BaseRecyclerAdapter.java:134-139 | for an item that is present: the length is kept, the new item sits at p = getPosition(old), every other index is unchanged, and a consistent `Changed(p)` is sent |
| RecyclerAdapter.ReplaceItemWithHeader | app/src/main/java/com/ifi/kuirin/toggleandroid/BaseRecyclerAdapter.java:141-146 | the same list as replaceItem, but `Changed(p+1)` is sent |
| RecyclerAdapter.Sort | app/src/main/java/com/ifi/kuirin/toggleandroid/BaseRecyclerAdapter.java:164-167 | the list becomes the given rearrangement of the items, with the same length and the same multiset; a consistent `RangeChanged(0, size)` is sent |
| RecyclerAdapter.Swap | app/src/main/java/com/ifi/kuirin/toggleandroid/BaseRecyclerAdapter.java:230-231 | the backing list becomes the new list; the log gains exactly the parameter `updates`, the notifications the diff dispatches, and nothing else |
| RecyclerAdapter.RemoveItem | app/src/main/java/com/ifi/kuirin/toggleandroid/BaseRecyclerAdapter.java:234-238 | returns the element at `position`; the list loses exactly that element (multiset and length); a consistent `Removed(position)` is sent |
| RecyclerAdapter.RemoveItemWithHeader | app/src/main/java/com/ifi/kuirin/toggleandroid/BaseRecyclerAdapter.java:240-244 | the same element and list as removeItem, but `Removed(position+1)` is sent |
| RecyclerAdapter.MoveItem | app/src/main/java/com/ifi/kuirin/toggleandroid/BaseRecyclerAdapter.java:264-268 | a permutation: the moved item is at `toPosition`; items outside the span are fixed and the span shifts by one toward `fromPosition`; a consistent `Moved(from, to)` is sent |
| RecyclerAdapter.AddItemAtThenRemoveItem | app/src/main/java/com/ifi/kuirin/toggleandroid/BaseRecyclerAdapter.java:234-238 | removeItem at the position addItem just inserted at returns that item and restores the list |
| RecyclerAdapter.RemoveItemThenAddItemAt | app/src/main/java/com/ifi/kuirin/toggleandroid/BaseRecyclerAdapter.java:234-238 | re-inserting what removeItem returned, at the same position, restores the list |
| RecyclerAdapter.GetItemAfterAddItemAt | app/src/main/java/com/ifi/kuirin/toggleandroid/BaseRecyclerAdapter.java:87-93 | after addItem(p, x), getItem sees x at p, the old items before p, and the old items shifted by one after p |
| RecyclerAdapter.RemoveUndoesAdd | app/src/main/java/com/ifi/kuirin/toggleandroid/BaseRecyclerAdapter.java:123-127 | for an item not yet present, getPosition finds it at the old size after add, and remove restores the list |
| RecyclerAdapter.MoveItemRoundTrip | app/src/main/java/com/ifi/kuirin/toggleandroid/BaseRecyclerAdapter.java:264-268 | moving from f to t and back from t to f restores the list |
| RecyclerAdapter.ReplaceItemRoundTrip | app/src/main/java/com/ifi/kuirin/toggleandroid/BaseRecyclerAdapter.java:134-139 | when the new item was absent, replacing it back with the old item restores the list |
| RecyclerAdapter.AddAllNullVersusClear | app/src/main/java/com/ifi/kuirin/toggleandroid/BaseRecyclerAdapter.java:49-56 | addAll(null) and clear() both leave an empty list, but they send different notifications |
| RecyclerAdapter.RemoveItemWithHeaderMatchesRows | app/src/main/java/com/ifi/kuirin/toggleandroid/BaseRecyclerAdapter.java:240-244 | `Removed(position+1)` is consistent for a view that shows one header row above the items, the header not being stored in the backing list |
| RecyclerAdapter.ReplaceItemWithHeaderMatchesRows | app/src/main/java/com/ifi/kuirin/toggleandroid/BaseRecyclerAdapter.java:141-146 | `Changed(p+1)` is consistent for a view that shows one header row above the items, the header not being stored in the backing list |
| RecyclerAdapter.RemoveAbsentNotifiesInvalidPosition | app/src/main/java/com/ifi/kuirin/toggleandroid/BaseRecyclerAdapter.java:123-127 | removing an absent item sends `Removed(-1)`, which is not consistent |
| RecyclerAdapter.RemoveIfPresent | app/src/main/java/com/ifi/kuirin/toggleandroid/BaseRecyclerAdapter.java:123-127 | corrected remove: an absent item changes nothing and sends nothing; a present item behaves as remove, with a consistent notification |
| RecyclerAdapter.RemoveLastObjectReportIff | app/src/main/java/com/ifi/kuirin/toggleandroid/BaseRecyclerAdapter.java:129-132 | removeLastObject's notification is consistent exactly when the list has at least two items and the last two are equal |
| RecyclerAdapter.RemoveLastObjectMisreportsTwoItems | app/src/main/java/com/ifi/kuirin/toggleandroid/BaseRecyclerAdapter.java:129-132 | on [10, 20], row 1 disappears but `Removed(0)` is sent |
| RecyclerAdapter.RemoveLastObjectFixed | app/src/main/java/com/ifi/kuirin/toggleandroid/BaseRecyclerAdapter.java:129-132 | corrected removeLastObject: it drops the last item and sends a consistent `Removed(oldSize-1)` |
| Sequences.IndexOf | app/src/main/java/com/ifi/kuirin/toggleandroid/BaseRecyclerAdapter.java:110-112 | -1 exactly when the item does not occur; otherwise the item is at the result and nowhere before it (List.indexOf) |
| Sequences.IndexOfFirst | app/src/main/java/com/ifi/kuirin/toggleandroid/BaseRecyclerAdapter.java:110-112 | an index holding the item with no earlier occurrence is the index getPosition returns, so the first occurrence is unique |
| Animations.AnimateRemoveObjects | app/src/main/java/com/ifi/kuirin/toggleandroid/BaseRecyclerAdapter.java:255-262 | the list becomes the old list filtered to the items found in `objects`, in their old order; the log gains one `Removed(i)` for each old position i whose item is not in `objects`, visited from the last position down to 0 |
| Sequences.KeepMembers | app/src/main/java/com/ifi/kuirin/toggleandroid/BaseRecyclerAdapter.java:255-262 | an item survives the removal loop exactly when it was in the list and is in `objects` |
| Sequences.KeepIsSubsequence | app/src/main/java/com/ifi/kuirin/toggleandroid/BaseRecyclerAdapter.java:255-262 | the survivors keep their old relative order: they are a subsequence of the old list |
| Animations.RemovalsCount | app/src/main/java/com/ifi/kuirin/toggleandroid/BaseRecyclerAdapter.java:255-262 | the removal loop sends one notification per deleted item: old size minus surviving count |
| Animations.RemovalsDescend | app/src/main/java/com/ifi/kuirin/toggleandroid/BaseRecyclerAdapter.java:255-262 | the removal positions are strictly descending and each lies inside the old list |
| Notifications.DescendingRemovalsMeaning | app/src/main/java/com/ifi/kuirin/toggleandroid/BaseRecyclerAdapter.java:255-262 | a descending removal run has every position in range, and every earlier removal names a larger position than every later one |
| Animations.RemovalsReplay | app/src/main/java/com/ifi/kuirin/toggleandroid/BaseRecyclerAdapter.java:255-262 | a view that applies the removals from the last position down to `i` finds each named row present and ends with the old prefix followed by the filtered suffix |
| Animations.RemovalsLeaveFiltered | app/src/main/java/com/ifi/kuirin/toggleandroid/BaseRecyclerAdapter.java:255-262 | over the whole loop: old size minus kept count removals, strictly descending, and replaying them on the old list yields exactly the filtered list |
| Animations.AnimateAddObjects | app/src/main/java/com/ifi/kuirin/toggleandroid/BaseRecyclerAdapter.java:246-253 | the old list is followed by the items of `objects` that it did not contain, in `objects` order, each once; the log gains `Inserted(oldSize)`, `Inserted(oldSize+1)`, and so on, one per append |
| Sequences.MissingMembers | app/src/main/java/com/ifi/kuirin/toggleandroid/BaseRecyclerAdapter.java:246-253 | an item is appended exactly when it is in `objects` and was not in the list before the loop |
| Sequences.MissingDistinct | app/src/main/java/com/ifi/kuirin/toggleandroid/BaseRecyclerAdapter.java:246-253 | no item is appended twice, even when `objects` repeats it |
| Sequences.MissingIsSubsequence | app/src/main/java/com/ifi/kuirin/toggleandroid/BaseRecyclerAdapter.java:246-253 | the appended items keep their relative order in `objects` |
| Animations.InsertionsAt | app/src/main/java/com/ifi/kuirin/toggleandroid/BaseRecyclerAdapter.java:246-253 | the j-th notification of the append loop is `Inserted(start + j)` |
| Animations.InsertionsReportAppends | app/src/main/java/com/ifi/kuirin/toggleandroid/BaseRecyclerAdapter.java:246-253 | each insertion of the append loop is consistent with the step it reports: the list with j items appended becomes the list with j+1 |
| Animations.ReplaceObjectsWithAnimations | app/src/main/java/com/ifi/kuirin/toggleandroid/BaseRecyclerAdapter.java:154-157 | afterwards an item is in the list exactly when it is in `objects`; survivors come first, in their old order, then newcomers in `objects` order; the log gains the removals, then the appends; replacing with the current list changes nothing and sends nothing |
| Sequences.KeepThenMissingHoldsExactly | app/src/main/java/com/ifi/kuirin/toggleandroid/BaseRecyclerAdapter.java:154-157 | filtering by `objects` and then appending what is missing leaves exactly the items of `objects` |
| Animations.ReplaceObjectsOutcome | app/src/main/java/com/ifi/kuirin/toggleandroid/BaseRecyclerAdapter.java:154-157 | survivors in old order, newcomers in `objects` order, never already present and never repeated; removals strictly descending, each consistent with the step it makes on the view, leaving the survivors; each append reported consistently |
| Animations.ReplaceBySelf | app/src/main/java/com/ifi/kuirin/toggleandroid/BaseRecyclerAdapter.java:154-157 | replacing a list by itself keeps every item, appends none and sends no removal |
| DiffCallback.AreItemsTheSame | app/src/main/java/com/ifi/kuirin/toggleandroid/BaseRecyclerAdapter.java:203-218 | two nulls are the same item; a null and a non-null are not; two non-null items are the same item exactly when their ids are equal |
| DiffCallback.AreContentsTheSame | app/src/main/java/com/ifi/kuirin/toggleandroid/BaseRecyclerAdapter.java:195-200 | the contents are the same exactly when the two items are equal, nulls included |
| DiffCallback.AreItemsTheSameAt | app/src/main/java/com/ifi/kuirin/toggleandroid/BaseRecyclerAdapter.java:203-218 | at a pair of positions: both slots null, or both non-null with equal ids |
| DiffCallback.AreContentsTheSameAt | app/src/main/java/com/ifi/kuirin/toggleandroid/BaseRecyclerAdapter.java:195-200 | at a pair of positions: the two slots hold equal items, nulls included |
| DiffCallback.SameContentsAreSameItems | app/src/main/java/com/ifi/kuirin/toggleandroid/BaseRecyclerAdapter.java:195-218 | for any id provider, equal contents imply the same item |
| DiffCallback.DefaultIdentityCoincides | app/src/main/java/com/ifi/kuirin/toggleandroid/BaseRecyclerAdapter.java:174-183 | with the default provider (an item is its own id), areItemsTheSame and areContentsTheSame agree on every pair |
| DiffCallback.DefaultIdInjective | app/src/main/java/com/ifi/kuirin/toggleandroid/BaseRecyclerAdapter.java:175-182 | the default provider never gives a null id, and two items share an id exactly when they are equal |
| DiffCallback.SharedIdDistinguishesContents | app/src/main/java/com/ifi/kuirin/toggleandroid/BaseRecyclerAdapter.java:203-218 | two different items that share an id are the same item with different contents |
| DiffCallback.ItemsTheSameIsEquivalence | app/src/main/java/com/ifi/kuirin/toggleandroid/BaseRecyclerAdapter.java:203-218 | for any id provider, areItemsTheSame is reflexive, symmetric and transitive |
| DiffCallback.ListSize | app/src/main/java/com/ifi/kuirin/toggleandroid/BaseRecyclerAdapter.java:220-228 | a null list has size 0; otherwise its length |
| DiffCallback.SelfComparisonMatchesDiagonal | app/src/main/java/com/ifi/kuirin/toggleandroid/BaseRecyclerAdapter.java:195-218 | comparing a list with itself under the default provider, each position matches itself both as an item and by contents |

## Left out

- The diff itself. `DiffUtil.calculateDiff` and `dispatchUpdatesTo` belong to the support library and are not part of this model. `RecyclerAdapter.Swap` takes the dispatched updates as a parameter, and only the comparisons `swap` supplies are modelled.
- RecyclerAdapter.Swap: takes a non-null list. `swap(null)` stores a null backing list, and most later calls then throw a NullPointerException until the next `swap` of a non-null list; the model has no null-list state. The updates are not tied to the two lists: nothing states that they describe the change from the old list to the new one, and the change payloads DiffUtil may attach to `notifyItemRangeChanged` are not represented.
- RecyclerAdapter.Sort: `Collections.sort` is a library call. Its result comes in as a parameter that must be a rearrangement of the items, so the contract does not say the result is ordered by the comparator.
- Animations.ReplaceObjectsWithAnimations: `objects` is a non-null sequence. A null argument always ends in a NullPointerException: in `animateRemoveObjects` when the list is not empty, otherwise in `animateAddObjects`.
- Java exceptions are preconditions, not modelled errors. This covers `List.add(position, …)` out of range in `addItem` and `moveItem`, `List.remove(position)` out of range in `removeItem`, `removeItemWithHeader` and `moveItem` (`fromPosition`), `remove(-1)` on an empty list in `removeLastObject`, and `replaceItem` of an absent item (`remove(-1)`).
- Aliasing is not modelled. The constructor shares the caller's list, and `getList()` hands out the live backing list; in a value model neither has an observable effect.
- Reference equality is not modelled separately. Java's `==` on items and ids is merged with `equals`, which assumes `equals` is an equivalence that agrees with identity.
- `getItemId` (identity on position), view-holder creation and binding, and the whole of `MainActivity.java` are UI plumbing.
- The adapter runs on one thread and every call runs to completion, so there is no concurrency to model.
- Subclass overrides of `getItemCount`, `addItem` and `removeItem` are not modelled; the base definitions are used. `add`, `clear`, `sort` and the two animation loops reach them through virtual dispatch, so a subclass could change their effect.
- The `*WithHeaderMatchesRows` lemmas assume the header is a row the view shows above the backing list, not an element of it. Whether that holds depends on the subclass that draws the header, which is not part of this model; a subclass that stores its header as element 0 of the list would have `position + 1` name the row after the changed one.
- `remove` of an absent item is modelled as the code does it: it sends `Removed(-1)`, which is what `RecyclerAdapter.Remove` states. `notifyItemRemoved(-1)` names a row no view has, so sending nothing is the evident intent; `RecyclerAdapter.RemoveIfPresent` is that corrected form (see Findings).

## Findings

| source | as written | input that shows it | evidently intended | confidence | as-written member | corrected member |
|---|---|---|---|---|---|---|
| app/src/main/java/com/ifi/kuirin/toggleandroid/BaseRecyclerAdapter.java:123-127 | `remove` sends `notifyItemRemoved(getPosition(object))` even when the position is -1 | list [A], `remove(B)`: nothing is deleted, yet `Removed(-1)` is sent | send nothing when the item is absent | not executed; high | RecyclerAdapter.RemoveAbsentNotifiesInvalidPosition | RecyclerAdapter.RemoveIfPresent |
| app/src/main/java/com/ifi/kuirin/toggleandroid/BaseRecyclerAdapter.java:129-132 | `removeLastObject` computes the reported position as `size() - 1` after the removal, which is the new last row | list [10, 20]: row 1 is deleted but `Removed(0)` is sent, so a view applying it shows [20] instead of [10] | report the removed index, the old `size() - 1` | not executed; medium | RecyclerAdapter.RemoveLastObjectMisreportsTwoItems | RecyclerAdapter.RemoveLastObjectFixed |
