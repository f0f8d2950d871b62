/** The list half of BaseRecyclerAdapter: the backing list of items and the
    notifications sent to the RecyclerView, one operation at a time. An
    operation is a function from the adapter before the call to the adapter
    after it; the notifications sent so far are kept in `log`, oldest first. */
module RecyclerAdapter {
  import opened Wrappers
  import opened Sequences
  import opened Notifications

  /** A slot of the backing list: None is a null element. */
  type Item<T> = Option<T>

  datatype Adapter<T> = Adapter(items: seq<Item<T>>, log: seq<Event>)

  /** getItemCount */
  function ItemCount<T>(a: Adapter<T>): nat
  {
    |a.items|
  }

  /** The call sent exactly one notification, and it describes truthfully
      how the list changed. */
  predicate NotifiedOnce<T(==)>(a: Adapter<T>, r: Adapter<T>)
  {
    |r.log| == |a.log| + 1 && r.log[..|a.log|] == a.log
    && Consistent(a.items, r.log[|a.log|], r.items)
  }

  /** The constructor: a null list becomes a fresh empty one. */
  function New<T>(objects: Option<seq<Item<T>>>): (r: Adapter<T>)
    ensures objects.Some? ==> r.items == objects.value
    ensures objects.None? ==> ItemCount(r) == 0
    ensures r.log == []
  {
    Adapter(if objects.Some? then objects.value else [], [])
  }

  /** add: append at the end and report the new last position. */
  function Add<T(==)>(a: Adapter<T>, item: Item<T>): (r: Adapter<T>)
    ensures ItemCount(r) == ItemCount(a) + 1
    ensures r.items[..ItemCount(a)] == a.items && r.items[ItemCount(a)] == item
    ensures r.log == a.log + [Inserted(ItemCount(r) - 1)]
    ensures NotifiedOnce(a, r)
  {
    var items := a.items + [item];
    assert Delete(items, |items| - 1) == a.items;
    Adapter(items, a.log + [Inserted(|items| - 1)])
  }

  /** addAll: a null argument empties the list; otherwise the argument is
      appended. Either way the whole data set is reported as changed. */
  function AddAll<T(==)>(a: Adapter<T>, objects: Option<seq<Item<T>>>): (r: Adapter<T>)
    ensures objects.None? ==> ItemCount(r) == 0
    ensures objects.Some? ==> ItemCount(r) == ItemCount(a) + |objects.value|
    ensures objects.Some? ==> r.items[..ItemCount(a)] == a.items && r.items[ItemCount(a)..] == objects.value
    ensures r.log == a.log + [DataSetChanged]
    ensures NotifiedOnce(a, r)
  {
    var items := if objects.None? then [] else a.items + objects.value;
    Adapter(items, a.log + [DataSetChanged])
  }

  /** addItem(position, object): insert at `position`, shifting the tail.
      List.add throws unless 0 <= position <= size. */
  function AddItemAt<T(==)>(a: Adapter<T>, position: int, item: Item<T>): (r: Adapter<T>)
    requires 0 <= position <= ItemCount(a)
    ensures ItemCount(r) == ItemCount(a) + 1
    ensures r.items[position] == item
    ensures Delete(r.items, position) == a.items
    ensures r.log == a.log + [Inserted(position)]
    ensures NotifiedOnce(a, r)
  {
    DeleteInsert(a.items, position, item);
    Adapter(Insert(a.items, position, item), a.log + [Inserted(position)])
  }

  /** addItem(object): the positional overload at the current size. */
  function AddItem<T(==)>(a: Adapter<T>, item: Item<T>): (r: Adapter<T>)
    ensures r == Add(a, item)
  {
    AddItemAt(a, ItemCount(a), item)
  }

  /** clear: report the removal of the whole former range, even when empty. */
  function Clear<T(==)>(a: Adapter<T>): (r: Adapter<T>)
    ensures ItemCount(r) == 0
    ensures r.log == a.log + [RangeRemoved(0, ItemCount(a))]
    ensures NotifiedOnce(a, r)
  {
    Adapter([], a.log + [RangeRemoved(0, |a.items|)])
  }

  /** getItem: an out-of-range position yields null instead of failing. */
  function GetItem<T>(a: Adapter<T>, position: int): (r: Item<T>)
    ensures 0 <= position < ItemCount(a) ==> r == a.items[position]
    ensures (position < 0 || ItemCount(a) <= position) ==> r == None
  {
    if 0 <= position < |a.items| then a.items[position] else None
  }

  /** getItemCount moves exactly as the notification of a call says it
      does, for every call that sends one notification other than
      notifyDataSetChanged. */
  lemma ItemCountFollowsNotification<T>(a: Adapter<T>, r: Adapter<T>)
    requires NotifiedOnce(a, r) && !r.log[|a.log|].DataSetChanged?
    ensures ItemCount(r) == ItemCount(a) + SizeChange(r.log[|a.log|])
  {
    ConsistentSizeChange(a.items, r.log[|a.log|], r.items);
  }

  /** getPosition: the first position holding an equal item, or -1. */
  function GetPosition<T(==)>(a: Adapter<T>, item: Item<T>): (r: int)
    ensures -1 <= r < ItemCount(a)
    ensures r == -1 <==> item !in a.items
    ensures 0 <= r ==> a.items[r] == item
    ensures forall k :: 0 <= k < r ==> a.items[k] != item
  {
    IndexOf(a.items, item)
  }

  /** remove(object), as written: the position is looked up first and is
      reported whether or not the item was found. */
  function Remove<T(==)>(a: Adapter<T>, item: Item<T>): (r: Adapter<T>)
    ensures item in a.items ==>
      ItemCount(r) == ItemCount(a) - 1
      && multiset(r.items) + multiset{item} == multiset(a.items)
      && r.log == a.log + [Removed(GetPosition(a, item))]
      && NotifiedOnce(a, r)
    ensures item !in a.items ==> r.items == a.items && r.log == a.log + [Removed(-1)]
  {
    var position := GetPosition(a, item);
    if position >= 0 then
      DeleteMultiset(a.items, position);
      Adapter(Delete(a.items, position), a.log + [Removed(position)])
    else
      Adapter(a.items, a.log + [Removed(position)])
  }

  /** removeLastObject, as written: the position is computed after the
      removal, so it names the new last row. List.remove(-1) throws on an
      empty list. */
  function RemoveLastObject<T(==)>(a: Adapter<T>): (r: Adapter<T>)
    requires ItemCount(a) > 0
    ensures ItemCount(r) == ItemCount(a) - 1 && r.items == a.items[..ItemCount(r)]
    ensures r.log == a.log + [Removed(ItemCount(a) - 2)]
  {
    var items := Delete(a.items, |a.items| - 1);
    assert items == a.items[..|items|];
    Adapter(items, a.log + [Removed(|items| - 1)])
  }

  /** removeItem: delete the element at `position` and return it. */
  function RemoveItem<T(==)>(a: Adapter<T>, position: int): (r: (Item<T>, Adapter<T>))
    requires 0 <= position < ItemCount(a)
    ensures r.0 == a.items[position]
    ensures ItemCount(r.1) == ItemCount(a) - 1
    ensures multiset(r.1.items) + multiset{r.0} == multiset(a.items)
    ensures r.1.log == a.log + [Removed(position)]
    ensures NotifiedOnce(a, r.1)
  {
    DeleteMultiset(a.items, position);
    (a.items[position], Adapter(Delete(a.items, position), a.log + [Removed(position)]))
  }

  /** removeItemWithHeader: as removeItem, but the position reported is one
      past the list position, for a view whose first row is a header. */
  function RemoveItemWithHeader<T(==)>(a: Adapter<T>, position: int): (r: (Item<T>, Adapter<T>))
    requires 0 <= position < ItemCount(a)
    ensures r.0 == a.items[position]
    ensures r.1.items == RemoveItem(a, position).1.items
    ensures r.1.log == a.log + [Removed(position + 1)]
  {
    (a.items[position], Adapter(Delete(a.items, position), a.log + [Removed(position + 1)]))
  }

  /** replaceItem: put `newItem` where the first `oldItem` was. The old
      item must be present: otherwise List.remove(-1) throws. */
  function ReplaceItem<T(==)>(a: Adapter<T>, oldItem: Item<T>, newItem: Item<T>): (r: Adapter<T>)
    requires oldItem in a.items
    ensures ItemCount(r) == ItemCount(a)
    ensures r.items[GetPosition(a, oldItem)] == newItem
    ensures forall k {:trigger r.items[k]} :: 0 <= k < ItemCount(a) && k != GetPosition(a, oldItem) ==> r.items[k] == a.items[k]
    ensures r.log == a.log + [Changed(GetPosition(a, oldItem))]
    ensures NotifiedOnce(a, r)
  {
    var position := GetPosition(a, oldItem);
    Adapter(Insert(Delete(a.items, position), position, newItem), a.log + [Changed(position)])
  }

  /** replaceItemWithHeader: as replaceItem, reporting one row further down. */
  function ReplaceItemWithHeader<T(==)>(a: Adapter<T>, oldItem: Item<T>, newItem: Item<T>): (r: Adapter<T>)
    requires oldItem in a.items
    ensures r.items == ReplaceItem(a, oldItem, newItem).items
    ensures r.log == a.log + [Changed(GetPosition(a, oldItem) + 1)]
  {
    var position := GetPosition(a, oldItem);
    Adapter(Insert(Delete(a.items, position), position, newItem), a.log + [Changed(position + 1)])
  }

  /** moveItem: take the element out at `fromPosition` and put it back at
      `toPosition` of the shortened list. Both List calls throw unless the
      positions are in range. */
  function MoveItem<T(==)>(a: Adapter<T>, fromPosition: int, toPosition: int): (r: Adapter<T>)
    requires 0 <= fromPosition < ItemCount(a) && 0 <= toPosition < ItemCount(a)
    ensures ItemCount(r) == ItemCount(a)
    ensures multiset(r.items) == multiset(a.items)
    ensures r.items[toPosition] == a.items[fromPosition]
    ensures forall k {:trigger r.items[k]} :: 0 <= k < ItemCount(a) && k < fromPosition && k < toPosition ==> r.items[k] == a.items[k]
    ensures forall k {:trigger r.items[k]} :: 0 <= k < ItemCount(a) && k > fromPosition && k > toPosition ==> r.items[k] == a.items[k]
    ensures forall k {:trigger r.items[k]} :: fromPosition <= k < toPosition ==> r.items[k] == a.items[k + 1]
    ensures forall k {:trigger r.items[k]} :: toPosition < k <= fromPosition ==> r.items[k] == a.items[k - 1]
    ensures r.log == a.log + [Moved(fromPosition, toPosition)]
    ensures NotifiedOnce(a, r)
  {
    MoveFacts(a.items, fromPosition, toPosition);
    Adapter(Insert(Delete(a.items, fromPosition), toPosition, a.items[fromPosition]),
            a.log + [Moved(fromPosition, toPosition)])
  }

  /** sort: Collections.sort is not modelled; `sorted` is its result, some
      rearrangement of the items. The whole range is reported as changed. */
  function Sort<T(==)>(a: Adapter<T>, sorted: seq<Item<T>>): (r: Adapter<T>)
    requires multiset(sorted) == multiset(a.items)
    ensures r.items == sorted
    ensures ItemCount(r) == ItemCount(a)
    ensures multiset(r.items) == multiset(a.items)
    ensures r.log == a.log + [RangeChanged(0, ItemCount(a))]
    ensures NotifiedOnce(a, r)
  {
    assert |sorted| == |multiset(sorted)| == |a.items|;
    Adapter(sorted, a.log + [RangeChanged(0, |sorted|)])
  }

  /** swap: the backing list becomes `newObjects`. The diff and its
      notifications come from DiffUtil, which is not modelled: `updates` is
      whatever DiffUtil dispatches. */
  function Swap<T>(a: Adapter<T>, newObjects: seq<Item<T>>, updates: seq<Event>): (r: Adapter<T>)
    ensures r.items == newObjects
    ensures |r.log| == |a.log| + |updates|
    ensures r.log[..|a.log|] == a.log && r.log[|a.log|..] == updates
  {
    Adapter(newObjects, a.log + updates)
  }

  // Round trips and other laws relating the operations.

  /** Removing at the position just inserted at gives back the item and the list. */
  lemma AddItemAtThenRemoveItem<T>(a: Adapter<T>, position: int, item: Item<T>)
    requires 0 <= position <= ItemCount(a)
    ensures RemoveItem(AddItemAt(a, position, item), position).0 == item
    ensures RemoveItem(AddItemAt(a, position, item), position).1.items == a.items
  {
  }

  /** Re-inserting a removed item where it was restores the list. */
  lemma RemoveItemThenAddItemAt<T>(a: Adapter<T>, position: int)
    requires 0 <= position < ItemCount(a)
    ensures var (item, b) := RemoveItem(a, position);
      AddItemAt(b, position, item).items == a.items
  {
    var (item, b) := RemoveItem(a, position);
    InsertDelete(a.items, position);
  }

  /** getItem sees an inserted item at its position, the head unchanged and
      the tail shifted by one. */
  lemma GetItemAfterAddItemAt<T>(a: Adapter<T>, position: int, item: Item<T>, k: int)
    requires 0 <= position <= ItemCount(a)
    ensures k == position ==> GetItem(AddItemAt(a, position, item), k) == item
    ensures k < position ==> GetItem(AddItemAt(a, position, item), k) == GetItem(a, k)
    ensures k > position ==> GetItem(AddItemAt(a, position, item), k) == GetItem(a, k - 1)
  {
  }

  /** An item not yet in the list is found where add put it, and remove
      takes it out again. */
  lemma RemoveUndoesAdd<T>(a: Adapter<T>, item: Item<T>)
    requires item !in a.items
    ensures GetPosition(Add(a, item), item) == ItemCount(a)
    ensures Remove(Add(a, item), item).items == a.items
  {
    var b := Add(a, item);
    assert b.items[..ItemCount(a)] == a.items;
  }

  /** Moving an item back to where it came from restores the list. */
  lemma MoveItemRoundTrip<T>(a: Adapter<T>, fromPosition: int, toPosition: int)
    requires 0 <= fromPosition < ItemCount(a) && 0 <= toPosition < ItemCount(a)
    ensures MoveItem(MoveItem(a, fromPosition, toPosition), toPosition, fromPosition).items == a.items
  {
    var s := a.items;
    var moved := Insert(Delete(s, fromPosition), toPosition, s[fromPosition]);
    assert MoveItem(a, fromPosition, toPosition).items == moved;
    DeleteInsert(Delete(s, fromPosition), toPosition, s[fromPosition]);
    InsertDelete(s, fromPosition);
  }

  /** Replacing back with the original item restores the list, provided the
      replacement did not already occur in it. */
  lemma ReplaceItemRoundTrip<T>(a: Adapter<T>, oldItem: Item<T>, newItem: Item<T>)
    requires oldItem in a.items && newItem !in a.items
    ensures newItem in ReplaceItem(a, oldItem, newItem).items
    ensures ReplaceItem(ReplaceItem(a, oldItem, newItem), newItem, oldItem).items == a.items
  {
    var p := GetPosition(a, oldItem);
    var b := ReplaceItem(a, oldItem, newItem);
    forall k | 0 <= k < p
      ensures b.items[k] != newItem
    {
      assert b.items[k] == a.items[k];
    }
    IndexOfFirst(b.items, newItem, p);
    var c := ReplaceItem(b, newItem, oldItem);
    forall k | 0 <= k < ItemCount(a)
      ensures c.items[k] == a.items[k]
    {
      if k != p {
        assert c.items[k] == b.items[k];
      }
    }
  }

  /** addAll(null) and clear both empty the list, but report it differently. */
  lemma AddAllNullVersusClear<T>(a: Adapter<T>)
    ensures AddAll(a, None).items == Clear(a).items == []
    ensures AddAll(a, None).log != Clear(a).log
  {
    assert AddAll(a, None).log[|a.log|] != Clear(a).log[|a.log|];
  }

  /** Seen by a view with a header row on top, the header variant of
      removeItem reports truthfully. */
  lemma RemoveItemWithHeaderMatchesRows<T>(a: Adapter<T>, position: int, header: Item<T>)
    requires 0 <= position < ItemCount(a)
    ensures Consistent([header] + a.items, Removed(position + 1), [header] + RemoveItemWithHeader(a, position).1.items)
  {
    var rows := [header] + a.items;
    assert [header] + Delete(a.items, position) == Delete(rows, position + 1);
  }

  /** Seen by a view with a header row on top, the header variant of
      replaceItem reports truthfully. */
  lemma ReplaceItemWithHeaderMatchesRows<T>(a: Adapter<T>, oldItem: Item<T>, newItem: Item<T>, header: Item<T>)
    requires oldItem in a.items
    ensures Consistent([header] + a.items, Changed(GetPosition(a, oldItem) + 1),
                       [header] + ReplaceItemWithHeader(a, oldItem, newItem).items)
  {
    var p := GetPosition(a, oldItem);
    var replaced := ReplaceItem(a, oldItem, newItem).items;
    assert ReplaceItemWithHeader(a, oldItem, newItem).items == replaced;
    forall k | 0 <= k < |a.items| + 1 && k != p + 1
      ensures ([header] + replaced)[k] == ([header] + a.items)[k]
    {
      if k > 0 {
        assert replaced[k - 1] == a.items[k - 1];
      }
    }
  }

  // Findings: the two notifications the source gets wrong, and the fixes.

  /** remove of an absent item reports position -1, which no view has. */
  lemma RemoveAbsentNotifiesInvalidPosition<T>(a: Adapter<T>, item: Item<T>)
    requires item !in a.items
    ensures Remove(a, item).log == a.log + [Removed(-1)]
    ensures !NotifiedOnce(a, Remove(a, item))
  {
    assert Remove(a, item).log[|a.log|] == Removed(-1);
  }

  /** remove that reports nothing when the item is absent. */
  function RemoveIfPresent<T(==)>(a: Adapter<T>, item: Item<T>): (r: Adapter<T>)
    ensures item !in a.items ==> r == a
    ensures item in a.items ==>
      NotifiedOnce(a, r)
      && multiset(r.items) + multiset{item} == multiset(a.items)
      && r.log[|a.log|] == Removed(GetPosition(a, item))
  {
    if item in a.items then Remove(a, item) else a
  }

  /** removeLastObject reports truthfully only when the last two items are
      equal, so that deleting either gives the same list. */
  lemma RemoveLastObjectReportIff<T>(a: Adapter<T>)
    requires ItemCount(a) > 0
    ensures NotifiedOnce(a, RemoveLastObject(a)) <==>
      ItemCount(a) >= 2 && a.items[ItemCount(a) - 2] == a.items[ItemCount(a) - 1]
  {
    var n: int := ItemCount(a);
    var r := RemoveLastObject(a);
    assert r.log[|a.log|] == Removed(n - 2);
    if NotifiedOnce(a, r) {
      assert r.items == Delete(a.items, n - 2);
      assert r.items[n - 2] == a.items[n - 1];
    }
    if n >= 2 && a.items[n - 2] == a.items[n - 1] {
      assert r.items == Delete(a.items, n - 2);
    }
  }

  /** Two distinct items: the row that vanished is row 1, the one reported is row 0. */
  lemma RemoveLastObjectMisreportsTwoItems()
    ensures var a := Adapter([Some(10), Some(20)], []);
      RemoveLastObject(a).items == [Some(10)]
      && RemoveLastObject(a).log == [Removed(0)]
      && !NotifiedOnce(a, RemoveLastObject(a))
  {
    var a: Adapter<int> := Adapter([Some(10), Some(20)], []);
    RemoveLastObjectReportIff(a);
  }

  /** removeLastObject reporting the position it actually removed. */
  function RemoveLastObjectFixed<T(==)>(a: Adapter<T>): (r: Adapter<T>)
    requires ItemCount(a) > 0
    ensures ItemCount(r) == ItemCount(a) - 1 && r.items == a.items[..ItemCount(r)]
    ensures r.log == a.log + [Removed(ItemCount(a) - 1)]
    ensures NotifiedOnce(a, r)
  {
    var position := |a.items| - 1;
    var items := Delete(a.items, position);
    assert items == a.items[..position];
    Adapter(items, a.log + [Removed(position)])
  }
}
