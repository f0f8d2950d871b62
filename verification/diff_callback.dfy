/** The two item comparisons swap hands to DiffUtil, and the list-size rule
    it uses. DiffUtil itself (the diff and its notifications) is not part of
    this model. */
module DiffCallback {
  import opened Wrappers
  import opened RecyclerAdapter

  /** The id provider the one-argument swap installs: an item is its own id. */
  function DefaultId<T>(item: T): Option<T>
  {
    Some(item)
  }

  /** The default provider never gives a null id, and two items share an id
      exactly when they are equal. */
  lemma DefaultIdInjective<T>(x: T, y: T)
    ensures DefaultId(x).Some?
    ensures DefaultId(x) == DefaultId(y) <==> x == y
  {
  }

  /** areItemsTheSame: two nulls are the same item, a null and a non-null
      are not; otherwise the items are the same when their ids are equal
      (a null id equals only a null id). */
  function AreItemsTheSame<T, I(==)>(oldItem: Item<T>, newItem: Item<T>, getId: T -> Option<I>): (r: bool)
    ensures oldItem.None? && newItem.None? ==> r
    ensures oldItem.None? != newItem.None? ==> !r
    ensures oldItem.Some? && newItem.Some? ==> (r <==> getId(oldItem.value) == getId(newItem.value))
  {
    if oldItem.None? && newItem.None? then true
    else if oldItem.None? || newItem.None? then false
    else getId(oldItem.value) == getId(newItem.value)
  }

  /** areContentsTheSame: the same reference, or a non-null old item that
      equals the new one. */
  function AreContentsTheSame<T(==)>(oldItem: Item<T>, newItem: Item<T>): (r: bool)
    ensures r <==> oldItem == newItem
  {
    oldItem == newItem || (oldItem.Some? && newItem.Some? && oldItem.value == newItem.value)
  }

  /** Equal items are always the same item, whatever the id provider. */
  lemma SameContentsAreSameItems<T, I>(oldItem: Item<T>, newItem: Item<T>, getId: T -> Option<I>)
    ensures AreContentsTheSame(oldItem, newItem) ==> AreItemsTheSame(oldItem, newItem, getId)
  {
  }

  /** With the default id provider the two comparisons agree, so DiffUtil
      never sees "same item, changed contents". */
  lemma DefaultIdentityCoincides<T>(oldItem: Item<T>, newItem: Item<T>)
    ensures AreItemsTheSame(oldItem, newItem, DefaultId) <==> AreContentsTheSame(oldItem, newItem)
  {
  }

  /** A provider that gives two different items one id makes them the same
      item with different contents. */
  lemma SharedIdDistinguishesContents<T, I>(x: T, y: T, getId: T -> Option<I>)
    requires x != y && getId(x) == getId(y)
    ensures AreItemsTheSame(Some(x), Some(y), getId)
    ensures !AreContentsTheSame(Some(x), Some(y))
  {
  }

  /** For any id provider, being the same item is an equivalence. */
  lemma ItemsTheSameIsEquivalence<T, I>(x: Item<T>, y: Item<T>, z: Item<T>, getId: T -> Option<I>)
    ensures AreItemsTheSame(x, x, getId)
    ensures AreItemsTheSame(x, y, getId) ==> AreItemsTheSame(y, x, getId)
    ensures AreItemsTheSame(x, y, getId) && AreItemsTheSame(y, z, getId) ==> AreItemsTheSame(x, z, getId)
  {
  }

  /** getOldListSize / getNewListSize: a null list counts as empty. */
  function ListSize<T>(list: Option<seq<T>>): (r: nat)
    ensures list.None? ==> r == 0
    ensures list.Some? ==> r == |list.value|
  {
    if list.Some? then |list.value| else 0
  }

  /** The callback asks about positions of the old and the new list. */
  function AreItemsTheSameAt<T, I(==)>(oldList: seq<Item<T>>, newList: seq<Item<T>>,
                                      oldPosition: int, newPosition: int, getId: T -> Option<I>): (r: bool)
    requires 0 <= oldPosition < |oldList| && 0 <= newPosition < |newList|
    ensures var x, y := oldList[oldPosition], newList[newPosition];
      r <==> (x.None? && y.None?) || (x.Some? && y.Some? && getId(x.value) == getId(y.value))
  {
    AreItemsTheSame(oldList[oldPosition], newList[newPosition], getId)
  }

  function AreContentsTheSameAt<T(==)>(oldList: seq<Item<T>>, newList: seq<Item<T>>,
                                      oldPosition: int, newPosition: int): (r: bool)
    requires 0 <= oldPosition < |oldList| && 0 <= newPosition < |newList|
    ensures r <==> oldList[oldPosition] == newList[newPosition]
  {
    AreContentsTheSame(oldList[oldPosition], newList[newPosition])
  }

  /** Comparing a list with itself under the default provider: every
      position matches itself both as an item and by contents. */
  lemma SelfComparisonMatchesDiagonal<T>(list: seq<Item<T>>, position: int)
    requires 0 <= position < |list|
    ensures AreItemsTheSameAt(list, list, position, position, DefaultId)
    ensures AreContentsTheSameAt(list, list, position, position)
  {
  }
}
