/** replaceObjectsWithAnimations and its two loops: a set-style replace that
    first deletes, one row at a time from the back, every item the new list
    lacks, then appends every item of the new list the adapter lacks. Each
    step goes through removeItem or addItem, so each sends its own notification. */
module Animations {
  import opened Wrappers
  import opened Sequences
  import opened Notifications
  import opened RecyclerAdapter

  // What the two loops send.

  /** The notifications animateRemoveObjects sends while it visits positions
      |s| - 1 down to `i`: one removal for each item not in `keep`. */
  function Removals<T(==)>(s: seq<T>, keep: seq<T>, i: int): (r: seq<Event>)
    requires 0 <= i <= |s|
    ensures |r| <= |s| - i
    decreases |s| - i
  {
    if i == |s| then []
    else Removals(s, keep, i + 1) + (if s[i] in keep then [] else [Removed(i)])
  }

  /** The notifications of `count` rows appended one at a time to a list of
      `start` rows. */
  function Insertions(start: int, count: nat): (r: seq<Event>)
    ensures |r| == count
    decreases count
  {
    if count == 0 then [] else Insertions(start, count - 1) + [Inserted(start + count - 1)]
  }

  /** One removal per item that does not survive the filter. */
  lemma {:induction false} RemovalsCount<T>(s: seq<T>, keep: seq<T>, i: int)
    requires 0 <= i <= |s|
    ensures |Removals(s, keep, i)| == |s| - i - |KeepSuffix(s, keep, i)|
    decreases |s| - i
  {
    if i < |s| {
      RemovalsCount(s, keep, i + 1);
    }
  }

  /** The removals go from the back to the front, each inside the list. */
  lemma {:induction false} RemovalsDescend<T>(s: seq<T>, keep: seq<T>, i: int)
    requires 0 <= i <= |s|
    ensures DescendingRemovals(Removals(s, keep, i), i - 1, |s|)
    decreases |s| - i
  {
    if i < |s| {
      RemovalsDescend(s, keep, i + 1);
      if s[i] !in keep {
        DescendingRemovalsSnoc(Removals(s, keep, i + 1), i, |s|);
      } else {
        assert Removals(s, keep, i) == Removals(s, keep, i + 1);
        DescendingRemovalsLower(Removals(s, keep, i + 1), i, i - 1, |s|);
      }
    }
  }

  /** A view that applies the removals one after the other to its copy of
      the rows ends with the filtered list: every removal names a row that
      exists at the moment it is sent, and the right one. */
  lemma {:induction false} RemovalsReplay<T>(s: seq<T>, keep: seq<T>, i: int)
    requires 0 <= i <= |s|
    ensures Replay(s, Removals(s, keep, i)) == Some(s[..i] + KeepSuffix(s, keep, i))
    decreases |s| - i
  {
    if i == |s| {
      assert s[..i] + KeepSuffix(s, keep, i) == s;
    } else {
      RemovalsReplay(s, keep, i + 1);
      if s[i] in keep {
        assert Removals(s, keep, i) == Removals(s, keep, i + 1);
        KeepStep(s, keep, i);
      } else {
        var rest := KeepSuffix(s, keep, i + 1);
        assert Removals(s, keep, i) == Removals(s, keep, i + 1) + [Removed(i)];
        ReplaySnoc(s, Removals(s, keep, i + 1), Removed(i));
        assert Replay(s, Removals(s, keep, i)) == Apply(s[..i + 1] + rest, Removed(i));
        assert s[..i + 1][..i] == s[..i];
        DeleteAtSeam(s[..i + 1], rest);
        assert KeepSuffix(s, keep, i) == rest;
      }
    }
  }

  /** The whole removal run of animateRemoveObjects: one removal per item
      that is not kept, in descending position order, and a view replaying
      them ends with the filtered list. */
  lemma RemovalsLeaveFiltered<T>(s: seq<T>, keep: seq<T>)
    ensures |Removals(s, keep, 0)| == |s| - |Keep(s, keep)|
    ensures DescendingRemovals(Removals(s, keep, 0), -1, |s|)
    ensures Replay(s, Removals(s, keep, 0)) == Some(Keep(s, keep))
  {
    RemovalsCount(s, keep, 0);
    RemovalsDescend(s, keep, 0);
    RemovalsReplay(s, keep, 0);
    KeepWhole(s, keep);
  }

  /** Event `j` of an append run inserts at `start + j`. */
  lemma {:induction false} InsertionsAt(start: int, count: nat)
    ensures forall j :: 0 <= j < count ==> Insertions(start, count)[j] == Inserted(start + j)
    decreases count
  {
    if count > 0 {
      InsertionsAt(start, count - 1);
    }
  }

  /** Appending `xs` to `base` one item at a time, insertion `j` truthfully
      reports the step from `base` plus the first `j` items to `base` plus
      the first `j + 1`. */
  lemma InsertionsReportAppends<T>(base: seq<T>, xs: seq<T>)
    ensures forall j :: 0 <= j < |xs| ==>
      Consistent(base + xs[..j], Insertions(|base|, |xs|)[j], base + xs[..j + 1])
  {
    InsertionsAt(|base|, |xs|);
    forall j | 0 <= j < |xs|
      ensures Consistent(base + xs[..j], Insertions(|base|, |xs|)[j], base + xs[..j + 1])
    {
      assert xs[..j + 1] == xs[..j] + [xs[j]];
      AppendAssoc(base, xs[..j], [xs[j]]);
      assert Delete(base + xs[..j] + [xs[j]], |base| + j) == base + xs[..j];
    }
  }

  // animateRemoveObjects

  /** animateRemoveObjects: the loop runs from the last position down to 0,
      so a deletion never shifts a position still to be visited. */
  method AnimateRemoveObjects<T(==)>(a: Adapter<T>, objects: seq<Item<T>>) returns (r: Adapter<T>)
    ensures r.items == Keep(a.items, objects)
    ensures r.log == a.log + Removals(a.items, objects, 0)
  {
    r := a;
    var i := |a.items| - 1;
    while i >= 0
      invariant -1 <= i < |a.items|
      invariant r.items == a.items[..i + 1] + KeepSuffix(a.items, objects, i + 1)
      invariant r.log == a.log + Removals(a.items, objects, i + 1)
      decreases i
    {
      FilteredAt(a.items, objects, i);
      var item := r.items[i];
      if item !in objects {
        RemoveStep(a, objects, r, i);
        var removed := RemoveItem(r, i);
        r := removed.1;
      } else {
        KeepStep(a.items, objects, i);
      }
      i := i - 1;
    }
    KeepWhole(a.items, objects);
  }

  /** A deletion of animateRemoveObjects: the list is filtered from `i` on
      and the log gains the removal of row `i`. */
  lemma RemoveStep<T>(a: Adapter<T>, objects: seq<Item<T>>, r: Adapter<T>, i: int)
    requires 0 <= i < |a.items|
    requires r.items == a.items[..i + 1] + KeepSuffix(a.items, objects, i + 1)
    requires r.log == a.log + Removals(a.items, objects, i + 1)
    requires a.items[i] !in objects
    ensures RemoveItem(r, i).1.items == a.items[..i] + KeepSuffix(a.items, objects, i)
    ensures RemoveItem(r, i).1.log == a.log + Removals(a.items, objects, i)
  {
    assert a.items[..i + 1][..i] == a.items[..i];
    DeleteAtSeam(a.items[..i + 1], KeepSuffix(a.items, objects, i + 1));
    AppendAssoc(a.log, Removals(a.items, objects, i + 1), [Removed(i)]);
  }

  /** Row `i` of the partly filtered list is still row `i` of the original. */
  lemma FilteredAt<T>(s: seq<T>, objects: seq<T>, i: int)
    requires 0 <= i < |s|
    ensures |s[..i + 1] + KeepSuffix(s, objects, i + 1)| > i
    ensures (s[..i + 1] + KeepSuffix(s, objects, i + 1))[i] == s[i]
  {
  }

  /** A kept item joins the filtered part; nothing is sent. */
  lemma KeepStep<T>(s: seq<T>, objects: seq<T>, i: int)
    requires 0 <= i < |s| && s[i] in objects
    ensures s[..i + 1] + KeepSuffix(s, objects, i + 1) == s[..i] + KeepSuffix(s, objects, i)
    ensures Removals(s, objects, i + 1) == Removals(s, objects, i)
  {
    assert s[..i + 1] == s[..i] + [s[i]];
    AppendAssoc(s[..i], [s[i]], KeepSuffix(s, objects, i + 1));
  }

  // animateAddObjects

  /** animateAddObjects: walk `objects` in order and append each item the
      adapter does not yet contain, including ones appended earlier in the walk. */
  method AnimateAddObjects<T(==)>(a: Adapter<T>, objects: seq<Item<T>>) returns (r: Adapter<T>)
    ensures r.items == a.items + Missing(a.items, objects)
    ensures r.log == a.log + Insertions(ItemCount(a), |Missing(a.items, objects)|)
  {
    r := a;
    var i := 0;
    while i < |objects|
      invariant 0 <= i <= |objects|
      invariant r.items == a.items + Missing(a.items, objects[..i])
      invariant r.log == a.log + Insertions(ItemCount(a), |Missing(a.items, objects[..i])|)
    {
      var item := objects[i];
      if item !in r.items {
        AddStep(a, objects, r, i);
        AddItemAppends(r, item);
        r := AddItem(r, item);
      } else {
        SkipStep(a, objects, r, i);
      }
      i := i + 1;
    }
    MissingWhole(a.items, objects);
  }

  /** Walking all of `objects` appends what `objects` is missing. */
  lemma MissingWhole<T>(base: seq<T>, objects: seq<T>)
    ensures Missing(base, objects[..|objects|]) == Missing(base, objects)
  {
    assert objects[..|objects|] == objects;
  }

  /** An append of animateAddObjects: the item joins the newcomers and the
      log gains the insertion after the last row. */
  lemma AddStep<T>(a: Adapter<T>, objects: seq<Item<T>>, r: Adapter<T>, i: int)
    requires 0 <= i < |objects| && objects[i] !in r.items
    requires r.items == a.items + Missing(a.items, objects[..i])
    requires r.log == a.log + Insertions(ItemCount(a), |Missing(a.items, objects[..i])|)
    ensures r.items + [objects[i]] == a.items + Missing(a.items, objects[..i + 1])
    ensures r.log + [Inserted(|r.items|)] == a.log + Insertions(ItemCount(a), |Missing(a.items, objects[..i + 1])|)
  {
    var m := Missing(a.items, objects[..i]);
    MissingAppends(a.items, objects, i);
    AppendAssoc(a.items, m, [objects[i]]);
    InsertionsSnoc(a.log, ItemCount(a), |m|);
  }

  /** addItem(object) appends the item and reports the old size. */
  lemma AddItemAppends<T>(r: Adapter<T>, item: Item<T>)
    ensures AddItem(r, item) == Adapter(r.items + [item], r.log + [Inserted(ItemCount(r))])
  {
  }

  /** An item already present is skipped; nothing is sent. */
  lemma SkipStep<T>(a: Adapter<T>, objects: seq<Item<T>>, r: Adapter<T>, i: int)
    requires 0 <= i < |objects| && objects[i] in r.items
    requires r.items == a.items + Missing(a.items, objects[..i])
    ensures Missing(a.items, objects[..i + 1]) == Missing(a.items, objects[..i])
  {
    MissingSnoc(a.items, objects, i);
  }

  /** One more append continues the run. */
  lemma InsertionsSnoc(log: seq<Event>, start: int, count: nat)
    ensures log + Insertions(start, count) + [Inserted(start + count)] == log + Insertions(start, count + 1)
  {
  }

  // replaceObjectsWithAnimations

  /** replaceObjectsWithAnimations: afterwards the adapter holds exactly the
      items of `objects`: the survivors first, in their old order, then the
      newcomers in their order in `objects`. The log gains the removals, from
      the back, followed by the appends. Replacing a list by itself changes
      nothing and sends nothing. */
  method ReplaceObjectsWithAnimations<T(==)>(a: Adapter<T>, objects: seq<Item<T>>) returns (r: Adapter<T>)
    ensures forall x :: x in r.items ==> x in objects
    ensures forall x :: x in objects ==> x in r.items
    ensures r.items == Keep(a.items, objects) + Missing(Keep(a.items, objects), objects)
    ensures r.log == a.log + Removals(a.items, objects, 0)
      + Insertions(|Keep(a.items, objects)|, |Missing(Keep(a.items, objects), objects)|)
    ensures objects == a.items ==> r == a
  {
    var kept := AnimateRemoveObjects(a, objects);
    r := AnimateAddObjects(kept, objects);
    KeepThenMissingHoldsExactly(a.items, objects);
    if objects == a.items {
      ReplaceBySelf(a.items);
    }
  }

  /** What replaceObjectsWithAnimations promises about the list and the log
      its contract describes. The survivors keep their old relative order
      and the newcomers their order in `objects`. No newcomer was already a
      survivor, and none is appended twice. The removals name strictly
      descending rows, each one truthful about the step it makes, and leave
      a view showing the survivors. Each append then reports its own step truthfully. */
  lemma ReplaceObjectsOutcome<T>(s: seq<T>, objects: seq<T>)
    ensures IsSubsequence(Keep(s, objects), s)
    ensures IsSubsequence(Missing(Keep(s, objects), objects), objects)
    ensures forall x :: x in Missing(Keep(s, objects), objects) ==> x !in Keep(s, objects)
    ensures var added := Missing(Keep(s, objects), objects);
      forall i, j :: 0 <= i < j < |added| ==> added[i] != added[j]
    ensures DescendingRemovals(Removals(s, objects, 0), -1, |s|)
    ensures Replay(s, Removals(s, objects, 0)) == Some(Keep(s, objects))
    ensures EachStepConsistent(s, Removals(s, objects, 0))
    ensures var kept := Keep(s, objects); var added := Missing(kept, objects);
      forall j :: 0 <= j < |added| ==>
        Consistent(kept + added[..j], Insertions(|kept|, |added|)[j], kept + added[..j + 1])
  {
    var kept := Keep(s, objects);
    KeepIsSubsequence(s, objects);
    MissingIsSubsequence(kept, objects);
    MissingMembers(kept, objects);
    MissingDistinct(kept, objects);
    RemovalsLeaveFiltered(s, objects);
    var rs := Removals(s, objects, 0);
    DescendingRemovalsMeaning(rs, -1, |s|);
    ReplayStepsConsistent(s, rs);
    InsertionsReportAppends(kept, Missing(kept, objects));
  }

  /** Replacing a list by itself keeps every item, appends none and sends
      nothing. */
  lemma ReplaceBySelf<T>(s: seq<T>)
    ensures Keep(s, s) == s && Missing(s, s) == []
    ensures Removals(s, s, 0) == []
  {
    KeepAll(s, s);
    MissingNone(s, s);
    RemovalsLeaveFiltered(s, s);
  }
}
