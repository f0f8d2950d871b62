/** The change notifications a RecyclerView.Adapter sends to its view, and
    what each one claims about the list before and after it was sent. */
module Notifications {
  import opened Wrappers
  import opened Sequences

  /** One `notify*` call. Positions are plain integers: the adapter can and
      does report positions that do not exist (-1, for one). */
  datatype Event =
    | Inserted(pos: int)                       // notifyItemInserted
    | RangeInserted(start: int, count: int)    // notifyItemRangeInserted
    | Removed(pos: int)                        // notifyItemRemoved
    | Changed(pos: int)                        // notifyItemChanged
    | Moved(fromPos: int, toPos: int)          // notifyItemMoved
    | RangeRemoved(start: int, count: int)     // notifyItemRangeRemoved
    | RangeChanged(start: int, count: int)     // notifyItemRangeChanged
    | DataSetChanged                           // notifyDataSetChanged

  /** `e` truthfully describes the step from `before` to `after`: every
      position it names exists at the moment it is sent, and the rows it does
      not mention are left exactly where they were. */
  predicate Consistent<T(==)>(before: seq<T>, e: Event, after: seq<T>)
  {
    match e
    case Inserted(i) =>
      |after| == |before| + 1 && 0 <= i < |after| && Delete(after, i) == before
    case RangeInserted(s, n) =>
      0 <= s && 0 <= n && s <= |before| && |after| == |before| + n
      && after[..s] + after[s + n..] == before
    case Removed(i) =>
      0 <= i < |before| && after == Delete(before, i)
    case Changed(i) =>
      0 <= i < |before| && |after| == |before|
      && forall k {:trigger after[k]} :: 0 <= k < |before| && k != i ==> after[k] == before[k]
    case Moved(f, t) =>
      0 <= f < |before| && 0 <= t < |before| && |after| == |before|
      && after[t] == before[f] && Delete(after, t) == Delete(before, f)
    case RangeRemoved(s, n) =>
      0 <= s && 0 <= n && s + n <= |before| && after == before[..s] + before[s + n..]
    case RangeChanged(s, n) =>
      0 <= s && 0 <= n && s + n <= |before| && |after| == |before|
      && forall k {:trigger after[k]} :: 0 <= k < |before| && !(s <= k < s + n) ==> after[k] == before[k]
    case DataSetChanged =>
      true
  }

  /** How many rows an event says the list gained (negative when it lost
      rows). DataSetChanged says nothing about the count and is given 0. */
  function SizeChange(e: Event): int
  {
    match e
    case Inserted(_) => 1
    case RangeInserted(_, n) => n
    case Removed(_) => -1
    case RangeRemoved(_, n) => -n
    case _ => 0
  }

  /** Every notification except DataSetChanged tells a view how the row
      count moved. */
  lemma ConsistentSizeChange<T>(before: seq<T>, e: Event, after: seq<T>)
    requires Consistent(before, e, after) && !e.DataSetChanged?
    ensures |after| == |before| + SizeChange(e)
  {
  }

  /** Events a view can apply to its own copy of the rows from the indices
      alone; the others make it fetch fresh content from the adapter. */
  predicate Structural(e: Event)
  {
    e.Removed? || e.Moved? || e.RangeRemoved?
  }

  /** What a view does to its copy of the rows on a structural event, or
      None when the event names a position the copy does not have. */
  function Apply<T>(mirror: seq<T>, e: Event): Option<seq<T>>
  {
    match e
    case Removed(i) =>
      if 0 <= i < |mirror| then Some(Delete(mirror, i)) else None
    case Moved(f, t) =>
      if 0 <= f < |mirror| && 0 <= t < |mirror| then Some(Insert(Delete(mirror, f), t, mirror[f])) else None
    case RangeRemoved(s, n) =>
      if 0 <= s && 0 <= n && s + n <= |mirror| then Some(mirror[..s] + mirror[s + n..]) else None
    case _ =>
      None
  }

  /** Applying `events` one after the other, in the order they were sent. */
  function Replay<T>(mirror: seq<T>, events: seq<Event>): Option<seq<T>>
    decreases |events|
  {
    if |events| == 0 then Some(mirror)
    else
      match Replay(mirror, events[..|events| - 1])
      case None => None
      case Some(m) => Apply(m, events[|events| - 1])
  }

  /** A structural event is applicable and yields `after` exactly when it
      truthfully describes the step to `after`. */
  lemma ApplyIffConsistent<T>(before: seq<T>, e: Event, after: seq<T>)
    requires Structural(e)
    ensures Apply(before, e) == Some(after) <==> Consistent(before, e, after)
  {
    if e.Moved? {
      var f, t := e.fromPos, e.toPos;
      if Apply(before, e) == Some(after) {
        DeleteInsert(Delete(before, f), t, before[f]);
      }
      if Consistent(before, e, after) {
        InsertDelete(after, t);
      }
    }
  }

  /** Replaying one more event continues from where the shorter replay ended. */
  lemma ReplaySnoc<T>(mirror: seq<T>, events: seq<Event>, e: Event)
    ensures Replay(mirror, events + [e]) ==
      match Replay(mirror, events)
      case None => None
      case Some(m) => Apply(m, e)
  {
    assert (events + [e])[..|events|] == events;
  }

  /** Replayed one after the other, every event of `events` applies and
      truthfully describes the step it makes on the view's copy. */
  predicate EachStepConsistent<T(==)>(mirror: seq<T>, events: seq<Event>)
  {
    forall j {:trigger events[j]} :: 0 <= j < |events| ==>
      Replay(mirror, events[..j]).Some? && Replay(mirror, events[..j + 1]).Some?
      && Consistent(Replay(mirror, events[..j]).value, events[j], Replay(mirror, events[..j + 1]).value)
  }

  /** When a run of structural events replays without a hitch, every event
      in it truthfully describes the step it made on the view's copy. */
  lemma {:induction false} ReplayStepsConsistent<T>(mirror: seq<T>, events: seq<Event>)
    requires forall j :: 0 <= j < |events| ==> Structural(events[j])
    requires Replay(mirror, events).Some?
    ensures forall j :: 0 <= j <= |events| ==> Replay(mirror, events[..j]).Some?
    ensures EachStepConsistent(mirror, events)
    decreases |events|
  {
    if |events| == 0 {
      assert events[..0] == events;
    } else {
      var n := |events| - 1;
      var front := events[..n];
      forall j | 0 <= j < n
        ensures Structural(front[j])
      {
        assert front[j] == events[j];
      }
      ReplayStepsConsistent(mirror, front);
      forall j | 0 <= j <= |events|
        ensures Replay(mirror, events[..j]).Some?
      {
        if j <= n {
          assert events[..j] == front[..j];
        } else {
          assert events[..j] == events;
        }
      }
      forall j | 0 <= j < |events|
        ensures Consistent(Replay(mirror, events[..j]).value, events[j], Replay(mirror, events[..j + 1]).value)
      {
        if j < n {
          assert events[..j] == front[..j];
          assert events[..j + 1] == front[..j + 1];
          assert events[j] == front[j];
        } else {
          assert events[..j] == front;
          assert events[..j + 1] == events;
          ApplyIffConsistent(Replay(mirror, front).value, events[n], Replay(mirror, events).value);
        }
      }
    }
  }

  /** `events` are removals only, each of a position strictly between `low`
      and `high`, sent in strictly descending position order. Defined from
      the last event back: everything sent before it removed a higher row. */
  predicate DescendingRemovals(events: seq<Event>, low: int, high: int)
    decreases |events|
  {
    if |events| == 0 then true
    else
      var last := events[|events| - 1];
      && last.Removed?
      && low < last.pos < high
      && DescendingRemovals(events[..|events| - 1], last.pos, high)
  }

  /** Position by position: every event is a removal inside the bounds, and
      of two events the earlier one removes the higher row. */
  lemma {:induction false} DescendingRemovalsMeaning(events: seq<Event>, low: int, high: int)
    requires DescendingRemovals(events, low, high)
    ensures forall j :: 0 <= j < |events| ==> events[j].Removed? && low < events[j].pos < high
    ensures forall j, k :: 0 <= j < k < |events| ==> events[j].pos > events[k].pos
    decreases |events|
  {
    if |events| > 0 {
      var n := |events| - 1;
      var front := events[..n];
      DescendingRemovalsMeaning(front, events[n].pos, high);
      assert forall j :: 0 <= j < n ==> events[j] == front[j];
    }
  }

  lemma DescendingRemovalsSnoc(events: seq<Event>, i: int, high: int)
    requires DescendingRemovals(events, i, high) && 0 <= i < high
    ensures DescendingRemovals(events + [Removed(i)], i - 1, high)
  {
    assert (events + [Removed(i)])[..|events|] == events;
  }

  /** A lower bound can always be relaxed. */
  lemma DescendingRemovalsLower(events: seq<Event>, low: int, lower: int, high: int)
    requires DescendingRemovals(events, low, high) && lower <= low
    ensures DescendingRemovals(events, lower, high)
  {
  }
}
