/** Sequence operations the adapter is built from: positional insert and
    delete (java.util.List.add(int, E) and List.remove(int)), first-index
    lookup (List.indexOf), and the two filters behind the animated replace. */
module Sequences {

  /** The first index holding `x`, or -1 when `x` does not occur. */
  function IndexOf<T(==)>(s: seq<T>, x: T): (r: int)
    ensures -1 <= r < |s|
    ensures r == -1 <==> x !in s
    ensures 0 <= r ==> s[r] == x
    ensures forall k :: 0 <= k < r ==> s[k] != x
  {
    if |s| == 0 then -1
    else if s[0] == x then 0
    else
      var k := IndexOf(s[1..], x);
      if k == -1 then -1 else k + 1
  }

  /** An index holding `x` with no earlier occurrence is the one IndexOf finds. */
  lemma IndexOfFirst<T>(s: seq<T>, x: T, p: int)
    requires 0 <= p < |s| && s[p] == x
    requires forall k :: 0 <= k < p ==> s[k] != x
    ensures IndexOf(s, x) == p
  {
  }

  /** `s` without the element at index `i`; later elements shift down by one. */
  function Delete<T>(s: seq<T>, i: int): (r: seq<T>)
    requires 0 <= i < |s|
    ensures |r| == |s| - 1
    ensures forall k {:trigger r[k]} :: 0 <= k < i ==> r[k] == s[k]
    ensures forall k {:trigger r[k]} :: i <= k < |r| ==> r[k] == s[k + 1]
  {
    s[..i] + s[i + 1..]
  }

  /** `s` with `x` placed at index `i`; elements from `i` on shift up by one. */
  function Insert<T>(s: seq<T>, i: int, x: T): (r: seq<T>)
    requires 0 <= i <= |s|
    ensures |r| == |s| + 1
    ensures r[i] == x
    ensures forall k {:trigger r[k]} :: 0 <= k < i ==> r[k] == s[k]
    ensures forall k {:trigger r[k]} :: i < k < |r| ==> r[k] == s[k - 1]
  {
    s[..i] + [x] + s[i..]
  }

  lemma DeleteInsert<T>(s: seq<T>, i: int, x: T)
    requires 0 <= i <= |s|
    ensures Delete(Insert(s, i, x), i) == s
  {
  }

  lemma InsertDelete<T>(s: seq<T>, i: int)
    requires 0 <= i < |s|
    ensures Insert(Delete(s, i), i, s[i]) == s
  {
  }

  /** Taking the element at `f` out and putting it back at `t`: the rows
      between the two positions shift by one towards `f`, the others stay,
      and deleting the moved element from either side gives the same list. */
  lemma MoveFacts<T>(s: seq<T>, f: int, t: int)
    requires 0 <= f < |s| && 0 <= t < |s|
    ensures var r := Insert(Delete(s, f), t, s[f]);
      && |r| == |s| && r[t] == s[f]
      && Delete(r, t) == Delete(s, f)
      && multiset(r) == multiset(s)
      && (forall k {:trigger r[k]} :: 0 <= k < |s| && k < f && k < t ==> r[k] == s[k])
      && (forall k {:trigger r[k]} :: 0 <= k < |s| && k > f && k > t ==> r[k] == s[k])
      && (forall k {:trigger r[k]} :: f <= k < t ==> r[k] == s[k + 1])
      && (forall k {:trigger r[k]} :: t < k <= f ==> r[k] == s[k - 1])
  {
    var rest := Delete(s, f);
    DeleteMultiset(s, f);
    InsertMultiset(rest, t, s[f]);
    DeleteInsert(rest, t, s[f]);
  }

  /** Deleting one element takes exactly that element out of the multiset. */
  lemma DeleteMultiset<T>(s: seq<T>, i: int)
    requires 0 <= i < |s|
    ensures multiset(Delete(s, i)) + multiset{s[i]} == multiset(s)
  {
    assert s == s[..i] + [s[i]] + s[i + 1..];
  }

  lemma InsertMultiset<T>(s: seq<T>, i: int, x: T)
    requires 0 <= i <= |s|
    ensures multiset(Insert(s, i, x)) == multiset(s) + multiset{x}
  {
    assert s == s[..i] + s[i..];
  }

  /** The elements of `s` that also occur in `keep`, in their order in `s`. */
  function Keep<T(==)>(s: seq<T>, keep: seq<T>): (r: seq<T>)
    ensures |r| <= |s|
  {
    if |s| == 0 then []
    else (if s[0] in keep then [s[0]] else []) + Keep(s[1..], keep)
  }

  lemma {:induction false} KeepMembers<T>(s: seq<T>, keep: seq<T>)
    ensures forall x :: x in Keep(s, keep) ==> x in s && x in keep
    ensures forall x :: x in s && x in keep ==> x in Keep(s, keep)
  {
    if |s| > 0 {
      KeepMembers(s[1..], keep);
      assert s == [s[0]] + s[1..];
    }
  }

  /** The elements of `objs`, in their order in `objs`, that occur neither in
      `base` nor earlier in `objs`: what appending each missing one yields. */
  function Missing<T(==)>(base: seq<T>, objs: seq<T>): (r: seq<T>)
    ensures |r| <= |objs|
    decreases |objs|
  {
    if |objs| == 0 then []
    else
      var m := Missing(base, objs[..|objs| - 1]);
      var x := objs[|objs| - 1];
      if x in base || x in m then m else m + [x]
  }

  lemma {:induction false} MissingMembers<T>(base: seq<T>, objs: seq<T>)
    ensures forall x :: x in Missing(base, objs) ==> x in objs && x !in base
    ensures forall x :: x in objs && x !in base ==> x in Missing(base, objs)
    decreases |objs|
  {
    if |objs| > 0 {
      var front := objs[..|objs| - 1];
      assert objs == front + [objs[|objs| - 1]];
      MissingMembers(base, front);
    }
  }

  /** No item is appended twice. */
  lemma {:induction false} MissingDistinct<T>(base: seq<T>, objs: seq<T>)
    ensures forall i, j :: 0 <= i < j < |Missing(base, objs)| ==> Missing(base, objs)[i] != Missing(base, objs)[j]
    decreases |objs|
  {
    if |objs| > 0 {
      var front := objs[..|objs| - 1];
      MissingDistinct(base, front);
    }
  }

  /** `xs` can be obtained from `ys` by deleting elements. */
  predicate IsSubsequence<T(==)>(xs: seq<T>, ys: seq<T>)
    decreases |ys|
  {
    if |ys| == 0 then |xs| == 0
    else
      (|xs| > 0 && xs[0] == ys[0] && IsSubsequence(xs[1..], ys[1..]))
      || IsSubsequence(xs, ys[1..])
  }

  lemma {:induction false} KeepIsSubsequence<T>(s: seq<T>, keep: seq<T>)
    ensures IsSubsequence(Keep(s, keep), s)
  {
    if |s| > 0 {
      KeepIsSubsequence(s[1..], keep);
      if s[0] in keep {
        assert Keep(s, keep) == [s[0]] + Keep(s[1..], keep);
        assert Keep(s, keep)[1..] == Keep(s[1..], keep);
      } else {
        assert Keep(s, keep) == Keep(s[1..], keep);
      }
    }
  }

  /** Every element of `s` that is in `keep` survives the filter. */
  lemma {:induction false} KeepAll<T>(s: seq<T>, keep: seq<T>)
    requires forall k :: 0 <= k < |s| ==> s[k] in keep
    ensures Keep(s, keep) == s
  {
    if |s| > 0 {
      KeepAll(s[1..], keep);
      assert s == [s[0]] + s[1..];
    }
  }

  lemma {:induction false} MissingNone<T>(base: seq<T>, objs: seq<T>)
    requires forall x :: x in objs ==> x in base
    ensures Missing(base, objs) == []
    decreases |objs|
  {
    if |objs| > 0 {
      var front := objs[..|objs| - 1];
      assert forall x :: x in front ==> x in objs;
      assert objs[|objs| - 1] in objs;
      MissingNone(base, front);
    }
  }

  lemma {:induction false} SubsequenceExtend<T>(xs: seq<T>, ys: seq<T>, y: T)
    requires IsSubsequence(xs, ys)
    ensures IsSubsequence(xs, ys + [y])
    decreases |ys|
  {
    if |ys| == 0 {
      assert IsSubsequence(xs, (ys + [y])[1..]);
    } else {
      assert (ys + [y])[1..] == ys[1..] + [y];
      if |xs| > 0 && xs[0] == ys[0] && IsSubsequence(xs[1..], ys[1..]) {
        SubsequenceExtend(xs[1..], ys[1..], y);
      } else {
        SubsequenceExtend(xs, ys[1..], y);
      }
    }
  }

  lemma {:induction false} SubsequenceAppendBoth<T>(xs: seq<T>, ys: seq<T>, y: T)
    requires IsSubsequence(xs, ys)
    ensures IsSubsequence(xs + [y], ys + [y])
    decreases |ys|
  {
    if |ys| == 0 {
      assert xs + [y] == [y];
      assert IsSubsequence((xs + [y])[1..], (ys + [y])[1..]);
    } else {
      assert (ys + [y])[1..] == ys[1..] + [y];
      if |xs| > 0 && xs[0] == ys[0] && IsSubsequence(xs[1..], ys[1..]) {
        SubsequenceAppendBoth(xs[1..], ys[1..], y);
        assert (xs + [y])[1..] == xs[1..] + [y];
      } else {
        SubsequenceAppendBoth(xs, ys[1..], y);
      }
    }
  }

  lemma {:induction false} MissingIsSubsequence<T>(base: seq<T>, objs: seq<T>)
    ensures IsSubsequence(Missing(base, objs), objs)
    decreases |objs|
  {
    if |objs| > 0 {
      var front := objs[..|objs| - 1];
      var x := objs[|objs| - 1];
      assert objs == front + [x];
      MissingIsSubsequence(base, front);
      var m := Missing(base, front);
      if x in base || x in m {
        SubsequenceExtend(m, front, x);
      } else {
        SubsequenceAppendBoth(m, front, x);
      }
    }
  }

  /** Keep applied to the suffix of `s` from index `i` on, recursing on the
      index instead of slicing. */
  function KeepSuffix<T(==)>(s: seq<T>, keep: seq<T>, i: int): (r: seq<T>)
    requires 0 <= i <= |s|
    ensures |r| <= |s| - i
    decreases |s| - i
  {
    if i == |s| then [] else (if s[i] in keep then [s[i]] else []) + KeepSuffix(s, keep, i + 1)
  }

  lemma {:induction false} KeepSuffixIsKeep<T>(s: seq<T>, keep: seq<T>, i: int)
    requires 0 <= i <= |s|
    ensures KeepSuffix(s, keep, i) == Keep(s[i..], keep)
    decreases |s| - i
  {
    if i == |s| {
      assert s[i..] == [];
    } else {
      KeepSuffixIsKeep(s, keep, i + 1);
      assert s[i..][1..] == s[i + 1..];
    }
  }

  /** The suffix from 0 is the whole list. */
  lemma KeepWhole<T>(s: seq<T>, keep: seq<T>)
    ensures s[..0] + KeepSuffix(s, keep, 0) == Keep(s, keep)
  {
    KeepSuffixIsKeep(s, keep, 0);
    assert s[0..] == s;
  }

  /** One more element of `objs` is appended exactly when it is neither in
      `base` nor already appended. */
  lemma MissingSnoc<T>(base: seq<T>, objs: seq<T>, i: int)
    requires 0 <= i < |objs|
    ensures Missing(base, objs[..i + 1]) ==
      var m := Missing(base, objs[..i]);
      if objs[i] in base || objs[i] in m then m else m + [objs[i]]
  {
    assert objs[..i + 1][..i] == objs[..i];
  }

  /** An element found neither in `base` nor among the earlier appends is
      appended. */
  lemma MissingAppends<T>(base: seq<T>, objs: seq<T>, i: int)
    requires 0 <= i < |objs| && objs[i] !in base + Missing(base, objs[..i])
    ensures Missing(base, objs[..i + 1]) == Missing(base, objs[..i]) + [objs[i]]
  {
    MissingSnoc(base, objs, i);
  }

  /** Filtering `s` by `objs` and then appending what is missing from `objs`
      leaves exactly the elements of `objs`. */
  lemma KeepThenMissingHoldsExactly<T>(s: seq<T>, objs: seq<T>)
    ensures forall x :: x in Keep(s, objs) + Missing(Keep(s, objs), objs) ==> x in objs
    ensures forall x :: x in objs ==> x in Keep(s, objs) + Missing(Keep(s, objs), objs)
  {
    KeepMembers(s, objs);
    MissingMembers(Keep(s, objs), objs);
  }

  /** Deleting the last element of the front part of a concatenation. */
  lemma DeleteAtSeam<T>(front: seq<T>, back: seq<T>)
    requires |front| > 0
    ensures Delete(front + back, |front| - 1) == front[..|front| - 1] + back
  {
    var s := front + back;
    assert s[..|front| - 1] == front[..|front| - 1];
    assert s[|front|..] == back;
  }

  lemma AppendAssoc<T>(xs: seq<T>, ys: seq<T>, zs: seq<T>)
    ensures xs + ys + zs == xs + (ys + zs)
  {
  }
}
