/** Intrusive doubly linked lists and their natural merge sort (lib/kernel/list.c).

    A list has a head and a tail element around the interior ones.  The ghost field `all` is
    its sequence of elements, both headers included, so that positions 1 .. |all|-2 are interior
    and |all|-1 is the end; `repr` is a set that holds them all. */
module LinkedList {
  import opened Sequences
  import opened LinkedNodes
  import opened ListOrder

  class List<T(0, !new)> {
    const head: Elem<T>
    const tail: Elem<T>
    ghost var all: seq<Elem<T>>
    ghost const repr: set<Elem<T>>

    ghost predicate Valid()
      reads this, repr
    {
      && (forall k :: 0 <= k < |all| ==> all[k] in repr)
      && |all| >= 2 && all[0] == head && all[|all| - 1] == tail
      && Distinct(all) && Linked(all)
      && head.prev == null && tail.next == null
    }

    /** The interior elements. */
    ghost function Elems(): seq<Elem<T>>
      requires |all| >= 2
      reads this
    {
      all[1..|all| - 1]
    }

    /** list_init. */
    constructor ()
      ensures Valid() && Elems() == [] && fresh(head) && fresh(tail)
    {
      var h := new Elem<T>.Header();
      var t := new Elem<T>.Header();
      h.prev, h.next := null, t;
      t.prev, t.next := h, null;
      head, tail, all, repr := h, t, [h, t], {h, t};
    }

    /** list_splice's first two stores: the block at f .. l-1 leaves the list. */
    method Unlink(first: Elem<T>, lst: Elem<T>, ghost f: nat, ghost l: nat)
      requires Valid() && 1 <= f < l < |all| && first == all[f] && lst == all[l - 1]
      modifies repr
      ensures forall k {:trigger all[k].next} :: 0 <= k < |all| - 1 ==> all[k].next == all[if k + 1 == f then l else k + 1]
      ensures forall k {:trigger all[k].prev} :: 0 < k < |all| ==> all[k].prev == all[if k == l then f - 1 else k - 1]
      ensures head.prev == null && tail.next == null
    {
      assert first.prev == all[f - 1] && lst.next == all[l];
      first.prev.next := lst.next;
      lst.next.prev := first.prev;
    }

    /** list_splice's other four stores: it is linked in again before position b. */
    method Link(before: Elem<T>, first: Elem<T>, lst: Elem<T>, ghost b: nat, ghost f: nat, ghost l: nat)
      requires 1 <= b < |all| && 1 <= f < l < |all| && (b < f || l <= b)
      requires before == all[b] && first == all[f] && lst == all[l - 1]
      requires (forall k :: 0 <= k < |all| ==> all[k] in repr)
      requires Distinct(all) && all[0] == head && all[|all| - 1] == tail && head.prev == null && tail.next == null
      requires forall k {:trigger all[k].next} :: 0 <= k < |all| - 1 ==> all[k].next == all[if k + 1 == f then l else k + 1]
      requires forall k {:trigger all[k].prev} :: 0 < k < |all| ==> all[k].prev == all[if k == l then f - 1 else k - 1]
      modifies repr
      ensures forall k {:trigger all[k].next} :: 0 <= k < |all| - 1 ==> all[k].next == all[SpliceNext(b, f, l, k)]
      ensures forall k {:trigger all[k].prev} :: 0 < k < |all| ==> all[k].prev == all[SplicePrev(b, f, l, k)]
      ensures head.prev == null && tail.next == null
    {
      assert before.prev == all[if b == l then f - 1 else b - 1];
      first.prev := before.prev;
      lst.next := before;
      before.prev.next := first;
      before.prev := lst;
    }

    /** The same four stores with before inside the block. */
    method LinkInside(before: Elem<T>, first: Elem<T>, lst: Elem<T>, ghost b: nat, ghost f: nat, ghost l: nat)
      requires 1 <= f <= b < l < |all|
      requires before == all[b] && first == all[f] && lst == all[l - 1]
      requires (forall k :: 0 <= k < |all| ==> all[k] in repr)
      requires Distinct(all) && all[0] == head && all[|all| - 1] == tail && head.prev == null && tail.next == null
      requires forall k {:trigger all[k].next} :: 0 <= k < |all| - 1 ==> all[k].next == all[if k + 1 == f then l else k + 1]
      requires forall k {:trigger all[k].prev} :: 0 < k < |all| ==> all[k].prev == all[if k == l then f - 1 else k - 1]
      modifies repr
      ensures forall k {:trigger all[k].next} :: 0 <= k < |all| - 1 ==> all[k].next == all[InsideNext(b, f, l, k)]
      ensures forall k {:trigger all[k].prev} :: 0 < k < |all| ==> all[k].prev == all[InsidePrev(b, f, l, k)]
      ensures head.prev == null && tail.next == null
    {
      assert before.prev == all[b - 1];
      first.prev := before.prev;
      lst.next := before;
      before.prev.next := first;
      before.prev := lst;
    }

    /** list_splice within one list, to any place outside the block; an empty block does
        nothing. */
    method Splice(before: Elem<T>, first: Elem<T>, last: Elem<T>, ghost b: nat, ghost f: nat, ghost l: nat)
      requires Valid() && 1 <= b < |all| && 1 <= f <= l < |all| && (b < f || l <= b || f == l)
      requires before == all[b] && first == all[f] && last == all[l]
      modifies repr, this`all
      ensures Valid() && all == if f == l then old(all) else Spliced(old(all), b, f, l)
    {
      hide Spliced, SpliceNext, SplicePrev;
      if first == last {
        SamePosition(f, l);
        return;
      }
      assert last.prev == all[l - 1];
      var lst := last.prev;
      SplicedDistinct(all, b, f, l);
      Unlink(first, lst, f, l);
      Link(before, first, lst, b, f, l);
      SplicedLinked(all, b, f, l);
      ghost var was := all;
      all := Spliced(all, b, f, l);
      forall k | 0 <= k < |all| ensures all[k] in repr { assert all[k] in was; }
    }

    /** The same stores with before inside the block break the list: the block from before on
        becomes a cycle, and so does what comes before it in the block; no well-formed list that
        ends at the tail holds before any more.  The other links are exact too. */
    method SpliceInside(before: Elem<T>, first: Elem<T>, last: Elem<T>, ghost b: nat, ghost f: nat, ghost l: nat)
      requires Valid() && 1 <= f <= b < l < |all|
      requires before == all[b] && first == all[f] && last == all[l]
      modifies repr
      ensures all[l - 1].next == before && before.prev == all[l - 1] && tail.next == null && !Valid()
      ensures forall k {:trigger all[k].next} :: 0 <= k < |all| - 1 ==> all[k].next == all[InsideNext(b, f, l, k)]
      ensures forall k {:trigger all[k].prev} :: 0 < k < |all| ==> all[k].prev == all[InsidePrev(b, f, l, k)]
      ensures forall r: seq<Elem<T>> :: r != [] && Distinct(r) && r[|r| - 1] == tail && before in r ==> !Linked(r)
    {
      assert last.prev == all[l - 1];
      var lst := last.prev;
      Unlink(first, lst, f, l);
      LinkInside(before, first, lst, b, f, l);
      assert all[l - 1].next == before && before.prev == all[l - 1];
      assert forall k {:trigger all[k].next} :: b <= k < l - 1 ==> all[k].next == all[k + 1];
      hide InsideNext, InsidePrev;
      forall r: seq<Elem<T>> | r != [] && Distinct(r) && r[|r| - 1] == tail && before in r ensures !Linked(r) {
        CycleOut(all, b, l, r);
      }
    }

    /** find_end_of_run: the end of the maximal nondecreasing run that starts at position i. */
    method FindEndOfRun(a: Elem<T>, b: Elem<T>, less: Less<T>, ghost i: nat, ghost e: nat) returns (r: Elem<T>, ghost k: nat)
      requires Valid() && 1 <= i < e < |all| && a == all[i] && b == all[e]
      ensures i < k <= e && r == all[k]
      ensures Descents(less, all, i, k) == 0
      ensures k < e ==> Lt(less, all[k], all[k - 1])
    {
      r, k := a.next, i + 1;
      while r != b && !less(r.value, r.prev.value)
        invariant i < k <= e && r == all[k] && Descents(less, all, i, k) == 0
        decreases e - k
      {
        assert r.prev == all[k - 1] && k < e;
        r, k := r.next, k + 1;
      }
      assert k < e ==> r.prev == all[k - 1];
    }

    /** inplace_merge's splice of one element: the one at j moves in front of the one at i. */
    method MoveUp(a0: Elem<T>, a1b0: Elem<T>, ghost i: nat, ghost j: nat) returns (rest: Elem<T>)
      requires Valid() && 1 <= i < j < |all| - 1 && a0 == all[i] && a1b0 == all[j]
      modifies repr, this`all
      ensures Valid() && all == Moved(old(all), i, j, j + 1)
      ensures rest == all[j + 1] && a0 == all[i + 1]
    {
      hide Moved, MovedFrom, Linked, Distinct;
      NextOf(j);
      PrevOf(j + 1);
      MovedUp(all, i, j);
      rest := a1b0.next;
      Splice(a0, rest.prev, rest, i, j, j + 1);
    }

    /** One turn of inplace_merge's loop. */
    method MergeStep(a0: Elem<T>, a1b0: Elem<T>, less: Less<T>, ghost lo: nat, ghost i: nat, ghost j: nat, ghost hi: nat)
      returns (a0': Elem<T>, a1b0': Elem<T>, ghost j': nat)
      requires Valid() && StrictWeak(less) && 1 <= lo <= i < j < hi < |all| && Merging(less, all, lo, i, j, hi)
      requires a0 == all[i] && a1b0 == all[j]
      modifies repr, this`all
      ensures Valid() && |all| == |old(all)| && i < j' <= hi && MergeOf(less, old(all), all, lo, i + 1, j', hi)
      ensures a0' == all[i + 1] && a1b0' == all[j']
    {
      hide Merging, StrictWeak, Linked, Moved, Stable, Distinct;
      j', a0', a1b0' := j, a0, a1b0;
      if !less(a1b0.value, a0.value) {
        MergeKeep(less, all, lo, i, j, hi);
        StableRefl(less, all);
        NextOf(i);
        a0' := a0.next;
      } else {
        MergeMoveUp(less, all, lo, i, j, hi);
        MoveStable(less, all, i, j);
        a1b0' := MoveUp(a0, a1b0, i, j);
        j' := j + 1;
      }
    }

    lemma SamePosition(i: nat, j: nat)
      requires Valid() && i < |all| && j < |all|
      ensures all[i] == all[j] ==> i == j
    {}

    lemma NextOf(i: nat)
      requires Valid() && i < |all| - 1
      ensures all[i].next == all[i + 1]
    {}

    lemma PrevOf(i: nat)
      requires Valid() && 0 < i < |all|
      ensures all[i].prev == all[i - 1]
    {}

    /** inplace_merge of the runs at lo .. mid-1 and mid .. hi-1. */
    method InplaceMerge(first: Elem<T>, second: Elem<T>, b1: Elem<T>, less: Less<T>, ghost lo: nat, ghost mid: nat, ghost hi: nat)
      requires Valid() && StrictWeak(less) && 1 <= lo < mid < hi < |all|
      requires first == all[lo] && second == all[mid] && b1 == all[hi]
      requires Sorted(less, all, lo, mid) && Sorted(less, all, mid, hi)
      modifies repr, this`all
      ensures Valid() && Merged(less, old(all), all, lo, hi)
    {
      hide StrictWeak, Linked, Distinct, MergeOf, Merging, Sorted, Stable;
      var a0, a1b0 := first, second;
      ghost var s0, i, j := all, lo, mid;
      MergeBegins(less, s0, lo, mid, hi);
      while a0 != a1b0 && a1b0 != b1
        invariant Valid() && lo <= i <= j <= hi < |all| && MergeOf(less, s0, all, lo, i, j, hi)
        invariant a0 == all[i] && a1b0 == all[j] && b1 == all[hi]
        decreases hi - i
      {
        ghost var s, j0 := all, j;
        MergeOfParts(less, s0, s, lo, i, j, hi);
        a0, a1b0, j := MergeStep(a0, a1b0, less, lo, i, j, hi);
        MergeOfStep(less, s0, s, all, lo, i, j0, i + 1, j, hi);
        i := i + 1;
      }
      SamePosition(i, j);
      SamePosition(j, hi);
      MergeEnds(less, s0, all, lo, i, j, hi);
    }

    /** One pass of list_sort's loop: merge adjacent pairs of runs to the end of the list.  Of r
        runs exactly ceil(r / 2) are output. */
    method SortPass(less: Less<T>) returns (outputRunCnt: nat)
      requires Valid() && StrictWeak(less)
      modifies repr, this`all
      ensures Valid() && |all| == |old(all)| && Stable(less, old(all), all)
      ensures Runs(less, all, 1, |all| - 1) <= outputRunCnt == (Runs(less, old(all), 1, |all| - 1) + 1) / 2
    {
      hide StrictWeak, Linked, Distinct, Pass, Merged, Sorted, Stable;
      ghost var s0, e, p, c := all, |all| - 1, 1, 0;
      PassBegins(less, s0, e);
      outputRunCnt := 0;
      NextOf(0);
      var a0 := head.next;
      while a0 != tail
        invariant Valid() && |all| == e + 1 && 1 <= p <= e && a0 == all[p]
        invariant outputRunCnt == c && Pass(less, s0, all, p, e, c)
        decreases e - p
      {
        outputRunCnt := outputRunCnt + 1;
        ghost var m, q;
        var a1b0, b1;
        a1b0, m := FindEndOfRun(a0, tail, less, p, e);
        SamePosition(m, e);
        if a1b0 == tail { break; }
        b1, q := FindEndOfRun(a1b0, tail, less, m, e);
        ghost var s := all;
        NoDescentsSorted(less, all, p, m);
        NoDescentsSorted(less, all, m, q);
        InplaceMerge(a0, a1b0, b1, less, p, m, q);
        PassStep(less, s0, s, all, p, m, q, e, c);
        a0, p, c := b1, q, c + 1;
      }
      SamePosition(p, e);
      PassEnds(less, s0, all, p, e, c);
    }

    /** list_sort.  Each further pass starts from fewer runs, so the loop ends; then the list is a
        sorted, stable rearrangement of what it was, still properly linked. */
    method Sort(less: Less<T>)
      requires Valid() && StrictWeak(less)
      modifies repr, this`all
      ensures Valid() && |all| == |old(all)|
      ensures Sorted(less, all, 1, |all| - 1) && Stable(less, old(all), all)
    {
      hide Linked, Distinct, Sorted, Stable;
      ghost var s0 := all;
      var outputRunCnt := SortPass(less);
      while outputRunCnt > 1
        invariant Valid() && |all| == |s0| && Stable(less, s0, all)
        invariant Runs(less, all, 1, |all| - 1) <= outputRunCnt
        decreases outputRunCnt
      {
        ghost var s := all;
        outputRunCnt := SortPass(less);
        StableTrans(less, s0, s, all);
      }
      NoDescentsSorted(less, all, 1, |all| - 1);
    }
  }
}
