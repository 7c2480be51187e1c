/** Sequences of list elements in order: runs, sortedness and stability, for list_sort
    (lib/kernel/list.c). */
module ListOrder {
  import opened Sequences
  import opened LinkedNodes

  type Less<!T> = (T, T) -> bool

  /** What list_sort asks of its comparison: a strict weak order. */
  ghost predicate StrictWeak<T(!new)>(less: Less<T>)
  {
    && (forall x :: !less(x, x))
    && (forall x, y, z :: less(x, y) && less(y, z) ==> less(x, z))
    && (forall x, y, z :: less(x, z) ==> less(x, y) || less(y, z))
  }

  predicate Lt<T(0)>(less: Less<T>, a: Elem<T>, b: Elem<T>) { less(a.value, b.value) }

  ghost predicate Sorted<T(0)>(less: Less<T>, s: seq<Elem<T>>, lo: nat, hi: nat)
    requires hi <= |s|
  {
    forall i, j :: lo <= i < j < hi ==> !Lt(less, s[j], s[i])
  }

  /** Every element of s[lo..mid] may stand before every one of s[from..hi]. */
  ghost predicate Below<T(0)>(less: Less<T>, s: seq<Elem<T>>, lo: nat, mid: nat, from: nat, hi: nat)
    requires mid <= |s| && hi <= |s|
  {
    forall p, q :: lo <= p < mid && from <= q < hi ==> !Lt(less, s[q], s[p])
  }

  /** r rearranges s, and a pair stands the other way round in r only if it was strictly out of
      order: equal elements keep their order. */
  ghost predicate Stable<T(0)>(less: Less<T>, s: seq<Elem<T>>, r: seq<Elem<T>>)
  {
    && |r| == |s| && Distinct(s) && Distinct(r) && (forall x | x in r :: x in s) && (forall x | x in s :: x in r)
    && forall i, j, p, q :: 0 <= i < j < |s| && 0 <= p < q < |r| && r[p] == s[j] && r[q] == s[i] ==> Lt(less, r[p], r[q])
  }

  lemma StableRefl<T(0)>(less: Less<T>, s: seq<Elem<T>>)
    requires Distinct(s)
    ensures Stable(less, s, s)
  {}

  /** Two elements out of order after two rearrangements, by their places in all three. */
  lemma StablePair<T(0)>(less: Less<T>, s: seq<Elem<T>>, r: seq<Elem<T>>, t: seq<Elem<T>>,
                         i: nat, j: nat, u: nat, v: nat, p: nat, q: nat)
    requires Stable(less, s, r) && Stable(less, r, t)
    requires i < j < |s| && u < |r| && v < |r| && p < q < |t|
    requires s[j] == r[u] == t[p] && s[i] == r[v] == t[q]
    ensures Lt(less, t[p], t[q])
  {
    if u < v {
      assert r[u] == s[j] && r[v] == s[i];
    } else {
      assert t[p] != t[q];
      assert t[p] == r[u] && t[q] == r[v];
    }
  }

  lemma StableShape<T(0)>(less: Less<T>, s: seq<Elem<T>>, r: seq<Elem<T>>, t: seq<Elem<T>>)
    requires Stable(less, s, r) && Stable(less, r, t)
    ensures |t| == |s| && Distinct(s) && Distinct(t) && (forall x | x in t :: x in s) && (forall x | x in s :: x in t)
    ensures forall x | x in t :: x in r
  {
  }

  lemma StableTrans<T(0)>(less: Less<T>, s: seq<Elem<T>>, r: seq<Elem<T>>, t: seq<Elem<T>>)
    requires Stable(less, s, r) && Stable(less, r, t)
    ensures Stable(less, s, t)
  {
    StableShape(less, s, r, t);
    forall i, j, p, q | 0 <= i < j < |s| && 0 <= p < q < |t| && t[p] == s[j] && t[q] == s[i] ensures Lt(less, t[p], t[q]) {
      hide Stable;
      assert t[p] in r && t[q] in r;
      var u :| 0 <= u < |r| && r[u] == t[p];
      var v :| 0 <= v < |r| && r[v] == t[q];
      StablePair(less, s, r, t, i, j, u, v, p, q);
    }
  }

  /** Moving one element in front of strictly larger ones is stable. */
  lemma MoveStable<T(0)>(less: Less<T>, s: seq<Elem<T>>, b: nat, f: nat)
    requires b <= f < |s| && Distinct(s)
    requires forall k :: b <= k < f ==> Lt(less, s[f], s[k])
    ensures Stable(less, s, Moved(s, b, f, f + 1))
  {
    var r := Moved(s, b, f, f + 1);
    MovedDistinct(s, b, f, f + 1);
    forall i, j, p, q | 0 <= i < j < |s| && 0 <= p < q < |r| && r[p] == s[j] && r[q] == s[i] ensures Lt(less, r[p], r[q]) {
      assert MovedFrom(b, f, f + 1, p) == j && MovedFrom(b, f, f + 1, q) == i;
    }
  }

  // ----- runs

  /** Positions k in lo+1 .. hi-1 where the order descends. */
  function Descents<T(0)>(less: Less<T>, s: seq<Elem<T>>, lo: nat, hi: nat): nat
    requires hi <= |s|
    decreases hi
  {
    if hi <= lo + 1 then 0
    else Descents(less, s, lo, hi - 1) + if Lt(less, s[hi - 1], s[hi - 2]) then 1 else 0
  }

  /** The number of maximal nondecreasing runs in s[lo..hi]. */
  function Runs<T(0)>(less: Less<T>, s: seq<Elem<T>>, lo: nat, hi: nat): nat
    requires hi <= |s|
  {
    if lo >= hi then 0 else 1 + Descents(less, s, lo, hi)
  }

  lemma {:induction false} DescentsSplit<T(0)>(less: Less<T>, s: seq<Elem<T>>, lo: nat, mid: nat, hi: nat)
    requires lo < mid < hi <= |s|
    ensures Descents(less, s, lo, hi) ==
            Descents(less, s, lo, mid) + (if Lt(less, s[mid], s[mid - 1]) then 1 else 0) + Descents(less, s, mid, hi)
    decreases hi
  {
    if hi > mid + 1 { DescentsSplit(less, s, lo, mid, hi - 1); }
  }

  lemma {:induction false} SortedNoDescents<T(0)>(less: Less<T>, s: seq<Elem<T>>, lo: nat, hi: nat)
    requires hi <= |s| && Sorted(less, s, lo, hi)
    ensures Descents(less, s, lo, hi) == 0
    decreases hi
  {
    if hi > lo + 1 { SortedNoDescents(less, s, lo, hi - 1); }
  }

  lemma {:induction false} NoDescentsSorted<T(0, !new)>(less: Less<T>, s: seq<Elem<T>>, lo: nat, hi: nat)
    requires hi <= |s| && StrictWeak(less) && Descents(less, s, lo, hi) == 0
    ensures Sorted(less, s, lo, hi)
    decreases hi
  {
    if hi > lo + 1 {
      NoDescentsSorted(less, s, lo, hi - 1);
      forall i | lo <= i < hi - 1 ensures !Lt(less, s[hi - 1], s[i]) {
        assert i == hi - 2 || !Lt(less, s[hi - 2], s[i]);
      }
    }
  }

  lemma {:induction false} DescentsFrame<T(0)>(less: Less<T>, s: seq<Elem<T>>, r: seq<Elem<T>>, lo: nat, hi: nat)
    requires hi <= |s| && |r| == |s| && forall k :: lo <= k < hi ==> r[k] == s[k]
    ensures Descents(less, s, lo, hi) == Descents(less, r, lo, hi)
    decreases hi
  {
    if hi > lo + 1 { DescentsFrame(less, s, r, lo, hi - 1); }
  }

  // ----- merging

  /** inplace_merge between its steps: s[lo..i] is final, s[i..j] is what is left of the first run
      and s[j..hi] what is left of the second. */
  ghost predicate Merging<T(0)>(less: Less<T>, s: seq<Elem<T>>, lo: nat, i: nat, j: nat, hi: nat)
  {
    && lo <= i <= j <= hi <= |s|
    && Sorted(less, s, lo, j) && Sorted(less, s, j, hi) && Below(less, s, lo, i, j, hi)
  }

  lemma MergeKeep<T(0, !new)>(less: Less<T>, s: seq<Elem<T>>, lo: nat, i: nat, j: nat, hi: nat)
    requires StrictWeak(less) && Merging(less, s, lo, i, j, hi) && i < j < hi && !Lt(less, s[j], s[i])
    ensures Merging(less, s, lo, i + 1, j, hi)
  {
    forall q | j <= q < hi ensures !Lt(less, s[q], s[i]) {
      assert q == j || !Lt(less, s[q], s[j]);
    }
  }

  lemma MergeMoveUp<T(0, !new)>(less: Less<T>, s: seq<Elem<T>>, lo: nat, i: nat, j: nat, hi: nat)
    requires StrictWeak(less) && Merging(less, s, lo, i, j, hi) && i < j < hi && Lt(less, s[j], s[i])
    ensures forall k :: i <= k < j ==> Lt(less, s[j], s[k])
    ensures Merging(less, Moved(s, i, j, j + 1), lo, i + 1, j + 1, hi)
  {
    forall k | i <= k < j ensures Lt(less, s[j], s[k]) {
      assert k == i || !Lt(less, s[k], s[i]);
    }
    var r := Moved(s, i, j, j + 1);
    forall p, q | lo <= p < q < j + 1 ensures !Lt(less, r[q], r[p]) {
      var a, b := MovedFrom(i, j, j + 1, p), MovedFrom(i, j, j + 1, q);
      assert r[p] == s[a] && r[q] == s[b];
    }
    forall p, q | lo <= p < i + 1 && j + 1 <= q < hi ensures !Lt(less, r[q], r[p]) {
      assert r[p] == s[MovedFrom(i, j, j + 1, p)] && r[q] == s[q];
    }
  }

  /** The outcome of a merge: s[lo..hi] is in order, the rest is where it was. */
  ghost predicate Merged<T(0)>(less: Less<T>, s0: seq<Elem<T>>, s: seq<Elem<T>>, lo: nat, hi: nat)
  {
    && lo <= hi <= |s| && Stable(less, s0, s) && Sorted(less, s, lo, hi)
    && forall k :: 0 <= k < lo || hi <= k < |s| ==> s[k] == s0[k]
  }

  lemma MergeDone<T(0)>(less: Less<T>, s: seq<Elem<T>>, lo: nat, i: nat, j: nat, hi: nat)
    requires Merging(less, s, lo, i, j, hi) && (i == j || j == hi)
    ensures Sorted(less, s, lo, hi)
  {}

  /** A merge under way that began at s0. */
  ghost predicate MergeOf<T(0)>(less: Less<T>, s0: seq<Elem<T>>, s: seq<Elem<T>>, lo: nat, i: nat, j: nat, hi: nat)
  {
    && Merging(less, s, lo, i, j, hi) && Stable(less, s0, s)
    && forall k :: 0 <= k < lo || hi <= k < |s| ==> s[k] == s0[k]
  }

  lemma MergeOfStep<T(0)>(less: Less<T>, s0: seq<Elem<T>>, s: seq<Elem<T>>, r: seq<Elem<T>>,
                          lo: nat, i: nat, j: nat, i': nat, j': nat, hi: nat)
    requires MergeOf(less, s0, s, lo, i, j, hi) && MergeOf(less, s, r, lo, i', j', hi)
    ensures MergeOf(less, s0, r, lo, i', j', hi)
    ensures hi < |r| ==> hi < |s| && r[hi] == s[hi]
  {
    StableTrans(less, s0, s, r);
    hide Merging, Stable;
  }

  lemma MergeOfParts<T(0)>(less: Less<T>, s0: seq<Elem<T>>, s: seq<Elem<T>>, lo: nat, i: nat, j: nat, hi: nat)
    requires MergeOf(less, s0, s, lo, i, j, hi)
    ensures Merging(less, s, lo, i, j, hi)
  {}

  lemma MergeEnds<T(0)>(less: Less<T>, s0: seq<Elem<T>>, s: seq<Elem<T>>, lo: nat, i: nat, j: nat, hi: nat)
    requires MergeOf(less, s0, s, lo, i, j, hi) && (i == j || j == hi)
    ensures Merged(less, s0, s, lo, hi)
  {
    MergeDone(less, s, lo, i, j, hi);
    hide Merging, Stable, Sorted;
  }

  lemma MergeBegins<T(0)>(less: Less<T>, s: seq<Elem<T>>, lo: nat, mid: nat, hi: nat)
    requires lo <= mid <= hi <= |s| && Distinct(s) && Sorted(less, s, lo, mid) && Sorted(less, s, mid, hi)
    ensures MergeOf(less, s, s, lo, lo, mid, hi)
  {
    StableRefl(less, s);
  }

  // ----- one pass of list_sort

  /** A pass has merged c pairs of runs of s0 up to position p: at most c runs stand before p, and
      the runs from p on are untouched. */
  ghost predicate Pass<T(0)>(less: Less<T>, s0: seq<Elem<T>>, s: seq<Elem<T>>, p: nat, e: nat, c: nat)
  {
    && 1 <= p <= e < |s| && Stable(less, s0, s)
    && Runs(less, s, 1, p) <= c
    && 2 * c + Runs(less, s, p, e) == Runs(less, s0, 1, e)
    && (forall k :: p <= k < |s| ==> s[k] == s0[k]) && s[0] == s0[0]
  }

  lemma PassBegins<T(0)>(less: Less<T>, s: seq<Elem<T>>, e: nat)
    requires 1 <= e < |s| && Distinct(s)
    ensures Pass(less, s, s, 1, e, 0)
  {
    StableRefl(less, s);
  }

  /** Two runs at p .. m-1 and m .. q-1, both maximal, count as two of what is left. */
  lemma TwoRuns<T(0)>(less: Less<T>, s: seq<Elem<T>>, p: nat, m: nat, q: nat, e: nat)
    requires p < m < q <= e <= |s|
    requires Descents(less, s, p, m) == 0 && Lt(less, s[m], s[m - 1])
    requires Descents(less, s, m, q) == 0 && (q < e ==> Lt(less, s[q], s[q - 1]))
    ensures Runs(less, s, p, e) == 2 + Runs(less, s, q, e)
  {
    DescentsSplit(less, s, p, m, e);
    if q < e { DescentsSplit(less, s, m, q, e); }
  }

  /** Appending one ordered stretch adds at most one run. */
  lemma OneMoreRun<T(0)>(less: Less<T>, s: seq<Elem<T>>, lo: nat, p: nat, q: nat)
    requires lo <= p < q <= |s| && Sorted(less, s, p, q)
    ensures Runs(less, s, lo, q) <= Runs(less, s, lo, p) + 1
  {
    SortedNoDescents(less, s, p, q);
    if lo < p { DescentsSplit(less, s, lo, p, q); }
  }

  lemma MergedParts<T(0)>(less: Less<T>, s: seq<Elem<T>>, r: seq<Elem<T>>, lo: nat, hi: nat)
    requires Merged(less, s, r, lo, hi)
    ensures |r| == |s| && hi <= |s| && Stable(less, s, r) && Sorted(less, r, lo, hi)
    ensures forall k :: 0 <= k < lo || hi <= k < |s| ==> r[k] == s[k]
  {}

  /** The runs before, inside and after the merged stretch. */
  lemma RunsAfterMerge<T(0)>(less: Less<T>, s: seq<Elem<T>>, r: seq<Elem<T>>, p: nat, q: nat, e: nat)
    requires 1 <= p < q <= e < |s| == |r| && Sorted(less, r, p, q)
    requires forall k :: 0 <= k < p || q <= k < |s| ==> r[k] == s[k]
    ensures Runs(less, r, 1, q) <= Runs(less, s, 1, p) + 1
    ensures Runs(less, r, q, e) == Runs(less, s, q, e)
  {
    DescentsFrame(less, s, r, q, e);
    DescentsFrame(less, s, r, 1, p);
    OneMoreRun(less, r, 1, p, q);
  }

  /** Merging the two runs at p .. m-1 and m .. q-1 advances the pass. */
  lemma PassStep<T(0)>(less: Less<T>, s0: seq<Elem<T>>, s: seq<Elem<T>>, r: seq<Elem<T>>,
                       p: nat, m: nat, q: nat, e: nat, c: nat)
    requires Pass(less, s0, s, p, e, c) && p < m < q <= e && Merged(less, s, r, p, q)
    requires Descents(less, s, p, m) == 0 && Lt(less, s[m], s[m - 1])
    requires Descents(less, s, m, q) == 0 && (q < e ==> Lt(less, s[q], s[q - 1]))
    ensures Pass(less, s0, r, q, e, c + 1)
    ensures |r| == |s| && r[q] == s[q]
  {
    hide Stable, Merged, Sorted, Descents, Lt;
    MergedParts(less, s, r, p, q);
    TwoRuns(less, s, p, m, q, e);
    StableTrans(less, s0, s, r);
    RunsAfterMerge(less, s, r, p, q, e);
    hide Runs;
  }

  /** A pass ends at the end of the list, or with one last run that has no partner.  With c + the
      last run counted, r runs have become at most ceil(r / 2), and the count is exact. */
  lemma PassEnds<T(0)>(less: Less<T>, s0: seq<Elem<T>>, s: seq<Elem<T>>, p: nat, e: nat, c: nat)
    requires Pass(less, s0, s, p, e, c) && (p == e || Descents(less, s, p, e) == 0)
    ensures var out := if p == e then c else c + 1;
            Runs(less, s, 1, e) <= out == (Runs(less, s0, 1, e) + 1) / 2
    ensures Stable(less, s0, s)
  {
    hide Stable;
    if 1 < p < e { DescentsSplit(less, s, 1, p, e); }
  }
}
