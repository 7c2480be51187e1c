/** Heaps and sorted sequences under a comparison function, by 1-based index as in
    lib/stdlib.c. */
module HeapOrder {

  type Compare<!T> = (T, T) -> int

  /** compare gives strcmp-type results for a total preorder. */
  ghost predicate Preorder<T(!new)>(compare: Compare<T>)
  {
    && (forall a, b :: compare(a, b) > 0 <==> compare(b, a) < 0)
    && (forall a, b, c :: compare(a, b) <= 0 && compare(b, c) <= 0 ==> compare(a, c) <= 0)
  }

  predicate Le<T>(compare: Compare<T>, a: T, b: T) { compare(a, b) <= 0 }

  /** Element k, counting from 1. */
  function At<T>(s: seq<T>, k: nat): T
    requires 1 <= k <= |s|
  {
    s[k - 1]
  }

  function Swap<T>(s: seq<T>, i: nat, j: nat): (r: seq<T>)
    requires 1 <= i <= |s| && 1 <= j <= |s|
    ensures |r| == |s|
  {
    s[i - 1 := s[j - 1]][j - 1 := s[i - 1]]
  }

  /** No element c of the first cnt exceeds its parent c / 2, for parents from lo on, except
      perhaps below hole. */
  ghost predicate HeapBut<T>(compare: Compare<T>, s: seq<T>, lo: nat, cnt: nat, hole: nat)
    requires cnt <= |s| && 1 <= lo
  {
    forall c: nat :: 2 <= c <= cnt && lo <= c / 2 && c / 2 != hole ==> Le(compare, At(s, c), At(s, c / 2))
  }

  ghost predicate Heap<T>(compare: Compare<T>, s: seq<T>, lo: nat, cnt: nat)
    requires cnt <= |s| && 1 <= lo
  {
    HeapBut(compare, s, lo, cnt, 0)
  }

  /** The children of hole do not exceed its parent. */
  ghost predicate Bridged<T>(compare: Compare<T>, s: seq<T>, lo: nat, cnt: nat, hole: nat)
    requires cnt <= |s| && 1 <= lo && 1 <= hole
  {
    lo <= hole / 2 ==>
      forall c: nat :: 2 <= c <= cnt && c / 2 == hole ==> Le(compare, At(s, c), At(s, hole / 2))
  }

  lemma SwapAt<T>(s: seq<T>, i: nat, j: nat, k: nat)
    requires 1 <= i <= |s| && 1 <= j <= |s| && 1 <= k <= |s|
    ensures At(Swap(s, i, j), k) == if k == j then At(s, i) else if k == i then At(s, j) else At(s, k)
  {
  }

  /** A swap permutes. */
  lemma SwapPermutes<T>(s: seq<T>, i: nat, j: nat)
    requires 1 <= i <= |s| && 1 <= j <= |s|
    ensures multiset(Swap(s, i, j)) == multiset(s)
  {
  }

  /** One turn of heapify: the larger child m moves up and the hole moves down to m. */
  lemma FloatDown<T(!new)>(compare: Compare<T>, s: seq<T>, lo: nat, cnt: nat, i: nat, m: nat)
    requires Preorder(compare) && cnt <= |s| && 1 <= lo <= i && m <= cnt && m / 2 == i
    requires HeapBut(compare, s, lo, cnt, i) && Bridged(compare, s, lo, cnt, i)
    requires Le(compare, At(s, i), At(s, m))
    requires forall c: nat :: 2 <= c <= cnt && c / 2 == i ==> Le(compare, At(s, c), At(s, m))
    ensures HeapBut(compare, Swap(s, i, m), lo, cnt, m) && Bridged(compare, Swap(s, i, m), lo, cnt, m)
  {
    hide At, Le;
    var r := Swap(s, i, m);
    forall c: nat | 2 <= c <= cnt && lo <= c / 2 && c / 2 != m ensures Le(compare, At(r, c), At(r, c / 2)) {
      SwapAt(s, i, m, c);
      SwapAt(s, i, m, c / 2);
      if c / 2 != i { assert Le(compare, At(s, c), At(s, c / 2)); }
    }
    forall c: nat | 2 <= c <= cnt && c / 2 == m ensures Le(compare, At(r, c), At(r, i)) {
      SwapAt(s, i, m, c);
      SwapAt(s, i, m, i);
      assert Le(compare, At(s, c), At(s, c / 2));
    }
  }

  /** Where neither child exceeds the element, the hole is filled. */
  lemma Settled<T>(compare: Compare<T>, s: seq<T>, lo: nat, cnt: nat, i: nat)
    requires cnt <= |s| && 1 <= lo <= i
    requires HeapBut(compare, s, lo, cnt, i)
    requires forall c: nat :: 2 <= c <= cnt && c / 2 == i ==> Le(compare, At(s, c), At(s, i))
    ensures Heap(compare, s, lo, cnt)
  {
  }

  /** The root of a heap is a maximum. */
  lemma {:induction false} RootIsMax<T(!new)>(compare: Compare<T>, s: seq<T>, cnt: nat, k: nat)
    requires Preorder(compare) && 1 <= k <= cnt <= |s| && Heap(compare, s, 1, cnt)
    ensures Le(compare, At(s, k), At(s, 1))
  {
    if k == 1 {
      assert compare(At(s, 1), At(s, 1)) <= 0;
    } else {
      RootIsMax(compare, s, cnt, k / 2);
      assert Le(compare, At(s, k), At(s, k / 2));
    }
  }

  ghost predicate Sorted<T>(compare: Compare<T>, s: seq<T>)
  {
    forall i, j :: 0 <= i < j < |s| ==> Le(compare, s[i], s[j])
  }
}
