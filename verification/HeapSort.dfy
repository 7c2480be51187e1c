/** sort and binary_search (lib/stdlib.c) on an array of bytes that holds elements of one size. */
module HeapSort {
  import opened Options
  import opened Integers
  import opened Bytes
  import opened HeapOrder

  type Element = seq<byte>

  /** The offset of element k, counting from 0. */
  function Start(k: nat, size: nat): nat { k * size }

  /** Element k ends within cnt elements. */
  lemma ElementFits(k: nat, cnt: nat, size: nat)
    requires k < cnt
    ensures Start(k, size) + size <= Start(cnt, size)
  {
    MulLe(k + 1, cnt, size);
  }

  /** Different elements do not meet. */
  lemma ElementsApart(i: nat, j: nat, size: nat)
    requires i != j
    ensures Start(i, size) + size <= Start(j, size) || Start(j, size) + size <= Start(i, size)
  {
    MulLe(i + 1, j, size);
    MulLe(j + 1, i, size);
  }

  /** The elements the bytes hold. */
  ghost function Elements(b: seq<byte>, size: nat, cnt: nat): (r: seq<Element>)
    requires |b| == Start(cnt, size)
    ensures |r| == cnt
  {
    seq(cnt, k requires 0 <= k < cnt => (ElementFits(k, cnt, size); b[Start(k, size)..Start(k, size) + size]))
  }

  /** Where byte q comes from when the first k bytes at x and at y change places. */
  function From(q: int, x: nat, y: nat, k: nat): int
  {
    if x <= q < x + k then y + (q - x) else if y <= q < y + k then x + (q - y) else q
  }

  ghost predicate Exchanged(b: seq<byte>, c: seq<byte>, x: nat, y: nat, k: nat)
    requires x + k <= |b| && y + k <= |b| && |b| == |c|
  {
    forall q :: 0 <= q < |b| ==> c[q] == b[From(q, x, y, k)]
  }

  lemma ExchangedSlices(b: seq<byte>, c: seq<byte>, x: nat, y: nat, size: nat, o: nat)
    requires x + size <= |b| && y + size <= |b| && |b| == |c| && Exchanged(b, c, x, y, size)
    requires x == y || x + size <= y || y + size <= x
    requires o + size <= |b|
    ensures o == x ==> c[o..o + size] == b[y..y + size]
    ensures o == y ==> c[o..o + size] == b[x..x + size]
    ensures (o + size <= x || x + size <= o) && (o + size <= y || y + size <= o) ==>
              c[o..o + size] == b[o..o + size]
  {
    assert forall q :: o <= q < o + size ==> c[q] == b[From(q, x, y, size)];
  }

  lemma ExchangedNone(b: seq<byte>, x: nat, y: nat)
    requires x <= |b| && y <= |b|
    ensures Exchanged(b, b, x, y, 0)
  {
  }

  lemma ExchangedNext(b: seq<byte>, c: seq<byte>, x: nat, y: nat, size: nat, k: nat)
    requires x + size <= |b| && y + size <= |b| && |b| == |c| && k < size && Exchanged(b, c, x, y, k)
    requires x == y || x + size <= y || y + size <= x
    ensures Exchanged(b, c[x + k := c[y + k]][y + k := c[x + k]], x, y, k + 1)
  {
  }

  lemma Swapped(b: seq<byte>, c: seq<byte>, i: nat, j: nat, size: nat, cnt: nat)
    requires |b| == |c| == Start(cnt, size) && 1 <= i <= cnt && 1 <= j <= cnt
    requires Start(i - 1, size) + size <= |b| && Start(j - 1, size) + size <= |b|
    requires Exchanged(b, c, Start(i - 1, size), Start(j - 1, size), size)
    ensures Elements(c, size, cnt) == Swap(Elements(b, size, cnt), i, j)
  {
    hide Start, Exchanged;
    var t := Swap(Elements(b, size, cnt), i, j);
    if i != j { ElementsApart(i - 1, j - 1, size); }
    forall k: nat | k < cnt ensures Elements(c, size, cnt)[k] == t[k] {
      ElementFits(k, cnt, size);
      if k != i - 1 { ElementsApart(k, i - 1, size); }
      if k != j - 1 { ElementsApart(k, j - 1, size); }
      ExchangedSlices(b, c, Start(i - 1, size), Start(j - 1, size), size, Start(k, size));
    }
  }

  /** do_swap: the two elements change places, byte by byte. */
  method DoSwap(a: array<byte>, i: nat, j: nat, size: nat, ghost cnt: nat)
    requires a.Length == Start(cnt, size) && 1 <= i <= cnt && 1 <= j <= cnt
    modifies a
    ensures Elements(a[..], size, cnt) == Swap(old(Elements(a[..], size, cnt)), i, j)
  {
    hide Start, Elements, Exchanged;
    ghost var was := a[..];
    var x, y := Start(i - 1, size), Start(j - 1, size);
    ElementFits(i - 1, cnt, size);
    ElementFits(j - 1, cnt, size);
    if i != j { ElementsApart(i - 1, j - 1, size); }
    var k := 0;
    ExchangedNone(was, x, y);
    while k < size
      invariant k <= size && Exchanged(was, a[..], x, y, k)
    {
      ghost var now := a[..];
      ExchangedNext(was, now, x, y, size, k);
      a[x + k], a[y + k] := a[y + k], a[x + k];
      assert a[..] == now[x + k := now[y + k]][y + k := now[x + k]];
      k := k + 1;
    }
    Swapped(was, a[..], i, j, size, cnt);
  }

  /** do_compare. */
  method DoCompare(a: array<byte>, i: nat, j: nat, size: nat, compare: Compare<Element>, ghost cnt: nat)
    returns (r: int)
    requires a.Length == Start(cnt, size) && 1 <= i <= cnt && 1 <= j <= cnt
    ensures r == compare(At(Elements(a[..], size, cnt), i), At(Elements(a[..], size, cnt), j))
  {
    hide Start;
    ElementFits(i - 1, cnt, size);
    ElementFits(j - 1, cnt, size);
    var x, y := Start(i - 1, size), Start(j - 1, size);
    r := compare(a[x..x + size], a[y..y + size]);
  }

  /** b2 is b with its first cnt elements permuted and the others kept. */
  ghost predicate Rearranged<T>(b: seq<T>, b2: seq<T>, cnt: nat)
    requires cnt <= |b| == |b2|
  {
    multiset(b2[..cnt]) == multiset(b[..cnt]) && b2[cnt..] == b[cnt..]
  }

  lemma RearrangedSwap<T>(b: seq<T>, c: seq<T>, cnt: nat, i: nat, j: nat)
    requires cnt <= |b| == |c| && Rearranged(b, c, cnt) && 1 <= i <= cnt && 1 <= j <= cnt
    ensures Rearranged(b, Swap(c, i, j), cnt)
  {
    var d := Swap(c, i, j);
    assert d[..cnt] == Swap(c[..cnt], i, j);
    SwapPermutes(c[..cnt], i, j);
    assert d[cnt..] == c[cnt..];
  }

  /** heapify: the element at i floats down until it heads a heap of the first cnt elements,
      of which it headed one but for itself. */
  method Heapify(a: array<byte>, i: nat, n: nat, size: nat, compare: Compare<Element>, ghost cnt: nat, ghost lo: nat)
    requires a.Length == Start(cnt, size) && 1 <= lo == i && i <= n <= cnt && Preorder(compare)
    requires HeapBut(compare, Elements(a[..], size, cnt), lo, n, i)
    modifies a
    ensures Heap(compare, Elements(a[..], size, cnt), lo, n)
    ensures Rearranged(old(Elements(a[..], size, cnt)), Elements(a[..], size, cnt), n)
  {
    hide Elements, HeapBut, Heap, Bridged, Rearranged, Start, Swap;
    ghost var was := Elements(a[..], size, cnt);
    var k := i;
    BridgedTop(compare, was, lo, n);
    RearrangedNone(was, n);
    while true
      invariant lo <= k <= n
      invariant HeapBut(compare, Elements(a[..], size, cnt), lo, n, k)
      invariant Bridged(compare, Elements(a[..], size, cnt), lo, n, k)
      invariant Rearranged(was, Elements(a[..], size, cnt), n)
      decreases n - k
    {
      ghost var s := Elements(a[..], size, cnt);
      var max := Largest(a, k, n, size, compare, cnt);
      if max == k {
        Settled(compare, s, lo, n, k);
        return;
      }
      FloatDown(compare, s, lo, n, k, max);
      RearrangedSwap(was, s, n, k, max);
      DoSwap(a, k, max, size, cnt);
      k := max;
    }
  }

  lemma BridgedTop(compare: Compare<Element>, s: seq<Element>, lo: nat, n: nat)
    requires n <= |s| && 1 <= lo
    ensures Bridged(compare, s, lo, n, lo)
  {
  }

  lemma RearrangedNone(s: seq<Element>, n: nat)
    requires n <= |s|
    ensures Rearranged(s, s, n)
  {
  }

  /** The index of the largest of element k and its children. */
  method Largest(a: array<byte>, k: nat, n: nat, size: nat, compare: Compare<Element>, ghost cnt: nat) returns (max: nat)
    requires a.Length == Start(cnt, size) && 1 <= k <= n <= cnt && Preorder(compare)
    ensures k <= max <= n && (max == k || max / 2 == k)
    ensures var s := Elements(a[..], size, cnt);
            && (max != k ==> Le(compare, At(s, k), At(s, max)))
            && forall c: nat :: 2 <= c <= n && c / 2 == k ==> Le(compare, At(s, c), At(s, max))
  {
    hide Elements, Start, At;
    ghost var s := Elements(a[..], size, cnt);
    var left, right := 2 * k, 2 * k + 1;
    max := k;
    if left <= n {
      var r := DoCompare(a, left, max, size, compare, cnt);
      if r > 0 { max := left; }
      assert Le(compare, At(s, left), At(s, max)) && Le(compare, At(s, k), At(s, max)) by { Total(compare, At(s, k), At(s, left)); }
    }
    if right <= n {
      var r := DoCompare(a, right, max, size, compare, cnt);
      Total(compare, At(s, max), At(s, right));
      if r > 0 { max := right; }
    }
  }

  lemma Total(compare: Compare<Element>, x: Element, y: Element)
    requires Preorder(compare)
    ensures Le(compare, x, x) && Le(compare, y, y) && (!Le(compare, x, y) ==> Le(compare, y, x))
    ensures forall z :: Le(compare, z, x) && Le(compare, x, y) ==> Le(compare, z, y)
  {
  }

  /** The elements after the first n are in order and none before exceeds them. */
  ghost predicate Tail<T>(compare: Compare<T>, s: seq<T>, n: nat)
  {
    forall p, q :: 0 <= p < q < |s| && n <= q ==> Le(compare, s[p], s[q])
  }

  lemma TailKept<T>(compare: Compare<T>, s: seq<T>, t: seq<T>, n: nat)
    requires n <= |s| == |t| && Rearranged(s, t, n) && Tail(compare, s, n)
    ensures Tail(compare, t, n)
  {
    forall p, q | 0 <= p < q < |t| && n <= q ensures Le(compare, t[p], t[q]) {
      assert t[q] == t[n..][q - n] == s[n..][q - n] == s[q];
      if p < n {
        assert t[p] in multiset(t[..n]);
        assert t[p] in s[..n];
        var r :| 0 <= r < n && s[r] == t[p];
      } else {
        assert t[p] == t[n..][p - n] == s[n..][p - n] == s[p];
      }
    }
  }

  /** The maximum of a heap goes to its place. */
  lemma TailGrows<T(!new)>(compare: Compare<T>, s: seq<T>, n: nat)
    requires Preorder(compare) && 2 <= n <= |s| && Heap(compare, s, 1, n) && Tail(compare, s, n)
    ensures Tail(compare, Swap(s, 1, n), n - 1) && HeapBut(compare, Swap(s, 1, n), 1, n - 1, 1)
  {
    var t := Swap(s, 1, n);
    forall k: nat | 1 <= k <= n ensures Le(compare, At(s, k), s[0]) { RootIsMax(compare, s, n, k); }
    forall p, q | 0 <= p < q < |t| && n - 1 <= q ensures Le(compare, t[p], t[q]) {
      var r := if p == 0 then n - 1 else if p == n - 1 then 0 else p;
      assert t[p] == s[r];
      if q == n - 1 { assert Le(compare, At(s, r + 1), s[0]); }
    }
    forall c: nat | 2 <= c <= n - 1 && 1 <= c / 2 && c / 2 != 1 ensures Le(compare, At(t, c), At(t, c / 2)) {
      assert Le(compare, At(s, c), At(s, c / 2));
    }
  }

  lemma NextRoot(compare: Compare<Element>, s: seq<Element>, i: nat, cnt: nat)
    requires 1 <= i && cnt <= |s| && Heap(compare, s, i + 1, cnt)
    ensures HeapBut(compare, s, i, cnt, i)
  {
  }

  lemma NoParents(compare: Compare<Element>, s: seq<Element>)
    ensures Heap(compare, s, |s| / 2 + 1, |s|)
  {
  }

  lemma RearrangedPermutes<T>(s: seq<T>, t: seq<T>, n: nat)
    requires n <= |s| == |t| && Rearranged(s, t, n)
    ensures multiset(t) == multiset(s)
  {
    assert s == s[..n] + s[n..] && t == t[..n] + t[n..];
  }

  /** Building the heap. */
  method BuildHeap(a: array<byte>, cnt: nat, size: nat, compare: Compare<Element>)
    requires a.Length == Start(cnt, size) && Preorder(compare)
    modifies a
    ensures Heap(compare, Elements(a[..], size, cnt), 1, cnt)
    ensures multiset(Elements(a[..], size, cnt)) == multiset(old(Elements(a[..], size, cnt)))
  {
    hide Elements, HeapBut, Heap, Rearranged, Start;
    var i := cnt / 2;
    NoParents(compare, Elements(a[..], size, cnt));
    while i > 0
      invariant 0 <= i <= cnt / 2
      invariant Heap(compare, Elements(a[..], size, cnt), i + 1, cnt)
      invariant multiset(Elements(a[..], size, cnt)) == multiset(old(Elements(a[..], size, cnt)))
    {
      ghost var s := Elements(a[..], size, cnt);
      NextRoot(compare, s, i, cnt);
      Heapify(a, i, cnt, size, compare, cnt, i);
      RearrangedPermutes(s, Elements(a[..], size, cnt), cnt);
      i := i - 1;
    }
  }

  /** sort leaves a sorted permutation of its elements. */
  method Sort(a: array<byte>, cnt: nat, size: nat, compare: Compare<Element>)
    requires a.Length == Start(cnt, size) && size > 0 && Preorder(compare)
    modifies a
    ensures Sorted(compare, Elements(a[..], size, cnt))
    ensures multiset(Elements(a[..], size, cnt)) == multiset(old(Elements(a[..], size, cnt)))
  {
    hide Elements, HeapBut, Heap, Rearranged, Start, Swap;
    BuildHeap(a, cnt, size, compare);
    var i := cnt;
    while i > 1
      invariant 0 <= i <= cnt && (i == 0 ==> cnt == 0)
      invariant i > 1 ==> Heap(compare, Elements(a[..], size, cnt), 1, i)
      invariant Tail(compare, Elements(a[..], size, cnt), i)
      invariant multiset(Elements(a[..], size, cnt)) == multiset(old(Elements(a[..], size, cnt)))
    {
      ghost var s := Elements(a[..], size, cnt);
      TailGrows(compare, s, i);
      SwapPermutes(s, 1, i);
      DoSwap(a, 1, i, size, cnt);
      ghost var t := Elements(a[..], size, cnt);
      Heapify(a, 1, i - 1, size, compare, cnt, 1);
      RearrangedPermutes(t, Elements(a[..], size, cnt), i - 1);
      TailKept(compare, t, Elements(a[..], size, cnt), i - 1);
      i := i - 1;
    }
  }

  /** binary_search: an element equal to the key exactly when there is one. */
  method BinarySearch(key: Element, a: array<byte>, cnt: nat, size: nat, compare: Compare<Element>) returns (r: Option<nat>)
    requires a.Length == Start(cnt, size) && size > 0 && Preorder(compare)
    requires Sorted(compare, Elements(a[..], size, cnt))
    ensures r.Some? ==> exists k: nat :: k < cnt && r.value == Start(k, size) && compare(key, Elements(a[..], size, cnt)[k]) == 0
    ensures r.None? ==> forall k: nat :: k < cnt ==> compare(key, Elements(a[..], size, cnt)[k]) != 0
  {
    hide Start, Elements, Sorted, Preorder;
    ghost var s := Elements(a[..], size, cnt);
    var first, last := 0, Start(cnt, size);
    ghost var lo, hi: nat := 0, cnt;
    StartZero(size);
    while first < last
      invariant 0 <= lo <= hi <= cnt && first == Start(lo, size) && last == Start(hi, size)
      invariant Excluded(compare, key, s, lo, hi)
      decreases hi - lo
    {
      var range := (last - first) / size;
      var middle := first + Start(range / 2, size);
      StartRange(lo, hi, size);
      ghost var mid := lo + range / 2;
      ElementFits(mid, cnt, size);
      ElementSlice(a[..], size, cnt, mid);
      assert a[..][middle..middle + size] == a[middle..middle + size];
      var cmp := compare(key, a[middle..middle + size]);
      Narrow(compare, key, s, lo, hi, mid);
      if cmp < 0 {
        last, hi := middle, mid;
      } else if cmp > 0 {
        first, lo := middle + size, mid + 1;
      } else {
        return Some(middle);
      }
    }
    StartRange(lo, hi, size);
    r := None;
  }

  /** The key is above the elements before lo and below those from hi on. */
  ghost predicate Excluded(compare: Compare<Element>, key: Element, s: seq<Element>, lo: nat, hi: nat)
  {
    && (forall k: nat :: k < lo && k < |s| ==> compare(key, s[k]) > 0)
    && (forall k: nat :: hi <= k < |s| ==> compare(key, s[k]) < 0)
  }

  lemma Narrow(compare: Compare<Element>, key: Element, s: seq<Element>, lo: nat, hi: nat, mid: nat)
    requires Preorder(compare) && Sorted(compare, s) && mid < |s| && Excluded(compare, key, s, lo, hi)
    ensures compare(key, s[mid]) < 0 ==> Excluded(compare, key, s, lo, mid)
    ensures compare(key, s[mid]) > 0 ==> Excluded(compare, key, s, mid + 1, hi)
  {
    if compare(key, s[mid]) < 0 {
      forall k: nat | mid <= k < |s| ensures compare(key, s[k]) < 0 { Below(compare, key, s, mid, k); }
    } else if compare(key, s[mid]) > 0 {
      forall k: nat | k <= mid ensures compare(key, s[k]) > 0 { Above(compare, key, s, mid, k); }
    }
  }

  lemma ElementSlice(b: seq<byte>, size: nat, cnt: nat, k: nat)
    requires |b| == Start(cnt, size) && k < cnt
    ensures Start(k, size) + size <= |b| && Elements(b, size, cnt)[k] == b[Start(k, size)..Start(k, size) + size]
  {
    hide Start;
    ElementFits(k, cnt, size);
  }

  lemma StartZero(size: nat)
    ensures Start(0, size) == 0
  {
  }

  /** Offsets in elements and in bytes: the middle element of a range. */
  lemma StartRange(lo: nat, hi: nat, size: nat)
    requires lo <= hi && size > 0
    ensures Start(lo, size) < Start(hi, size) <==> lo < hi
    ensures (Start(hi, size) - Start(lo, size)) / size == hi - lo
    ensures Start(lo, size) + Start((hi - lo) / 2, size) == Start(lo + (hi - lo) / 2, size)
    ensures Start(lo + (hi - lo) / 2 + 1, size) == Start(lo + (hi - lo) / 2, size) + size
  {
    assert Start(hi, size) - Start(lo, size) == (hi - lo) * size;
    DivUnique((hi - lo) * size, size, hi - lo);
    MulLe(lo + 1, hi, size);
  }

  lemma Chain(compare: Compare<Element>, x: Element, y: Element, z: Element)
    requires Preorder(compare)
    ensures Le(compare, x, y) && Le(compare, y, z) ==> Le(compare, x, z)
  {
  }

  lemma Below(compare: Compare<Element>, key: Element, s: seq<Element>, mid: nat, k: nat)
    requires Preorder(compare) && Sorted(compare, s) && mid <= k < |s| && compare(key, s[mid]) < 0
    ensures compare(key, s[k]) < 0
  {
    assert Le(compare, s[mid], s[k]);
    Chain(compare, s[mid], s[k], key);
  }

  lemma Above(compare: Compare<Element>, key: Element, s: seq<Element>, mid: nat, k: nat)
    requires Preorder(compare) && Sorted(compare, s) && k <= mid < |s| && compare(key, s[mid]) > 0
    ensures compare(key, s[k]) > 0
  {
    assert Le(compare, s[k], s[mid]);
    Chain(compare, key, s[k], s[mid]);
  }
}
